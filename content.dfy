/** JSON values of the chat export and the typed content fragments a message is cleaned into. */
module Content {

  /** A JSON value as it appears in `conversations.json`. */
  datatype Json =
    | JNull
    | JBool(b: bool)
    | JNum(n: int)
    | JStr(s: string)
    | JArr(items: seq<Json>)
    | JObj(fields: map<string, Json>)

  /** Python truthiness of a decoded JSON value. */
  predicate Truthy(v: Json) {
    match v
    case JNull => false
    case JBool(b) => b
    case JNum(n) => n != 0
    case JStr(s) => s != ""
    case JArr(items) => items != []
    case JObj(fields) => fields != map[]
  }

  /** Python's `d.get(key, default)` on a JSON object. */
  function Get(fields: map<string, Json>, key: string, default: Json): Json {
    if key in fields then fields[key] else default
  }

  /**
   * One cleaned content part of a message: the dictionaries `{"text": ...}`,
   * `{"transcript": ...}` and `{"asset": ...}` built by the part classification.
   */
  datatype Fragment =
    | Text(text: string)
    | Transcript(transcript: Json)
    | Asset(asset: Json)
}

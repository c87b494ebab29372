/**
 * Linearisation of one exported conversation (`getConversationMessages`): the walk
 * from `current_node` up the `parent` links, the filtering of nodes, the
 * normalisation of authors and the classification of content parts.
 */
module Conversations {
  import opened Common
  import opened Content
  import opened Messages

  /** The author every assistant or tool turn is recorded under. */
  const ChatGpt: string := "ChatGPT"
  /** The author of a system message the user wrote (custom instructions). */
  const CustomUserInfo: string := "Custom user info"

  /** `message.content`: its `content_type` and its list of raw parts. */
  datatype RawContent = RawContent(contentType: string, parts: seq<Json>)

  /**
   * `node.message`: the author's role, the truthiness of
   * `metadata.is_user_system_message`, and the content (`None` when the content
   * is missing, null or an empty object).
   */
  datatype RawMessage = RawMessage(role: string, isUserSystemMessage: bool, content: Option<RawContent>)

  /**
   * One entry of `conversation.mapping`. `id` and `children` are `None` when the
   * key is missing; `message` is `None` when it is missing, null or empty;
   * `parent` is `None` when it is null.
   */
  datatype Node = Node(id: Option<string>, message: Option<RawMessage>, parent: Option<string>, children: Option<seq<string>>)

  /** `conversation["current_node"]`: missing, null, or a node id. */
  datatype CurrentNode = Absent | Null | NodeId(key: string)

  datatype Conversation = Conversation(
    conversationId: Option<string>,
    title: Option<string>,
    currentNode: CurrentNode,
    mapping: map<string, Node>)

  /** The exceptions the linearisation can raise. */
  datatype Error =
    | UnhashableKey        // `mapping[{}]`: the default for a missing current_node is a dict
    | KeyError(key: string)
    | AttributeError       // `.get` on a part that is neither a string nor an object
    | TypeError            // `len()` of a frames value that has no length

  /** The author under which a node with this role is recorded. */
  function NormaliseAuthor(role: string, flagged: bool): (author: string)
    ensures author == ChatGpt <==> role == "assistant" || role == "tool" || role == ChatGpt
    ensures author == CustomUserInfo <==> (role == "system" && flagged) || role == CustomUserInfo
    ensures role != "system" || flagged ==> author != "system"
    ensures role != "assistant" && role != "tool" && !(role == "system" && flagged) ==> author == role
  {
    if role == "assistant" || role == "tool" then ChatGpt
    else if role == "system" && flagged then CustomUserInfo
    else role
  }

  /** Normalising an author that a kept node received leaves it unchanged, whatever the flag. */
  lemma NormaliseAuthorIdempotent(role: string, flagged: bool, flagged': bool)
    requires role != "system" || flagged
    ensures NormaliseAuthor(NormaliseAuthor(role, flagged), flagged') == NormaliseAuthor(role, flagged)
  {
  }

  /** One asset fragment per JSON value, in order. */
  function AssetsOf(items: seq<Json>): (fs: seq<Fragment>)
    ensures |fs| == |items|
    ensures forall j :: 0 <= j < |fs| ==> fs[j] == Asset(items[j])
  {
    seq(|items|, j requires 0 <= j < |items| => Asset(items[j]))
  }

  /**
   * The values `part["frames_asset_pointers"][j]` for `j < len(frames)`, where
   * `frames` is `part.get("frames_asset_pointers", {})`: a list gives its
   * items, a string its characters, an empty object nothing; a non-empty object
   * raises KeyError(0), and any other value TypeError.
   */
  function FrameItems(frames: Json): Result<seq<Json>, Error> {
    match frames
    case JArr(items) => Ok(items)
    case JStr(s) => Ok(seq(|s|, j requires 0 <= j < |s| => JStr([s[j]])))
    // a non-empty object is indexed with the integer 0, which no JSON key equals
    case JObj(fields) => if fields == map[] then Ok([]) else Err(KeyError("0"))
    case _ => Err(TypeError)
  }

  /** A `real_time_user_audio_video_asset_pointer` part: audio, video, then every frame. */
  function RealTimeAssets(fields: map<string, Json>): Result<seq<Fragment>, Error> {
    var audio := if Truthy(Get(fields, "audio_asset_pointer", JBool(false)))
                 then [Asset(fields["audio_asset_pointer"])] else [];
    var video := if Truthy(Get(fields, "video_container_asset_pointer", JBool(false)))
                 then [Asset(fields["video_container_asset_pointer"])] else [];
    match FrameItems(Get(fields, "frames_asset_pointers", JObj(map[])))
    case Err(e) => Err(e)
    case Ok(frames) => Ok(audio + video + AssetsOf(frames))
  }

  /** The content types whose parts are kept whole as one asset fragment. */
  predicate IsAssetPointer(contentType: Json) {
    || contentType == JStr("audio_asset_pointer")
    || contentType == JStr("image_asset_pointer")
    || contentType == JStr("video_container_asset_pointer")
  }

  /**
   * The parts whose classification raises: neither a string nor an object; an
   * audio transcription without `text`; an object without `content_type`; a
   * real-time part whose frames value cannot be indexed.
   */
  predicate PartRaises(part: Json) {
    match part
    case JStr(_) => false
    case JObj(fields) =>
      if Get(fields, "content_type", JStr("")) == JStr("audio_transcription") then "text" !in fields
      else
        || "content_type" !in fields
        || (&& fields["content_type"] == JStr("real_time_user_audio_video_asset_pointer")
            && FrameItems(Get(fields, "frames_asset_pointers", JObj(map[]))).Err?)
    case _ => true
  }

  /** The fragments one raw content part is cleaned into, or the exception it raises. */
  function ClassifyPart(part: Json): (r: Result<seq<Fragment>, Error>)
    ensures r.Ok? ==> forall f :: f in r.value && f.Text? ==> f.text != "" && part == JStr(f.text)
    ensures r.Ok? && part.JStr? ==> r.value == if part.s == "" then [] else [Text(part.s)]
    ensures r.Ok? && part.JObj? ==> forall f :: f in r.value ==> !f.Text?
    ensures r.Err? <==> PartRaises(part)
    ensures part.JObj? && Get(part.fields, "content_type", JStr("")) == JStr("audio_transcription") && "text" in part.fields ==>
      r == Ok([Transcript(part.fields["text"])])
    ensures part.JObj? && "content_type" in part.fields && IsAssetPointer(part.fields["content_type"]) ==>
      r == Ok([Asset(part)])
    ensures (&& part.JObj? && "content_type" in part.fields
             && part.fields["content_type"] == JStr("real_time_user_audio_video_asset_pointer")
             && FrameItems(Get(part.fields, "frames_asset_pointers", JObj(map[]))).Ok?) ==>
      var audio := if Truthy(Get(part.fields, "audio_asset_pointer", JBool(false)))
                   then [Asset(part.fields["audio_asset_pointer"])] else [];
      var video := if Truthy(Get(part.fields, "video_container_asset_pointer", JBool(false)))
                   then [Asset(part.fields["video_container_asset_pointer"])] else [];
      r == Ok(audio + video + AssetsOf(FrameItems(Get(part.fields, "frames_asset_pointers", JObj(map[]))).value))
    ensures (&& part.JObj? && "content_type" in part.fields
             && part.fields["content_type"] != JStr("audio_transcription")
             && !IsAssetPointer(part.fields["content_type"])
             && part.fields["content_type"] != JStr("real_time_user_audio_video_asset_pointer")) ==>
      r == Ok([])
  {
    match part
    case JStr(s) => Ok(if s != "" then [Text(s)] else [])
    case JObj(fields) =>
      if Get(fields, "content_type", JStr("")) == JStr("audio_transcription") then
        if "text" in fields then Ok([Transcript(fields["text"])]) else Err(KeyError("text"))
      else if "content_type" !in fields then Err(KeyError("content_type"))
      else if IsAssetPointer(fields["content_type"]) then Ok([Asset(part)])
      else if fields["content_type"] == JStr("real_time_user_audio_video_asset_pointer") then RealTimeAssets(fields)
      else Ok([])
    case _ => Err(AttributeError)
  }

  /** The fragments of `r` followed by those of `s`; an exception in `r` comes first. */
  function AppendResult(r: Result<seq<Fragment>, Error>, s: Result<seq<Fragment>, Error>): Result<seq<Fragment>, Error> {
    if r.Err? then r else if s.Err? then s else Ok(r.value + s.value)
  }

  lemma AppendResultAssociative(x: Result<seq<Fragment>, Error>, y: Result<seq<Fragment>, Error>, z: Result<seq<Fragment>, Error>)
    ensures AppendResult(AppendResult(x, y), z) == AppendResult(x, AppendResult(y, z))
  {
    if x.Ok? && y.Ok? && z.Ok? {
      assert x.value + y.value + z.value == x.value + (y.value + z.value);
    }
  }

  /** The fragments of all parts, in part order; the first part that raises decides the error. */
  function ClassifyParts(parts: seq<Json>): Result<seq<Fragment>, Error> {
    if parts == [] then Ok([])
    else AppendResult(ClassifyParts(parts[..|parts| - 1]), ClassifyPart(parts[|parts| - 1]))
  }

  /** The parts raise exactly when one of them raises. */
  lemma {:induction false} ClassifyPartsRaises(parts: seq<Json>)
    ensures ClassifyParts(parts).Err? <==> exists i :: 0 <= i < |parts| && PartRaises(parts[i])
  {
    if parts != [] {
      var init, last := parts[..|parts| - 1], parts[|parts| - 1];
      ClassifyPartsRaises(init);
      assert forall i :: 0 <= i < |init| ==> init[i] == parts[i];
      if PartRaises(last) {
        assert PartRaises(parts[|parts| - 1]);
      }
    }
  }

  /** When the parts raise, the error is that of the first part that raises. */
  lemma {:induction false} ClassifyPartsFirstError(parts: seq<Json>)
    requires ClassifyParts(parts).Err?
    ensures exists i :: && 0 <= i < |parts| && ClassifyParts(parts) == ClassifyPart(parts[i])
                        && forall j :: 0 <= j < i ==> !PartRaises(parts[j])
  {
    var init, last := parts[..|parts| - 1], parts[|parts| - 1];
    if ClassifyParts(init).Err? {
      ClassifyPartsFirstError(init);
      var i :| && 0 <= i < |init| && ClassifyParts(init) == ClassifyPart(init[i])
               && forall j :: 0 <= j < i ==> !PartRaises(init[j]);
      assert forall j :: 0 <= j <= i ==> init[j] == parts[j];
      assert ClassifyParts(parts) == ClassifyPart(parts[i]);
    } else {
      ClassifyPartsRaises(init);
      assert forall j :: 0 <= j < |init| ==> init[j] == parts[j];
      assert ClassifyParts(parts) == ClassifyPart(parts[|parts| - 1]);
    }
  }

  /** Classification works part by part: the fragments of `a + b` are those of `a` followed by those of `b`. */
  lemma {:induction false} ClassifyPartsAppend(a: seq<Json>, b: seq<Json>)
    ensures ClassifyParts(a + b) == AppendResult(ClassifyParts(a), ClassifyParts(b))
    decreases |b|
  {
    if b == [] {
      assert a + b == a;
      if ClassifyParts(a).Ok? {
        assert ClassifyParts(a).value + [] == ClassifyParts(a).value;
      }
    } else {
      var b' := b[..|b| - 1];
      var last := b[|b| - 1];
      assert (a + b)[..|a + b| - 1] == a + b';
      assert (a + b)[|a + b| - 1] == last;
      ClassifyPartsAppend(a, b');
      AppendResultAssociative(ClassifyParts(a), ClassifyParts(b'), ClassifyPart(last));
    }
  }

  /** Every text fragment of a cleaned part list is a non-empty string part of the input. */
  lemma {:induction false} ClassifiedTextsNonEmpty(parts: seq<Json>)
    requires ClassifyParts(parts).Ok?
    ensures forall f :: f in ClassifyParts(parts).value && f.Text? ==> f.text != "" && JStr(f.text) in parts
  {
    if parts != [] {
      var init := parts[..|parts| - 1];
      ClassifiedTextsNonEmpty(init);
      assert forall p :: p in init ==> p in parts;
    }
  }

  /** The node test of the walk: a message with content, non-empty parts, and no plain system role. */
  predicate PassesFilter(node: Node) {
    && node.message.Some?
    && node.message.value.content.Some?
    && node.message.value.content.value.parts != []
    && (node.message.value.role != "system" || node.message.value.isUserSystemMessage)
  }

  predicate IsTextual(contentType: string) {
    contentType == "text" || contentType == "multimodal_text"
  }

  /** Visiting the node raises: it passes the filter, is textual, and one of its parts raises. */
  predicate NodeRaises(node: Node) {
    && PassesFilter(node)
    && IsTextual(node.message.value.content.value.contentType)
    && ClassifyParts(node.message.value.content.value.parts).Err?
  }

  /** What one visited node contributes: nothing, one cleaned message, or an exception. */
  function NodeMessage(conv: Conversation, node: Node): (r: Result<Option<Message>, Error>)
    ensures r.Ok? && r.value.Some? <==>
      PassesFilter(node) && IsTextual(node.message.value.content.value.contentType) &&
      ClassifyParts(node.message.value.content.value.parts).Ok? &&
      ClassifyParts(node.message.value.content.value.parts).value != []
    ensures r.Err? <==> NodeRaises(node)
    ensures r.Ok? && r.value.Some? ==>
      var m := r.value.value;
      && m.messageId == node.id.GetOr("")
      && m.conversationId == conv.conversationId.GetOr("")
      && m.conversationTitle == conv.title.GetOr("")
      && m.author == NormaliseAuthor(node.message.value.role, node.message.value.isUserSystemMessage)
      && m.author != "system"
      && m.parts == ClassifyParts(node.message.value.content.value.parts).value
      && m.parts != []
      && m.parent == node.parent
      && m.children == node.children.GetOr([])
  {
    if !PassesFilter(node) then Ok(None)
    else
      var message := node.message.value;
      var content := message.content.value;
      if !IsTextual(content.contentType) then Ok(None)
      else
        match ClassifyParts(content.parts)
        case Err(e) => Err(e)
        case Ok(fragments) =>
          if fragments == [] then Ok(None)
          else
            Ok(Some(NewMessage(
              id := node.id.GetOr(""),
              conversationId := conv.conversationId.GetOr(""),
              title := conv.title.GetOr(""),
              author := NormaliseAuthor(message.role, message.isUserSystemMessage),
              parts := fragments,
              parent := node.parent,
              children := node.children.GetOr([]))))
  }

  /**
   * The walk from `cur` stops within `n` steps: it reaches a null parent, an
   * id that has no mapping entry, or a node whose parts raise.
   */
  ghost predicate EndsWithin(mapping: map<string, Node>, cur: Option<string>, n: nat)
    decreases n
  {
    || cur.None? || cur.value !in mapping || NodeRaises(mapping[cur.value])
    || (n > 0 && EndsWithin(mapping, mapping[cur.value].parent, n - 1))
  }

  /** The walk from `current_node` stops within `n` steps (nothing to walk when it is missing or null). */
  ghost predicate Terminates(conv: Conversation, n: nat) {
    conv.currentNode.NodeId? ==> EndsWithin(conv.mapping, Some(conv.currentNode.key), n)
  }

  /**
   * The walk from `current_node` stops: the parent chain does not run into a
   * cycle before it reaches a null parent, a missing id or a raising node.
   */
  ghost predicate ParentChainEnds(conv: Conversation) {
    exists n: nat :: Terminates(conv, n)
  }

  /** The ids the walk visits that have a mapping entry, leaf first; a raising node is the last. */
  ghost function Chain(mapping: map<string, Node>, cur: Option<string>, n: nat): (ks: seq<string>)
    requires EndsWithin(mapping, cur, n)
    ensures forall i :: 0 <= i < |ks| ==> ks[i] in mapping
    ensures ks != [] ==> cur == Some(ks[0])
    ensures forall i :: 0 <= i < |ks| - 1 ==> mapping[ks[i]].parent == Some(ks[i + 1]) && !NodeRaises(mapping[ks[i]])
    decreases n
  {
    if cur.None? || cur.value !in mapping then []
    else if NodeRaises(mapping[cur.value]) then [cur.value]
    else [cur.value] + Chain(mapping, mapping[cur.value].parent, n - 1)
  }

  /**
   * Where the walk stops: `None` at a null parent, otherwise the id that has
   * no mapping entry or whose node raises.
   */
  ghost function ChainEnd(mapping: map<string, Node>, cur: Option<string>, n: nat): (e: Option<string>)
    requires EndsWithin(mapping, cur, n)
    ensures e.Some? ==> e.value !in mapping || NodeRaises(mapping[e.value])
    decreases n
  {
    if cur.None? || cur.value !in mapping || NodeRaises(mapping[cur.value]) then cur
    else ChainEnd(mapping, mapping[cur.value].parent, n - 1)
  }

  /**
   * The chain is empty exactly when `cur` is null or not a mapping key, and
   * then the walk stops at `cur`; otherwise its last id either raises, and the
   * walk stops there, or has the stopping point as its parent.
   */
  lemma {:induction false} ChainShape(mapping: map<string, Node>, cur: Option<string>, n: nat)
    requires EndsWithin(mapping, cur, n)
    ensures var ks := Chain(mapping, cur, n);
      && (ks != [] <==> cur.Some? && cur.value in mapping)
      && (ks == [] ==> ChainEnd(mapping, cur, n) == cur)
      && (ks != [] && NodeRaises(mapping[ks[|ks| - 1]]) ==> ChainEnd(mapping, cur, n) == Some(ks[|ks| - 1]))
      && (ks != [] && !NodeRaises(mapping[ks[|ks| - 1]]) ==> mapping[ks[|ks| - 1]].parent == ChainEnd(mapping, cur, n))
    decreases n
  {
    if cur.Some? && cur.value in mapping && !NodeRaises(mapping[cur.value]) {
      var parent := mapping[cur.value].parent;
      ChainShape(mapping, parent, n - 1);
      var tail := Chain(mapping, parent, n - 1);
      assert Chain(mapping, cur, n) == [cur.value] + tail;
      if tail != [] {
        assert Chain(mapping, cur, n)[|Chain(mapping, cur, n)| - 1] == tail[|tail| - 1];
      }
    }
  }

  /** The messages the nodes `ks` contribute, in the order of `ks`. */
  function Kept(conv: Conversation, ks: seq<string>): seq<Message>
    requires forall i :: 0 <= i < |ks| ==> ks[i] in conv.mapping
  {
    if ks == [] then []
    else
      var first := match NodeMessage(conv, conv.mapping[ks[0]])
                   case Ok(Some(m)) => [m]
                   case _ => [];
      first + Kept(conv, ks[1..])
  }

  /** `r` with `ms` in front of its messages, if it has any. */
  function Prepend(ms: seq<Message>, r: Result<seq<Message>, Error>): Result<seq<Message>, Error> {
    match r
    case Err(e) => Err(e)
    case Ok(rest) => Ok(ms + rest)
  }

  lemma PrependTwice(ms: seq<Message>, more: seq<Message>, r: Result<seq<Message>, Error>)
    ensures Prepend(ms, Prepend(more, r)) == Prepend(ms + more, r)
  {
    if r.Ok? {
      assert ms + (more + r.value) == ms + more + r.value;
    }
  }

  /** The messages in the order the walk emits them (leaf to root), or the first exception. */
  function Emitted(conv: Conversation, cur: Option<string>, n: nat): (r: Result<seq<Message>, Error>)
    requires EndsWithin(conv.mapping, cur, n)
    ensures r.Ok? ==> forall m :: m in r.value ==> m.parts != [] && m.author != "system"
    decreases n
  {
    if cur.None? then Ok([])
    else if cur.value !in conv.mapping then Err(KeyError(cur.value))
    else
      var node := conv.mapping[cur.value];
      match NodeMessage(conv, node)
      case Err(e) => Err(e)
      case Ok(m) => Prepend(if m.Some? then [m.value] else [], Emitted(conv, node.parent, n - 1))
  }

  function Reverse<T>(s: seq<T>): (r: seq<T>)
    ensures |r| == |s|
    ensures forall i :: 0 <= i < |s| ==> r[i] == s[|s| - 1 - i]
  {
    if s == [] then [] else Reverse(s[1..]) + [s[0]]
  }

  /** The result of `getConversationMessages(conversation)`: root-to-leaf messages, or the exception. */
  function Linearise(conv: Conversation, n: nat): (r: Result<seq<Message>, Error>)
    requires Terminates(conv, n)
    ensures conv.currentNode.Absent? ==> r == Err(UnhashableKey)
    ensures conv.currentNode.Null? ==> r == Ok([])
    ensures r.Ok? ==> forall m :: m in r.value ==> m.parts != [] && m.author != "system"
  {
    match conv.currentNode
    case Absent => Err(UnhashableKey)
    case Null => Ok([])
    case NodeId(key) =>
      match Emitted(conv, Some(key), n)
      case Err(e) => Err(e)
      case Ok(ms) => Ok(Reverse(ms))
  }

  /** The bound on the walk's length does not change what it emits. */
  lemma {:induction false} EmittedFuel(conv: Conversation, cur: Option<string>, n: nat, n': nat)
    requires EndsWithin(conv.mapping, cur, n) && EndsWithin(conv.mapping, cur, n')
    ensures Emitted(conv, cur, n) == Emitted(conv, cur, n')
    ensures Chain(conv.mapping, cur, n) == Chain(conv.mapping, cur, n')
    ensures ChainEnd(conv.mapping, cur, n) == ChainEnd(conv.mapping, cur, n')
    decreases n
  {
    if cur.Some? && cur.value in conv.mapping && !NodeRaises(conv.mapping[cur.value]) {
      EmittedFuel(conv, conv.mapping[cur.value].parent, n - 1, n' - 1);
    }
  }

  lemma LineariseFuel(conv: Conversation, n: nat, n': nat)
    requires Terminates(conv, n) && Terminates(conv, n')
    ensures Linearise(conv, n) == Linearise(conv, n')
  {
    if conv.currentNode.NodeId? {
      EmittedFuel(conv, Some(conv.currentNode.key), n, n');
    }
  }

  /**
   * The walk, stated without the loop: it emits without error exactly when it
   * stops at a null parent and no visited node raises, and then it emits the
   * messages of the chain's nodes in chain order.
   */
  lemma {:induction false} EmittedAlongChain(conv: Conversation, cur: Option<string>, n: nat)
    requires EndsWithin(conv.mapping, cur, n)
    ensures var ks := Chain(conv.mapping, cur, n);
      && (Emitted(conv, cur, n).Ok? <==>
            ChainEnd(conv.mapping, cur, n).None? &&
            forall i :: 0 <= i < |ks| ==> NodeMessage(conv, conv.mapping[ks[i]]).Ok?)
      && (Emitted(conv, cur, n).Ok? ==> Emitted(conv, cur, n).value == Kept(conv, ks))
  {
    EmittedOkAlongChain(conv, cur, n);
    if Emitted(conv, cur, n).Ok? {
      EmittedValueAlongChain(conv, cur, n);
    }
  }

  /** No node among `ks` raises when its message is built. */
  ghost predicate NodesBuild(conv: Conversation, ks: seq<string>)
    requires forall i :: 0 <= i < |ks| ==> ks[i] in conv.mapping
  {
    forall i :: 0 <= i < |ks| ==> NodeMessage(conv, conv.mapping[ks[i]]).Ok?
  }

  lemma NodesBuildCons(conv: Conversation, k: string, tail: seq<string>)
    requires k in conv.mapping && forall i :: 0 <= i < |tail| ==> tail[i] in conv.mapping
    ensures NodesBuild(conv, [k] + tail) <==> NodeMessage(conv, conv.mapping[k]).Ok? && NodesBuild(conv, tail)
  {
    var ks := [k] + tail;
    assert ks[0] == k;
    assert forall i :: 0 <= i < |tail| ==> ks[i + 1] == tail[i];
    if NodeMessage(conv, conv.mapping[k]).Ok? && NodesBuild(conv, tail) {
      forall i | 0 <= i < |ks| ensures NodeMessage(conv, conv.mapping[ks[i]]).Ok? {
        if i > 0 {
          assert ks[i] == tail[i - 1];
        }
      }
    }
  }

  lemma {:induction false} EmittedOkAlongChain(conv: Conversation, cur: Option<string>, n: nat)
    requires EndsWithin(conv.mapping, cur, n)
    ensures Emitted(conv, cur, n).Ok? <==>
      ChainEnd(conv.mapping, cur, n).None? && NodesBuild(conv, Chain(conv.mapping, cur, n))
    decreases n
  {
    if cur.Some? && cur.value in conv.mapping && !NodeRaises(conv.mapping[cur.value]) {
      var node := conv.mapping[cur.value];
      EmittedOkAlongChain(conv, node.parent, n - 1);
      var tail := Chain(conv.mapping, node.parent, n - 1);
      assert Chain(conv.mapping, cur, n) == [cur.value] + tail;
      NodesBuildCons(conv, cur.value, tail);
    }
  }

  lemma {:induction false} EmittedValueAlongChain(conv: Conversation, cur: Option<string>, n: nat)
    requires EndsWithin(conv.mapping, cur, n)
    requires Emitted(conv, cur, n).Ok?
    ensures Emitted(conv, cur, n).value == Kept(conv, Chain(conv.mapping, cur, n))
    decreases n
  {
    if cur.Some? && cur.value in conv.mapping {
      var node := conv.mapping[cur.value];
      EmittedValueAlongChain(conv, node.parent, n - 1);
      var ks := Chain(conv.mapping, cur, n);
      assert ks[1..] == Chain(conv.mapping, node.parent, n - 1);
    }
  }

  /** Every message of `Kept(conv, ks)` is the message of one of the nodes `ks`. */
  lemma {:induction false} KeptFromChain(conv: Conversation, ks: seq<string>, m: Message)
    requires forall i :: 0 <= i < |ks| ==> ks[i] in conv.mapping
    requires m in Kept(conv, ks)
    ensures exists i :: 0 <= i < |ks| && NodeMessage(conv, conv.mapping[ks[i]]) == Ok(Some(m))
  {
    if NodeMessage(conv, conv.mapping[ks[0]]) != Ok(Some(m)) {
      KeptFromChain(conv, ks[1..], m);
      var i :| 0 <= i < |ks[1..]| && NodeMessage(conv, conv.mapping[ks[1..][i]]) == Ok(Some(m));
      assert ks[1..][i] == ks[i + 1];
    }
  }

  /**
   * What `getConversationMessages` returns: the messages of the nodes on the
   * parent chain from `current_node`, root first; each one is the cleaned
   * message of a node on that chain, with the node's raw parent id, a non-empty
   * part list and an author that is never a plain `system`. The result is an
   * error exactly when `current_node` is missing, the walk reaches an id with no
   * mapping entry, or a visited node's parts raise.
   */
  lemma LineariseSpec(conv: Conversation, n: nat)
    requires Terminates(conv, n)
    ensures conv.currentNode.Absent? ==> Linearise(conv, n) == Err(UnhashableKey)
    ensures conv.currentNode.Null? ==> Linearise(conv, n) == Ok([])
    ensures conv.currentNode.NodeId? ==>
      var ks := Chain(conv.mapping, Some(conv.currentNode.key), n);
      && (Linearise(conv, n).Ok? <==>
            ChainEnd(conv.mapping, Some(conv.currentNode.key), n).None? &&
            forall i :: 0 <= i < |ks| ==> NodeMessage(conv, conv.mapping[ks[i]]).Ok?)
      && (Linearise(conv, n).Ok? ==> Linearise(conv, n).value == Reverse(Kept(conv, ks)))
      && (Linearise(conv, n).Ok? ==> forall m :: m in Linearise(conv, n).value ==>
            && m.parts != [] && m.author != "system"
            && exists i :: 0 <= i < |ks| && NodeMessage(conv, conv.mapping[ks[i]]) == Ok(Some(m))
                           && m.parent == conv.mapping[ks[i]].parent)
  {
    if conv.currentNode.NodeId? {
      var cur := Some(conv.currentNode.key);
      var ks := Chain(conv.mapping, cur, n);
      EmittedAlongChain(conv, cur, n);
      if Linearise(conv, n).Ok? {
        var ms := Linearise(conv, n).value;
        forall m | m in ms
          ensures && m.parts != [] && m.author != "system"
                  && exists i :: 0 <= i < |ks| && NodeMessage(conv, conv.mapping[ks[i]]) == Ok(Some(m))
                                 && m.parent == conv.mapping[ks[i]].parent
        {
          var j :| 0 <= j < |ms| && ms[j] == m;
          assert m in Kept(conv, ks);
          KeptFromChain(conv, ks, m);
        }
      }
    }
  }

  /** One step of the walk: a node that contributes `kept` puts it in front of what its parent's walk emits. */
  lemma EmittedStep(conv: Conversation, cur: Option<string>, n: nat, kept: seq<Message>)
    requires EndsWithin(conv.mapping, cur, n) && cur.Some? && cur.value in conv.mapping
    requires |kept| <= 1 && NodeMessage(conv, conv.mapping[cur.value]) == Ok(if kept == [] then None else Some(kept[0]))
    ensures n > 0 && EndsWithin(conv.mapping, conv.mapping[cur.value].parent, n - 1)
    ensures Emitted(conv, cur, n) == Prepend(kept, Emitted(conv, conv.mapping[cur.value].parent, n - 1))
  {
    if kept != [] {
      assert kept == [kept[0]];
    }
  }

  /** The per-part loop of the walk: the fragments of `parts`, or the first exception. */
  method ClassifyContent(parts: seq<Json>) returns (r: Result<seq<Fragment>, Error>)
    ensures r == ClassifyParts(parts)
  {
    var fragments: seq<Fragment> := [];
    for i := 0 to |parts|
      invariant ClassifyParts(parts[..i]) == Ok(fragments)
    {
      var part := ClassifyPart(parts[i]);
      ClassifyPartsStep(parts, i);
      if part.Err? {
        ClassifyPartsStopsAtError(parts, i);
        return Err(part.error);
      }
      fragments := fragments + part.value;
    }
    assert parts[..|parts|] == parts;
    r := Ok(fragments);
  }

  lemma ClassifyPartsStep(parts: seq<Json>, i: nat)
    requires i < |parts|
    ensures ClassifyParts(parts[..i + 1]) == AppendResult(ClassifyParts(parts[..i]), ClassifyPart(parts[i]))
  {
    assert parts[..i + 1][..i] == parts[..i];
  }

  lemma ClassifyPartsStopsAtError(parts: seq<Json>, i: nat)
    requires i < |parts| && ClassifyParts(parts[..i]).Ok? && ClassifyPart(parts[i]).Err?
    ensures ClassifyParts(parts) == ClassifyPart(parts[i])
  {
    var e := ClassifyPart(parts[i]);
    ClassifyPartsStep(parts, i);
    assert ClassifyParts(parts[..i + 1]) == e;
    ClassifyPartsAppend(parts[..i + 1], parts[i + 1..]);
    SplitAt(parts, i + 1);
    assert ClassifyParts(parts) == AppendResult(e, ClassifyParts(parts[i + 1..]));
  }

  lemma SplitAt<T>(s: seq<T>, k: nat)
    requires k <= |s|
    ensures s[..k] + s[k..] == s
  {
  }

  /** One step of the walk's loop: the visited node's message, if any, joins those already emitted. */
  lemma WalkStep(conv: Conversation, start: Option<string>, n: nat, cur: Option<string>, fuel: nat,
                 before: seq<Message>, kept: seq<Message>)
    requires EndsWithin(conv.mapping, start, n) && EndsWithin(conv.mapping, cur, fuel)
    requires Emitted(conv, start, n) == Prepend(before, Emitted(conv, cur, fuel))
    requires cur.Some? && cur.value in conv.mapping
    requires |kept| <= 1 && NodeMessage(conv, conv.mapping[cur.value]) == Ok(if kept == [] then None else Some(kept[0]))
    ensures fuel > 0 && EndsWithin(conv.mapping, conv.mapping[cur.value].parent, fuel - 1)
    ensures Emitted(conv, start, n) == Prepend(before + kept, Emitted(conv, conv.mapping[cur.value].parent, fuel - 1))
  {
    EmittedStep(conv, cur, fuel, kept);
    PrependTwice(before, kept, Emitted(conv, conv.mapping[cur.value].parent, fuel - 1));
  }

  /** The walk's loop meets an exception: the whole conversation raises it. */
  lemma WalkFails(conv: Conversation, n: nat, cur: Option<string>, fuel: nat, before: seq<Message>, e: Error)
    requires conv.currentNode.NodeId? && Terminates(conv, n)
    requires EndsWithin(conv.mapping, cur, fuel) && cur.Some?
    requires Emitted(conv, Some(conv.currentNode.key), n) == Prepend(before, Emitted(conv, cur, fuel))
    requires (cur.value !in conv.mapping && e == KeyError(cur.value)) || (cur.value in conv.mapping && NodeMessage(conv, conv.mapping[cur.value]) == Err(e))
    ensures Linearise(conv, n) == Err(e)
  {
  }

  /**
   * `getConversationMessages`: walk from `current_node` to the root, keep the
   * cleaned message of every node that passes the filter, then reverse.
   */
  method GetConversationMessages(conv: Conversation) returns (r: Result<seq<Message>, Error>)
    requires ParentChainEnds(conv)
    ensures forall n :: Terminates(conv, n) ==> r == Linearise(conv, n)
  {
    ghost var n: nat :| Terminates(conv, n);
    forall n' | Terminates(conv, n') ensures Linearise(conv, n') == Linearise(conv, n) {
      LineariseFuel(conv, n, n');
    }
    if conv.currentNode.Absent? {
      return Err(UnhashableKey);
    }
    var messages: seq<Message> := [];
    var current: Option<string> := if conv.currentNode.NodeId? then Some(conv.currentNode.key) else None;
    ghost var start: Option<string>, fuel: nat := current, n;
    assert Emitted(conv, start, n).Ok? ==> [] + Emitted(conv, start, n).value == Emitted(conv, start, n).value;
    while current.Some?
      invariant EndsWithin(conv.mapping, start, n) && EndsWithin(conv.mapping, current, fuel)
      invariant Emitted(conv, start, n) == Prepend(messages, Emitted(conv, current, fuel))
      decreases fuel
    {
      if current.value !in conv.mapping {
        WalkFails(conv, n, current, fuel, messages, KeyError(current.value));
        return Err(KeyError(current.value));
      }
      var node := conv.mapping[current.value];
      ghost var before := messages;
      ghost var contributed := NodeMessage(conv, node);
      var kept: seq<Message> := [];
      var message := node.message;
      if && message.Some? && message.value.content.Some? && message.value.content.value.parts != []
         && (message.value.role != "system" || message.value.isUserSystemMessage)
      {
        var author := message.value.role;
        if author == "assistant" || author == "tool" {
          author := ChatGpt;
        } else if author == "system" && message.value.isUserSystemMessage {
          author := CustomUserInfo;
        }
        assert author == NormaliseAuthor(message.value.role, message.value.isUserSystemMessage);
        var content := message.value.content.value;
        if content.contentType == "text" || content.contentType == "multimodal_text" {
          var parts := ClassifyContent(content.parts);
          if parts.Err? {
            assert NodeMessage(conv, node) == Err(parts.error);
            WalkFails(conv, n, current, fuel, messages, parts.error);
            return Err(parts.error);
          }
          if |parts.value| > 0 {
            var newMessage := NewMessage(
              id := node.id.GetOr(""),
              conversationId := conv.conversationId.GetOr(""),
              title := conv.title.GetOr(""),
              author := author,
              parts := parts.value,
              parent := node.parent,
              children := node.children.GetOr([]));
            kept := [newMessage];
            messages := messages + kept;
          }
        }
      }
      assert contributed == Ok(if kept == [] then None else Some(kept[0]));
      WalkStep(conv, start, n, current, fuel, before, kept);
      assert messages == before + kept;
      current := node.parent;
      fuel := fuel - 1;
    }
    assert messages + [] == messages;
    assert Emitted(conv, start, n) == Ok(messages);
    messages := Reverse(messages);
    r := Ok(messages);
  }
}

/** Optional values and results with an error, as the rest of the model uses them. */
module Common {

  /** A value that may be absent (Python's `None`). */
  datatype Option<+T> = None | Some(value: T) {

    /** The value, or `default` when absent (Python's `d.get(key, default)`). */
    function GetOr(default: T): T {
      match this
      case Some(v) => v
      case None => default
    }
  }

  /** A computation that either produces a value or raises an exception. */
  datatype Result<+T, +E> = Ok(value: T) | Err(error: E)
}

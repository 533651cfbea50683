/** Failure-compatible wrappers shared by the whole model. */
module Common {

  /** A value that may be absent: Python's `None`, JavaScript's `null` or a missing key. */
  datatype Option<T> = None | Some(value: T) {
    function GetOr(default: T): T {
      match this
      case Some(v) => v
      case None => default
    }
  }

  /** The outcome of an operation that can fail with an error of type E. */
  datatype Result<T, E> = Ok(value: T) | Err(error: E)
}

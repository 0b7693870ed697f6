/** Optional values and error results shared by the other modules. */
module Wrappers {

  /** A value that may be absent: JavaScript's `null`/`undefined` for a property. */
  datatype Option<+T> = None | Some(value: T) {
    function GetOr(default: T): T {
      match this
      case Some(v) => v
      case None => default
    }
  }

  /** The outcome of an operation that can throw. */
  datatype Result<+T, +E> = Ok(value: T) | Err(error: E)
}

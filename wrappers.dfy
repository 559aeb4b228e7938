/** Option and Result, for missing attributes, failed URL resolution and the
    invalid reference URL. */
module Wrappers {

  datatype Option<+T> = None | Some(value: T) {
    /** `x ?? d`: the value, or the default when there is none. */
    function GetOr(default: T): T {
      match this
      case Some(v) => v
      case None => default
    }
  }

  datatype Result<+T, +E> = Success(value: T) | Failure(error: E)
}

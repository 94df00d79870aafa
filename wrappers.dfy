/** Option and Result, used for values that may be absent and for operations that may fail. */
module Wrappers {

  datatype Option<+T> = None | Some(value: T) {
    /** The value when present, `default` otherwise (Python's `dict.get(key, default)`). */
    function GetOr(default: T): T {
      match this
      case Some(v) => v
      case None => default
    }
  }

  datatype Result<+T, +E> = Success(value: T) | Failure(error: E)
}

/** Optional values and success/failure results used throughout the model,
    standing in for Python's `None` and for raised exceptions. */
module Wrappers {

  /** A value that may be absent (Python `Optional[T]`). */
  datatype Option<+T> = None | Some(value: T) {

    /** Returns the value or a default when absent. */
    function GetOr(default: T): T {
      match this
      case Some(v) => v
      case None => default
    }
  }

  /** A computation that either produced a value or was refused with an error
      (Python's `raise` in a pre-flight check). */
  datatype Result<+R, +E> = Success(value: R) | Failure(error: E)
}

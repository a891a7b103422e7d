/** Option and Result, the failure-carrying values used throughout the model. */
module Wrappers {

  datatype Option<+T> = None | Some(value: T) {
    function GetOr(default: T): T {
      match this
      case Some(v) => v
      case None => default
    }
  }

  /** A Swift `throws` function: either the value it returns or the error it throws. */
  datatype Result<+T, +E> = Success(value: T) | Failure(error: E)

  /** A Swift `throws` function returning Void. */
  datatype Outcome<+E> = Pass | Fail(error: E)
}

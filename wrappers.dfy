/** Option and Result, used for the null pointers and error returns of the source. */
module Wrappers {

  datatype Option<+T> = None | Some(value: T) {
    function GetOr(default: T): T {
      match this
      case Some(v) => v
      case None => default
    }
  }

  datatype Result<+R, +E> = Success(value: R) | Failure(error: E)

  /** A pass/fail outcome carrying only an error. */
  datatype Outcome<+E> = Pass | Fail(error: E)
}

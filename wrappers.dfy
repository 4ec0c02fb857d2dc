/** Option and Outcome values standing for the null results and the thrown
    exceptions of the modelled C++ code. */
module Wrappers {

  datatype Option<+T> = None | Some(value: T) {
    function GetOr(default: T): T {
      match this
      case Some(v) => v
      case None => default
    }
  }

  /** The outcome of a call that either completes or throws `error`. */
  datatype Outcome<+E> = Pass | Fail(error: E)

  /** A value, or the exception thrown instead of producing it. */
  datatype Result<+R, +E> = Success(value: R) | Failure(error: E)
}

/** Option, Result and Outcome: absent values, and the exceptions of the modelled code as values. */
module Wrappers {

  datatype Option<+T> = None | Some(value: T) {
    /** The value, or `default` when absent (Kotlin's `?:`). */
    function GetOr(default: T): T {
      match this
      case Some(v) => v
      case None => default
    }
  }

  /** A call that either returns a value or throws an exception. */
  datatype Result<+R, +E> = Success(value: R) | Failure(error: E)

  /** A call that returns no value and may throw. */
  datatype Outcome<+E> = Pass | Fail(error: E)
}

/** Option and outcome types for the error paths of the table engine. */
module Wrappers {

  datatype Option<+T> = None | Some(value: T) {
    function GetOr(default: T): T {
      match this
      case Some(v) => v
      case None => default
    }
  }

  /** A computation that either yields a value or fails with an error. */
  datatype Result<+T, +E> = Success(value: T) | Failure(error: E)

  /** A computation run for its effect that either passes or fails with an error. */
  datatype Outcome<+E> = Pass | Fail(error: E)
}

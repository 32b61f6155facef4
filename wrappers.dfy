/** The `Option` and `Result` datatypes shared by the other modules. */
module Wrappers {

  /** A value that may be absent (JavaScript `undefined`, a missing field). */
  datatype Option<+T> = None | Some(value: T) {
    function GetOr(default: T): T {
      match this
      case Some(v) => v
      case None => default
    }
  }

  /** The outcome of an operation that may be refused with an error value. */
  datatype Result<+T, +E> = Success(value: T) | Failure(error: E)
}

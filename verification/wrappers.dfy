/** Failure-compatible result types shared by every module of the model. */
module Wrappers {

  /** A value that may be absent: the model of a nullable or optional JavaScript value. */
  datatype Option<+T> = None | Some(value: T) {
    function GetOr(default: T): T {
      match this
      case Some(v) => v
      case None => default
    }
  }

  /** The outcome of an operation that may throw: Failure carries the thrown error. */
  datatype Result<+T, +E> = Success(value: T) | Failure(error: E)

  /**
   * A thrown JavaScript error: an `Error` raised by the code with its message, or
   * the `TypeError` the engine raises on reading a property of `undefined`.
   */
  datatype JsError = Error(message: string) | TypeError
}

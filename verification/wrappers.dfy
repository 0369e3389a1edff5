/** Failure-carrying wrappers shared by the other modules. */
module Wrappers {

  /** A value that may be absent (JavaScript `undefined` where the source reads past an end). */
  datatype Option<+T> = None | Some(value: T)

  /** The outcome of an operation that can throw: its value, or the error it raises. */
  datatype Result<+T, +E> = Success(value: T) | Failure(error: E)
}

/** Failure-carrying values used throughout the model. */
module Wrappers {

  /** A value that may be absent: JavaScript's `null`/`undefined` or a missing result. */
  datatype Option<+T> = None | Some(value: T)

  /** The outcome of a computation that may throw: a value, or the thrown error's message. */
  datatype Result<+R, +E> = Success(value: R) | Failure(error: E)
}

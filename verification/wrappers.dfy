/** Failure-compatible result types used throughout the model. */
module Wrappers {

  /** A value that may be absent; `None` stands for JavaScript `null`. */
  datatype Option<+T> = None | Some(value: T)

  /** The outcome of an operation that may throw one of the engine's errors. */
  datatype Result<+T, +E> = Success(value: T) | Failure(error: E)
}

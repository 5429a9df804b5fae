/** Failure-compatible wrappers used across the model. */
module Wrappers {

  datatype Option<+T> = None | Some(value: T)

  /** The outcome of an engine step: a value, or the error that aborts the whole call. */
  datatype Result<+T, +E> = Success(value: T) | Failure(error: E)
}

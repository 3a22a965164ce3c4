/** Option and Result, the two failure-carrying wrappers used throughout the model. */
module Wrappers {

  /** A value that may be missing: the model's stand-in for a null pointer. */
  datatype Option<+T> = None | Some(value: T)

  /** The outcome of a stage of the pipeline: a value, or the reason it aborted. */
  datatype Result<+R, +E> = Success(value: R) | Failure(error: E)
}

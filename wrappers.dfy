/** Option and Result, the failure-aware return types used throughout the model. */
module Wrappers {

  datatype Option<+T> = None | Some(value: T)

  /** The outcome of an operation that the scripts can abort by throwing. */
  datatype Result<+T, +E> = Success(value: T) | Failure(error: E)
}

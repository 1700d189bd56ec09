/** Optional values and results with an error, as used across the model. */
module Wrappers {

  /** Swift's `T?`: a value or nothing. */
  datatype Option<+T> = None | Some(value: T)

  /** The outcome of an operation that may trap instead of returning. */
  datatype Result<+T, +E> = Success(value: T) | Failure(error: E)
}

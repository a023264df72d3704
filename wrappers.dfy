/** Optional values and the outcomes of operations that may throw. */
module Wrappers {

  datatype Option<+T> = None | Some(value: T)

  /** The outcome of an operation that may throw: Failure carries the exception. */
  datatype Result<+T, +E> = Success(value: T) | Failure(error: E)
}

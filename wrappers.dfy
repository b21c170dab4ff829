/** Optional values and results with an error, as used throughout the model. */
module Wrappers {

  /** A value that may be missing (a pandas NaN, a dictionary miss, a failed parse). */
  datatype Option<+T> = None | Some(value: T)

  /** The outcome of an operation that raises an exception in the modelled code. */
  datatype Result<+T, +E> = Success(value: T) | Failure(error: E)
}

/** Optional values and results that can fail, for lookups and throwing constructors. */
module Wrappers {
  /** boost::optional: a value, or none. */
  datatype Option<T> = None | Some(value: T)

  /** The outcome of an operation that may throw: its value, or the error it reports. */
  datatype Result<T> = Success(value: T) | Failure(error: string)
}

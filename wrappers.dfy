/** Optional values and error results, as used by the book catalog model. */
module Wrappers {

  /** A value that may be absent: a nullable column, a missing query argument. */
  datatype Option<+T> = None | Some(value: T)

  /** The outcome of an operation that the service can refuse with an error. */
  datatype Result<+R, +E> = Ok(value: R) | Err(error: E)
}

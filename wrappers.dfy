/** Optional values and error results used across the model. */
module Wrappers {

  /** A value that may be absent: a nullable column, a missing row, `null` in the source. */
  datatype Option<+T> = None | Some(value: T)

  /** The outcome of an operation that can fail instead of returning a value. */
  datatype Result<+T, +E> = Ok(value: T) | Err(error: E)
}

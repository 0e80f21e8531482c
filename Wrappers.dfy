/** Optional values and success-or-failure results. */
module Wrappers {

  /** A value that may be absent: pandas' NaN / Python's None becomes None. */
  datatype Option<+T> = None | Some(value: T)

  /** The outcome of a step that either succeeds or raises an uncaught exception. */
  datatype Result<+T, +E> = Ok(value: T) | Err(error: E)
}

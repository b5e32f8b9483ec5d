/** Optional values and success-or-error results, shared by the dashboard modules. */
module Wrappers {

  /** A value that may be missing: pandas' NaN / NaT. */
  datatype Option<+T> = None | Some(value: T)

  /** The outcome of an operation that may raise. */
  datatype Result<+T, +E> = Ok(value: T) | Err(error: E)
}

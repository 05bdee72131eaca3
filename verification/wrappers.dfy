/** Failure-compatible carriers used by the dashboard model. */
module Wrappers {

  /** A value that may be missing: pandas' NaN / NaT. */
  datatype Option<+T> = None | Some(value: T)

  /** The outcome of an operation that can be rejected. */
  datatype Result<+T, +E> = Ok(value: T) | Err(error: E)
}

/** Missing values and error returns. */
module Wrappers {

  /** A value that may be missing (pandas' NaN / Python's None). */
  datatype Option<+T> = None | Some(value: T)

  /** The outcome of an operation that may raise. */
  datatype Result<+T, +E> = Ok(value: T) | Err(error: E)
}

/** Option and Result, used for missing cells and for the error paths of the pipeline. */
module Wrappers {

  /** A table cell or a parameter that may be absent (pandas NaN / Python None). */
  datatype Option<+T> = None | Some(value: T)

  /** The outcome of an operation that can fail with an error of type E. */
  datatype Result<+T, +E> = Ok(value: T) | Err(error: E)
}

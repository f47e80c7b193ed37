/** Failure-carrying values shared by the pipeline stages. */
module Wrappers {

  /** A value that may be absent (pandas' NaN for an empty column's maximum). */
  datatype Option<+T> = None | Some(value: T)

  /** Either a value or an error (an HTTP error at the serving boundary). */
  datatype Result<+T, +E> = Ok(value: T) | Err(error: E)
}

/** Option and Result values used for the error returns of the Go code. */
module Wrappers {

  datatype Option<+T> = None | Some(value: T)

  /** A value or an error, standing for Go's `(T, error)` pairs. */
  datatype Result<+T, +E> = Ok(value: T) | Err(error: E)
}

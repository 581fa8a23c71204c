/** Option and Result, the shapes of Go's `(value, error)` returns. */
module Outcomes {

  datatype Option<+T> = None | Some(value: T)

  /** Either a value or an error; `E` is the error's type. */
  datatype Result<+T, +E> = Ok(value: T) | Err(error: E)
}

/** Option and Result, used for Go's nil pointers and (value, error) returns. */
module Wrappers {

  /** A possibly-absent value: None stands for Go's nil. */
  datatype Option<+T> = None | Some(value: T)

  /** A value or an error, for Go functions that return (value, error). */
  datatype Result<+T, +E> = Ok(value: T) | Err(error: E)
}

/** Failure-compatible wrappers used across the model: Go's nil-or-value and
    (value, error) returns. */
module Wrappers {

  datatype Option<T> = None | Some(value: T)

  datatype Result<T, E> = Ok(value: T) | Err(error: E)
}

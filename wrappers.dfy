/** Option and Result: the model's stand-ins for Go's nil pointers, nil slices
    and (value, error) pairs. */
module Wrappers {

  /** A value that may be absent, like a Go pointer or slice that may be nil. */
  datatype Option<+T> = None | Some(value: T)

  /** The outcome of a Go call that returns (value, error). */
  datatype Result<+T, +E> = Ok(value: T) | Err(error: E)
}

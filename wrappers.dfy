/** Failure-carrying values used for Go's `(value, error)` returns. */
module Wrappers {

  datatype Option<+T> = None | Some(value: T)

  /** `Ok(v)` stands for a nil error, `Err(e)` for a non-nil one. */
  datatype Result<+T, +E> = Ok(value: T) | Err(error: E)
}

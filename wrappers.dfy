/** Failure-carrying return values shared by the modules of this project. */
module Wrappers {

  /** A value that may be absent (a Go nil slice or nil map). */
  datatype Option<+T> = None | Some(value: T)

  /** A value or an error (a Go `(value, error)` pair). */
  datatype Result<+T, +E> = Success(value: T) | Failure(error: E)
}

/** Failure-carrying return types shared by the modules of this project. */
module Wrappers {

  /** A value that may be absent: a Go nil reference or a missing map entry. */
  datatype Option<+T> = None | Some(value: T)

  /** A Go `(value, error)` pair in which exactly one side is meaningful. */
  datatype Result<+R, +E> = Ok(value: R) | Err(error: E)

  /** A Go `error` return on its own: nil (Pass) or an error value (Fail). */
  datatype Outcome<+E> = Pass | Fail(error: E)
}

/** Failure-carrying wrappers shared by every module of the model. */
module Basics {

  /** A value that may be absent: Python `None`, JavaScript `null`/`undefined`. */
  datatype Option<+T> = None | Some(value: T)

  /** A value or an error, for operations whose source raises or answers with an error status. */
  datatype Result<+T, +E> = Ok(value: T) | Err(error: E)

  function Min(a: int, b: int): int {
    if a <= b then a else b
  }
}

/** Failure-carrying types standing in for Python's `None` returns and raised exceptions. */
module Wrappers {

  /** A value that may be missing (Python's `Optional`). */
  datatype Option<+T> = None | Some(value: T)

  /** The outcome of a computation that may raise: `Err` stands for any exception. */
  datatype Result<+T> = Ok(value: T) | Err

  function Min(a: int, b: int): int
  {
    if a <= b then a else b
  }
}

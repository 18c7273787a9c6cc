/** Failure-carrying values shared by every module of the model. */
module Wrappers {

  /** A value that may be missing: Python's `None` versus a value. */
  datatype Option<+T> = None | Some(value: T) {
    /** The value, or `default` when it is missing (Python: `x or default` on a missing field). */
    function GetOr(default: T): T
    {
      if Some? then value else default
    }
  }

  /** The outcome of an operation that may raise: the value, or the error it raises. */
  datatype Result<+T, +E> = Ok(value: T) | Err(error: E)

  function Max(a: int, b: int): int
  {
    if a < b then b else a
  }
}

/** Exceptions the modelled Python code raises, and the value types that carry them. */
module Results {

  /** The Python exception classes raised by the modelled code. */
  datatype Error = KeyError | ValueError | ZeroDivisionError | OverflowError

  /** A value or the exception raised instead of returning one. */
  datatype Result<T> = Ok(value: T) | Err(error: Error)

  /** The outcome of a call that returns `None` in Python, or raises. */
  datatype Outcome = Pass | Fail(error: Error)

  /** Python's `None`-or-a-value, for optional arguments. */
  datatype Option<T> = None | Some(value: T)
}

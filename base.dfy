/** Failure-carrying values shared by every component. The core signals
    failure by raising one of two Python exceptions; here an operation
    returns the exception instead. */
module Base {

  /** The exceptions the core raises: `ValueError` for a rejected field
      value or a violated precondition, `IndexError` for a note index
      outside the list. */
  datatype Error = ValueError | IndexError

  /** A value that may be absent (Python's `None`). */
  datatype Option<+T> = None | Some(value: T)

  /** A value, or the exception raised instead of producing it. */
  datatype Result<+T> = Ok(value: T) | Err(error: Error)

  /** Normal completion of an operation that returns nothing, or the
      exception it raised. */
  datatype Outcome = Pass | Fail(error: Error)
}

/** The exceptions the repository raises, and the value-or-error shapes that stand in for `raise`. */
module Results {

  /** A Python exception, by class, with the text `str(e)` would give. */
  datatype Error =
    | ValueError(message: string)
    | RuntimeError(message: string)
    | KeyError(key: string)
    | AttributeError(message: string)
  {
    /** `str(e)`: a `KeyError` prints its key between single quotes. */
    function Text(): string {
      match this
      case ValueError(m) => m
      case RuntimeError(m) => m
      case KeyError(k) => "'" + k + "'"
      case AttributeError(m) => m
    }
  }

  datatype Option<+T> = None | Some(value: T)

  /** A value, or the exception raised instead of returning one. */
  datatype Result<+T> = Ok(value: T) | Err(error: Error)

  /** What a method that returns nothing in Python ends with: normal return, or an exception. */
  datatype Outcome = Pass | Fail(error: Error)
}

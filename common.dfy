/** Failure-compatible result types and the Python exceptions the modelled code raises. */
module Common {

  /** The Python exception classes raised by the modelled functions, with their message or key. */
  datatype Error =
    | KeyError(key: string)
    | ValueError(message: string)
    | IndexError(message: string)
    | TypeError(message: string)
    | AssertionError(message: string)
    | NotImplementedError(message: string)

  datatype Option<+T> = None | Some(value: T)

  /** A value, or the exception that was raised instead. */
  datatype Result<+T> = Ok(value: T) | Err(error: Error) {
    predicate IsFailure() { Err? }

    function PropagateFailure<U>(): Result<U>
      requires Err?
    {
      Err(error)
    }

    function Extract(): T
      requires Ok?
    {
      value
    }
  }

  /** A procedure that either returns normally or raises. */
  datatype Outcome = Pass | Fail(error: Error) {
    predicate IsFailure() { Fail? }

    function PropagateFailure(): Outcome
      requires Fail?
    {
      this
    }
  }
}

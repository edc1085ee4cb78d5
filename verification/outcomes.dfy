/** Values shared by the whole model: optional values, the exceptions the
    driver can raise, and the outcome of a Python call (a returned value or a
    raised exception). */
module Outcomes {

  /** Python's `None` or a value. */
  datatype Option<+T> = None | Some(value: T)

  /** The exceptions of the driver.
      TransportFault: any failure of the telnet session (refused connection,
      reset, end of stream). NotANumber: `float()` rejected the literal that
      the measurement pattern matched (Python's `ValueError`). */
  datatype Error = TransportFault | NotANumber(literal: string)

  /** The result of calling a Python function: it returns or it raises. */
  datatype Outcome<+T> = Returned(value: T) | Raised(error: Error) {

    predicate IsFailure() {
      Raised?
    }

    function PropagateFailure<U>(): Outcome<U>
      requires Raised?
    {
      Raised(error)
    }

    function Extract(): T
      requires Returned?
    {
      value
    }
  }
}

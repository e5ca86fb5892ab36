/** The exceptions the protocol code can raise, and the two failure-compatible
    wrappers the model uses in their place. */
module Outcomes {

  /** One constructor per .NET exception the core can throw. */
  datatype Fault =
    | FormatError             // FormatException: bad base64, or a non-numeric id
    | OverflowError           // OverflowException: an id outside the range of uint
    | IndexOutOfRange         // IndexOutOfRangeException: a missing Args[i]
    | InvalidCommand          // InvalidCommandException
    | ClientNotAuthenticated  // ClientNotAuthenticatedException
    | KeyNotFound             // KeyNotFoundException from _clients[id]
    | WriteFailed             // an I/O exception from NetworkStream.Write

  /** A value, or the exception that was thrown instead of computing it. */
  datatype Result<+T> = Ok(value: T) | Err(fault: Fault) {
    predicate IsFailure() { Err? }

    function PropagateFailure<U>(): Result<U>
      requires Err?
    {
      Err(fault)
    }

    function Extract(): T
      requires Ok?
    {
      value
    }
  }

  /** A statement that either completed or threw. */
  datatype Outcome = Pass | Fail(fault: Fault)
}

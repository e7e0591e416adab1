// Outcomes: how an operation can fail (src/anymodbus/exceptions.py).
module Errors {
  import opened Bits

  datatype Option<+T> = None | Some(value: T)

  // What a failed port raises.
  datatype Fault = EndOfStream | Broken | Closed | OsError

  datatype Error =
    | ConfigurationError
    | ProtocolError
    | CrcError
    | LrcError
    | FrameError
    | UnexpectedResponse
    | ExceptionResponse(functionCode: byte, exceptionCode: byte)
    | FrameTimeout
    | ConnectionLost
    | TransportError
    | BusClosed
    // A mock slave refuses with this exception code (src/anymodbus/_mock/slave.py).
    | ServerException(code: byte)
    // Any other Python exception escaping from inside an attempt.
    | Unhandled
    // Not library errors: the raw stream fault, the expired deadline and the cancellation underneath.
    | Stream(fault: Fault)
    | DeadlinePassed
    | Cancelled
  {
    predicate IsProtocolError() {
      ProtocolError? || CrcError? || LrcError? || FrameError? || UnexpectedResponse?
    }

    predicate IsModbusError() {
      !ServerException? && !Unhandled? && !Stream? && !DeadlinePassed? && !Cancelled?
    }

    // The read was cut off from outside rather than decided by the bytes there were.
    predicate IsInterruption() {
      (Stream? && fault != EndOfStream) || DeadlinePassed? || Cancelled?
    }
  }

  datatype Result<+T> = Ok(value: T) | Err(error: Error)
  {
    predicate TimedOut() { Err? && error == DeadlinePassed }

    predicate IsFailure() { Err? }
    function PropagateFailure<U>(): Result<U> requires Err? { Err(error) }
    function Extract(): T requires Ok? { value }
  }
}

/** Values shared by every module of the model: optional values, success or
    failure of an operation, and the kinds of exception the modelled code
    raises. */
module Outcomes {

  datatype Option<+T> = None | Some(value: T)

  /** The exceptions the synchronisation layer and its consumers raise. */
  datatype Error =
    | RuntimeError     // misuse of a lock, a waiter or a condition
    | ValueError       // a negative notify count
    | TypeError        // the serial port is used while it is not open
    | AttributeError   // closing a serial port that was never opened
    | SerialTimeout    // Serial.TimeoutError: nothing arrived before the deadline

  /** An operation that returns nothing or raises. */
  datatype Outcome = Pass | Fail(error: Error)

  /** An operation that returns a value or raises. */
  datatype Result<+T> = Success(value: T) | Failure(error: Error)
}

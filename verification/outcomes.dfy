/** Failure-carrying results and the error taxonomy of the laser driver. */
module Outcomes {

  /** An optional value; used for defaulted arguments and for one read of the serial link. */
  datatype Option<+T> = None | Some(value: T) {
    function GetOr(default: T): T {
      match this
      case Some(v) => v
      case None => default
    }
  }

  /**
   * Every way an operation of the driver can fail. The first five are the
   * driver's own exception classes (all subclasses of LaserError); the last
   * two are the Python built-in errors that the codec lets escape.
   */
  datatype Error =
    | CommandFailed    // LaserCommandFailedError: bad framing, checksum, echo mismatch, no ack, garbled reading
    | BadReading       // BadReadingError: device reported ERR204
    | TooDim           // TooDimError: device reported ERR255
    | TooBright        // TooBrightError: device reported ERR256
    | TimeOut          // LaserTimeOutError: no complete frame before the deadline
    | ByteOutOfRange   // ValueError from bytes(): a frame field outside 0..255
    | EmptyFrame       // IndexError from frame[0] on an empty buffer
  {
    /** True for the driver's own exception classes (subclasses of LaserError). */
    function IsLaserError(): (b: bool)
      ensures b <==> this in {CommandFailed, BadReading, TooDim, TooBright, TimeOut}
    {
      !ByteOutOfRange? && !EmptyFrame?
    }
  }

  /** A value or the error raised instead of returning it. */
  datatype Result<+T> = Success(value: T) | Failure(error: Error)

  /** Completion of an operation that returns nothing, or the error it raised. */
  datatype Outcome = Pass | Fail(error: Error)
}

/** The exceptions the Time class raises, one constructor per distinct message. */
module Errors {

  /** The Ruby exception class of an error. */
  datatype ErrorClass = ArgumentError | TypeError | RangeError

  /** The operation named in a "time_t overflow in Time ..." message. */
  datatype ArithOp = Addition | Subtraction

  datatype Error =
    | ArgumentOutOfRange         // ArgumentError "argument out of range"
    | NotAValidTime              // ArgumentError "Not a valid time"
    | Uninitialized              // ArgumentError "uninitialized time"
    | OutOfTimeRange(value: int) // ArgumentError "<value> out of Time range"
    | TimeTooBig                 // ArgumentError "Time too big"
    | CannotConvert              // TypeError "cannot convert <value> to time"
    | WrongArgumentClass         // TypeError "wrong argument class"
    | Overflow(op: ArithOp)      // RangeError "time_t overflow in Time addition|subtraction"
  {
    function Class(): ErrorClass {
      match this
      case CannotConvert | WrongArgumentClass => TypeError
      case Overflow(_) => RangeError
      case _ => ArgumentError
    }
  }
}

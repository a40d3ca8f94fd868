/** The error taxonomy of the driver: every failing operation returns a
    `DynamixelError` that wraps one `ErrorType`. */
module Error {

  import opened Bytes

  /** The five kinds of failure. `StatusError` carries the raw error byte a
      motor reported in its status packet. */
  datatype ErrorType =
    | Parsing
    | UnsupportedRegister
    | StatusError(code: u8)
    | InvalidChecksum
    | Timeout

  datatype DynamixelError = DynamixelError(error: ErrorType)

  /** The outcome of a fallible operation. */
  datatype Result<+T> = Ok(value: T) | Err(err: DynamixelError)

  function ParsingError(): (e: DynamixelError)
    ensures e.error == Parsing
  {
    DynamixelError(Parsing)
  }

  function UnsupportedRegisterError(): (e: DynamixelError)
    ensures e.error == UnsupportedRegister
  {
    DynamixelError(UnsupportedRegister)
  }

  /** The error for a status packet whose error byte is `code`. */
  function StatusErrorCode(code: u8): (e: DynamixelError)
    ensures e.error.StatusError? && e.error.code == code
  {
    DynamixelError(StatusError(code))
  }

  function InvalidChecksumError(): (e: DynamixelError)
    ensures e.error == InvalidChecksum
  {
    DynamixelError(InvalidChecksum)
  }

  function TimeoutError(): (e: DynamixelError)
    ensures e.error == Timeout
  {
    DynamixelError(Timeout)
  }

  /** Equality on error kinds tells every constructor apart, so a caller can
      single out `Timeout`; two status errors are equal exactly when they carry
      the same byte. */
  lemma ErrorTypesDistinct(a: u8, b: u8)
    ensures Parsing != UnsupportedRegister && Parsing != InvalidChecksum && Parsing != Timeout
    ensures UnsupportedRegister != InvalidChecksum && UnsupportedRegister != Timeout
    ensures InvalidChecksum != Timeout
    ensures StatusError(a) != Parsing && StatusError(a) != UnsupportedRegister
    ensures StatusError(a) != InvalidChecksum && StatusError(a) != Timeout
    ensures StatusError(a) == StatusError(b) <==> a == b
  {
  }
}

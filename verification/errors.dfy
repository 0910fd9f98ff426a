/** The exceptions the soft YubiHSM core raises, as a datatype of kinds, and the
    failure-compatible Result type every fallible operation returns. */
module Errors {

  /** One constructor per kind of exception. The message strings of the
      exception classes are not modelled; CommandFailed keeps the command code
      and the status the HSM reported. */
  datatype Error =
    | WrongInputType                        // YHSM_WrongInputType
    | InputTooLong                          // YHSM_InputTooLong
    | WrongInputSize                        // YHSM_WrongInputSize
    | CommandFailed(command: int, status: int)  // YHSM_CommandFailed
    | IntegrityCheckFailed                  // YHSM_Error: 'AEAD integrity check failed'
    | UnknownAeadFormat                     // YHSM_Error: 'Unknown AEAD file format'
    | BadKeyHandle                          // YHSM_Error: could not parse a key handle
    | BadFromKeyLength                      // YHSM_Error: OTP text shorter than 32
    | ResponseMismatch                      // YHSM_Error: a response field does not echo the request
    | StructError                           // struct.pack/unpack refused a value or a buffer size
    | IndexError                            // a buffer was indexed past its end
    | BadHexString                          // ValueError from int(.., 16) or bytes.fromhex
    | InvalidAesKeyLength                   // ValueError from AES.new
    | NoKeyHandles                          // ValueError: the key map is empty
    | UnsupportedKeyLength                  // ValueError: a key of a length AES does not take
    | AeadNotFound                          // Exception: no AEAD file for any key handle

  /** The kinds that are YHSM_Error or one of its subclasses: the only ones
      the KSM request handler catches. */
  predicate IsYhsmError(e: Error) {
    || e.WrongInputType?
    || e.InputTooLong?
    || e.WrongInputSize?
    || e.CommandFailed?
    || e.IntegrityCheckFailed?
    || e.UnknownAeadFormat?
    || e.BadKeyHandle?
    || e.BadFromKeyLength?
    || e.ResponseMismatch?
  }

  datatype Result<+T> = Success(value: T) | Failure(error: Error) {

    predicate IsFailure() {
      Failure?
    }

    function PropagateFailure<U>(): Result<U>
      requires Failure?
    {
      Failure(error)
    }

    function Extract(): T
      requires Success?
    {
      value
    }
  }

  datatype Option<+T> = None | Some(value: T)
}

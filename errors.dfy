/**
 * The printer tool reports failures by raising Python exceptions. Here each
 * exception kind becomes a constructor of `Error`, and every operation that
 * can raise returns a `Result`.
 */
module Errors {
  import opened Bytes

  datatype Option<+T> = None | Some(value: T)
  {
    function GetOr(default: T): T
    {
      match this
      case Some(v) => v
      case None => default
    }
  }

  datatype Error =
    | Timeout                           // OSError(ETIMEDOUT) raised by read
    | UnknownVariable(name: Bytes)      // UnknownVariableError(name) raised by getvar
    | InvalidValue(text: Bytes)         // ValueError (int(), IPv4Address, on/off, name=value)
    | DecodeFailure                     // UnicodeDecodeError from bytes.decode()
    | ReadOnlyVariable(name: Bytes)     // AttributeError from a read-only schema leaf
    | UnencodableValue                  // AttributeError: a non-string has no encode()
    | UnsupportedAuth(auth: Bytes)      // AttributeError: no method wifi_<auth>
    | MissingPassword                   // AttributeError: None has no encode()
    | NoFirmwarePayload                 // BadFirmwareError('No .zpl files in firmware')
    | MultipleFirmwarePayloads          // BadFirmwareError('Multiple .zpl files in firmware')
    | IndexOutOfRange                   // IndexError from a list subscript
    | NoParent                          // TypeError: a block with no parent cannot forward an item

  datatype Result<+T> = Ok(value: T) | Err(error: Error)
}

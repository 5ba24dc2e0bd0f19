/** Failure-compatible wrappers shared by every module of the model.

    Ruby exceptions raised by the connector become `Err` values that carry
    the exception class (an `ErrorKind`) and its message text.
 */
module Wrappers {

  datatype Option<+T> = None | Some(value: T) {
    predicate IsFailure() { None? }

    function PropagateFailure<U>(): Option<U>
      requires None?
    {
      None
    }

    function Extract(): T
      requires Some?
    {
      value
    }
  }

  /** The exception classes the modelled code raises. */
  datatype ErrorKind =
    | ArgumentError        // bad flag, opcode name, Integer() input, slice size
    | RangeError           // opcode outside 0..15, 64-bit length overflow
    | FrameError           // Mongrel2::WebSocket::FrameError
    | HandshakeError       // Mongrel2::WebSocket::HandshakeError
    | ConnectionError      // Mongrel2::ConnectionError
    | UnhandledMethodError // Mongrel2::UnhandledMethodError
    | UploadError          // Mongrel2::UploadError
    | NoMethodError        // a method called on nil or on an object lacking it
    | TypeError            // an implicit conversion Ruby refuses (nil or Array to Integer/String)
    | DecodeError          // a malformed tnetstring or JSON document
    | SystemCallError      // Errno::EINVAL from a negative StringIO position or length
    | EndOfFile            // EOFError from reading past the end of a stream
    | TransportError       // ZMQ::Error from the message queue
    | AddressFamilyError   // IPAddr::AddressFamilyError: no address string to parse
    | Diverges             // no exception: the program loops forever at this point

  datatype Error = Error(kind: ErrorKind, message: string)

  datatype Result<+T> = Ok(value: T) | Err(error: Error) {
    predicate IsFailure() { Err? }

    function PropagateFailure<U>(): Result<U>
      requires Err?
    {
      Err(error)
    }

    function Extract(): T
      requires Ok?
    {
      value
    }
  }

  function Fail<T>(kind: ErrorKind, message: string): Result<T> {
    Err(Error(kind, message))
  }
}

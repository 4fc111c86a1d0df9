/**
 * The error values the core returns: `std::io::Error` (a kind and a message) and the variants
 * of the consensus `encode::Error` that the modelled code constructs.
 */
module Errors {

  datatype IoErrorKind = InvalidInput | UnexpectedEof | Other

  datatype IoError = IoError(kind: IoErrorKind, message: string)

  datatype Error =
    | Io(cause: IoError)
    | ParseFailed(message: string)

  /** What reading one byte from an exhausted source reports (`read_exact` on an empty reader). */
  const END_OF_INPUT: Error := Io(IoError(UnexpectedEof, "failed to fill whole buffer"))
}

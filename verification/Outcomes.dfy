/** Results of the handlers and the error codes they report. */
module Outcomes {

  datatype Option<+T> = None | Some(value: T)

  datatype ErrorCode =
    | InvalidArgument
    | InvalidBid
    | InvalidSize
    | InvalidMagic
    | InvalidState
    | InvalidEnumValue
    | WrongOperationType
    | FrameCrcMismatch
    | RecvFailed
    | RecvCqeMissingBid
    | PeerClosed
    | WriteUnknownFrame
    | TunWriteFailed
    | TunPartialWrite
    | TunReadFailed
    | ReadCqeMissingBid
    | SendFailed
    | SendReturnedZero
    | RingBufferRingSetupFailed
    | InvalidSocket
    | SocksHostnameTooLong
    | SocksAuthMethodUnsupported
    | SocksUnsupportedTargetFamily
    | SocksConnectFailed
    /** A debug assertion of the program would have aborted it. */
    | AssertionFailed

  datatype Result<+T> = Ok(value: T) | Fail(error: ErrorCode)

  /** The result of an operation that returns nothing on success. */
  datatype Outcome = Done | Failed(error: ErrorCode)
}

/** The failures the RCON client raises, and the wrappers that carry them. */
module RconErrors {

  /** One variant per exception the client code throws or reports. */
  datatype Error =
    | NotConnected          // NotConnectedException: no connected socket to write to
    | AlreadyConnected      // IllegalStateException: authenticate while a socket is connected
    | AuthenticationFailed  // RconAuthenticationException: the server answered with id -1
    | EndOfStream           // IOException/EOFException: the input ended too early
    | IllegalArgument       // IllegalArgumentException: ByteBuffer.allocate of a negative size
    | IOFailure             // IOException from opening or closing the socket

  datatype Result<+T> = Ok(value: T) | Err(error: Error)

  datatype Option<+T> = None | Some(value: T)
}

/** The server's error taxonomy (`SocketError`), each case carrying a message. */
module SocketErrors {
  datatype SocketError =
    | SocketCreationFailed(message: string)
    | SocketConnectionFailed(message: string)
    | SocketWriteFailed(message: string)
    | SocketReadFailed(message: string)
}

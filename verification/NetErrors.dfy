/** The ways a request or the reading of its body fails, as far as they are told apart here. */
module NetErrors {
  datatype NetError =
    | Io(message: string)
    | Read(message: string)
    | Transport(message: string)
    | Timeout(message: string)
    | Cancelled(message: string)
}

/** The exceptions the protocol engine raises or lets through. */
module Exceptions {
  import opened Bytes
  import opened SlaveExceptions

  datatype Exception =
    | ArgumentNullException
    | ArgumentOutOfRangeException
    | ArgumentException
    | FormatException
    | IOException
    | TimeoutException
    | NotImplementedException
    | InvalidOperationException
    | InvalidCastException
    | IndexOutOfRangeException
    /** raised by a slave's request handling to answer with an exception response */
    | InvalidModbusRequestException(exceptionCode: byte)
    | SlaveError(slaveException: SlaveException)
    /** any other exception of the runtime (a socket error, a disposed stream, ...) */
    | OtherException(name: string)

  /** The exception kinds after which a transport tries the request again. */
  predicate IsRetryable(e: Exception)
    ensures IsRetryable(e) ==> !e.SlaveError? && !e.InvalidModbusRequestException? && !e.OtherException?
  {
    e.FormatException? || e.NotImplementedException? || e.TimeoutException? || e.IOException?
  }
}

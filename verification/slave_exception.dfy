/**
 * SlaveException: the exception a master raises for an exception response of
 * a slave. It may also be raised with a message only, in which case the slave
 * address, function code and exception code all read as 0.
 */
module SlaveExceptions {
  import opened Wrappers
  import opened Bytes
  import opened Messages

  datatype SlaveException = SlaveException(message: Option<string>, response: Option<SlaveExceptionResponseMessage>)
  {
    /** The function code of the exception response, or 0 without one. */
    function FunctionCode(): (r: byte)
      ensures response.None? ==> r == 0
      ensures response.Some? ==> r == response.value.functionCode
    {
      if response.Some? then response.value.functionCode else 0
    }

    /** The exception code of the exception response, or 0 without one. */
    function SlaveExceptionCode(): (r: byte)
      ensures response.None? ==> r == 0
      ensures response.Some? ==> r == response.value.body.slaveExceptionCode
    {
      if response.Some? then response.value.body.slaveExceptionCode else 0
    }

    /** The slave address of the exception response, or 0 without one. */
    function SlaveAddress(): (r: byte)
      ensures response.None? ==> r == 0
      ensures response.Some? ==> r == response.value.slaveAddress
    {
      if response.Some? then response.value.slaveAddress else 0
    }

    /**
     * The text of the exception: the given message (or the runtime's default
     * text), followed by a line describing the response when there is one.
     */
    function Text(defaultMessage: string, newLine: string, describe: SlaveExceptionResponseMessage -> string): (r: string)
      ensures response.None? ==> r == BaseMessage(defaultMessage)
      ensures response.Some? ==> r == BaseMessage(defaultMessage) + newLine + describe(response.value)
    {
      BaseMessage(defaultMessage) + if response.Some? then newLine + describe(response.value) else ""
    }

    function BaseMessage(defaultMessage: string): string {
      if message.Some? then message.value else defaultMessage
    }
  }

  /** The three projections agree with the response they were built from, and read 0 without one. */
  lemma ProjectionsOfResponse(response: SlaveExceptionResponseMessage, message: Option<string>)
    ensures var e := SlaveException(message, Some(response));
      e.SlaveAddress() == response.slaveAddress && e.FunctionCode() == response.functionCode
      && e.SlaveExceptionCode() == response.body.slaveExceptionCode
    ensures var e := SlaveException(message, None);
      e.SlaveAddress() == 0 && e.FunctionCode() == 0 && e.SlaveExceptionCode() == 0
  {
  }
}

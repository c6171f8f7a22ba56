/**
 * The checks every transport shares: turning a received frame into a
 * response, validating a response against its request, and deciding
 * whether a response is an old one to be skipped.
 */
module ModbusTransportBase {
  import opened Wrappers
  import opened Bytes
  import opened Exceptions
  import opened Messages
  import ModbusConstants
  import ModbusMessageFactory

  /**
   * The response a frame holds: an exception response when the function
   * code is above the exception offset, otherwise a message of the
   * expected class. A frame too short to hold a function code raises
   * IndexOutOfRangeException.
   */
  function CreateResponse(kind: MessageKind, frame: seq<byte>): (r: Result<Message, Exception>)
    ensures |frame| < 2 ==> r == Failure(IndexOutOfRangeException)
    ensures r.Success? ==> (|frame| >= 2 && r.value.slaveAddress == frame[0] && r.value.functionCode == frame[1]
      && r.value.transactionId == 0)
    ensures r.Success? ==> (r.value.body.SlaveExceptionResponse? <==> frame[1] > ModbusConstants.ExceptionOffset)
    ensures r.Success? ==> KindOf(r.value) == kind || KindOf(r.value) == SlaveExceptionResponseType
    ensures |frame| >= 2 && frame[1] <= ModbusConstants.ExceptionOffset ==>
      r == ModbusMessageFactory.CreateModbusMessage(kind, frame)
    ensures r.Failure? ==> r.error in {IndexOutOfRangeException, FormatException, ArgumentOutOfRangeException}
    ensures r.Success? ==> ModbusMessageFactory.FullData(r.value)
  {
    if |frame| < 2 then Failure(IndexOutOfRangeException)
    else
      var functionCode := frame[1];
      if functionCode > ModbusConstants.ExceptionOffset then
        ModbusMessageFactory.CreateModbusMessage(SlaveExceptionResponseType, frame)
      else
        ModbusMessageFactory.CreateModbusMessage(kind, frame)
  }

  /**
   * Validation of a response: a different function code raises IOException,
   * then a different slave address does; then the request's own validation
   * and last the transport's hook (`onValidate`) decide.
   */
  function ValidateResponse(request: Message, response: Message, onValidate: Outcome<Exception>): (r: Outcome<Exception>)
    requires WellTyped(request)
    ensures r.Pass? <==> (request.functionCode == response.functionCode && request.slaveAddress == response.slaveAddress
      && ModbusMessageFactory.RequestValidateResponse(request, response).Pass? && onValidate.Pass?)
    ensures request.functionCode != response.functionCode ==> r == Fail(IOException)
    ensures request.slaveAddress != response.slaveAddress ==> r == Fail(IOException)
    ensures r.Fail? && r.error != IOException ==>
      r == ModbusMessageFactory.RequestValidateResponse(request, response) || r == onValidate
  {
    if request.functionCode != response.functionCode then Fail(IOException)
    else if request.slaveAddress != response.slaveAddress then Fail(IOException)
    else
      var own := ModbusMessageFactory.RequestValidateResponse(request, response);
      if own.Fail? then own else onValidate
  }

  /**
   * Whether to read another response instead of this one: never when the
   * function code or the slave address differ (validation rejects those),
   * otherwise as the transport's hook (`onShouldRetry`) says.
   */
  function ShouldRetryResponse(request: Message, response: Message, onShouldRetry: bool): (r: bool)
    ensures r <==> (request.functionCode == response.functionCode && request.slaveAddress == response.slaveAddress
      && onShouldRetry)
  {
    if request.functionCode != response.functionCode then false
    else if request.slaveAddress != response.slaveAddress then false
    else onShouldRetry
  }
}

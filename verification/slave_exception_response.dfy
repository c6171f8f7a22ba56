/** The exception response a slave sends instead of a normal response (function code plus 128). */
module SlaveExceptionResponseMessage {
  import opened Wrappers
  import opened Bytes
  import opened Exceptions
  import opened Messages
  import opened AbstractModbusMessage
  import ModbusConstants

  const MinimumFrameSize: nat := 3

  /** An exception response with the given function code and exception code. */
  function New(slaveAddress: byte, functionCode: byte, exceptionCode: byte): (r: Message)
    ensures r.slaveAddress == slaveAddress && r.functionCode == functionCode && r.transactionId == 0
    ensures r.body == SlaveExceptionResponse(exceptionCode)
  {
    Message(slaveAddress, functionCode, 0, SlaveExceptionResponse(exceptionCode))
  }

  /** The exception code at offset 2; a function code without the exception offset raises FormatException. */
  function InitializeUnique(slaveAddress: byte, functionCode: byte, frame: seq<byte>): (r: Result<Message, Exception>)
    requires |frame| >= MinimumFrameSize
  {
    if functionCode as int <= ModbusConstants.ExceptionOffset then Failure(FormatException)
    else Success(New(slaveAddress, functionCode, frame[2]))
  }

  /** Decodes a frame of at least three bytes whose function code is above the exception offset. */
  function Create(frame: seq<byte>): (r: Result<Message, Exception>)
    ensures r.Success? ==> |frame| >= 2 && r.value.slaveAddress == frame[0] && r.value.functionCode == frame[1]
    ensures r.Success? <==> |frame| >= MinimumFrameSize && frame[1] as int > ModbusConstants.ExceptionOffset
    ensures r.Failure? ==> r.error == FormatException
    ensures r.Success? ==> (r.value.body == SlaveExceptionResponse(frame[2]) && r.value.transactionId == 0
      && MessageFrame(r.value) == frame[..MinimumFrameSize])
  {
    var header :- Initialize(MinimumFrameSize, frame);
    var r := InitializeUnique(header.0, header.1, frame);
    assert |frame| >= MinimumFrameSize ==> frame[..MinimumFrameSize] == [frame[0], frame[1], frame[2]];
    r
  }

  /** An exception response with a function code above the offset survives encoding and decoding. */
  lemma RoundTrip(m: Message, rest: seq<byte>)
    requires m.body.SlaveExceptionResponse? && m.functionCode as int > ModbusConstants.ExceptionOffset
    ensures Create(MessageFrame(m) + rest) == Success(m.(transactionId := 0))
  {
    assert MessageFrame(m) + rest == [m.slaveAddress, m.functionCode, m.body.slaveExceptionCode] + rest;
  }
}

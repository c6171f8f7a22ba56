/** The write multiple registers response (function code 16). */
module WriteMultipleRegistersResponseMessage {
  import opened Wrappers
  import opened Bytes
  import opened Exceptions
  import opened Messages
  import opened AbstractModbusMessage
  import ModbusConstants

  const MinimumFrameSize: nat := 6

  /** A response acknowledging numberOfPoints registers written from startAddress; more than the register maximum is refused. */
  function New(slaveAddress: byte, startAddress: u16, numberOfPoints: u16): (r: Result<Message, Exception>)
    ensures r.Success? <==> numberOfPoints as nat <= ModbusConstants.MaximumRegisterRequestResponseSize
    ensures r.Failure? ==> r.error == ArgumentOutOfRangeException
    ensures r.Success? ==> r.value == Message(slaveAddress, ModbusConstants.WriteMultipleRegisters, 0,
      WriteMultipleRegistersResponse(startAddress, numberOfPoints))
  {
    var n :- CheckNumberOfPoints(numberOfPoints, ModbusConstants.MaximumRegisterRequestResponseSize);
    Success(Message(slaveAddress, ModbusConstants.WriteMultipleRegisters, 0, WriteMultipleRegistersResponse(startAddress, n)))
  }

  /** The start address at offset 2 and the number of points, at most the register maximum, at offset 4. */
  function InitializeUnique(slaveAddress: byte, functionCode: byte, frame: seq<byte>): (r: Result<Message, Exception>)
    requires |frame| >= MinimumFrameSize
  {
    var startAddress := NetworkToHostOrder(frame, 2);
    var n :- CheckNumberOfPoints(NetworkToHostOrder(frame, 4), ModbusConstants.MaximumRegisterRequestResponseSize);
    Success(Message(slaveAddress, functionCode, 0, WriteMultipleRegistersResponse(startAddress, n)))
  }

  /** Decodes a frame into a response. */
  function Create(frame: seq<byte>): (r: Result<Message, Exception>)
    ensures r.Success? ==> |frame| >= 2 && r.value.slaveAddress == frame[0] && r.value.functionCode == frame[1]
    ensures |frame| < MinimumFrameSize ==> r == Failure(FormatException)
    ensures |frame| >= MinimumFrameSize ==>
      (r.Success? <==> NetworkToHostOrder(frame, 4) as nat <= ModbusConstants.MaximumRegisterRequestResponseSize)
    ensures |frame| >= MinimumFrameSize && r.Failure? ==> r.error == ArgumentOutOfRangeException
    ensures r.Success? ==> (r.value.body.WriteMultipleRegistersResponse? && r.value.transactionId == 0
      && MessageFrame(r.value) == frame[..MinimumFrameSize])
  {
    var header :- Initialize(MinimumFrameSize, frame);
    var r := InitializeUnique(header.0, header.1, frame);
    if r.Success? then HostOrderRoundTrip(frame, 2); HostOrderRoundTrip(frame, 4);
      assert frame[..MinimumFrameSize] == [frame[0], frame[1]] + frame[2..4] + frame[4..6];
      r
    else r
  }

  /** Encoding a response and decoding the frame gives the response back. */
  lemma RoundTrip(m: Message, rest: seq<byte>)
    requires m.body.WriteMultipleRegistersResponse?
    requires m.body.numberOfPoints as nat <= ModbusConstants.MaximumRegisterRequestResponseSize
    ensures Create(MessageFrame(m) + rest) == Success(m.(transactionId := 0))
  {
    var s, n := m.body.startAddress, m.body.numberOfPoints;
    var frame := MessageFrame(m) + rest;
    assert frame[2] == s / 0x100 && frame[3] == s % 0x100;
    assert frame[4] == n / 0x100 && frame[5] == n % 0x100;
  }
}

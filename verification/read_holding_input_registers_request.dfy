/** The read holding registers / read input registers request (function codes 3 and 4). */
module ReadHoldingInputRegistersRequestMessage {
  import opened Wrappers
  import opened Bytes
  import opened Exceptions
  import opened Messages
  import opened AbstractModbusMessage
  import ModbusConstants

  const MinimumFrameSize: nat := 6

  /** A request for numberOfPoints registers from startAddress; more than the register maximum is refused. */
  function New(functionCode: byte, slaveAddress: byte, startAddress: u16, numberOfPoints: u16): (r: Result<Message, Exception>)
    ensures r.Success? <==> numberOfPoints as nat <= ModbusConstants.MaximumRegisterRequestResponseSize
    ensures r.Failure? ==> r.error == ArgumentOutOfRangeException
    ensures r.Success? ==> r.value == Message(slaveAddress, functionCode, 0, ReadHoldingInputRegistersRequest(startAddress, numberOfPoints))
  {
    var n :- CheckNumberOfPoints(numberOfPoints, ModbusConstants.MaximumRegisterRequestResponseSize);
    Success(Message(slaveAddress, functionCode, 0, ReadHoldingInputRegistersRequest(startAddress, n)))
  }

  /** The fields after the header: big-endian start address at offset 2 and number of points at offset 4. */
  function InitializeUnique(slaveAddress: byte, functionCode: byte, frame: seq<byte>): (r: Result<Message, Exception>)
    requires |frame| >= MinimumFrameSize
  {
    New(functionCode, slaveAddress, NetworkToHostOrder(frame, 2), NetworkToHostOrder(frame, 4))
  }

  /** Decodes a frame into a request. */
  function Create(frame: seq<byte>): (r: Result<Message, Exception>)
    ensures r.Success? ==> |frame| >= 2 && r.value.slaveAddress == frame[0] && r.value.functionCode == frame[1]
    ensures r.Success? ==> r.value.body.ReadHoldingInputRegistersRequest? && r.value.transactionId == 0
    ensures r.Success? ==> |frame| >= MinimumFrameSize && MessageFrame(r.value) == frame[..MinimumFrameSize]
    ensures |frame| < MinimumFrameSize ==> r == Failure(FormatException)
    ensures |frame| >= MinimumFrameSize ==>
      (r.Success? <==> NetworkToHostOrder(frame, 4) as nat <= ModbusConstants.MaximumRegisterRequestResponseSize)
    ensures |frame| >= MinimumFrameSize && r.Failure? ==> r.error == ArgumentOutOfRangeException
  {
    var header :- Initialize(MinimumFrameSize, frame);
    var r := InitializeUnique(header.0, header.1, frame);
    if r.Success? then HostOrderRoundTrip(frame, 2); HostOrderRoundTrip(frame, 4);
      assert frame[..MinimumFrameSize] == [frame[0], frame[1]] + frame[2..4] + frame[4..6];
      r
    else r
  }

  /** Encoding a request and decoding the frame gives the request back, whatever follows the frame. */
  lemma {:induction false} RoundTrip(m: Message, rest: seq<byte>)
    requires m.body.ReadHoldingInputRegistersRequest?
    requires m.body.numberOfPoints as nat <= ModbusConstants.MaximumRegisterRequestResponseSize
    ensures Create(MessageFrame(m) + rest) == Success(m.(transactionId := 0))
  {
    var s, n := m.body.startAddress, m.body.numberOfPoints;
    var frame := MessageFrame(m) + rest;
    assert frame == [m.slaveAddress, m.functionCode] + HostToNetworkOrder(s) + (HostToNetworkOrder(n) + rest);
    NetworkOrderRoundTrip(s, [m.slaveAddress, m.functionCode], HostToNetworkOrder(n) + rest);
    assert frame == [m.slaveAddress, m.functionCode] + HostToNetworkOrder(s) + HostToNetworkOrder(n) + rest;
    NetworkOrderRoundTrip(n, [m.slaveAddress, m.functionCode] + HostToNetworkOrder(s), rest);
  }

  /**
   * A response passes validation when it is a read holding / input registers
   * response whose byte count is twice the requested number of registers; a
   * response of another class raises InvalidCastException, a wrong byte
   * count IOException.
   */
  function ValidateResponse(request: Message, response: Message): (r: Outcome<Exception>)
    requires request.body.ReadHoldingInputRegistersRequest?
    ensures r.Pass? <==> (response.body.ReadHoldingInputRegistersResponse?
      && response.body.byteCount as int == request.body.numberOfPoints as int * 2)
    ensures !response.body.ReadHoldingInputRegistersResponse? ==> r == Fail(InvalidCastException)
    ensures response.body.ReadHoldingInputRegistersResponse? && r.Fail? ==> r.error == IOException
  {
    if !response.body.ReadHoldingInputRegistersResponse? then Fail(InvalidCastException)
    else if request.body.numberOfPoints as int * 2 != response.body.byteCount as int then Fail(IOException)
    else Pass
  }
}

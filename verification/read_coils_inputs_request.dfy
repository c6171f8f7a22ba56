/** The read coils / read discrete inputs request (function codes 1 and 2). */
module ReadCoilsInputsRequestMessage {
  import opened Wrappers
  import opened Bytes
  import opened Exceptions
  import opened Messages
  import opened AbstractModbusMessage
  import ModbusConstants

  const MinimumFrameSize: nat := 6

  /** A request for numberOfPoints discretes from startAddress; more than the discrete maximum is refused. */
  function New(functionCode: byte, slaveAddress: byte, startAddress: u16, numberOfPoints: u16): (r: Result<Message, Exception>)
    ensures r.Success? <==> numberOfPoints as nat <= ModbusConstants.MaximumDiscreteRequestResponseSize
    ensures r.Failure? ==> r.error == ArgumentOutOfRangeException
    ensures r.Success? ==> r.value == Message(slaveAddress, functionCode, 0, ReadCoilsInputsRequest(startAddress, numberOfPoints))
  {
    var n :- CheckNumberOfPoints(numberOfPoints, ModbusConstants.MaximumDiscreteRequestResponseSize);
    Success(Message(slaveAddress, functionCode, 0, ReadCoilsInputsRequest(startAddress, n)))
  }

  /** The fields after the header: big-endian start address at offset 2 and number of points at offset 4. */
  function InitializeUnique(slaveAddress: byte, functionCode: byte, frame: seq<byte>): (r: Result<Message, Exception>)
    requires |frame| >= MinimumFrameSize
  {
    New(functionCode, slaveAddress, NetworkToHostOrder(frame, 2), NetworkToHostOrder(frame, 4))
  }

  /** Decodes a frame into a request. */
  function Create(frame: seq<byte>): (r: Result<Message, Exception>)
    ensures r.Success? ==> |frame| >= 2 && r.value.slaveAddress == frame[0] && r.value.functionCode == frame[1]
    ensures r.Success? ==> r.value.body.ReadCoilsInputsRequest? && r.value.transactionId == 0
    ensures r.Success? ==> |frame| >= MinimumFrameSize && MessageFrame(r.value) == frame[..MinimumFrameSize]
    ensures |frame| < MinimumFrameSize ==> r == Failure(FormatException)
    ensures |frame| >= MinimumFrameSize ==>
      (r.Success? <==> NetworkToHostOrder(frame, 4) as nat <= ModbusConstants.MaximumDiscreteRequestResponseSize)
    ensures |frame| >= MinimumFrameSize && r.Failure? ==> r.error == ArgumentOutOfRangeException
  {
    var header :- Initialize(MinimumFrameSize, frame);
    var r := InitializeUnique(header.0, header.1, frame);
    if r.Success? then HostOrderRoundTrip(frame, 2); HostOrderRoundTrip(frame, 4);
      assert frame[..MinimumFrameSize] == [frame[0], frame[1]] + frame[2..4] + frame[4..6];
      r
    else r
  }

  /** Encoding a request and decoding the frame gives the request back, whatever follows the frame. */
  lemma {:induction false} RoundTrip(m: Message, rest: seq<byte>)
    requires m.body.ReadCoilsInputsRequest?
    requires m.body.numberOfPoints as nat <= ModbusConstants.MaximumDiscreteRequestResponseSize
    ensures Create(MessageFrame(m) + rest) == Success(m.(transactionId := 0))
  {
    var s, n := m.body.startAddress, m.body.numberOfPoints;
    var frame := MessageFrame(m) + rest;
    assert frame == [m.slaveAddress, m.functionCode] + HostToNetworkOrder(s) + (HostToNetworkOrder(n) + rest);
    NetworkOrderRoundTrip(s, [m.slaveAddress, m.functionCode], HostToNetworkOrder(n) + rest);
    assert frame == [m.slaveAddress, m.functionCode] + HostToNetworkOrder(s) + HostToNetworkOrder(n) + rest;
    NetworkOrderRoundTrip(n, [m.slaveAddress, m.functionCode] + HostToNetworkOrder(s), rest);
  }

  /**
   * A response passes validation when it is a read coils / inputs response
   * whose byte count is the number of bytes the requested discretes need;
   * a response of another class raises InvalidCastException, a wrong byte
   * count IOException.
   */
  function ValidateResponse(request: Message, response: Message): (r: Outcome<Exception>)
    requires request.body.ReadCoilsInputsRequest?
    ensures r.Pass? <==> (response.body.ReadCoilsInputsResponse?
      && response.body.byteCount as int == (request.body.numberOfPoints as int + 7) / 8)
    ensures !response.body.ReadCoilsInputsResponse? ==> r == Fail(InvalidCastException)
    ensures response.body.ReadCoilsInputsResponse? && r.Fail? ==> r.error == IOException
  {
    if !response.body.ReadCoilsInputsResponse? then Fail(InvalidCastException)
    else if (request.body.numberOfPoints as int + 7) / 8 != response.body.byteCount as int then Fail(IOException)
    else Pass
  }

  /** Validation is best effort: requests for 1 and for 6 coils accept the same response. */
  lemma BestEffortValidation(response: Message)
    requires response.body.ReadCoilsInputsResponse? && response.body.byteCount == 1
    ensures ValidateResponse(Message(1, 1, 0, ReadCoilsInputsRequest(0, 1)), response) == Pass
    ensures ValidateResponse(Message(1, 1, 0, ReadCoilsInputsRequest(0, 6)), response) == Pass
  {
  }
}

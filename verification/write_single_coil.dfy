/** The write single coil request, which the slave echoes as its response (function code 5). */
module WriteSingleCoilRequestResponseMessage {
  import opened Wrappers
  import opened Bytes
  import opened Exceptions
  import opened Messages
  import opened DataCollections
  import opened SequenceUtility
  import opened AbstractModbusMessage
  import ModbusConstants

  const MinimumFrameSize: nat := 6

  /** A request to set the coil at startAddress on (0xFF00) or off (0x0000). */
  function New(slaveAddress: byte, startAddress: u16, coilState: bool): (r: Message)
    ensures r.slaveAddress == slaveAddress && r.functionCode == ModbusConstants.WriteSingleCoil && r.transactionId == 0
    ensures r.body.WriteSingleCoilRequestResponse? && r.body.startAddress == startAddress
    ensures r.body.value == ModbusConstants.CoilOn <==> coilState
    ensures r.body.value == ModbusConstants.CoilOff <==> !coilState
  {
    Message(slaveAddress, ModbusConstants.WriteSingleCoil, 0,
      WriteSingleCoilRequestResponse(startAddress, if coilState then ModbusConstants.CoilOn else ModbusConstants.CoilOff))
  }

  /** The start address at offset 2 and the coil value, read as one register, at offset 4. */
  function InitializeUnique(slaveAddress: byte, functionCode: byte, frame: seq<byte>): (r: Message)
    requires |frame| >= MinimumFrameSize
  {
    var data := RegistersFromBytes(Slice(Some(frame), 4, 2).value).value;
    Message(slaveAddress, functionCode, 0, WriteSingleCoilRequestResponse(NetworkToHostOrder(frame, 2), data[0]))
  }

  /** Decodes a frame; any frame of at least six bytes decodes, and its first six bytes are the message frame. */
  function Create(frame: seq<byte>): (r: Result<Message, Exception>)
    ensures r.Success? ==> |frame| >= 2 && r.value.slaveAddress == frame[0] && r.value.functionCode == frame[1]
    ensures r.Success? <==> |frame| >= MinimumFrameSize
    ensures r.Failure? ==> r.error == FormatException
    ensures r.Success? ==> (r.value.body.WriteSingleCoilRequestResponse? && r.value.transactionId == 0
      && MessageFrame(r.value) == frame[..MinimumFrameSize])
  {
    var header :- Initialize(MinimumFrameSize, frame);
    var m := InitializeUnique(header.0, header.1, frame);
    HostOrderRoundTrip(frame, 2);
    HostOrderRoundTrip(frame, 4);
    assert frame[..MinimumFrameSize] == [frame[0], frame[1]] + frame[2..4] + frame[4..6];
    Success(m)
  }

  /** Encoding a request and decoding the frame gives the request back. */
  lemma RoundTrip(m: Message, rest: seq<byte>)
    requires m.body.WriteSingleCoilRequestResponse?
    ensures Create(MessageFrame(m) + rest) == Success(m.(transactionId := 0))
  {
    var s, v := m.body.startAddress, m.body.value;
    var frame := MessageFrame(m) + rest;
    assert frame == [m.slaveAddress, m.functionCode] + HostToNetworkOrder(s) + (HostToNetworkOrder(v) + rest);
    NetworkOrderRoundTrip(s, [m.slaveAddress, m.functionCode], HostToNetworkOrder(v) + rest);
    NetworkOrderRoundTrip(v, [], []);
    assert frame[4..6] == [] + HostToNetworkOrder(v) + [];
  }

  /**
   * A response passes validation when it is a write single coil message with
   * the request's start address and coil value; a response of another class
   * raises InvalidCastException, a differing address or value IOException.
   */
  function ValidateResponse(request: Message, response: Message): (r: Outcome<Exception>)
    requires request.body.WriteSingleCoilRequestResponse?
    ensures r.Pass? <==> response.body == request.body
    ensures !response.body.WriteSingleCoilRequestResponse? ==> r == Fail(InvalidCastException)
    ensures response.body.WriteSingleCoilRequestResponse? && r.Fail? ==> r.error == IOException
  {
    if !response.body.WriteSingleCoilRequestResponse? then Fail(InvalidCastException)
    else if request.body.startAddress != response.body.startAddress then Fail(IOException)
    else if request.body.value != response.body.value then Fail(IOException)
    else Pass
  }
}

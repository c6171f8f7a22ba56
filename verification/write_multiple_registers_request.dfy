/** The write multiple registers request (function code 16). */
module WriteMultipleRegistersRequestMessage {
  import opened Wrappers
  import opened Bytes
  import opened Exceptions
  import opened Messages
  import opened DataCollections
  import opened SequenceUtility
  import opened AbstractModbusMessage
  import ModbusConstants
  import ModbusMessageImpl

  const MinimumFrameSize: nat := 7

  /**
   * A request to write the given registers from startAddress. The number of
   * points is the count truncated to 16 bits and must not exceed the register
   * maximum (ArgumentOutOfRangeException); the byte count is the
   * collection's byte count.
   */
  function New(slaveAddress: byte, startAddress: u16, data: seq<u16>): (r: Result<Message, Exception>)
    ensures r.Success? <==> |data| % 0x10000 <= ModbusConstants.MaximumRegisterRequestResponseSize
    ensures r.Failure? ==> r.error == ArgumentOutOfRangeException
    ensures r.Success? ==> (r.value.slaveAddress == slaveAddress && r.value.transactionId == 0
      && r.value.functionCode == ModbusConstants.WriteMultipleRegisters
      && r.value.body.WriteMultipleRegistersRequest? && r.value.body.startAddress == startAddress
      && r.value.body.registers == data && r.value.body.byteCount == RegisterByteCount(data))
    ensures |data| <= ModbusConstants.MaximumRegisterRequestResponseSize ==>
      (r.Success? && r.value.body.numberOfPoints as int == |data| && r.value.body.byteCount as int == 2 * |data|)
  {
    var n :- CheckNumberOfPoints((|data| % 0x10000) as u16, ModbusConstants.MaximumRegisterRequestResponseSize);
    Success(Message(slaveAddress, ModbusConstants.WriteMultipleRegisters, 0,
      WriteMultipleRegistersRequest(startAddress, n, RegisterByteCount(data), data)))
  }

  /**
   * The start address at offset 2, the number of points at offset 4 (at most
   * the register maximum), the byte count at offset 6 and that many data
   * bytes after it, two per register; a frame shorter than its byte count
   * says, or an odd byte count, raises FormatException.
   */
  function InitializeUnique(slaveAddress: byte, functionCode: byte, frame: seq<byte>): (r: Result<Message, Exception>)
    requires |frame| >= MinimumFrameSize
  {
    if |frame| < MinimumFrameSize + frame[6] as int then Failure(FormatException)
    else
      var startAddress := NetworkToHostOrder(frame, 2);
      var n :- CheckNumberOfPoints(NetworkToHostOrder(frame, 4), ModbusConstants.MaximumRegisterRequestResponseSize);
      var bytes := Slice(Some(frame), 7, frame[6] as int).value;
      var registers :- RegistersFromBytes(bytes);
      Success(Message(slaveAddress, functionCode, 0, WriteMultipleRegistersRequest(startAddress, n, frame[6], registers)))
  }

  /**
   * Decodes a frame: a frame shorter than seven bytes or than its byte count
   * says raises FormatException, then a number of points above the maximum
   * ArgumentOutOfRangeException, then an odd byte count FormatException.
   */
  function Create(frame: seq<byte>): (r: Result<Message, Exception>)
    ensures r.Success? ==> |frame| >= 2 && r.value.slaveAddress == frame[0] && r.value.functionCode == frame[1]
    ensures |frame| < MinimumFrameSize || |frame| < MinimumFrameSize + frame[6] as int ==> r == Failure(FormatException)
    ensures |frame| >= MinimumFrameSize && |frame| >= MinimumFrameSize + frame[6] as int ==>
      (r.Success? <==> (NetworkToHostOrder(frame, 4) as nat <= ModbusConstants.MaximumRegisterRequestResponseSize
        && frame[6] % 2 == 0))
    ensures r.Failure? ==> r.error in {FormatException, ArgumentOutOfRangeException}
    ensures r.Success? ==> (r.value.body.WriteMultipleRegistersRequest? && r.value.transactionId == 0
      && 2 * |r.value.body.registers| == r.value.body.byteCount as int)
  {
    var header :- Initialize(MinimumFrameSize, frame);
    InitializeUnique(header.0, header.1, frame)
  }

  /** The message frame of a decoded write-multiple-registers request is the part of the frame it was decoded from: header, start, count, byte count and registers. */
  lemma DecodedFrame(frame: seq<byte>)
    requires Create(frame).Success?
    ensures MessageFrame(Create(frame).value) == frame[..MinimumFrameSize + frame[6] as int]
  {
    DecodedRequest(frame);
    FieldsFrame(frame);
  }

  /** The frame of the request holding a frame's fields is the frame's first bytes. */
  lemma FieldsFrame(frame: seq<byte>)
    requires |frame| >= 7 && |frame| >= 7 + frame[6] as int
    requires RegistersFromBytes(frame[7..7 + frame[6] as int]).Success?
    ensures MessageFrame(Message(frame[0], frame[1], 0, WriteMultipleRegistersRequest(NetworkToHostOrder(frame, 2),
      NetworkToHostOrder(frame, 4), frame[6], RegistersFromBytes(frame[7..7 + frame[6] as int]).value))) == frame[..7 + frame[6] as int]
  {
    var m := Message(frame[0], frame[1], 0, WriteMultipleRegistersRequest(NetworkToHostOrder(frame, 2),
      NetworkToHostOrder(frame, 4), frame[6], RegistersFromBytes(frame[7..7 + frame[6] as int]).value));
    var d := frame[7..7 + frame[6] as int];
    HostOrderRoundTrip(frame, 2);
    HostOrderRoundTrip(frame, 4);
    RegisterBytesRoundTrip(d);
    FrameLayout(m);
    HeaderLayout(frame, 7 + frame[6] as int, HostToNetworkOrder(m.body.startAddress),
      HostToNetworkOrder(m.body.numberOfPoints), RegisterNetworkBytes(RegistersFromBytes(d).value));
  }

  /** The fields of a decoded request are the frame's. */
  lemma DecodedRequest(frame: seq<byte>)
    requires Create(frame).Success?
    ensures |frame| >= 7 + frame[6] as int
    ensures Create(frame).value == Message(frame[0], frame[1], 0, WriteMultipleRegistersRequest(NetworkToHostOrder(frame, 2),
      NetworkToHostOrder(frame, 4), frame[6], RegistersFromBytes(frame[7..7 + frame[6] as int]).value))
  {
    var bytes := frame[7..7 + frame[6] as int];
    assert Slice(Some(frame), 7, frame[6] as int).value == bytes;
  }

  /** A frame's first k bytes are its header, two words, its byte count and the bytes after those. */
  lemma HeaderLayout(frame: seq<byte>, k: nat, startAddress: seq<byte>, numberOfPoints: seq<byte>, data: seq<byte>)
    requires 7 <= k <= |frame|
    requires startAddress == frame[2..4] && numberOfPoints == frame[4..6] && data == frame[7..k]
    ensures frame[..k] == [frame[0], frame[1]] + startAddress + numberOfPoints + [frame[6]] + data
  {
    assert frame[..k] == [frame[0], frame[1]] + frame[2..4] + frame[4..6] + [frame[6]] + frame[7..k];
  }

  /** Encoding a request whose byte count matches its registers and decoding the frame gives the request back. */
  lemma RoundTrip(m: Message, rest: seq<byte>)
    requires m.body.WriteMultipleRegistersRequest?
    requires m.body.numberOfPoints as nat <= ModbusConstants.MaximumRegisterRequestResponseSize
    requires m.body.byteCount as int == 2 * |m.body.registers|
    ensures Create(MessageFrame(m) + rest) == Success(m.(transactionId := 0))
  {
    FrameLayout(m);
    var bytes := RegisterNetworkBytes(m.body.registers);
    assert MessageFrame(m) + rest == [m.slaveAddress, m.functionCode] + HostToNetworkOrder(m.body.startAddress)
      + HostToNetworkOrder(m.body.numberOfPoints) + [|bytes| as byte] + bytes + rest;
    FieldsLayout(m.slaveAddress, m.functionCode, m.body.startAddress, m.body.numberOfPoints, bytes, rest);
    RegistersRoundTrip(m.body.registers);
    DecodeFields(MessageFrame(m) + rest, m.body.startAddress, m.body.numberOfPoints, bytes);
  }

  /** Where each field of a laid-out frame sits. */
  lemma FieldsLayout(slaveAddress: byte, functionCode: byte, s: u16, n: u16, bytes: seq<byte>, rest: seq<byte>)
    requires |bytes| < 0x100
    ensures var frame := [slaveAddress, functionCode] + HostToNetworkOrder(s) + HostToNetworkOrder(n)
        + [|bytes| as byte] + bytes + rest;
      |frame| >= 7 + |bytes| && frame[0] == slaveAddress && frame[1] == functionCode
      && NetworkToHostOrder(frame, 2) == s && NetworkToHostOrder(frame, 4) == n
      && frame[6] as int == |bytes| && frame[7..7 + |bytes|] == bytes
  {
    var frame := [slaveAddress, functionCode] + HostToNetworkOrder(s) + HostToNetworkOrder(n) + [|bytes| as byte] + bytes + rest;
    assert frame[2] == s / 0x100 && frame[3] == s % 0x100;
    assert frame[4] == n / 0x100 && frame[5] == n % 0x100;
    assert frame[7..7 + |bytes|] == bytes;
  }

  /** A frame whose fields hold the given values decodes to the request with those values. */
  lemma DecodeFields(frame: seq<byte>, s: u16, n: u16, bytes: seq<byte>)
    requires |frame| >= 7 + |bytes| && frame[6] as int == |bytes| && frame[7..7 + |bytes|] == bytes
    requires NetworkToHostOrder(frame, 2) == s && NetworkToHostOrder(frame, 4) == n
    requires n as nat <= ModbusConstants.MaximumRegisterRequestResponseSize && |bytes| % 2 == 0
    ensures Create(frame) == Success(Message(frame[0], frame[1], 0,
      WriteMultipleRegistersRequest(s, n, frame[6], RegistersFromBytes(bytes).value)))
  {
    assert Slice(Some(frame), 7, frame[6] as int).value == bytes;
  }

  /** The frame of a request: header, start address, number of points, byte count, registers. */
  lemma FrameLayout(m: Message)
    requires m.body.WriteMultipleRegistersRequest?
    ensures MessageFrame(m) == [m.slaveAddress, m.functionCode] + HostToNetworkOrder(m.body.startAddress)
      + HostToNetworkOrder(m.body.numberOfPoints) + [m.body.byteCount] + RegisterNetworkBytes(m.body.registers)
  {
    MessageFramesAgree(m);
    ModbusMessageImpl.WriteFieldsFrame(FieldsOf(m), m.body.startAddress, m.body.numberOfPoints, m.body.byteCount,
      ModbusMessageImpl.Registers(m.body.registers));
  }

  /** The requests New builds from at most 127 registers survive encoding and decoding. */
  lemma NewRoundTrip(slaveAddress: byte, startAddress: u16, data: seq<u16>, rest: seq<byte>)
    requires |data| <= ModbusConstants.MaximumRegisterRequestResponseSize
    ensures New(slaveAddress, startAddress, data).Success?
    ensures Create(MessageFrame(New(slaveAddress, startAddress, data).value) + rest) == New(slaveAddress, startAddress, data)
  {
    RoundTrip(New(slaveAddress, startAddress, data).value, rest);
  }

  /**
   * A response passes validation when it is a write multiple registers
   * response with the request's start address and number of points; a
   * response of another class raises InvalidCastException, a differing
   * address or count IOException.
   */
  function ValidateResponse(request: Message, response: Message): (r: Outcome<Exception>)
    requires request.body.WriteMultipleRegistersRequest?
    ensures r.Pass? <==> response.body == WriteMultipleRegistersResponse(request.body.startAddress, request.body.numberOfPoints)
    ensures !response.body.WriteMultipleRegistersResponse? ==> r == Fail(InvalidCastException)
    ensures response.body.WriteMultipleRegistersResponse? && r.Fail? ==> r.error == IOException
  {
    if !response.body.WriteMultipleRegistersResponse? then Fail(InvalidCastException)
    else if request.body.startAddress != response.body.startAddress then Fail(IOException)
    else if request.body.numberOfPoints != response.body.numberOfPoints then Fail(IOException)
    else Pass
  }
}

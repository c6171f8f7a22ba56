/** The write multiple coils request (function code 15). */
module WriteMultipleCoilsRequestMessage {
  import opened Wrappers
  import opened Bytes
  import opened Exceptions
  import opened Messages
  import opened DataCollections
  import opened SequenceUtility
  import opened AbstractModbusMessage
  import ModbusConstants
  import ModbusMessageImpl

  const MinimumFrameSize: nat := 7

  /**
   * A request to write the given discretes from startAddress. The number of
   * points is the count truncated to 16 bits and must not exceed the discrete
   * maximum (ArgumentOutOfRangeException); the byte count is the number of
   * bytes the discretes need, truncated to 8 bits.
   */
  function New(slaveAddress: byte, startAddress: u16, data: seq<bool>): (r: Result<Message, Exception>)
    ensures r.Success? <==> |data| % 0x10000 <= ModbusConstants.MaximumDiscreteRequestResponseSize
    ensures r.Failure? ==> r.error == ArgumentOutOfRangeException
    ensures r.Success? ==> (r.value.slaveAddress == slaveAddress && r.value.transactionId == 0
      && r.value.functionCode == ModbusConstants.WriteMultipleCoils
      && r.value.body.WriteMultipleCoilsRequest? && r.value.body.startAddress == startAddress
      && r.value.body.discretes == data && r.value.body.byteCount == DiscreteByteCount(data))
    ensures |data| <= ModbusConstants.MaximumDiscreteRequestResponseSize ==>
      (r.Success? && r.value.body.numberOfPoints as int == |data|
        && r.value.body.byteCount as int == |DiscreteNetworkBytes(data)|)
  {
    var n :- CheckNumberOfPoints((|data| % 0x10000) as u16, ModbusConstants.MaximumDiscreteRequestResponseSize);
    Success(Message(slaveAddress, ModbusConstants.WriteMultipleCoils, 0,
      WriteMultipleCoilsRequest(startAddress, n, DiscreteByteCount(data), data)))
  }

  /**
   * The start address at offset 2, the number of points at offset 4 (at most
   * the discrete maximum), the byte count at offset 6 and that many data
   * bytes after it; a frame shorter than its byte count says raises
   * FormatException.
   */
  function InitializeUnique(slaveAddress: byte, functionCode: byte, frame: seq<byte>): (r: Result<Message, Exception>)
    requires |frame| >= MinimumFrameSize
  {
    if |frame| < MinimumFrameSize + frame[6] as int then Failure(FormatException)
    else
      var startAddress := NetworkToHostOrder(frame, 2);
      var n :- CheckNumberOfPoints(NetworkToHostOrder(frame, 4), ModbusConstants.MaximumDiscreteRequestResponseSize);
      var bytes := Slice(Some(frame), 7, frame[6] as int).value;
      Success(Message(slaveAddress, functionCode, 0,
        WriteMultipleCoilsRequest(startAddress, n, frame[6], DiscretesFromBytes(bytes))))
  }

  /**
   * Decodes a frame: a frame shorter than seven bytes or than its byte count
   * says raises FormatException, a number of points above the maximum
   * ArgumentOutOfRangeException.
   */
  function Create(frame: seq<byte>): (r: Result<Message, Exception>)
    ensures r.Success? ==> |frame| >= 2 && r.value.slaveAddress == frame[0] && r.value.functionCode == frame[1]
    ensures |frame| < MinimumFrameSize || |frame| < MinimumFrameSize + frame[6] as int ==> r == Failure(FormatException)
    ensures |frame| >= MinimumFrameSize && |frame| >= MinimumFrameSize + frame[6] as int ==>
      (r.Success? <==> NetworkToHostOrder(frame, 4) as nat <= ModbusConstants.MaximumDiscreteRequestResponseSize)
    ensures r.Failure? ==> r.error in {FormatException, ArgumentOutOfRangeException}
    ensures r.Success? ==> (r.value.body.WriteMultipleCoilsRequest? && r.value.transactionId == 0
      && |r.value.body.discretes| == 8 * r.value.body.byteCount as int)
  {
    var header :- Initialize(MinimumFrameSize, frame);
    InitializeUnique(header.0, header.1, frame)
  }

  /** The message frame of a decoded write-multiple-coils request is the part of the frame it was decoded from: header, start, count, byte count and packed coils. */
  lemma DecodedFrame(frame: seq<byte>)
    requires Create(frame).Success?
    ensures MessageFrame(Create(frame).value) == frame[..MinimumFrameSize + frame[6] as int]
  {
    DecodedRequest(frame);
    FieldsFrame(frame);
  }

  /** The frame of the request holding a frame's fields is the frame's first bytes. */
  lemma FieldsFrame(frame: seq<byte>)
    requires |frame| >= 7 && |frame| >= 7 + frame[6] as int
    ensures MessageFrame(Message(frame[0], frame[1], 0, WriteMultipleCoilsRequest(NetworkToHostOrder(frame, 2),
      NetworkToHostOrder(frame, 4), frame[6], DiscretesFromBytes(frame[7..7 + frame[6] as int])))) == frame[..7 + frame[6] as int]
  {
    var m := Message(frame[0], frame[1], 0, WriteMultipleCoilsRequest(NetworkToHostOrder(frame, 2),
      NetworkToHostOrder(frame, 4), frame[6], DiscretesFromBytes(frame[7..7 + frame[6] as int])));
    var d := frame[7..7 + frame[6] as int];
    HostOrderRoundTrip(frame, 2);
    HostOrderRoundTrip(frame, 4);
    DiscreteBytesRoundTrip(d);
    FrameLayout(m);
    HeaderLayout(frame, 7 + frame[6] as int, HostToNetworkOrder(m.body.startAddress),
      HostToNetworkOrder(m.body.numberOfPoints), DiscreteNetworkBytes(DiscretesFromBytes(d)));
  }

  /** The fields of a decoded request are the frame's. */
  lemma DecodedRequest(frame: seq<byte>)
    requires Create(frame).Success?
    ensures |frame| >= 7 + frame[6] as int
    ensures Create(frame).value == Message(frame[0], frame[1], 0, WriteMultipleCoilsRequest(NetworkToHostOrder(frame, 2),
      NetworkToHostOrder(frame, 4), frame[6], DiscretesFromBytes(frame[7..7 + frame[6] as int])))
  {
    var bytes := frame[7..7 + frame[6] as int];
    assert Slice(Some(frame), 7, frame[6] as int).value == bytes;
  }

  /** A frame's first k bytes are its header, two words, its byte count and the bytes after those. */
  lemma HeaderLayout(frame: seq<byte>, k: nat, startAddress: seq<byte>, numberOfPoints: seq<byte>, data: seq<byte>)
    requires 7 <= k <= |frame|
    requires startAddress == frame[2..4] && numberOfPoints == frame[4..6] && data == frame[7..k]
    ensures frame[..k] == [frame[0], frame[1]] + startAddress + numberOfPoints + [frame[6]] + data
  {
    assert frame[..k] == [frame[0], frame[1]] + frame[2..4] + frame[4..6] + [frame[6]] + frame[7..k];
  }

  /**
   * Encoding a request whose byte count matches its discretes and decoding
   * the frame gives the request back, with the discretes padded to whole
   * bytes.
   */
  lemma RoundTrip(m: Message, rest: seq<byte>)
    requires m.body.WriteMultipleCoilsRequest?
    requires m.body.numberOfPoints as nat <= ModbusConstants.MaximumDiscreteRequestResponseSize
    requires m.body.byteCount as int == (|m.body.discretes| + 7) / 8
    ensures Create(MessageFrame(m) + rest)
      == Success(m.(transactionId := 0, body := m.body.(discretes := Padded(m.body.discretes))))
  {
    FrameLayout(m);
    assert MessageFrame(m) + rest == [m.slaveAddress, m.functionCode] + HostToNetworkOrder(m.body.startAddress)
      + HostToNetworkOrder(m.body.numberOfPoints) + [m.body.byteCount] + DiscreteNetworkBytes(m.body.discretes) + rest;
    DecodeLayout(m.slaveAddress, m.functionCode, m.body.startAddress, m.body.numberOfPoints,
      DiscreteNetworkBytes(m.body.discretes), rest);
    DiscretesRoundTrip(m.body.discretes);
  }

  /** Decoding a frame laid out field by field gives back the fields. */
  lemma DecodeLayout(slaveAddress: byte, functionCode: byte, s: u16, n: u16, bytes: seq<byte>, rest: seq<byte>)
    requires n as nat <= ModbusConstants.MaximumDiscreteRequestResponseSize
    requires |bytes| < 0x100
    ensures Create([slaveAddress, functionCode] + HostToNetworkOrder(s) + HostToNetworkOrder(n) + [|bytes| as byte]
        + bytes + rest)
      == Success(Message(slaveAddress, functionCode, 0, WriteMultipleCoilsRequest(s, n, |bytes| as byte, DiscretesFromBytes(bytes))))
  {
    var frame := [slaveAddress, functionCode] + HostToNetworkOrder(s) + HostToNetworkOrder(n) + [|bytes| as byte] + bytes + rest;
    FieldsLayout(slaveAddress, functionCode, s, n, bytes, rest);
    DecodeFields(frame, s, n, bytes);
  }

  /** Where each field of a laid-out frame sits. */
  lemma FieldsLayout(slaveAddress: byte, functionCode: byte, s: u16, n: u16, bytes: seq<byte>, rest: seq<byte>)
    requires |bytes| < 0x100
    ensures var frame := [slaveAddress, functionCode] + HostToNetworkOrder(s) + HostToNetworkOrder(n)
        + [|bytes| as byte] + bytes + rest;
      |frame| >= 7 + |bytes| && frame[0] == slaveAddress && frame[1] == functionCode
      && NetworkToHostOrder(frame, 2) == s && NetworkToHostOrder(frame, 4) == n
      && frame[6] as int == |bytes| && frame[7..7 + |bytes|] == bytes
  {
    var frame := [slaveAddress, functionCode] + HostToNetworkOrder(s) + HostToNetworkOrder(n) + [|bytes| as byte] + bytes + rest;
    assert frame[2] == s / 0x100 && frame[3] == s % 0x100;
    assert frame[4] == n / 0x100 && frame[5] == n % 0x100;
    assert frame[7..7 + |bytes|] == bytes;
  }

  /** A frame whose fields hold the given values decodes to the request with those values. */
  lemma DecodeFields(frame: seq<byte>, s: u16, n: u16, bytes: seq<byte>)
    requires |frame| >= 7 + |bytes| && frame[6] as int == |bytes| && frame[7..7 + |bytes|] == bytes
    requires NetworkToHostOrder(frame, 2) == s && NetworkToHostOrder(frame, 4) == n
    requires n as nat <= ModbusConstants.MaximumDiscreteRequestResponseSize
    ensures Create(frame)
      == Success(Message(frame[0], frame[1], 0, WriteMultipleCoilsRequest(s, n, frame[6], DiscretesFromBytes(bytes))))
  {
    assert Slice(Some(frame), 7, frame[6] as int).value == bytes;
  }

  /** The frame of a request: header, start address, number of points, byte count, packed discretes. */
  lemma FrameLayout(m: Message)
    requires m.body.WriteMultipleCoilsRequest?
    ensures MessageFrame(m) == [m.slaveAddress, m.functionCode] + HostToNetworkOrder(m.body.startAddress)
      + HostToNetworkOrder(m.body.numberOfPoints) + [m.body.byteCount] + DiscreteNetworkBytes(m.body.discretes)
  {
    MessageFramesAgree(m);
    ModbusMessageImpl.WriteFieldsFrame(FieldsOf(m), m.body.startAddress, m.body.numberOfPoints, m.body.byteCount,
      ModbusMessageImpl.Discretes(m.body.discretes));
  }

  /** The requests New builds from at most 2040 discretes survive encoding and decoding, padded to whole bytes. */
  lemma NewRoundTrip(slaveAddress: byte, startAddress: u16, data: seq<bool>, rest: seq<byte>)
    requires |data| <= ModbusConstants.MaximumDiscreteRequestResponseSize
    ensures New(slaveAddress, startAddress, data).Success?
    ensures var m := New(slaveAddress, startAddress, data).value;
      Create(MessageFrame(m) + rest) == Success(m.(body := m.body.(discretes := Padded(data))))
  {
    RoundTrip(New(slaveAddress, startAddress, data).value, rest);
  }

  /**
   * A response passes validation when it is a write multiple coils response
   * with the request's start address and number of points; a response of
   * another class raises InvalidCastException, a differing address or count
   * IOException.
   */
  function ValidateResponse(request: Message, response: Message): (r: Outcome<Exception>)
    requires request.body.WriteMultipleCoilsRequest?
    ensures r.Pass? <==> response.body == WriteMultipleCoilsResponse(request.body.startAddress, request.body.numberOfPoints)
    ensures !response.body.WriteMultipleCoilsResponse? ==> r == Fail(InvalidCastException)
    ensures response.body.WriteMultipleCoilsResponse? && r.Fail? ==> r.error == IOException
  {
    if !response.body.WriteMultipleCoilsResponse? then Fail(InvalidCastException)
    else if request.body.startAddress != response.body.startAddress then Fail(IOException)
    else if request.body.numberOfPoints != response.body.numberOfPoints then Fail(IOException)
    else Pass
  }
}

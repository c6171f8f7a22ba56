/**
 * The read/write multiple registers request (function code 23): a read
 * holding registers request and a write multiple registers request carried
 * in one message.
 */
module ReadWriteMultipleRegistersRequestMessage {
  import opened Wrappers
  import opened Bytes
  import opened Exceptions
  import opened Messages
  import opened AbstractModbusMessage
  import ModbusConstants
  import ModbusMessageImpl
  import DataCollections
  import ReadRequests = ReadHoldingInputRegistersRequestMessage
  import WriteRequests = WriteMultipleRegistersRequestMessage

  const MinimumFrameSize: nat := 11

  /**
   * A request that reads numberOfPointsToRead holding registers from
   * startReadAddress and writes writeData from startWriteAddress. The read
   * request is built first, so a read count above the register maximum is
   * reported before a write count above it (both ArgumentOutOfRangeException).
   */
  function New(slaveAddress: byte, startReadAddress: u16, numberOfPointsToRead: u16, startWriteAddress: u16,
               writeData: seq<u16>): (r: Result<Message, Exception>)
    ensures r.Success? <==> (numberOfPointsToRead as nat <= ModbusConstants.MaximumRegisterRequestResponseSize
      && |writeData| % 0x10000 <= ModbusConstants.MaximumRegisterRequestResponseSize)
    ensures r.Failure? ==> r.error == ArgumentOutOfRangeException
    ensures r.Success? ==> (r.value.slaveAddress == slaveAddress && r.value.transactionId == 0
      && r.value.functionCode == ModbusConstants.ReadWriteMultipleRegisters
      && r.value.body.ReadWriteMultipleRegistersRequest?
      && r.value.body.readRequest == Message(slaveAddress, ModbusConstants.ReadHoldingRegisters, 0,
        ReadHoldingInputRegistersRequest(startReadAddress, numberOfPointsToRead))
      && r.value.body.writeRequest == WriteRequests.New(slaveAddress, startWriteAddress, writeData).value)
  {
    var read :- ReadRequests.New(ModbusConstants.ReadHoldingRegisters, slaveAddress, startReadAddress, numberOfPointsToRead);
    var write :- WriteRequests.New(slaveAddress, startWriteAddress, writeData);
    Success(Message(slaveAddress, ModbusConstants.ReadWriteMultipleRegisters, 0, ReadWriteMultipleRegistersRequest(read, write)))
  }

  /**
   * The read part is offsets 2 to 5 and the write part offset 6 onwards; each
   * is decoded as a frame of its own class that starts with this message's
   * slave address and function code. A frame shorter than the write byte
   * count at offset 10 says raises FormatException; the parts' own errors
   * pass through, the read part's first.
   */
  function InitializeUnique(slaveAddress: byte, functionCode: byte, frame: seq<byte>): (r: Result<Message, Exception>)
    requires |frame| >= MinimumFrameSize
  {
    if |frame| < MinimumFrameSize + frame[10] as int then Failure(FormatException)
    else
      var readFrame := [slaveAddress, functionCode] + frame[2..6];
      var writeFrame := [slaveAddress, functionCode] + frame[6..];
      var read :- ReadRequests.Create(readFrame);
      var write :- WriteRequests.Create(writeFrame);
      Success(Message(slaveAddress, functionCode, 0, ReadWriteMultipleRegistersRequest(read, write)))
  }

  /** Decodes a frame into a request whose two parts carry its slave address and function code. */
  function Create(frame: seq<byte>): (r: Result<Message, Exception>)
    ensures r.Success? ==> |frame| >= 2 && r.value.slaveAddress == frame[0] && r.value.functionCode == frame[1]
    ensures |frame| < MinimumFrameSize || |frame| < MinimumFrameSize + frame[10] as int ==> r == Failure(FormatException)
    ensures |frame| >= MinimumFrameSize && |frame| >= MinimumFrameSize + frame[10] as int ==>
      (r.Success? <==> (NetworkToHostOrder(frame, 4) as nat <= ModbusConstants.MaximumRegisterRequestResponseSize
        && NetworkToHostOrder(frame, 8) as nat <= ModbusConstants.MaximumRegisterRequestResponseSize
        && frame[10] % 2 == 0))
    ensures r.Failure? ==> r.error in {FormatException, ArgumentOutOfRangeException}
    ensures r.Success? ==> (r.value.body.ReadWriteMultipleRegistersRequest? && r.value.transactionId == 0
      && r.value.body.readRequest.body.ReadHoldingInputRegistersRequest?
      && r.value.body.writeRequest.body.WriteMultipleRegistersRequest?
      && r.value.body.readRequest.slaveAddress == r.value.body.writeRequest.slaveAddress == frame[0]
      && r.value.body.readRequest.functionCode == r.value.body.writeRequest.functionCode == frame[1])
  {
    var header :- Initialize(MinimumFrameSize, frame);
    if |frame| < MinimumFrameSize + frame[10] as int then Failure(FormatException)
    else
      var writeFrame := [header.0, header.1] + frame[6..];
      assert NetworkToHostOrder(writeFrame, 4) == NetworkToHostOrder(frame, 8) && writeFrame[6] == frame[10];
      InitializeUnique(header.0, header.1, frame)
  }

  /** The message frame of a decoded request, with its own protocol data unit, is the part of the frame it was decoded from. */
  lemma DecodedFrame(frame: seq<byte>)
    requires Create(frame).Success?
    ensures MessageFrame(Create(frame).value) == frame[..MinimumFrameSize + frame[10] as int]
  {
    var m := Create(frame).value;
    var k := MinimumFrameSize + frame[10] as int;
    DecodedParts(frame);
    ReadPartUnit(frame, m.body.readRequest);
    WritePartUnit(frame, m.body.writeRequest);
    ReadWriteFrame(m);
    FrameParts(frame, k);
  }

  /** The read part decoded from offsets 2 to 5 lays those bytes out again. */
  lemma ReadPartUnit(frame: seq<byte>, read: Message)
    requires |frame| >= 6 && ReadRequests.Create([frame[0], frame[1]] + frame[2..6]) == Success(read)
    ensures ProtocolDataUnit(read)[1..] == frame[2..6]
  {
    var readFrame := [frame[0], frame[1]] + frame[2..6];
    assert MessageFrame(read) == readFrame[..6];
  }

  /** The write part decoded from offset 6 onwards lays out again the bytes up to the end its byte count gives. */
  lemma WritePartUnit(frame: seq<byte>, write: Message)
    requires |frame| >= MinimumFrameSize && |frame| >= MinimumFrameSize + frame[10] as int
    requires WriteRequests.Create([frame[0], frame[1]] + frame[6..]) == Success(write)
    ensures ProtocolDataUnit(write)[1..] == frame[6..MinimumFrameSize + frame[10] as int]
  {
    var writeFrame := [frame[0], frame[1]] + frame[6..];
    var k := MinimumFrameSize + frame[10] as int;
    assert writeFrame[6] == frame[10];
    WriteRequests.DecodedFrame(writeFrame);
    UnitAfterHeader(write);
    ShiftedPart(frame, writeFrame, k);
  }

  /** The unit after the function code is the frame after the slave address and function code. */
  lemma UnitAfterHeader(m: Message)
    ensures ProtocolDataUnit(m)[1..] == MessageFrame(m)[2..]
  {
  }

  /** The write part's frame, cut where its byte count says, is the frame's bytes from offset 6 up to k. */
  lemma ShiftedPart(frame: seq<byte>, writeFrame: seq<byte>, k: nat)
    requires 6 <= k <= |frame| && writeFrame == [frame[0], frame[1]] + frame[6..]
    ensures writeFrame[..k - 4][2..] == frame[6..k]
  {
    assert forall i :: 0 <= i < k - 6 ==> writeFrame[..k - 4][2..][i] == frame[6..k][i];
  }

  /** A decoded request is made of its frame's read part and write part, each decoded. */
  lemma DecodedParts(frame: seq<byte>)
    requires Create(frame).Success?
    ensures |frame| >= MinimumFrameSize && |frame| >= MinimumFrameSize + frame[10] as int
    ensures ReadRequests.Create([frame[0], frame[1]] + frame[2..6]).Success?
    ensures WriteRequests.Create([frame[0], frame[1]] + frame[6..]).Success?
    ensures Create(frame).value == Message(frame[0], frame[1], 0, ReadWriteMultipleRegistersRequest(
      ReadRequests.Create([frame[0], frame[1]] + frame[2..6]).value,
      WriteRequests.Create([frame[0], frame[1]] + frame[6..]).value))
  {
  }

  /** A frame's first k bytes are its header, the read part and the write part. */
  lemma FrameParts(frame: seq<byte>, k: nat)
    requires 6 <= k <= |frame|
    ensures frame[..k] == [frame[0], frame[1]] + frame[2..6] + frame[6..k]
  {
  }

  /** A well-formed request's parts, re-addressed with the request's slave address and function code. */
  function Readdressed(m: Message, part: Message): (r: Message)
    ensures r.slaveAddress == m.slaveAddress && r.functionCode == m.functionCode && r.transactionId == 0
    ensures r.body == part.body
  {
    part.(slaveAddress := m.slaveAddress, functionCode := m.functionCode, transactionId := 0)
  }

  /**
   * Encoding a request whose parts are within the register maximum and
   * decoding the frame gives the request back; the parts come back with the
   * request's own slave address and function code.
   */
  lemma RoundTrip(m: Message, rest: seq<byte>)
    requires m.body.ReadWriteMultipleRegistersRequest?
    requires m.body.readRequest.body.ReadHoldingInputRegistersRequest?
    requires m.body.readRequest.body.numberOfPoints as nat <= ModbusConstants.MaximumRegisterRequestResponseSize
    requires m.body.writeRequest.body.WriteMultipleRegistersRequest?
    requires m.body.writeRequest.body.numberOfPoints as nat <= ModbusConstants.MaximumRegisterRequestResponseSize
    requires m.body.writeRequest.body.byteCount as int == 2 * |m.body.writeRequest.body.registers|
    ensures Create(MessageFrame(m) + rest) == Success(Message(m.slaveAddress, m.functionCode, 0,
      ReadWriteMultipleRegistersRequest(Readdressed(m, m.body.readRequest), Readdressed(m, m.body.writeRequest))))
  {
    var read, write := Readdressed(m, m.body.readRequest), Readdressed(m, m.body.writeRequest);
    var frame := MessageFrame(m) + rest;
    FrameOfParts(m, rest);
    ReadRequests.RoundTrip(read, []);
    WriteRequests.RoundTrip(write, rest);
    DecodeParts(frame, read, write);
  }

  /** The read and write parts of a request's frame are the frames of its re-addressed parts. */
  lemma FrameOfParts(m: Message, rest: seq<byte>)
    requires m.body.ReadWriteMultipleRegistersRequest?
    requires m.body.readRequest.body.ReadHoldingInputRegistersRequest?
    requires m.body.writeRequest.body.WriteMultipleRegistersRequest?
    requires m.body.writeRequest.body.byteCount as int == 2 * |m.body.writeRequest.body.registers|
    ensures var frame := MessageFrame(m) + rest;
      |frame| >= MinimumFrameSize && |frame| >= MinimumFrameSize + frame[10] as int
      && frame[0] == m.slaveAddress && frame[1] == m.functionCode
      && [frame[0], frame[1]] + frame[2..6] == MessageFrame(Readdressed(m, m.body.readRequest)) + []
      && [frame[0], frame[1]] + frame[6..] == MessageFrame(Readdressed(m, m.body.writeRequest)) + rest
  {
    var read, write := Readdressed(m, m.body.readRequest), Readdressed(m, m.body.writeRequest);
    var head := [m.slaveAddress, m.functionCode];
    PartsLayout(m);
    ReadPartLayout(read);
    WritePartLayout(write);
    FrameHeader(read);
    FrameHeader(write);
    SplitFrame(MessageFrame(m) + rest, head, ProtocolDataUnit(read)[1..], ProtocolDataUnit(write)[1..], rest);
  }

  /** A request's frame is its header, then its re-addressed read part's and write part's units after their function codes. */
  lemma PartsLayout(m: Message)
    requires m.body.ReadWriteMultipleRegistersRequest?
    requires m.body.readRequest.body.ReadHoldingInputRegistersRequest?
    requires m.body.writeRequest.body.WriteMultipleRegistersRequest?
    ensures MessageFrame(m) == [m.slaveAddress, m.functionCode]
      + (ProtocolDataUnit(Readdressed(m, m.body.readRequest))[1..] + ProtocolDataUnit(Readdressed(m, m.body.writeRequest))[1..])
  {
    ReaddressedUnit(m, m.body.readRequest);
    ReaddressedUnit(m, m.body.writeRequest);
    ReadWriteFrameAsWritten(m);
  }

  /** The read part's unit after its function code is its start address and number of points. */
  lemma ReadPartLayout(read: Message)
    requires read.body.ReadHoldingInputRegistersRequest?
    ensures |ProtocolDataUnit(read)| == 5
  {
  }

  /** The write part's unit after its function code holds the byte count at offset 4, followed by that many bytes. */
  lemma WritePartLayout(write: Message)
    requires write.body.WriteMultipleRegistersRequest?
    requires write.body.byteCount as int == 2 * |write.body.registers|
    ensures var pdu := ProtocolDataUnit(write)[1..];
      |pdu| == 5 + write.body.byteCount as int && pdu[4] == write.body.byteCount
  {
    WriteRequests.FrameLayout(write);
    FrameHeader(write);
  }

  /** Where the header and the two parts of a request's frame sit, and the frames they make. */
  lemma SplitFrame(frame: seq<byte>, head: seq<byte>, readPdu: seq<byte>, writePdu: seq<byte>, rest: seq<byte>)
    requires |head| == 2 && |readPdu| == 4 && |writePdu| >= 5 && |writePdu| == 5 + writePdu[4] as int
    requires frame == head + (readPdu + writePdu) + rest
    ensures |frame| >= MinimumFrameSize && |frame| >= MinimumFrameSize + frame[10] as int
    ensures frame[0] == head[0] && frame[1] == head[1]
    ensures [frame[0], frame[1]] + frame[2..6] == head + readPdu + []
    ensures [frame[0], frame[1]] + frame[6..] == head + writePdu + rest
  {
    SplitParts(frame, head, readPdu, writePdu, rest);
    assert frame[10] == writePdu[4];
  }

  /** Where the parts of a frame assembled from a header and two parts sit. */
  lemma SplitParts(frame: seq<byte>, head: seq<byte>, first: seq<byte>, second: seq<byte>, rest: seq<byte>)
    requires |head| == 2 && |first| == 4 && frame == head + (first + second) + rest
    ensures frame[..2] == head && frame[2..6] == first && frame[6..] == second + rest
  {
  }

  /** Re-addressing a part leaves its protocol data unit after the function code as it was. */
  lemma ReaddressedUnit(m: Message, part: Message)
    requires !part.body.ReadWriteMultipleRegistersRequest?
    ensures ProtocolDataUnit(Readdressed(m, part))[1..] == ProtocolDataUnit(part)[1..]
  {
    var f := FieldsOf(part);
    assert FieldsOf(Readdressed(m, part)) == f.(slaveAddress := m.slaveAddress, functionCode := m.functionCode,
      transactionId := 0);
    ModbusMessageImpl.UnitIgnoresHeader(f, m.slaveAddress, m.functionCode, 0);
  }

  /** A frame whose read and write parts decode gives the request made of the two. */
  lemma DecodeParts(frame: seq<byte>, read: Message, write: Message)
    requires |frame| >= MinimumFrameSize && |frame| >= MinimumFrameSize + frame[10] as int
    requires ReadRequests.Create([frame[0], frame[1]] + frame[2..6]) == Success(read)
    requires WriteRequests.Create([frame[0], frame[1]] + frame[6..]) == Success(write)
    ensures Create(frame) == Success(Message(frame[0], frame[1], 0, ReadWriteMultipleRegistersRequest(read, write)))
  {
  }

  /**
   * The frame as the library computes it for this class holds only the slave
   * address and function code, so it neither carries the request nor
   * decodes: for the request reading one register from 0 and writing 5 to
   * register 0, it is two bytes where the request needs thirteen.
   */
  lemma FrameAsWrittenLosesRequest()
    ensures var m := New(1, 0, 1, 0, [5]).value;
      MessageFrameAsWritten(m) == [1, 23]
      && MessageFrame(m) == [1, 23, 0, 0, 0, 1, 0, 0, 0, 1, 2, 0, 5]
      && Create(MessageFrameAsWritten(m)) == Failure(FormatException)
  {
    var m := New(1, 0, 1, 0, [5]).value;
    ReadWriteFrameAsWritten(m);
    ExampleReadPart(m.body.readRequest);
    ExampleWritePart(m.body.writeRequest);
    ExampleFrame(MessageFrame(m));
  }

  lemma ExampleFrame(frame: seq<byte>)
    requires frame == [1, 23] + [0, 0, 0, 1] + [0, 0, 0, 1, 2, 0, 5]
    ensures frame == [1, 23, 0, 0, 0, 1, 0, 0, 0, 1, 2, 0, 5]
  {
  }

  /** The unit of the part of the example request reading one register from 0. */
  lemma ExampleReadPart(read: Message)
    requires read == Message(1, ModbusConstants.ReadHoldingRegisters, 0, ReadHoldingInputRegistersRequest(0, 1))
    ensures ProtocolDataUnit(read)[1..] == [0, 0, 0, 1]
  {
    assert ProtocolDataUnit(read) == [3, 0, 0, 0, 1];
  }

  /** The unit of the part of the example request writing 5 to register 0. */
  lemma ExampleWritePart(write: Message)
    requires write == WriteRequests.New(1, 0, [5]).value
    ensures ProtocolDataUnit(write)[1..] == [0, 0, 0, 1, 2, 0, 5]
  {
    assert write == Message(1, 16, 0, WriteMultipleRegistersRequest(0, 1, 2, [5]));
    WriteRequests.FrameLayout(write);
    assert HostToNetworkOrder(0) == [0, 0] && HostToNetworkOrder(1) == [0, 1];
    assert DataCollections.RegisterNetworkBytes([5]) == [0, 5];
    assert MessageFrame(write) == [1, 16, 0, 0, 0, 1, 2, 0, 5];
  }

  /**
   * A response passes validation when it is a read holding / input
   * registers response whose byte count is twice the number of registers the
   * read part asks for; a response of another class raises
   * InvalidCastException, a wrong byte count IOException.
   */
  function ValidateResponse(request: Message, response: Message): (r: Outcome<Exception>)
    requires request.body.ReadWriteMultipleRegistersRequest?
    requires request.body.readRequest.body.ReadHoldingInputRegistersRequest?
    ensures r.Pass? <==> (response.body.ReadHoldingInputRegistersResponse?
      && response.body.byteCount as int == 2 * request.body.readRequest.body.numberOfPoints as int)
    ensures !response.body.ReadHoldingInputRegistersResponse? ==> r == Fail(InvalidCastException)
    ensures response.body.ReadHoldingInputRegistersResponse? && r.Fail? ==> r.error == IOException
  {
    if !response.body.ReadHoldingInputRegistersResponse? then Fail(InvalidCastException)
    else if request.body.readRequest.body.numberOfPoints as int * 2 != response.body.byteCount as int then Fail(IOException)
    else Pass
  }
}

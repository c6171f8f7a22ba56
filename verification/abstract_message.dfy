/**
 * What every message class shares: the fields it sets in the shared
 * implementation, its protocol data unit (which the read/write request
 * overrides), its message frame, and the common part of decoding a frame.
 */
module AbstractModbusMessage {
  import opened Wrappers
  import opened Bytes
  import opened Exceptions
  import opened Messages
  import opened Impl = ModbusMessageImpl

  /** The shared fields of a message, as its class stores them. */
  function FieldsOf(m: Message): (f: MessageFields)
    ensures f.slaveAddress == m.slaveAddress && f.functionCode == m.functionCode
    ensures f.transactionId == m.transactionId
  {
    var f := EmptyFields().(slaveAddress := m.slaveAddress, functionCode := m.functionCode,
      transactionId := m.transactionId);
    match m.body
    case ReadCoilsInputsRequest(s, n) => f.(startAddress := Some(s), numberOfPoints := Some(n))
    case ReadHoldingInputRegistersRequest(s, n) => f.(startAddress := Some(s), numberOfPoints := Some(n))
    case ReadCoilsInputsResponse(bc, d) => f.(byteCount := Some(bc), data := Some(Discretes(d)))
    case ReadHoldingInputRegistersResponse(bc, r) => f.(byteCount := Some(bc), data := Some(Registers(r)))
    case WriteSingleCoilRequestResponse(s, v) => f.(startAddress := Some(s), data := Some(Registers([v])))
    case WriteSingleRegisterRequestResponse(s, v) => f.(startAddress := Some(s), data := Some(Registers([v])))
    case WriteMultipleCoilsRequest(s, n, bc, d) =>
      f.(startAddress := Some(s), numberOfPoints := Some(n), byteCount := Some(bc), data := Some(Discretes(d)))
    case WriteMultipleCoilsResponse(s, n) => f.(startAddress := Some(s), numberOfPoints := Some(n))
    case WriteMultipleRegistersRequest(s, n, bc, r) =>
      f.(startAddress := Some(s), numberOfPoints := Some(n), byteCount := Some(bc), data := Some(Registers(r)))
    case WriteMultipleRegistersResponse(s, n) => f.(startAddress := Some(s), numberOfPoints := Some(n))
    case DiagnosticsRequestResponse(sub, r) => f.(subFunctionCode := Some(sub), data := Some(Registers(r)))
    case ReadWriteMultipleRegistersRequest(_, _) => f
    case SlaveExceptionResponse(c) => f.(exceptionCode := Some(c))
  }

  /**
   * The protocol data unit of a message. The read/write request lays out its
   * own function code, then the read request's and the write request's units
   * without their function codes; every other class uses the shared layout.
   */
  function ProtocolDataUnit(m: Message): (r: seq<byte>)
    ensures |r| >= 1 && r[0] == m.functionCode
    decreases m
  {
    match m.body
    case ReadWriteMultipleRegistersRequest(read, write) =>
      var readPdu := ProtocolDataUnit(read);
      var writePdu := ProtocolDataUnit(write);
      [m.functionCode] + readPdu[1..] + writePdu[1..]
    case _ => Impl.ProtocolDataUnit(FieldsOf(m))
  }

  /**
   * The message frame as the library computes it: from the shared fields
   * alone, so that the read/write request's own protocol data unit is not
   * consulted.
   */
  function MessageFrameAsWritten(m: Message): (r: seq<byte>)
    ensures |r| >= 2 && r[0] == m.slaveAddress && r[1] == m.functionCode
    ensures !m.body.ReadWriteMultipleRegistersRequest? ==> r == [m.slaveAddress] + ProtocolDataUnit(m)
  {
    Impl.MessageFrame(FieldsOf(m))
  }

  /** The message frame: the slave address followed by the message's protocol data unit. */
  function MessageFrame(m: Message): (r: seq<byte>)
    ensures |r| == 1 + |ProtocolDataUnit(m)| && r[0] == m.slaveAddress && r[1..] == ProtocolDataUnit(m)
  {
    [m.slaveAddress] + ProtocolDataUnit(m)
  }

  /** A message frame is the slave address, the function code and the rest of the protocol data unit. */
  lemma {:induction false} FrameHeader(m: Message)
    ensures MessageFrame(m) == [m.slaveAddress, m.functionCode] + ProtocolDataUnit(m)[1..]
  {
    var pdu := ProtocolDataUnit(m);
    assert MessageFrame(m) == [m.slaveAddress] + pdu;
    assert pdu == [m.functionCode] + pdu[1..];
    SplitHead(m.slaveAddress, m.functionCode, pdu[1..]);
  }

  lemma SplitHead(a: byte, b: byte, s: seq<byte>)
    ensures [a] + ([b] + s) == [a, b] + s
  {
  }

  /** The two frames agree for every class except the read/write request. */
  lemma MessageFramesAgree(m: Message)
    requires !m.body.ReadWriteMultipleRegistersRequest?
    ensures MessageFrameAsWritten(m) == MessageFrame(m)
  {
  }

  /** The library's frame of a read/write request holds the slave address and function code only. */
  lemma ReadWriteFrameAsWritten(m: Message)
    requires m.body.ReadWriteMultipleRegistersRequest?
    ensures MessageFrameAsWritten(m) == [m.slaveAddress, m.functionCode]
    ensures MessageFrame(m) == [m.slaveAddress, m.functionCode]
      + ProtocolDataUnit(m.body.readRequest)[1..] + ProtocolDataUnit(m.body.writeRequest)[1..]
  {
    ReadWriteFieldsFrame(m);
    ReadWriteFrame(m);
  }

  lemma ReadWriteFieldsFrame(m: Message)
    requires m.body.ReadWriteMultipleRegistersRequest?
    ensures MessageFrameAsWritten(m) == [m.slaveAddress, m.functionCode]
  {
    assert FieldsOf(m) == EmptyFields().(slaveAddress := m.slaveAddress, functionCode := m.functionCode,
      transactionId := m.transactionId);
  }

  lemma ReadWriteFrame(m: Message)
    requires m.body.ReadWriteMultipleRegistersRequest?
    ensures MessageFrame(m) == [m.slaveAddress, m.functionCode]
      + ProtocolDataUnit(m.body.readRequest)[1..] + ProtocolDataUnit(m.body.writeRequest)[1..]
  {
    var readPdu, writePdu := ProtocolDataUnit(m.body.readRequest)[1..], ProtocolDataUnit(m.body.writeRequest)[1..];
    var pdu := ProtocolDataUnit(m);
    assert pdu == [m.functionCode] + readPdu + writePdu;
    FrameHeader(m);
    ReadWriteLayout(m.slaveAddress, m.functionCode, readPdu, writePdu, pdu, MessageFrame(m));
  }

  lemma ReadWriteLayout(a: byte, b: byte, readPdu: seq<byte>, writePdu: seq<byte>, pdu: seq<byte>, frame: seq<byte>)
    requires pdu == [b] + readPdu + writePdu && frame == [a, b] + pdu[1..]
    ensures frame == [a, b] + readPdu + writePdu
  {
    assert pdu[1..] == readPdu + writePdu;
  }

  /** Where the fields of a frame holding a byte count and that many bytes sit. */
  lemma CountedLayout(a: byte, b: byte, c: byte, bytes: seq<byte>, rest: seq<byte>)
    requires c as int == |bytes|
    ensures var frame := [a, b, c] + bytes + rest;
      |frame| >= 3 + c as int && frame[0] == a && frame[1] == b && frame[2] == c && frame[3..3 + c as int] == bytes
  {
    var frame := [a, b, c] + bytes + rest;
    assert frame[3..3 + c as int] == bytes;
  }

  /**
   * The common part of decoding: a frame shorter than the class's minimum
   * frame size raises FormatException; otherwise the shared implementation
   * takes the slave address and function code from it.
   */
  function Initialize(minimumFrameSize: nat, frame: seq<byte>): (r: Result<(byte, byte), Exception>)
    ensures r.Success? <==> |frame| >= minimumFrameSize && |frame| >= 2
    ensures r.Success? ==> r.value == (frame[0], frame[1])
    ensures r.Failure? ==> r.error == FormatException
  {
    if |frame| < minimumFrameSize then Failure(FormatException) else InitializeHeader(frame)
  }

  /** The validation in a number-of-points setter: a value above the class's maximum raises ArgumentOutOfRangeException. */
  function CheckNumberOfPoints(value: u16, maximum: nat): (r: Result<u16, Exception>)
    ensures r.Success? <==> value as nat <= maximum
    ensures r.Success? ==> r.value == value
    ensures r.Failure? ==> r.error == ArgumentOutOfRangeException
  {
    if value as nat > maximum then Failure(ArgumentOutOfRangeException) else Success(value)
  }
}

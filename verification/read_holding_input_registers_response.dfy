/** The read holding registers / read input registers response (function codes 3 and 4). */
module ReadHoldingInputRegistersResponseMessage {
  import opened Wrappers
  import opened Bytes
  import opened Exceptions
  import opened Messages
  import opened DataCollections
  import opened SequenceUtility
  import opened AbstractModbusMessage
  import ModbusMessageImpl

  const MinimumFrameSize: nat := 3

  /**
   * A response carrying the given registers, whose byte count is the
   * collection's byte count; a missing collection raises
   * ArgumentNullException.
   */
  function New(functionCode: byte, slaveAddress: byte, data: Option<seq<u16>>): (r: Result<Message, Exception>)
    ensures data.None? ==> r == Failure(ArgumentNullException)
    ensures data.Some? ==> (r.Success? && r.value.slaveAddress == slaveAddress && r.value.functionCode == functionCode
      && r.value.transactionId == 0
      && r.value.body == ReadHoldingInputRegistersResponse(RegisterByteCount(data.value), data.value))
  {
    if data.None? then Failure(ArgumentNullException)
    else Success(Message(slaveAddress, functionCode, 0, ReadHoldingInputRegistersResponse(RegisterByteCount(data.value), data.value)))
  }

  /**
   * The byte count at offset 2 and that many data bytes after it, two per
   * register; a frame shorter than its byte count says raises
   * FormatException, and so does an odd byte count.
   */
  function InitializeUnique(slaveAddress: byte, functionCode: byte, frame: seq<byte>): (r: Result<Message, Exception>)
    requires |frame| >= MinimumFrameSize
  {
    if |frame| < MinimumFrameSize + frame[2] as int then Failure(FormatException)
    else
      var bytes := Slice(Some(frame), 3, frame[2] as int).value;
      var registers :- RegistersFromBytes(bytes);
      Success(Message(slaveAddress, functionCode, 0, ReadHoldingInputRegistersResponse(frame[2], registers)))
  }

  /** Decodes a frame into a response; the frame must hold the even byte count it announces. */
  function Create(frame: seq<byte>): (r: Result<Message, Exception>)
    ensures r.Success? ==> |frame| >= 2 && r.value.slaveAddress == frame[0] && r.value.functionCode == frame[1]
    ensures r.Success? <==> |frame| >= MinimumFrameSize && |frame| >= 3 + frame[2] as int && frame[2] % 2 == 0
    ensures r.Failure? ==> r.error == FormatException
    ensures r.Success? ==> (r.value.body.ReadHoldingInputRegistersResponse? && r.value.transactionId == 0
      && 2 * |r.value.body.registers| == r.value.body.byteCount as int
      && MessageFrame(r.value) == frame[..3 + frame[2] as int])
  {
    var header :- Initialize(MinimumFrameSize, frame);
    var r := InitializeUnique(header.0, header.1, frame);
    if r.Success? then
      assert Slice(Some(frame), 3, frame[2] as int).value == frame[3..3 + frame[2] as int];
      FieldsFrame(frame);
      r
    else r
  }

  /** The frame of the response holding a frame's fields is the frame's first bytes. */
  lemma FieldsFrame(frame: seq<byte>)
    requires |frame| >= 3 && |frame| >= 3 + frame[2] as int
    requires RegistersFromBytes(frame[3..3 + frame[2] as int]).Success?
    ensures MessageFrame(Message(frame[0], frame[1], 0, ReadHoldingInputRegistersResponse(frame[2],
      RegistersFromBytes(frame[3..3 + frame[2] as int]).value))) == frame[..3 + frame[2] as int]
  {
    var m := Message(frame[0], frame[1], 0, ReadHoldingInputRegistersResponse(frame[2],
      RegistersFromBytes(frame[3..3 + frame[2] as int]).value));
    var bytes := frame[3..3 + frame[2] as int];
    RegisterBytesRoundTrip(bytes);
    MessageFramesAgree(m);
    ModbusMessageImpl.ResponseFieldsFrame(FieldsOf(m), frame[2], ModbusMessageImpl.Registers(m.body.registers));
    assert frame[..3 + frame[2] as int] == [frame[0], frame[1], frame[2]] + bytes;
  }

  /** A response built from at most 127 registers survives encoding and decoding. */
  lemma RoundTrip(m: Message, rest: seq<byte>)
    requires m.body.ReadHoldingInputRegistersResponse?
    requires m.body.byteCount as int == 2 * |m.body.registers|
    ensures Create(MessageFrame(m) + rest) == Success(m.(transactionId := 0))
  {
    var bytes := RegisterNetworkBytes(m.body.registers);
    MessageFramesAgree(m);
    ModbusMessageImpl.ResponseFieldsFrame(FieldsOf(m), m.body.byteCount, ModbusMessageImpl.Registers(m.body.registers));
    CountedLayout(m.slaveAddress, m.functionCode, m.body.byteCount, bytes, rest);
    RegistersRoundTrip(m.body.registers);
  }

  /** The responses New builds from at most 127 registers survive encoding and decoding. */
  lemma NewRoundTrip(functionCode: byte, slaveAddress: byte, data: seq<u16>, rest: seq<byte>)
    requires |data| <= 127
    ensures Create(MessageFrame(New(functionCode, slaveAddress, Some(data)).value) + rest)
      == New(functionCode, slaveAddress, Some(data))
  {
    RoundTrip(New(functionCode, slaveAddress, Some(data)).value, rest);
  }
}

/** The read coils / read discrete inputs response (function codes 1 and 2). */
module ReadCoilsInputsResponseMessage {
  import opened Wrappers
  import opened Bytes
  import opened Exceptions
  import opened Messages
  import opened DataCollections
  import opened SequenceUtility
  import opened AbstractModbusMessage
  import ModbusMessageImpl

  const MinimumFrameSize: nat := 3

  /** A response carrying the given byte count and discretes. */
  function New(functionCode: byte, slaveAddress: byte, byteCount: byte, data: seq<bool>): (r: Message)
    ensures r.slaveAddress == slaveAddress && r.functionCode == functionCode && r.transactionId == 0
    ensures r.body == ReadCoilsInputsResponse(byteCount, data)
  {
    Message(slaveAddress, functionCode, 0, ReadCoilsInputsResponse(byteCount, data))
  }

  /**
   * The byte count at offset 2 and that many data bytes after it, eight
   * discretes per byte; a frame shorter than its byte count says raises
   * FormatException.
   */
  function InitializeUnique(slaveAddress: byte, functionCode: byte, frame: seq<byte>): (r: Result<Message, Exception>)
    requires |frame| >= MinimumFrameSize
  {
    if |frame| < 3 + frame[2] as int then Failure(FormatException)
    else
      var bytes := Slice(Some(frame), 3, frame[2] as int).value;
      Success(New(functionCode, slaveAddress, frame[2], DiscretesFromBytes(bytes)))
  }

  /** Decodes a frame into a response; the frame must hold the byte count it announces. */
  function Create(frame: seq<byte>): (r: Result<Message, Exception>)
    ensures r.Success? ==> |frame| >= 2 && r.value.slaveAddress == frame[0] && r.value.functionCode == frame[1]
    ensures r.Success? <==> |frame| >= MinimumFrameSize && |frame| >= 3 + frame[2] as int
    ensures r.Failure? ==> r.error == FormatException
    ensures r.Success? ==> (r.value.body.ReadCoilsInputsResponse? && r.value.transactionId == 0
      && |r.value.body.discretes| == 8 * r.value.body.byteCount as int
      && MessageFrame(r.value) == frame[..3 + frame[2] as int])
  {
    var header :- Initialize(MinimumFrameSize, frame);
    var r := InitializeUnique(header.0, header.1, frame);
    if r.Success? then
      assert Slice(Some(frame), 3, frame[2] as int).value == frame[3..3 + frame[2] as int];
      FieldsFrame(frame);
      r
    else r
  }

  /** The frame of the response holding a frame's fields is the frame's first bytes. */
  lemma FieldsFrame(frame: seq<byte>)
    requires |frame| >= 3 && |frame| >= 3 + frame[2] as int
    ensures MessageFrame(Message(frame[0], frame[1], 0, ReadCoilsInputsResponse(frame[2],
      DiscretesFromBytes(frame[3..3 + frame[2] as int])))) == frame[..3 + frame[2] as int]
  {
    var m := Message(frame[0], frame[1], 0, ReadCoilsInputsResponse(frame[2],
      DiscretesFromBytes(frame[3..3 + frame[2] as int])));
    var bytes := frame[3..3 + frame[2] as int];
    DiscreteBytesRoundTrip(bytes);
    MessageFramesAgree(m);
    ModbusMessageImpl.ResponseFieldsFrame(FieldsOf(m), frame[2], ModbusMessageImpl.Discretes(m.body.discretes));
    assert frame[..3 + frame[2] as int] == [frame[0], frame[1], frame[2]] + bytes;
  }

  /**
   * Encoding a response whose byte count matches its discretes and decoding
   * the frame gives the response back, with the discretes padded to whole
   * bytes.
   */
  lemma RoundTrip(m: Message, rest: seq<byte>)
    requires m.body.ReadCoilsInputsResponse?
    requires m.body.byteCount as int == (|m.body.discretes| + 7) / 8
    ensures Create(MessageFrame(m) + rest)
      == Success(m.(transactionId := 0, body := ReadCoilsInputsResponse(m.body.byteCount, Padded(m.body.discretes))))
  {
    var bytes := DiscreteNetworkBytes(m.body.discretes);
    MessageFramesAgree(m);
    ModbusMessageImpl.ResponseFieldsFrame(FieldsOf(m), m.body.byteCount, ModbusMessageImpl.Discretes(m.body.discretes));
    CountedLayout(m.slaveAddress, m.functionCode, m.body.byteCount, bytes, rest);
    DiscretesRoundTrip(m.body.discretes);
  }
}

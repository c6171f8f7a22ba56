/**
 * The RTU transmission mode (MODBUS over Serial Line Specification and
 * Implementation Guide V1.02, section 2.5.1): a frame is the message frame
 * followed by its CRC-16, low byte first. A receiver reads the first bytes
 * of a frame and works out from the function code how many follow.
 */
module ModbusRtuTransport {
  import opened Wrappers
  import opened Bytes
  import opened Exceptions
  import opened Messages
  import opened ModbusUtility
  import opened StreamResources
  import AbstractModbusMessage
  import ModbusConstants
  import ModbusMessageFactory

  /** The bytes of a request read before its length is known. */
  const RequestFrameStartLength: nat := 7
  /** The bytes of a response read before its length is known. */
  const ResponseFrameStartLength: nat := 4

  /**
   * How many bytes of a request follow its first seven: one for the
   * fixed-length requests, the byte count plus two for the write multiple
   * requests; any other function code raises NotImplementedException.
   */
  function RequestBytesToRead(frameStart: seq<byte>): (r: Result<nat, Exception>)
    requires |frameStart| == RequestFrameStartLength
    ensures r.Success? <==> frameStart[1] in {1, 2, 3, 4, 5, 6, 8, 15, 16}
    ensures r.Failure? ==> r.error == NotImplementedException
    ensures r.Success? ==> r.value >= 1
  {
    var functionCode := frameStart[1];
    if functionCode in {ModbusConstants.ReadCoils, ModbusConstants.ReadInputs, ModbusConstants.ReadHoldingRegisters,
      ModbusConstants.ReadInputRegisters, ModbusConstants.WriteSingleCoil, ModbusConstants.WriteSingleRegister,
      ModbusConstants.Diagnostics} then Success(1)
    else if functionCode in {ModbusConstants.WriteMultipleCoils, ModbusConstants.WriteMultipleRegisters} then
      Success(frameStart[6] as nat + 2)
    else Failure(NotImplementedException)
  }

  /**
   * How many bytes of a response follow its first four: one for an
   * exception response, the byte count plus one for the reads, four for
   * the writes and diagnostics; any other function code raises
   * NotImplementedException.
   */
  function ResponseBytesToRead(frameStart: seq<byte>): (r: Result<nat, Exception>)
    requires |frameStart| == ResponseFrameStartLength
    ensures r.Success? <==> frameStart[1] > ModbusConstants.ExceptionOffset || frameStart[1] in {1, 2, 3, 4, 5, 6, 8, 15, 16}
    ensures r.Failure? ==> r.error == NotImplementedException
    ensures r.Success? ==> r.value >= 1
  {
    var functionCode := frameStart[1];
    if functionCode > ModbusConstants.ExceptionOffset then Success(1)
    else if functionCode in {ModbusConstants.ReadCoils, ModbusConstants.ReadInputs, ModbusConstants.ReadHoldingRegisters,
      ModbusConstants.ReadInputRegisters} then Success(frameStart[2] as nat + 1)
    else if functionCode in {ModbusConstants.WriteSingleCoil, ModbusConstants.WriteSingleRegister,
      ModbusConstants.WriteMultipleCoils, ModbusConstants.WriteMultipleRegisters, ModbusConstants.Diagnostics} then
      Success(4)
    else Failure(NotImplementedException)
  }

  /**
   * The bytes read for a request are its message frame and the two CRC
   * bytes: seven plus the bytes still to read is the frame length the
   * decoder gives the request's class, plus two.
   */
  lemma RequestLength(kind: MessageKind, frame: seq<byte>)
    requires |frame| >= RequestFrameStartLength && frame[1] != ModbusConstants.ReadWriteMultipleRegisters
    requires ModbusMessageFactory.RequestKind(frame[1]) == Some(kind)
    ensures RequestBytesToRead(frame[..RequestFrameStartLength]).Success?
    ensures RequestFrameStartLength + RequestBytesToRead(frame[..RequestFrameStartLength]).value
      == ModbusMessageFactory.FrameLength(kind, frame) + 2
  {
  }

  /**
   * The bytes read for a response are its message frame and the two CRC
   * bytes: four plus the bytes still to read is the frame length the
   * decoder gives the expected response class, plus two.
   */
  lemma ResponseLength(kind: MessageKind, frame: seq<byte>)
    requires |frame| >= ResponseFrameStartLength
    requires frame[1] > ModbusConstants.ExceptionOffset ==> kind == SlaveExceptionResponseType
    requires frame[1] <= ModbusConstants.ExceptionOffset ==>
      (frame[1] != ModbusConstants.ReadWriteMultipleRegisters && ModbusMessageFactory.RequestKind(frame[1]).Some?
      && kind == ModbusMessageFactory.ResponseKind(ModbusMessageFactory.RequestKind(frame[1]).value))
    requires |frame| >= ModbusMessageFactory.MinimumFrameSize(kind)
    ensures ResponseBytesToRead(frame[..ResponseFrameStartLength]).Success?
    ensures ResponseFrameStartLength + ResponseBytesToRead(frame[..ResponseFrameStartLength]).value
      == ModbusMessageFactory.FrameLength(kind, frame) + 2
  {
  }

  /**
   * A receiver reading the frame written for a well-formed request, however
   * the input continues, reads exactly that frame.
   */
  lemma RequestFrameReadBack(m: Message, rest: seq<byte>)
    requires ModbusMessageFactory.WellFormed(m) && m.functionCode != ModbusConstants.ReadWriteMultipleRegisters
    requires ModbusMessageFactory.RequestKind(m.functionCode) == Some(KindOf(m))
    ensures var input := BuildMessageFrame(m) + rest;
      RequestBytesToRead(input[..RequestFrameStartLength]).Success?
      && RequestFrameStartLength + RequestBytesToRead(input[..RequestFrameStartLength]).value == |BuildMessageFrame(m)|
  {
    var frame := AbstractModbusMessage.MessageFrame(m);
    var crc := CalculateCrc(frame);
    ModbusMessageFactory.FrameLengthOfMessage(m, crc + rest);
    assert BuildMessageFrame(m) + rest == frame + (crc + rest);
    RequestLength(KindOf(m), frame + (crc + rest));
  }

  /**
   * A receiver reading the frame written for a well-formed response of the
   * class its function code calls for, however the input continues, reads
   * exactly that frame.
   */
  lemma ResponseFrameReadBack(m: Message, rest: seq<byte>)
    requires ModbusMessageFactory.WellFormed(m)
    requires m.functionCode > ModbusConstants.ExceptionOffset ==> m.body.SlaveExceptionResponse?
    requires m.functionCode <= ModbusConstants.ExceptionOffset ==>
      (m.functionCode != ModbusConstants.ReadWriteMultipleRegisters && ModbusMessageFactory.RequestKind(m.functionCode).Some?
      && KindOf(m) == ModbusMessageFactory.ResponseKind(ModbusMessageFactory.RequestKind(m.functionCode).value))
    ensures var input := BuildMessageFrame(m) + rest;
      ResponseBytesToRead(input[..ResponseFrameStartLength]).Success?
      && ResponseFrameStartLength + ResponseBytesToRead(input[..ResponseFrameStartLength]).value == |BuildMessageFrame(m)|
  {
    var frame := AbstractModbusMessage.MessageFrame(m);
    var crc := CalculateCrc(frame);
    ModbusMessageFactory.FrameLengthOfMessage(m, crc + rest);
    assert BuildMessageFrame(m) + rest == frame + (crc + rest);
    ResponseLength(KindOf(m), frame + (crc + rest));
  }

  /**
   * Reads exactly `count` bytes, however many reads that takes; a read that
   * returns nothing is simply followed by another. Only the end of the
   * stream's script stops it, with the script's exception.
   */
  method Read(stream: StreamResource, count: nat) returns (r: Result<seq<byte>, Exception>)
    modifies stream`input, stream`chunks
    ensures r.Success? ==> (count <= |old(stream.input)| && r.value == old(stream.input)[..count]
      && stream.input == old(stream.input)[count..])
    ensures r.Failure? ==> r.error == stream.failure && stream.chunks == []
    ensures Unread(stream.input, old(stream.input)) && Unread(stream.chunks, old(stream.chunks))
    ensures |stream.chunks| <= |old(stream.chunks)|
    ensures count > 0 ==> |stream.chunks| < |old(stream.chunks)| || (old(stream.chunks) == [] && r.Failure?)
  {
    ghost var input, script, used := stream.input, stream.chunks, 0;
    var frameBytes := new byte[count];
    var numBytesRead := 0;
    while numBytesRead != count
      invariant 0 <= numBytesRead <= count && numBytesRead <= |input|
      invariant stream.input == input[numBytesRead..]
      invariant frameBytes[..numBytesRead] == input[..numBytesRead]
      invariant |stream.chunks| <= |old(stream.chunks)|
      invariant numBytesRead > 0 ==> |stream.chunks| < |old(stream.chunks)|
      invariant used <= |script| && stream.chunks == script[used..]
      decreases |stream.chunks|
    {
      var read := stream.Read(frameBytes, numBytesRead, count - numBytesRead);
      if read.Failure? {
        UnreadDrop(input, numBytesRead);
        UnreadDrop(script, used);
        return Failure(read.error);
      }
      var n := read.value;
      assert stream.chunks == script[used + 1..];
      used := used + 1;
      assert frameBytes[..numBytesRead + n] == frameBytes[..numBytesRead] + frameBytes[numBytesRead..numBytesRead + n];
      assert input[..numBytesRead + n] == input[..numBytesRead] + input[numBytesRead..][..n];
      numBytesRead := numBytesRead + n;
    }
    assert frameBytes[..] == frameBytes[..count];
    UnreadDrop(input, count);
    UnreadDrop(script, used);
    return Success(frameBytes[..]);
  }

  /** The frame written for a message: its message frame followed by the CRC. */
  function BuildMessageFrame(message: Message): (r: seq<byte>)
    ensures |r| == |AbstractModbusMessage.MessageFrame(message)| + 2
    ensures r[..|r| - 2] == AbstractModbusMessage.MessageFrame(message)
  {
    var messageFrame := AbstractModbusMessage.MessageFrame(message);
    messageFrame + CalculateCrc(messageFrame)
  }

  /** The last two bytes received are the CRC of the message's own frame. */
  predicate ChecksumsMatch(message: Message, messageFrame: seq<byte>)
    requires |messageFrame| >= 2
    ensures ChecksumsMatch(message, messageFrame)
      <==> BuildMessageFrame(message) == AbstractModbusMessage.MessageFrame(message) + messageFrame[|messageFrame| - 2..]
  {
    messageFrame[|messageFrame| - 2..] == CalculateCrc(AbstractModbusMessage.MessageFrame(message))
  }

  /** A frame written for a message passes the checksum test against the message. */
  lemma BuiltFrameChecksum(message: Message)
    ensures ChecksumsMatch(message, BuildMessageFrame(message))
  {
  }

  /**
   * Reads a request: its first seven bytes, then as many as its function
   * code says follow. What is returned is the stream's next bytes.
   */
  method ReadRequest(stream: StreamResource) returns (r: Result<seq<byte>, Exception>)
    modifies stream`input, stream`chunks
    ensures r.Success? ==> (|r.value| > RequestFrameStartLength
      && RequestBytesToRead(r.value[..RequestFrameStartLength]) == Success(|r.value| - RequestFrameStartLength)
      && |r.value| <= |old(stream.input)| && r.value == old(stream.input)[..|r.value|]
      && stream.input == old(stream.input)[|r.value|..])
    ensures r.Failure? ==> r.error in {stream.failure, NotImplementedException}
    ensures |stream.chunks| <= |old(stream.chunks)|
    ensures |stream.chunks| < |old(stream.chunks)| || (old(stream.chunks) == [] && r.Failure? && r.error == stream.failure)
  {
    ghost var input := stream.input;
    var frameStart :- Read(stream, RequestFrameStartLength);
    var toRead :- RequestBytesToRead(frameStart);
    var frameEnd :- Read(stream, toRead);
    var frame := frameStart + frameEnd;
    assert frame == input[..|frame|] && frame[..RequestFrameStartLength] == frameStart;
    return Success(frame);
  }

  /**
   * Reads a response frame: its first four bytes, then as many as its
   * function code says follow. What is returned is the stream's next bytes.
   */
  method ReadResponseFrame(stream: StreamResource) returns (r: Result<seq<byte>, Exception>)
    modifies stream`input, stream`chunks
    ensures r.Success? ==> (|r.value| > ResponseFrameStartLength
      && ResponseBytesToRead(r.value[..ResponseFrameStartLength]) == Success(|r.value| - ResponseFrameStartLength)
      && |r.value| <= |old(stream.input)| && r.value == old(stream.input)[..|r.value|]
      && stream.input == old(stream.input)[|r.value|..])
    ensures r.Failure? ==> r.error in {stream.failure, NotImplementedException}
    ensures r.Failure? ==> ((r.error == stream.failure && stream.chunks == [])
      || (|old(stream.input)| >= ResponseFrameStartLength
        && ResponseBytesToRead(old(stream.input)[..ResponseFrameStartLength]) == Failure(r.error)
        && stream.input == old(stream.input)[ResponseFrameStartLength..]))
    ensures Unread(stream.input, old(stream.input)) && Unread(stream.chunks, old(stream.chunks))
    ensures |stream.chunks| <= |old(stream.chunks)|
    ensures |stream.chunks| < |old(stream.chunks)| || (old(stream.chunks) == [] && r.Failure? && r.error == stream.failure)
  {
    ghost var input, script := stream.input, stream.chunks;
    var frameStart :- Read(stream, ResponseFrameStartLength);
    ghost var middle, later := stream.input, stream.chunks;
    var toRead :- ResponseBytesToRead(frameStart);
    var rest := Read(stream, toRead);
    UnreadTransitive(stream.input, middle, input);
    UnreadTransitive(stream.chunks, later, script);
    var frameEnd :- rest;
    var frame := frameStart + frameEnd;
    assert frame == input[..|frame|] && frame[..ResponseFrameStartLength] == frameStart;
    return Success(frame);
  }
}

/**
 * The TCP/IP transport (MODBUS Messaging on TCP/IP Implementation Guide
 * V1.0b, section 3.1.3): a frame is the MBAP header (transaction
 * identifier, protocol identifier 0, length, unit identifier) followed by
 * the protocol data unit. The length counts the unit identifier and the
 * protocol data unit, so the unit identifier and protocol data unit
 * together are the message frame.
 */
module ModbusIpTransport {
  import opened Wrappers
  import opened Bytes
  import opened Exceptions
  import opened Messages
  import opened StreamResources
  import AbstractModbusMessage
  import ModbusConstants
  import ModbusMessageFactory
  import ModbusTransportBase

  /** The header bytes before the unit identifier: transaction id, protocol id and length. */
  const MbapHeaderLength: nat := 6

  /**
   * The MBAP header of a message: its transaction id, the protocol id 0,
   * the length of its protocol data unit plus one (truncated to 16 bits),
   * and its slave address as the unit identifier.
   */
  function GetMbapHeader(message: Message): (r: seq<byte>)
    ensures |r| == MbapHeaderLength + 1
    ensures NetworkToHostOrder(r, 0) == message.transactionId && r[2] == 0 && r[3] == 0
    ensures NetworkToHostOrder(r, 4) == (|AbstractModbusMessage.ProtocolDataUnit(message)| + 1) % 0x1_0000
    ensures r[6] == message.slaveAddress
  {
    var length := (|AbstractModbusMessage.ProtocolDataUnit(message)| + 1) % 0x1_0000;
    NetworkOrderRoundTrip(message.transactionId, [], [0, 0] + HostToNetworkOrder(length) + [message.slaveAddress]);
    NetworkOrderRoundTrip(length, HostToNetworkOrder(message.transactionId) + [0, 0], [message.slaveAddress]);
    HostToNetworkOrder(message.transactionId) + [0, 0] + HostToNetworkOrder(length) + [message.slaveAddress]
  }

  /** The frame written for a message: the MBAP header and the protocol data unit, so the message frame after six bytes. */
  function BuildMessageFrame(message: Message): (r: seq<byte>)
    ensures |r| >= MbapHeaderLength && r[..MbapHeaderLength] == GetMbapHeader(message)[..MbapHeaderLength]
    ensures r[MbapHeaderLength..] == AbstractModbusMessage.MessageFrame(message)
  {
    var header := GetMbapHeader(message);
    var pdu := AbstractModbusMessage.ProtocolDataUnit(message);
    HeaderThenUnit(header, pdu);
    header + pdu
  }

  lemma HeaderThenUnit(header: seq<byte>, pdu: seq<byte>)
    requires |header| == MbapHeaderLength + 1
    ensures (header + pdu)[..MbapHeaderLength] == header[..MbapHeaderLength]
    ensures (header + pdu)[MbapHeaderLength..] == [header[MbapHeaderLength]] + pdu
  {
    assert (header + pdu)[MbapHeaderLength..] == [header[MbapHeaderLength]] + pdu;
  }

  /**
   * The transaction id that follows `id`: one more, wrapping from the
   * largest 16-bit value to 1 so that 0 is never used again.
   */
  function NewTransactionId(id: u16): (r: u16)
    ensures r != 0
    ensures id < 0xFFFF ==> r == id + 1
    ensures id == 0xFFFF ==> r == 1
  {
    if id == 0xFFFF then 1 else id + 1
  }

  /** The transaction id after `k` requests starting from `id`. */
  function Advance(id: u16, k: nat): u16 {
    if k == 0 then id else NewTransactionId(Advance(id, k - 1))
  }

  /** From a used id, the ids cycle through 1 to 65535. */
  lemma {:induction false} AdvanceCycle(id: u16, k: nat)
    requires id != 0
    ensures Advance(id, k) == (id - 1 + k) % 0xFFFF + 1
  {
    if k > 0 {
      AdvanceCycle(id, k - 1);
    }
  }

  /** A transport's ids, starting from 0, are 1, 2, ..., 65535, 1, ... */
  lemma {:induction false} AdvanceFromStart(k: nat)
    ensures Advance(0, k + 1) == k % 0xFFFF + 1
  {
    AdvanceCycle(1, k);
    AdvanceShift(0, k);
  }

  lemma {:induction false} AdvanceShift(id: u16, k: nat)
    ensures Advance(id, k + 1) == Advance(NewTransactionId(id), k)
  {
    if k > 0 {
      AdvanceShift(id, k - 1);
    }
  }

  /** No two of 65535 consecutive requests share a transaction id. */
  lemma DistinctTransactionIds(id: u16, i: nat, j: nat)
    requires i < j < i + 0xFFFF
    ensures Advance(id, i + 1) != Advance(id, j + 1)
  {
    AdvanceShift(id, i);
    AdvanceShift(id, j);
    AdvanceCycle(NewTransactionId(id), i);
    AdvanceCycle(NewTransactionId(id), j);
  }

  /**
   * Reads exactly `count` bytes; a read that returns nothing means the
   * connection was closed and raises IOException.
   */
  method ReadBytes(stream: StreamResource, count: nat) returns (r: Result<seq<byte>, Exception>)
    modifies stream`input, stream`chunks
    ensures r.Success? ==> (count <= |old(stream.input)| && r.value == old(stream.input)[..count]
      && stream.input == old(stream.input)[count..])
    ensures r.Failure? ==> r.error in {stream.failure, IOException}
    ensures r.Failure? ==> ((r.error == stream.failure && stream.chunks == [])
      || (r.error == IOException && (stream.input == [] || 0 in old(stream.chunks))))
    ensures Unread(stream.input, old(stream.input)) && Unread(stream.chunks, old(stream.chunks))
    ensures |stream.chunks| <= |old(stream.chunks)|
    ensures count > 0 ==> (|stream.chunks| < |old(stream.chunks)| || (old(stream.chunks) == [] && r.Failure?
      && r.error == stream.failure))
  {
    ghost var input, script, used := stream.input, stream.chunks, 0;
    var buffer := new byte[count];
    var numBytesRead := 0;
    while numBytesRead != count
      invariant 0 <= numBytesRead <= count && numBytesRead <= |input|
      invariant stream.input == input[numBytesRead..]
      invariant buffer[..numBytesRead] == input[..numBytesRead]
      invariant |stream.chunks| <= |old(stream.chunks)|
      invariant numBytesRead > 0 ==> |stream.chunks| < |old(stream.chunks)|
      invariant used <= |script| && stream.chunks == script[used..]
      decreases count - numBytesRead
    {
      UnreadDrop(input, numBytesRead);
      UnreadDrop(script, used);
      var bRead :- stream.Read(buffer, numBytesRead, count - numBytesRead);
      assert stream.chunks == script[used + 1..];
      if bRead == 0 {
        assert stream.input == [] || script[used] == 0;
        UnreadDrop(script, used + 1);
        return Failure(IOException);
      }
      used := used + 1;
      assert buffer[..numBytesRead + bRead] == buffer[..numBytesRead] + buffer[numBytesRead..numBytesRead + bRead];
      assert input[..numBytesRead + bRead] == input[..numBytesRead] + input[numBytesRead..][..bRead];
      numBytesRead := numBytesRead + bRead;
    }
    assert buffer[..] == buffer[..count];
    UnreadDrop(input, count);
    UnreadDrop(script, used);
    return Success(buffer[..]);
  }

  /**
   * Reads a frame: the six header bytes before the unit identifier, then as
   * many bytes as the header's length field says.
   */
  method ReadRequestResponse(stream: StreamResource) returns (r: Result<seq<byte>, Exception>)
    modifies stream`input, stream`chunks
    ensures r.Success? ==> (|r.value| >= MbapHeaderLength
      && |r.value| == MbapHeaderLength + NetworkToHostOrder(r.value, 4)
      && |r.value| <= |old(stream.input)| && r.value == old(stream.input)[..|r.value|]
      && stream.input == old(stream.input)[|r.value|..])
    ensures r.Failure? ==> r.error in {stream.failure, IOException}
    ensures r.Failure? ==> ((r.error == stream.failure && stream.chunks == [])
      || (r.error == IOException && (stream.input == [] || 0 in old(stream.chunks))))
    ensures Unread(stream.input, old(stream.input)) && Unread(stream.chunks, old(stream.chunks))
    ensures |stream.chunks| <= |old(stream.chunks)|
    ensures |stream.chunks| < |old(stream.chunks)| || (old(stream.chunks) == [] && r.Failure? && r.error == stream.failure)
  {
    ghost var input, script := stream.input, stream.chunks;
    var mbapHeader :- ReadBytes(stream, MbapHeaderLength);
    ghost var middle, later := stream.input, stream.chunks;
    var frameLength := NetworkToHostOrder(mbapHeader, 4);
    var rest := ReadBytes(stream, frameLength);
    UnreadTransitive(stream.input, middle, input);
    UnreadTransitive(stream.chunks, later, script);
    if rest.Failure? && 0 in later {
      UnreadIn(0, later, script);
    }
    var messageFrame :- rest;
    var frame := mbapHeader + messageFrame;
    assert frame == input[..|frame|] && frame[..MbapHeaderLength] == mbapHeader;
    return Success(frame);
  }

  /**
   * The response a whole frame holds: the message frame after the header,
   * decoded as every transport decodes it, with the header's transaction id.
   */
  function CreateMessageAndInitializeTransactionId(kind: MessageKind, fullFrame: seq<byte>): (r: Result<Message, Exception>)
    requires |fullFrame| >= MbapHeaderLength
    ensures ModbusTransportBase.CreateResponse(kind, fullFrame[MbapHeaderLength..]).Failure? ==>
      r == ModbusTransportBase.CreateResponse(kind, fullFrame[MbapHeaderLength..])
    ensures r.Success? <==> ModbusTransportBase.CreateResponse(kind, fullFrame[MbapHeaderLength..]).Success?
    ensures r.Success? ==> (r.value.transactionId == NetworkToHostOrder(fullFrame, 0)
      && r.value.(transactionId := 0) == ModbusTransportBase.CreateResponse(kind, fullFrame[MbapHeaderLength..]).value)
    ensures r.Success? ==> ModbusMessageFactory.FullData(r.value)
  {
    var mbapHeader := fullFrame[..MbapHeaderLength];
    var messageFrame := fullFrame[MbapHeaderLength..];
    var response :- ModbusTransportBase.CreateResponse(kind, messageFrame);
    Success(response.(transactionId := NetworkToHostOrder(mbapHeader, 0)))
  }

  /** A response with a different transaction id than the request's raises IOException. */
  function OnValidateResponse(request: Message, response: Message): (r: Outcome<Exception>)
    ensures r.Pass? <==> request.transactionId == response.transactionId
    ensures r.Fail? ==> r.error == IOException
  {
    if request.transactionId != response.transactionId then Fail(IOException) else Pass
  }

  /**
   * A response is an old one, to be skipped, when its transaction id is
   * below the request's by less than the threshold. The comparison does not
   * wrap around.
   */
  predicate OnShouldRetryResponse(request: Message, response: Message, threshold: u32)
    ensures OnShouldRetryResponse(request, response, threshold) ==> response.transactionId < request.transactionId
    ensures threshold <= 1 ==> !OnShouldRetryResponse(request, response, threshold)
    ensures threshold > 1 && response.transactionId as int + 1 == request.transactionId as int
      ==> OnShouldRetryResponse(request, response, threshold)
  {
    request.transactionId > response.transactionId && request.transactionId - response.transactionId < threshold
  }

  /** With the threshold at zero no response is ever skipped; with threshold 3, request 5 skips response 3. */
  lemma ShouldRetryExamples(request: Message, response: Message)
    ensures !OnShouldRetryResponse(request, response, 0)
    ensures OnShouldRetryResponse(request.(transactionId := 5), response.(transactionId := 3), 3)
    ensures !OnShouldRetryResponse(request.(transactionId := 5), response.(transactionId := 5), 3)
  {
  }

  /**
   * An old response sent just before the ids wrapped around is not
   * recognised: request 1 does not skip response 65535 whatever the
   * threshold.
   */
  lemma ShouldRetryDoesNotWrap(request: Message, response: Message, threshold: u32)
    requires request.transactionId == 1 && response.transactionId == 0xFFFF
    ensures !OnShouldRetryResponse(request, response, threshold)
  {
  }

  /** The frame written for a message with a protocol data unit shorter than 65535 bytes announces its own length. */
  lemma FrameLengthField(m: Message)
    requires |AbstractModbusMessage.ProtocolDataUnit(m)| + 1 < 0x1_0000
    ensures |BuildMessageFrame(m)| == MbapHeaderLength + NetworkToHostOrder(BuildMessageFrame(m), 4)
  {
    var r := BuildMessageFrame(m);
    assert |r| == MbapHeaderLength + |AbstractModbusMessage.MessageFrame(m)|;
    LengthField(r, GetMbapHeader(m), |AbstractModbusMessage.ProtocolDataUnit(m)| + 1);
  }

  /** A frame whose first six bytes are a header announcing the length of the rest announces its own length. */
  lemma LengthField(r: seq<byte>, header: seq<byte>, length: nat)
    requires |header| == MbapHeaderLength + 1 && length < 0x1_0000
    requires NetworkToHostOrder(header, 4) == length % 0x1_0000
    requires |r| == MbapHeaderLength + length && r[..MbapHeaderLength] == header[..MbapHeaderLength]
    ensures |r| == MbapHeaderLength + NetworkToHostOrder(r, 4)
  {
    assert r[4] == r[..MbapHeaderLength][4] == header[4];
    assert r[5] == r[..MbapHeaderLength][5] == header[5];
    SameWord(r, 4, header, 4);
  }

  /**
   * A well-formed message decoded from the frame written for it, as a
   * message of its own class (an exception response exactly when its
   * function code is above the offset), comes back normalised with its
   * transaction id.
   */
  lemma FrameRoundTrip(m: Message)
    requires ModbusMessageFactory.WellFormed(m)
    requires m.functionCode > ModbusConstants.ExceptionOffset ==> m.body.SlaveExceptionResponse?
    ensures CreateMessageAndInitializeTransactionId(KindOf(m), BuildMessageFrame(m))
      == Success(ModbusMessageFactory.Normalized(m).(transactionId := m.transactionId))
  {
    var frame := AbstractModbusMessage.MessageFrame(m);
    ModbusMessageFactory.MessageRoundTrip(m, []);
    assert frame + [] == frame;
    assert BuildMessageFrame(m)[..MbapHeaderLength] == GetMbapHeader(m)[..MbapHeaderLength];
    assert NetworkToHostOrder(BuildMessageFrame(m), 0) == NetworkToHostOrder(GetMbapHeader(m), 0);
  }
}

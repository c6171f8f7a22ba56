/**
 * A transport: the ASCII, RTU or TCP/IP framing of one connection, with the
 * settings of its retry policy, and the master's request/response exchange
 * with its retries.
 */
module ModbusTransports {
  import opened Wrappers
  import opened Bytes
  import opened Exceptions
  import opened Messages
  import opened StreamResources
  import opened SlaveExceptions
  import StreamResourceUtility
  import ModbusUtility
  import AbstractModbusMessage
  import ModbusConstants
  import ModbusMessageFactory
  import Base = ModbusTransportBase
  import Serial = ModbusSerialTransport
  import AsciiFraming = ModbusAsciiTransport
  import RtuFraming = ModbusRtuTransport
  import IpFraming = ModbusIpTransport

  datatype TransportMode = AsciiTransport | RtuTransport | IpTransport
  {
    function SerialMode(): Serial.SerialMode
      requires !IpTransport?
    {
      if AsciiTransport? then Serial.AsciiMode else Serial.RtuMode
    }
  }

  /** The frame written for a message. */
  function SentFrame(mode: TransportMode, message: Message): seq<byte> {
    if mode.IpTransport? then IpFraming.BuildMessageFrame(message)
    else Serial.BuildMessageFrame(mode.SerialMode(), message)
  }

  /** What writing a message does to the stream: a serial transport discards its input buffer first. */
  function WriteEvents(mode: TransportMode, message: Message): (r: seq<StreamEvent>)
    ensures Writes(r) == 1
  {
    if mode.IpTransport? then [Wrote(SentFrame(mode, message))]
    else
      assert [Discarded, Wrote(SentFrame(mode, message))][..1] == [Discarded];
      [Discarded, Wrote(SentFrame(mode, message))]
  }

  /**
   * A frame read from `input`, leaving `remaining` unread. In ASCII it is
   * the frame the first line holds; in RTU the first bytes, as many as the
   * function code calls for (in a request or in a response); over TCP/IP
   * the first bytes, as many as the header's length field says.
   */
  predicate Received(mode: TransportMode, isRequest: bool, input: seq<byte>, frame: seq<byte>, remaining: seq<byte>)
  {
    match mode
    case AsciiTransport =>
      StreamResourceUtility.NewLineIndex(input).Some?
      && var i := StreamResourceUtility.NewLineIndex(input).value;
      AsciiFraming.FrameOfLine(StreamResourceUtility.Text(input[..i])) == Success(frame) && remaining == input[i + 2..]
    case RtuTransport =>
      |frame| <= |input| && frame == input[..|frame|] && remaining == input[|frame|..]
      && if isRequest then
        |frame| > RtuFraming.RequestFrameStartLength
        && RtuFraming.RequestBytesToRead(frame[..RtuFraming.RequestFrameStartLength])
          == Success(|frame| - RtuFraming.RequestFrameStartLength)
      else
        |frame| > RtuFraming.ResponseFrameStartLength
        && RtuFraming.ResponseBytesToRead(frame[..RtuFraming.ResponseFrameStartLength])
          == Success(|frame| - RtuFraming.ResponseFrameStartLength)
    case IpTransport =>
      |frame| <= |input| && frame == input[..|frame|] && remaining == input[|frame|..]
      && |frame| >= IpFraming.MbapHeaderLength && |frame| == IpFraming.MbapHeaderLength + NetworkToHostOrder(frame, 4)
  }

  /** The response a received frame holds, as the transport decodes it. */
  function DecodeResponse(mode: TransportMode, checkFrame: bool, kind: MessageKind, frame: seq<byte>)
    : (r: Result<Message, Exception>)
    requires mode.IpTransport? ==> |frame| >= IpFraming.MbapHeaderLength
    ensures r.Success? ==> ((KindOf(r.value) == kind || KindOf(r.value) == SlaveExceptionResponseType)
      && (r.value.body.SlaveExceptionResponse? <==> r.value.functionCode > ModbusConstants.ExceptionOffset))
    ensures r.Failure? ==> r.error in {IndexOutOfRangeException, FormatException, ArgumentOutOfRangeException, IOException}
    ensures r.Success? ==> ModbusMessageFactory.FullData(r.value)
  {
    if mode.IpTransport? then IpFraming.CreateMessageAndInitializeTransactionId(kind, frame)
    else Serial.CreateResponse(mode.SerialMode(), checkFrame, kind, frame)
  }

  /** The frame a transport hands to decoding after reading what was sent for a message. */
  function WireFrame(mode: TransportMode, message: Message): seq<byte> {
    match mode
    case AsciiTransport =>
      var frame := AbstractModbusMessage.MessageFrame(message);
      frame + [ModbusUtility.CalculateLrc(frame)]
    case RtuTransport => RtuFraming.BuildMessageFrame(message)
    case IpTransport => IpFraming.BuildMessageFrame(message)
  }

  /** The conditions under which a response written by one end reads back at the other. */
  predicate Transmissible(mode: TransportMode, m: Message) {
    ModbusMessageFactory.WellFormed(m) && Serial.RespondsAs(m)
    && (mode.RtuTransport? ==> m.functionCode != ModbusConstants.ReadWriteMultipleRegisters)
    && (mode.IpTransport? ==> |AbstractModbusMessage.ProtocolDataUnit(m)| + 1 < 0x1_0000)
  }

  /**
   * A response written by a sender's transport, followed by anything, is
   * received by the same kind of transport as exactly the frame written,
   * leaving the rest unread, and decodes as the normalised response (over
   * TCP/IP with its transaction id), checksum and all.
   */
  lemma ReceiveWritten(mode: TransportMode, checkFrame: bool, m: Message, rest: seq<byte>)
    requires Transmissible(mode, m)
    ensures Received(mode, false, SentFrame(mode, m) + rest, WireFrame(mode, m), rest)
    ensures mode.IpTransport? ==> |WireFrame(mode, m)| >= IpFraming.MbapHeaderLength
    ensures DecodeResponse(mode, checkFrame, KindOf(m), WireFrame(mode, m)) == Success(
      if mode.IpTransport? then ModbusMessageFactory.Normalized(m).(transactionId := m.transactionId)
      else ModbusMessageFactory.Normalized(m))
  {
    match mode
    case AsciiTransport => ReceiveAscii(checkFrame, m, rest);
    case RtuTransport => ReceiveRtu(checkFrame, m, rest);
    case IpTransport => ReceiveIp(checkFrame, m, rest);
  }

  lemma ReceiveAscii(checkFrame: bool, m: Message, rest: seq<byte>)
    requires Transmissible(AsciiTransport, m)
    ensures Received(AsciiTransport, false, SentFrame(AsciiTransport, m) + rest, WireFrame(AsciiTransport, m), rest)
    ensures DecodeResponse(AsciiTransport, checkFrame, KindOf(m), WireFrame(AsciiTransport, m))
      == Success(ModbusMessageFactory.Normalized(m))
  {
    ReceiveAsciiLine(m, rest);
    Serial.AsciiResponseRoundTrip(m, checkFrame);
  }

  lemma ReceiveAsciiLine(m: Message, rest: seq<byte>)
    ensures Received(AsciiTransport, false, SentFrame(AsciiTransport, m) + rest, WireFrame(AsciiTransport, m), rest)
  {
    var built := AsciiFraming.BuildMessageFrame(m);
    var input := built + rest;
    assert SentFrame(AsciiTransport, m) == built;
    AsciiFraming.FrameRoundTrip(m, rest);
    var i := StreamResourceUtility.NewLineIndex(input).value;
    assert input[i + 2..] == rest;
  }

  lemma ReceiveRtu(checkFrame: bool, m: Message, rest: seq<byte>)
    requires Transmissible(RtuTransport, m)
    ensures Received(RtuTransport, false, SentFrame(RtuTransport, m) + rest, WireFrame(RtuTransport, m), rest)
    ensures DecodeResponse(RtuTransport, checkFrame, KindOf(m), WireFrame(RtuTransport, m))
      == Success(ModbusMessageFactory.Normalized(m))
  {
    RtuReceived(m, rest);
    Serial.RtuResponseRoundTrip(m, checkFrame);
  }

  lemma RtuReceived(m: Message, rest: seq<byte>)
    requires Transmissible(RtuTransport, m)
    ensures Received(RtuTransport, false, SentFrame(RtuTransport, m) + rest, WireFrame(RtuTransport, m), rest)
  {
    var built := RtuFraming.BuildMessageFrame(m);
    RtuFraming.ResponseFrameReadBack(m, rest);
    assert (built + rest)[..RtuFraming.ResponseFrameStartLength] == built[..RtuFraming.ResponseFrameStartLength];
    assert (built + rest)[..|built|] == built && (built + rest)[|built|..] == rest;
  }

  lemma ReceiveIp(checkFrame: bool, m: Message, rest: seq<byte>)
    requires Transmissible(IpTransport, m)
    ensures Received(IpTransport, false, SentFrame(IpTransport, m) + rest, WireFrame(IpTransport, m), rest)
    ensures |WireFrame(IpTransport, m)| >= IpFraming.MbapHeaderLength
    ensures DecodeResponse(IpTransport, checkFrame, KindOf(m), WireFrame(IpTransport, m))
      == Success(ModbusMessageFactory.Normalized(m).(transactionId := m.transactionId))
  {
    var built := IpFraming.BuildMessageFrame(m);
    IpFraming.FrameLengthField(m);
    IpFraming.FrameRoundTrip(m);
    assert (built + rest)[..|built|] == built && (built + rest)[|built|..] == rest;
  }

  /** The transport's own validation of a response: over TCP/IP the transaction ids must agree. */
  function OnValidateResponse(mode: TransportMode, request: Message, response: Message): (r: Outcome<Exception>)
    ensures r.Pass? <==> (mode.IpTransport? ==> request.transactionId == response.transactionId)
    ensures r.Fail? ==> r.error == IOException
  {
    if mode.IpTransport? then IpFraming.OnValidateResponse(request, response)
    else Serial.OnValidateResponse(request, response)
  }

  /** The transport's own test for an old response: over TCP/IP a transaction id a little behind the request's. */
  predicate OnShouldRetryResponse(mode: TransportMode, request: Message, response: Message, threshold: u32)
    ensures OnShouldRetryResponse(mode, request, response, threshold)
      ==> mode.IpTransport? && response.transactionId < request.transactionId
  {
    mode.IpTransport? && IpFraming.OnShouldRetryResponse(request, response, threshold)
  }

  /** What happened in one attempt of an exchange. */
  datatype Attempt =
    /** a retryable exception, with budget left: the request is sent again */
    | Retried(error: Exception)
    /** the slave was busy: the request is sent again after the wait */
    | Busy
    /** a response passed validation */
    | Completed
    /** an exception ended the exchange */
    | Raised(error: Exception)

  /** An exception response with the slave-device-busy code. */
  predicate IsBusy(e: Exception) {
    e.SlaveError? && e.slaveException.SlaveExceptionCode() == ModbusConstants.SlaveDeviceBusy
  }

  /** The exceptions that use up one of the attempts the retry count allows. */
  predicate Charges(e: Exception, slaveBusyUsesRetryCount: bool) {
    IsRetryable(e) || (slaveBusyUsesRetryCount && IsBusy(e))
  }

  /** The attempts of a log that used up the retry count. */
  function Charged(log: seq<Attempt>, slaveBusyUsesRetryCount: bool): (r: nat)
    ensures r <= |log|
  {
    if |log| == 0 then 0
    else
      var last := log[|log| - 1];
      Charged(log[..|log| - 1], slaveBusyUsesRetryCount) + if last.Retried? || (slaveBusyUsesRetryCount && last.Busy?) then 1 else 0
  }

  function Max(a: int, b: int): int {
    if a < b then b else a
  }

  /** The message as sent with transaction id `id`: only TCP/IP stamps it. */
  function StampedWith(mode: TransportMode, message: Message, id: u16): (r: Message)
    ensures r.slaveAddress == message.slaveAddress && r.functionCode == message.functionCode && r.body == message.body
    ensures mode.IpTransport? ==> r.transactionId == id
    ensures !mode.IpTransport? ==> r == message
  {
    if mode.IpTransport? then message.(transactionId := id) else message
  }

  /** The transaction id after `k` requests: TCP/IP moves on once per request, a serial transport never. */
  function IdAfter(mode: TransportMode, id: u16, k: nat): u16 {
    if mode.IpTransport? then IpFraming.Advance(id, k) else id
  }

  /**
   * The messages written by sending a message `k` times from transaction id
   * `id`: the same message each time, over TCP/IP stamped with the next id.
   */
  function Resent(mode: TransportMode, message: Message, id: u16, k: nat): (r: seq<Message>)
    ensures |r| == k
    ensures forall i :: 0 <= i < k ==> r[i] == StampedWith(mode, message, IdAfter(mode, id, i + 1))
  {
    if k == 0 then [] else Resent(mode, message, id, k - 1) + [StampedWith(mode, message, IdAfter(mode, id, k))]
  }

  /** The messages of one more send follow those of the sends before it. */
  lemma ResentNext(mode: TransportMode, message: Message, id: u16, k: nat, before: seq<Message>, after: seq<Message>)
    requires after == before + Resent(mode, message, id, k) + [StampedWith(mode, message, IdAfter(mode, id, k + 1))]
    ensures after == before + Resent(mode, message, id, k + 1)
  {
    var sent := Resent(mode, message, id, k);
    var last := [StampedWith(mode, message, IdAfter(mode, id, k + 1))];
    ResentAfter(before, sent, last, after, Resent(mode, message, id, k + 1));
  }

  lemma ResentAfter<T>(before: seq<T>, sent: seq<T>, last: seq<T>, after: seq<T>, whole: seq<T>)
    requires after == before + sent + last && whole == sent + last
    ensures after == before + whole
  {
  }

  /** Over TCP/IP, the k sends of a request carry k different transaction ids, while k is at most 65535. */
  lemma ResentIdsDistinct(mode: TransportMode, id: u16, i: nat, j: nat)
    requires mode.IpTransport? && 1 <= i < j <= 0xFFFF
    ensures IdAfter(mode, id, i) != IdAfter(mode, id, j)
  {
    IpFraming.DistinctTransactionIds(id, i - 1, j - 1);
  }

  /**
   * What an exception raised by one attempt leads to, on attempt number
   * `attempt`: a busy slave is retried (while the retry count allows, if
   * busy answers use it), a retryable exception is retried while the retry
   * count allows, and anything else is raised.
   */
  function AfterException(error: Exception, attempt: int, retries: int, slaveBusyUsesRetryCount: bool): (r: Attempt)
    ensures r.Busy? <==> IsBusy(error) && (slaveBusyUsesRetryCount ==> attempt <= retries)
    ensures r.Retried? <==> IsRetryable(error) && attempt <= retries
    ensures r.Retried? || r.Raised?  ==> r.error == error
    ensures !r.Completed?
  {
    if error.SlaveError? then
      if error.slaveException.SlaveExceptionCode() != ModbusConstants.SlaveDeviceBusy
        || (slaveBusyUsesRetryCount && attempt > retries) then Raised(error)
      else Busy
    else if IsRetryable(error) then
      if attempt > retries then Raised(error) else Retried(error)
    else Raised(error)
  }

  /**
   * The attempts of an exchange still going on: each was a retry after a
   * retryable exception or a busy answer, and together they used up no more
   * than the retry count allows (all of them, if busy answers use it).
   */
  predicate Pending(log: seq<Attempt>, retries: int, slaveBusyUsesRetryCount: bool) {
    (forall i :: 0 <= i < |log| ==> log[i].Retried? || log[i].Busy?)
    && (forall i :: 0 <= i < |log| && log[i].Retried? ==> IsRetryable(log[i].error))
    && Charged(log, slaveBusyUsesRetryCount) <= Max(0, retries)
    && (slaveBusyUsesRetryCount ==> Charged(log, slaveBusyUsesRetryCount) == |log|)
  }

  /** An attempt that does not end the exchange keeps it pending and uses up one more attempt if charged. */
  lemma NextPending(log: seq<Attempt>, error: Exception, attempt: int, retries: int, slaveBusyUsesRetryCount: bool)
    requires Pending(log, retries, slaveBusyUsesRetryCount) && attempt == 1 + Charged(log, slaveBusyUsesRetryCount)
    requires !AfterException(error, attempt, retries, slaveBusyUsesRetryCount).Raised?
    ensures var next := AfterException(error, attempt, retries, slaveBusyUsesRetryCount);
      Pending(log + [next], retries, slaveBusyUsesRetryCount)
      && Charged(log + [next], slaveBusyUsesRetryCount)
        == Charged(log, slaveBusyUsesRetryCount) + if next.Retried? || slaveBusyUsesRetryCount then 1 else 0
  {
    var next := AfterException(error, attempt, retries, slaveBusyUsesRetryCount);
    ChargedAppend(log, next, slaveBusyUsesRetryCount);
    var log' := log + [next];
    assert forall i :: 0 <= i < |log'| ==> log'[i] == if i < |log| then log[i] else next;
  }

  /**
   * The attempts of a finished exchange and its result: every attempt but
   * the last was a retry, as Pending says; the last one completed exactly
   * when a response is returned, and otherwise raised the exception
   * returned. An exception raised because it used up the retry count comes
   * after exactly as many charged attempts as the count allows; a busy
   * answer is raised only when busy answers use the count, and then the
   * request was sent at most retries + 1 times.
   */
  predicate Concluded(log: seq<Attempt>, r: Result<Message, Exception>, retries: int, slaveBusyUsesRetryCount: bool) {
    |log| >= 1 && Pending(log[..|log| - 1], retries, slaveBusyUsesRetryCount)
    && (r.Success? <==> log[|log| - 1] == Completed)
    && (r.Failure? ==> log[|log| - 1] == Raised(r.error))
    && (r.Failure? && Charges(r.error, slaveBusyUsesRetryCount) ==>
      Charged(log[..|log| - 1], slaveBusyUsesRetryCount) == Max(0, retries))
    && (r.Failure? && IsBusy(r.error) ==> slaveBusyUsesRetryCount)
    && (slaveBusyUsesRetryCount ==> |log| <= Max(0, retries) + 1)
  }

  /** The attempt that ends an exchange concludes it. */
  lemma LastAttempt(log: seq<Attempt>, next: Attempt, r: Result<Message, Exception>, attempt: int, retries: int,
                    slaveBusyUsesRetryCount: bool)
    requires Pending(log, retries, slaveBusyUsesRetryCount) && attempt == 1 + Charged(log, slaveBusyUsesRetryCount)
    requires r.Success? <==> next.Completed?
    requires r.Failure? ==> next == AfterException(r.error, attempt, retries, slaveBusyUsesRetryCount)
    requires next.Completed? || next.Raised?
    ensures Concluded(log + [next], r, retries, slaveBusyUsesRetryCount)
  {
    assert (log + [next])[..|log|] == log;
  }

  /**
   * The log extended by attempt `next`, which returned `r`: an attempt that
   * completed or raised concludes the exchange; any other leaves it pending
   * and is charged when it is a retry or busy answers use the retry count.
   */
  predicate Logged(log: seq<Attempt>, next: Attempt, r: Result<Message, Exception>, retries: int,
                   slaveBusyUsesRetryCount: bool)
  {
    (next.Completed? || next.Raised? ==> Concluded(log + [next], r, retries, slaveBusyUsesRetryCount))
    && (!(next.Completed? || next.Raised?) ==>
      Pending(log + [next], retries, slaveBusyUsesRetryCount)
      && Charged(log + [next], slaveBusyUsesRetryCount)
        == Charged(log, slaveBusyUsesRetryCount) + if next.Retried? || slaveBusyUsesRetryCount then 1 else 0)
  }

  /** An attempt either concludes the exchange or leaves it pending, charged as its kind says. */
  lemma AttemptLogged(log: seq<Attempt>, next: Attempt, r: Result<Message, Exception>, attempt: int, retries: int,
                      slaveBusyUsesRetryCount: bool)
    requires Pending(log, retries, slaveBusyUsesRetryCount) && attempt == 1 + Charged(log, slaveBusyUsesRetryCount)
    requires r.Success? <==> next.Completed?
    requires r.Failure? ==> next == AfterException(r.error, attempt, retries, slaveBusyUsesRetryCount)
    ensures Logged(log, next, r, retries, slaveBusyUsesRetryCount)
  {
    if next.Completed? || next.Raised? {
      LastAttempt(log, next, r, attempt, retries, slaveBusyUsesRetryCount);
    } else {
      NextPending(log, r.error, attempt, retries, slaveBusyUsesRetryCount);
    }
  }

  /** Appending one attempt charges it when it is a retry, or a busy answer that uses the retry count. */
  lemma ChargedAppend(log: seq<Attempt>, a: Attempt, slaveBusyUsesRetryCount: bool)
    ensures Charged(log + [a], slaveBusyUsesRetryCount) ==
      Charged(log, slaveBusyUsesRetryCount) + if a.Retried? || (slaveBusyUsesRetryCount && a.Busy?) then 1 else 0
  {
    assert (log + [a])[..|log|] == log;
  }

  /** A response that ends an exchange: of the expected class, not an exception response, and valid for the request as sent. */
  predicate Accepted(mode: TransportMode, kind: MessageKind, request: Message, response: Message)
    requires WellTyped(request)
  {
    KindOf(response) == kind && !response.body.SlaveExceptionResponse?
    && Base.ValidateResponse(request, response, OnValidateResponse(mode, request, response)).Pass?
  }

  /**
   * The slave exceptions an exchange raises: built from an exception
   * response other than ACKNOWLEDGE, which it carries.
   */
  predicate FromResponse(e: Exception) {
    e.SlaveError? ==> (e.slaveException.response.Some? && e.slaveException.message.None?
      && e.slaveException.SlaveExceptionCode() != ModbusConstants.Acknowledge)
  }

  /** What the next response frame in the bytes still to be read is. */
  datatype FrameRead =
    /** a whole frame, and what follows it */
    | Framed(frame: seq<byte>, rest: seq<byte>)
    /** a frame start the transport rejects, and what is left after the bytes it read */
    | Malformed(error: Exception, rest: seq<byte>)
    /** the bytes end before a frame does */
    | Short

  /**
   * The next response frame in `input`, as the transport takes it: in ASCII
   * the first line, in RTU the first four bytes and as many more as their
   * function code says, over TCP/IP the six header bytes and as many more
   * as the header's length field says.
   */
  function NextFrame(mode: TransportMode, input: seq<byte>): (r: FrameRead)
    ensures r.Framed? ==> (Received(mode, false, input, r.frame, r.rest)
      && (mode.IpTransport? ==> |r.frame| >= IpFraming.MbapHeaderLength))
    ensures r.Malformed? ==> !r.error.SlaveError? && !mode.IpTransport?
    ensures !r.Short? ==> Unread(r.rest, input) && |r.rest| < |input|
  {
    match mode
    case AsciiTransport =>
      (match StreamResourceUtility.NewLineIndex(input)
       case None => Short
       case Some(i) =>
         match AsciiFraming.FrameOfLine(StreamResourceUtility.Text(input[..i]))
         case Success(frame) => UnreadDrop(input, i + 2); Framed(frame, input[i + 2..])
         case Failure(e) => UnreadDrop(input, i + 2); Malformed(e, input[i + 2..]))
    case RtuTransport =>
      if |input| < RtuFraming.ResponseFrameStartLength then Short
      else
        (match RtuFraming.ResponseBytesToRead(input[..RtuFraming.ResponseFrameStartLength])
         case Failure(e) =>
           UnreadDrop(input, RtuFraming.ResponseFrameStartLength);
           Malformed(e, input[RtuFraming.ResponseFrameStartLength..])
         case Success(n) =>
           var length := RtuFraming.ResponseFrameStartLength + n;
           if |input| < length then Short
           else
             assert input[..length][..RtuFraming.ResponseFrameStartLength] == input[..RtuFraming.ResponseFrameStartLength];
             UnreadDrop(input, length);
             Framed(input[..length], input[length..]))
    case IpTransport =>
      if |input| < IpFraming.MbapHeaderLength then Short
      else
        var length := IpFraming.MbapHeaderLength + NetworkToHostOrder(input, 4);
        if |input| < length then Short
        else UnreadDrop(input, length); Framed(input[..length], input[length..])
  }

  /** What reading a response finds. */
  datatype Answer =
    /** a response, and what is left unread after it */
    | Answered(response: Message, rest: seq<byte>)
    /** an exception raised, and what is left unread after the bytes read */
    | Refused(error: Exception, rest: seq<byte>)
    /** the bytes end before a response does */
    | Unanswered

  /** The next response in `input`: its frame decoded as the expected class, or the error framing or decoding raises. */
  function ReadOf(mode: TransportMode, checkFrame: bool, kind: MessageKind, input: seq<byte>): (r: Answer)
    ensures r.Answered? ==> ((KindOf(r.response) == kind || KindOf(r.response) == SlaveExceptionResponseType)
      && (r.response.body.SlaveExceptionResponse? <==> r.response.functionCode > ModbusConstants.ExceptionOffset)
      && ModbusMessageFactory.FullData(r.response))
    ensures r.Refused? ==> !r.error.SlaveError?
    ensures r.Unanswered? <==> NextFrame(mode, input).Short?
    ensures !r.Unanswered? ==> Unread(r.rest, input) && |r.rest| < |input|
  {
    match NextFrame(mode, input)
    case Short => Unanswered
    case Malformed(e, rest) => Refused(e, rest)
    case Framed(frame, rest) =>
      match DecodeResponse(mode, checkFrame, kind, frame)
      case Success(response) => Answered(response, rest)
      case Failure(e) => Refused(e, rest)
  }

  /**
   * The answer to `sent` in `input`: responses are read until one is
   * neither an ACKNOWLEDGE exception response nor, over TCP/IP, an old
   * response; any other exception response raises a SlaveException
   * carrying it.
   */
  function AnswerOf(mode: TransportMode, checkFrame: bool, kind: MessageKind, sent: Message, threshold: u32,
                    input: seq<byte>): (r: Answer)
    ensures r.Answered? ==> (KindOf(r.response) == kind && !r.response.body.SlaveExceptionResponse?
      && !Base.ShouldRetryResponse(sent, r.response, OnShouldRetryResponse(mode, sent, r.response, threshold))
      && ModbusMessageFactory.FullData(r.response))
    ensures r.Refused? ==> FromResponse(r.error)
    ensures !r.Unanswered? ==> Unread(r.rest, input)
    decreases |input|
  {
    match ReadOf(mode, checkFrame, kind, input)
    case Unanswered => Unanswered
    case Refused(e, rest) => Refused(e, rest)
    case Answered(response, rest) =>
      if response.body.SlaveExceptionResponse? then
        if response.body.slaveExceptionCode != ModbusConstants.Acknowledge then
          Refused(SlaveError(SlaveException(None, Some(response))), rest)
        else
          var r := AnswerOf(mode, checkFrame, kind, sent, threshold, rest);
          if r.Unanswered? then r else UnreadTransitive(r.rest, rest, input); r
      else if Base.ShouldRetryResponse(sent, response, OnShouldRetryResponse(mode, sent, response, threshold)) then
        var r := AnswerOf(mode, checkFrame, kind, sent, threshold, rest);
        if r.Unanswered? then r else UnreadTransitive(r.rest, rest, input); r
      else Answered(response, rest)
  }

  /** The outcome of one exchange for `sent` read from `input`: its answer, which must pass validation. */
  function ExchangeOf(mode: TransportMode, checkFrame: bool, kind: MessageKind, sent: Message, threshold: u32,
                      input: seq<byte>): (r: Answer)
    requires WellTyped(sent)
    ensures r.Answered? ==> Accepted(mode, kind, sent, r.response) && ModbusMessageFactory.FullData(r.response)
    ensures r.Refused? ==> FromResponse(r.error)
    ensures !r.Unanswered? ==> Unread(r.rest, input)
  {
    match AnswerOf(mode, checkFrame, kind, sent, threshold, input)
    case Answered(response, rest) =>
      var validated := Base.ValidateResponse(sent, response, OnValidateResponse(mode, sent, response));
      if validated.Fail? then Refused(validated.error, rest) else Answered(response, rest)
    case other => other
  }

  /** The response a transport decodes from what another transport wrote for `m`. */
  function ReadBack(mode: TransportMode, m: Message): (r: Message)
    ensures r.slaveAddress == m.slaveAddress && r.functionCode == m.functionCode && r.body.SlaveExceptionResponse? ==
      m.body.SlaveExceptionResponse? && KindOf(r) == KindOf(m)
    ensures mode.IpTransport? ==> r.transactionId == m.transactionId
  {
    if mode.IpTransport? then ModbusMessageFactory.Normalized(m).(transactionId := m.transactionId)
    else ModbusMessageFactory.Normalized(m)
  }

  /** The frame taken from the input is the one it holds: the converse of NextFrame's contract. */
  lemma FramedReceived(mode: TransportMode, input: seq<byte>, frame: seq<byte>, remaining: seq<byte>)
    requires Received(mode, false, input, frame, remaining)
    ensures NextFrame(mode, input) == Framed(frame, remaining)
  {
    match mode
    case AsciiTransport =>
    case RtuTransport =>
      assert input[..RtuFraming.ResponseFrameStartLength] == frame[..RtuFraming.ResponseFrameStartLength];
    case IpTransport =>
      assert input[4] == frame[4] && input[5] == frame[5];
  }

  /**
   * An exception response decodes the same whatever response class the
   * transport expects.
   */
  lemma ExceptionAnyKind(mode: TransportMode, checkFrame: bool, kind: MessageKind, other: MessageKind, frame: seq<byte>)
    requires mode.IpTransport? ==> |frame| >= IpFraming.MbapHeaderLength
    requires DecodeResponse(mode, checkFrame, kind, frame).Success?
    requires DecodeResponse(mode, checkFrame, kind, frame).value.body.SlaveExceptionResponse?
    ensures DecodeResponse(mode, checkFrame, other, frame) == DecodeResponse(mode, checkFrame, kind, frame)
  {
    var pdu := if mode.IpTransport? then frame[IpFraming.MbapHeaderLength..] else frame;
    assert Base.CreateResponse(kind, pdu).Success?;
    assert Base.CreateResponse(other, pdu) == Base.CreateResponse(kind, pdu);
  }

  /**
   * A response written by the slave, followed by anything, is read as the
   * next response, whatever class the transport expects when it is an
   * exception response.
   */
  lemma ReadWritten(mode: TransportMode, checkFrame: bool, kind: MessageKind, m: Message, rest: seq<byte>)
    requires Transmissible(mode, m) && (kind == KindOf(m) || m.body.SlaveExceptionResponse?)
    ensures ReadOf(mode, checkFrame, kind, SentFrame(mode, m) + rest) == Answered(ReadBack(mode, m), rest)
  {
    ReceiveWritten(mode, checkFrame, m, rest);
    FramedReceived(mode, SentFrame(mode, m) + rest, WireFrame(mode, m), rest);
    if kind != KindOf(m) {
      ExceptionAnyKind(mode, checkFrame, KindOf(m), kind, WireFrame(mode, m));
    }
  }

  /**
   * The answer to a request, when the slave wrote `m` first: an ACKNOWLEDGE
   * exception response and, over TCP/IP, an old response are skipped and
   * the answer is the one after them; any other exception response raises
   * a SlaveException carrying it; any other response is the answer, and
   * is the outcome of the exchange when it passes validation.
   */
  lemma AnswerWritten(mode: TransportMode, checkFrame: bool, kind: MessageKind, sent: Message,
                        threshold: u32, m: Message, rest: seq<byte>)
    requires WellTyped(sent) && Transmissible(mode, m) && (kind == KindOf(m) || m.body.SlaveExceptionResponse?)
    ensures var response, input := ReadBack(mode, m), SentFrame(mode, m) + rest;
      response.body.SlaveExceptionResponse? ==>
        if response.body.slaveExceptionCode == ModbusConstants.Acknowledge then
          AnswerOf(mode, checkFrame, kind, sent, threshold, input) == AnswerOf(mode, checkFrame, kind, sent, threshold, rest)
        else
          AnswerOf(mode, checkFrame, kind, sent, threshold, input)
            == Refused(SlaveError(SlaveException(None, Some(response))), rest)
    ensures var response, input := ReadBack(mode, m), SentFrame(mode, m) + rest;
      !response.body.SlaveExceptionResponse? ==>
        if Base.ShouldRetryResponse(sent, response, OnShouldRetryResponse(mode, sent, response, threshold)) then
          AnswerOf(mode, checkFrame, kind, sent, threshold, input) == AnswerOf(mode, checkFrame, kind, sent, threshold, rest)
        else
          AnswerOf(mode, checkFrame, kind, sent, threshold, input) == Answered(response, rest)
          && (Base.ValidateResponse(sent, response, OnValidateResponse(mode, sent, response)).Pass? ==>
            ExchangeOf(mode, checkFrame, kind, sent, threshold, input) == Answered(response, rest))
  {
    ReadWritten(mode, checkFrame, kind, m, rest);
  }

  class ModbusTransport {
    const mode: TransportMode
    const stream: StreamResource
    /** how many times a request is sent again after a retryable exception */
    var retries: int
    /** over TCP/IP, how far behind the request's transaction id an old response may be */
    var retryOnOldResponseThreshold: u32
    /** whether a busy slave uses up the retry count rather than being retried without limit */
    var slaveBusyUsesRetryCount: bool
    var waitToRetryMilliseconds: nat
    /** whether a serial transport checks the LRC or CRC of a response */
    var checkFrame: bool
    /** over TCP/IP, the last transaction id used */
    var transactionId: u16
    /** the messages written so far, each as it was sent */
    ghost var written: seq<Message>

    constructor (mode: TransportMode, stream: StreamResource)
      ensures this.mode == mode && this.stream == stream
      ensures retries == ModbusConstants.DefaultRetries && retryOnOldResponseThreshold == 0
      ensures !slaveBusyUsesRetryCount && waitToRetryMilliseconds == ModbusConstants.DefaultWaitToRetryMilliseconds
      ensures checkFrame && transactionId == 0 && written == []
    {
      this.mode, this.stream := mode, stream;
      retries, retryOnOldResponseThreshold := ModbusConstants.DefaultRetries, 0;
      slaveBusyUsesRetryCount, waitToRetryMilliseconds := false, ModbusConstants.DefaultWaitToRetryMilliseconds;
      checkFrame, transactionId := true, 0;
      written := [];
    }

    /** Sets the wait before a retry; a negative value raises ArgumentException and changes nothing. */
    method SetWaitToRetryMilliseconds(value: int) returns (r: Outcome<Exception>)
      modifies this`waitToRetryMilliseconds
      ensures value < 0 ==> r == Fail(ArgumentException) && waitToRetryMilliseconds == old(waitToRetryMilliseconds)
      ensures value >= 0 ==> r.Pass? && waitToRetryMilliseconds == value
    {
      if value < 0 {
        return Fail(ArgumentException);
      }
      waitToRetryMilliseconds := value;
      return Pass;
    }

    /** Moves to the next transaction id and returns it. */
    method GetNewTransactionId() returns (id: u16)
      modifies this`transactionId
      ensures transactionId == IpFraming.NewTransactionId(old(transactionId)) && id == transactionId
    {
      transactionId := if transactionId == 0xFFFF then 1 else transactionId + 1;
      id := transactionId;
    }

    /** The message as it is sent: over TCP/IP it carries the transport's current transaction id. */
    function Stamped(message: Message): (r: Message)
      reads this
      ensures r.slaveAddress == message.slaveAddress && r.functionCode == message.functionCode && r.body == message.body
      ensures mode.IpTransport? ==> r.transactionId == transactionId
      ensures !mode.IpTransport? ==> r == message
    {
      StampedWith(mode, message, transactionId)
    }

    /**
     * Whether raising `e` comes from the stream rather than from the bytes:
     * its script of reads ended, or over TCP/IP a read delivered nothing
     * because the input was used up or a read of the script `script` was
     * empty.
     */
    predicate Stalled(e: Exception, script: seq<nat>)
      reads stream
    {
      (e == stream.failure && stream.chunks == [])
      || (mode.IpTransport? && e == IOException && (stream.input == [] || 0 in script))
    }

    /**
     * What an exchange of `message` ended with, when it began with `before`
     * written, the transaction id `id`, the input `input` and the script of
     * reads `script`: the request was sent `attempts` times, at least once,
     * each time as Resent says, and the result `r` is what the bytes
     * `from` held for the request as last sent, where `from` is what the
     * input had left at the last send, unless the stream stalled.
     */
    ghost predicate Answers(kind: MessageKind, message: Message, before: seq<Message>, id: u16, input: seq<byte>,
                            script: seq<nat>, attempts: nat, from: seq<byte>, r: Result<Message, Exception>)
      requires WellTyped(message)
      reads this, stream
    {
      attempts >= 1 && written == before + Resent(mode, message, id, attempts)
      && Unread(from, input) && (attempts == 1 ==> from == input)
      && match r
         case Success(response) =>
           ExchangeOf(mode, checkFrame, kind, Stamped(message), retryOnOldResponseThreshold, from)
             == Answered(response, stream.input)
         case Failure(e) =>
           ExchangeOf(mode, checkFrame, kind, Stamped(message), retryOnOldResponseThreshold, from)
             == Refused(e, stream.input) || Stalled(e, script)
    }

    /** A stall within what is left of a script is a stall of the whole script. */
    lemma StalledEarlier(e: Exception, script: seq<nat>, earlier: seq<nat>)
      requires Stalled(e, script) && Unread(script, earlier)
      ensures Stalled(e, earlier)
    {
      if mode.IpTransport? && e == IOException && 0 in script {
        UnreadIn(0, script, earlier);
      }
    }

    /**
     * Writes the frame for a message. Over TCP/IP the message first gets a
     * new transaction id; a serial transport discards its input buffer
     * before writing. Returns the message as sent.
     */
    method Write(message: Message) returns (sent: Message)
      modifies stream`events, this`transactionId, this`written
      ensures mode.IpTransport? ==> transactionId == IpFraming.NewTransactionId(old(transactionId))
      ensures !mode.IpTransport? ==> transactionId == old(transactionId)
      ensures sent == Stamped(message)
      ensures stream.events == old(stream.events) + WriteEvents(mode, sent)
      ensures written == old(written) + [sent]
    {
      if mode.IpTransport? {
        var id := GetNewTransactionId();
        sent := message.(transactionId := id);
        var frame := IpFraming.BuildMessageFrame(sent);
        stream.Write(frame);
      } else {
        sent := message;
        Serial.Write(mode.SerialMode(), stream, message);
      }
      written := written + [sent];
    }

    /**
     * Reads the frame of a response: the next frame of the input, or the
     * error its start raises, unless the stream stalls first. Every call
     * either reads from the stream or finds its script ended.
     */
    method ReadResponseFrame() returns (r: Result<seq<byte>, Exception>)
      modifies stream`input, stream`chunks
      ensures r.Success? ==> NextFrame(mode, old(stream.input)) == Framed(r.value, stream.input)
      ensures r.Failure? ==> (NextFrame(mode, old(stream.input)) == Malformed(r.error, stream.input)
        || Stalled(r.error, old(stream.chunks)))
      ensures Unread(stream.input, old(stream.input)) && Unread(stream.chunks, old(stream.chunks))
      ensures |stream.chunks| < |old(stream.chunks)| || (old(stream.chunks) == [] && r.Failure? && r.error == stream.failure)
    {
      ghost var input := stream.input;
      match mode {
        case AsciiTransport =>
          r := AsciiFraming.ReadRequestResponse(stream);
        case RtuTransport =>
          r := RtuFraming.ReadResponseFrame(stream);
          if r.Success? {
            assert r.value[..RtuFraming.ResponseFrameStartLength] == input[..RtuFraming.ResponseFrameStartLength];
          }
        case IpTransport =>
          r := IpFraming.ReadRequestResponse(stream);
          if r.Success? {
            assert r.value[4] == input[4] && r.value[5] == input[5];
          }
      }
    }

    /**
     * Reads a response frame and decodes it as the expected class (or as an
     * exception response): the next response of the input, unless the
     * stream stalls first.
     */
    method ReadResponse(kind: MessageKind) returns (r: Result<Message, Exception>)
      modifies stream`input, stream`chunks
      ensures r.Success? ==> ReadOf(mode, checkFrame, kind, old(stream.input)) == Answered(r.value, stream.input)
      ensures r.Failure? ==> (ReadOf(mode, checkFrame, kind, old(stream.input)) == Refused(r.error, stream.input)
        || Stalled(r.error, old(stream.chunks)))
      ensures Unread(stream.input, old(stream.input)) && Unread(stream.chunks, old(stream.chunks))
      ensures |stream.chunks| < |old(stream.chunks)| || (old(stream.chunks) == [] && r.Failure? && r.error == stream.failure)
    {
      var received := ReadResponseFrame();
      if received.Failure? {
        return Failure(received.error);
      }
      r := DecodeResponse(mode, checkFrame, kind, received.value);
    }

    /** Reads a request frame, as a slave does. */
    method ReadRequest() returns (r: Result<seq<byte>, Exception>)
      modifies stream`input, stream`chunks
      ensures r.Success? ==> Received(mode, true, old(stream.input), r.value, stream.input)
      ensures r.Failure? ==> (r.error == stream.failure
        || r.error in {FormatException, ArgumentOutOfRangeException, IOException, NotImplementedException})
      ensures |stream.chunks| <= |old(stream.chunks)|
      ensures |stream.chunks| < |old(stream.chunks)| || (old(stream.chunks) == [] && r.Failure? && r.error == stream.failure)
    {
      match mode {
        case AsciiTransport =>
          r := AsciiFraming.ReadRequestResponse(stream);
        case RtuTransport =>
          r := RtuFraming.ReadRequest(stream);
        case IpTransport =>
          r := IpFraming.ReadRequestResponse(stream);
      }
    }

    /**
     * One pass of the read loop of ReadAnswer: reads a response and says
     * whether it ends the loop (`done`), with the answer or the exception
     * raised, or whether the answer lies further on in the input.
     */
    method ReadOnce(kind: MessageKind, sent: Message) returns (r: Result<Message, Exception>, done: bool)
      modifies stream`input, stream`chunks
      ensures done && r.Success? ==>
        AnswerOf(mode, checkFrame, kind, sent, retryOnOldResponseThreshold, old(stream.input)) == Answered(r.value, stream.input)
      ensures done && r.Failure? ==> ((AnswerOf(mode, checkFrame, kind, sent, retryOnOldResponseThreshold, old(stream.input))
        == Refused(r.error, stream.input) || Stalled(r.error, old(stream.chunks))) && FromResponse(r.error))
      ensures !done ==> (AnswerOf(mode, checkFrame, kind, sent, retryOnOldResponseThreshold, old(stream.input))
        == AnswerOf(mode, checkFrame, kind, sent, retryOnOldResponseThreshold, stream.input))
      ensures Unread(stream.input, old(stream.input)) && Unread(stream.chunks, old(stream.chunks))
      ensures |stream.chunks| < |old(stream.chunks)| || (old(stream.chunks) == [] && done && r.Failure? && r.error == stream.failure)
    {
      r := ReadResponse(kind);
      if r.Failure? {
        return r, true;
      }
      var response := r.value;
      if response.body.SlaveExceptionResponse? {
        if response.body.slaveExceptionCode != ModbusConstants.Acknowledge {
          return Failure(SlaveError(SlaveException(None, Some(response)))), true;
        }
        return r, false;
      }
      done := !Base.ShouldRetryResponse(sent, response, OnShouldRetryResponse(mode, sent, response, retryOnOldResponseThreshold));
    }

    /**
     * Reads responses until one is neither an ACKNOWLEDGE exception response
     * (the slave is still working: read again without sending again) nor an
     * old response (read again). Any other exception response raises a
     * SlaveException carrying it. The result is the answer the input holds
     * for `sent`, unless the stream stalls first.
     */
    method ReadAnswer(kind: MessageKind, sent: Message) returns (r: Result<Message, Exception>)
      modifies stream`input, stream`chunks
      ensures r.Success? ==>
        AnswerOf(mode, checkFrame, kind, sent, retryOnOldResponseThreshold, old(stream.input)) == Answered(r.value, stream.input)
      ensures r.Failure? ==> (AnswerOf(mode, checkFrame, kind, sent, retryOnOldResponseThreshold, old(stream.input))
        == Refused(r.error, stream.input) || Stalled(r.error, old(stream.chunks)))
      ensures r.Failure? ==> FromResponse(r.error)
      ensures Unread(stream.input, old(stream.input)) && Unread(stream.chunks, old(stream.chunks))
      ensures |stream.chunks| < |old(stream.chunks)| || (old(stream.chunks) == [] && r.Failure? && r.error == stream.failure)
    {
      ghost var input, start := stream.input, stream.chunks;
      while true
        invariant Unread(stream.input, input) && Unread(stream.chunks, start)
        invariant AnswerOf(mode, checkFrame, kind, sent, retryOnOldResponseThreshold, stream.input)
          == AnswerOf(mode, checkFrame, kind, sent, retryOnOldResponseThreshold, input)
        invariant stream.chunks == start || |stream.chunks| < |start|
        decreases |stream.chunks|
      {
        ghost var here, script := stream.input, stream.chunks;
        var done;
        r, done := ReadOnce(kind, sent);
        UnreadTransitive(stream.input, here, input);
        UnreadTransitive(stream.chunks, script, start);
        if done {
          if r.Failure? && Stalled(r.error, script) {
            StalledEarlier(r.error, script, start);
          }
          return;
        }
      }
    }

    /**
     * Reads the answer to `sent` and validates it against `sent`: the
     * exchange the input holds for it, unless the stream stalls first.
     */
    method ReadValidated(kind: MessageKind, sent: Message) returns (r: Result<Message, Exception>)
      requires WellTyped(sent)
      modifies stream`input, stream`chunks
      ensures r.Success? ==> (ExchangeOf(mode, checkFrame, kind, sent, retryOnOldResponseThreshold,
        old(stream.input)) == Answered(r.value, stream.input))
      ensures r.Failure? ==> (ExchangeOf(mode, checkFrame, kind, sent, retryOnOldResponseThreshold,
        old(stream.input)) == Refused(r.error, stream.input) || Stalled(r.error, old(stream.chunks)))
      ensures r.Success? ==> Accepted(mode, kind, sent, r.value)
      ensures r.Failure? ==> FromResponse(r.error)
      ensures Unread(stream.input, old(stream.input)) && Unread(stream.chunks, old(stream.chunks))
      ensures |stream.chunks| < |old(stream.chunks)| || (old(stream.chunks) == [] && r.Failure? && r.error == stream.failure)
    {
      var response :- ReadAnswer(kind, sent);
      var validated := Base.ValidateResponse(sent, response, OnValidateResponse(mode, sent, response));
      if validated.Fail? {
        return Failure(validated.error);
      }
      return Success(response);
    }

    /**
     * One attempt: writes the request once, reads its answer and validates
     * it. The result is the exchange the input holds for the request as
     * sent, unless the stream stalls first.
     */
    method Exchange(kind: MessageKind, message: Message) returns (r: Result<Message, Exception>)
      requires WellTyped(message)
      modifies stream`input, stream`chunks, stream`events, this`transactionId, this`written
      ensures mode.IpTransport? ==> transactionId == IpFraming.NewTransactionId(old(transactionId))
      ensures !mode.IpTransport? ==> transactionId == old(transactionId)
      ensures stream.events == old(stream.events) + WriteEvents(mode, Stamped(message))
      ensures written == old(written) + [Stamped(message)]
      ensures r.Success? ==> (ExchangeOf(mode, checkFrame, kind, Stamped(message), retryOnOldResponseThreshold,
        old(stream.input)) == Answered(r.value, stream.input))
      ensures r.Failure? ==> (ExchangeOf(mode, checkFrame, kind, Stamped(message), retryOnOldResponseThreshold,
        old(stream.input)) == Refused(r.error, stream.input) || Stalled(r.error, old(stream.chunks)))
      ensures r.Success? ==> Accepted(mode, kind, Stamped(message), r.value)
      ensures r.Failure? ==> FromResponse(r.error)
      ensures Unread(stream.input, old(stream.input)) && Unread(stream.chunks, old(stream.chunks))
      ensures |stream.chunks| <= |old(stream.chunks)|
      ensures |stream.chunks| < |old(stream.chunks)| || (old(stream.chunks) == [] && r.Failure? && r.error == stream.failure)
    {
      var sent := Write(message);
      r := ReadValidated(kind, sent);
    }

    /**
     * One attempt of an exchange and what it leads to: Completed with the
     * response, or what the exception it raised leads to on attempt number
     * `attempt`.
     */
    method Attempt(kind: MessageKind, message: Message, attempt: int) returns (r: Result<Message, Exception>, next: Attempt)
      requires WellTyped(message)
      modifies stream`input, stream`chunks, stream`events, this`transactionId, this`written
      ensures mode.IpTransport? ==> transactionId == IpFraming.NewTransactionId(old(transactionId))
      ensures !mode.IpTransport? ==> transactionId == old(transactionId)
      ensures written == old(written) + [StampedWith(mode, message, transactionId)]
      ensures Writes(stream.events) == Writes(old(stream.events)) + 1
      ensures r.Success? <==> next.Completed?
      ensures r.Success? ==> (ExchangeOf(mode, checkFrame, kind, Stamped(message), retryOnOldResponseThreshold,
        old(stream.input)) == Answered(r.value, stream.input))
      ensures r.Failure? ==> (ExchangeOf(mode, checkFrame, kind, Stamped(message), retryOnOldResponseThreshold,
        old(stream.input)) == Refused(r.error, stream.input) || Stalled(r.error, old(stream.chunks)))
      ensures r.Success? ==> Accepted(mode, kind, Stamped(message), r.value)
      ensures r.Failure? ==> (next == AfterException(r.error, attempt, retries, slaveBusyUsesRetryCount)
        && FromResponse(r.error))
      ensures Unread(stream.input, old(stream.input)) && Unread(stream.chunks, old(stream.chunks))
      ensures |stream.chunks| <= |old(stream.chunks)|
      ensures |stream.chunks| < |old(stream.chunks)| || (old(stream.chunks) == [] && r.Failure? && r.error == stream.failure)
    {
      ghost var before := stream.events;
      r := Exchange(kind, message);
      WritesAppend(before, WriteEvents(mode, StampedWith(mode, message, transactionId)));
      next := if r.Success? then Completed else AfterException(r.error, attempt, retries, slaveBusyUsesRetryCount);
    }

    /**
     * One attempt of an exchange whose earlier attempts are `log`, with the
     * bookkeeping of the retry loop: the transaction id and the writes move
     * on by one send, and the log extended by this attempt is either
     * concluded or still pending. A busy answer that does not use the retry
     * count is only retried after the stream delivered something.
     */
    method LoggedAttempt(kind: MessageKind, message: Message, attempt: int, ghost log: seq<Attempt>,
                         ghost sends: seq<Message>, ghost writes: nat, ghost id: u16,
                         ghost input: seq<byte>, ghost script: seq<nat>)
      returns (r: Result<Message, Exception>, next: Attempt)
      requires WellTyped(message)
      requires Pending(log, retries, slaveBusyUsesRetryCount) && attempt == 1 + Charged(log, slaveBusyUsesRetryCount)
      requires transactionId == IdAfter(mode, id, |log|)
      requires written == sends + Resent(mode, message, id, |log|) && Writes(stream.events) == writes + |log|
      requires Unread(stream.input, input) && Unread(stream.chunks, script)
      modifies stream`input, stream`chunks, stream`events, this`transactionId, this`written
      ensures transactionId == IdAfter(mode, id, |log| + 1)
      ensures written == sends + Resent(mode, message, id, |log| + 1) && Writes(stream.events) == writes + |log| + 1
      ensures r.Success? ==> (ExchangeOf(mode, checkFrame, kind, Stamped(message), retryOnOldResponseThreshold,
        old(stream.input)) == Answered(r.value, stream.input))
      ensures r.Failure? ==> (ExchangeOf(mode, checkFrame, kind, Stamped(message), retryOnOldResponseThreshold,
        old(stream.input)) == Refused(r.error, stream.input) || Stalled(r.error, script))
      ensures r.Success? ==> Accepted(mode, kind, Stamped(message), r.value)
      ensures r.Failure? ==> FromResponse(r.error)
      ensures Unread(stream.input, input) && Unread(stream.chunks, script)
      ensures Logged(log, next, r, retries, slaveBusyUsesRetryCount)
      ensures |stream.chunks| <= |old(stream.chunks)|
      ensures next.Busy? ==> |stream.chunks| < |old(stream.chunks)|
    {
      ghost var here, rest := stream.input, stream.chunks;
      r, next := Attempt(kind, message, attempt);
      assert transactionId == IdAfter(mode, id, |log| + 1);
      ResentNext(mode, message, id, |log|, sends, written);
      AttemptLogged(log, next, r, attempt, retries, slaveBusyUsesRetryCount);
      UnreadTransitive(stream.input, here, input);
      UnreadTransitive(stream.chunks, rest, script);
      if r.Failure? && Stalled(r.error, rest) {
        StalledEarlier(r.error, rest, script);
      }
    }

    /**
     * Sends a request and returns its response, as the master does. The log
     * records each attempt: a retryable exception (FormatException,
     * NotImplementedException, TimeoutException, IOException) or a busy
     * slave sends the request again, each time with a new transaction id
     * over TCP/IP; a response that passes validation ends the exchange, and
     * so does any other exception, which is raised. The first send and
     * `retries` more are allowed for retryable exceptions; busy answers use
     * the same count only when slaveBusyUsesRetryCount is set, and are
     * otherwise retried as long as the slave keeps answering.
     */
    method UnicastMessage(kind: MessageKind, message: Message)
      returns (r: Result<Message, Exception>, ghost log: seq<Attempt>, ghost from: seq<byte>)
      requires WellTyped(message)
      modifies stream`input, stream`chunks, stream`events, this`transactionId, this`written
      ensures Concluded(log, r, retries, slaveBusyUsesRetryCount)
      ensures transactionId == IdAfter(mode, old(transactionId), |log|)
      ensures written == old(written) + Resent(mode, message, old(transactionId), |log|)
      ensures Writes(stream.events) == Writes(old(stream.events)) + |log|
      ensures Unread(from, old(stream.input)) && (|log| == 1 ==> from == old(stream.input))
      ensures r.Success? ==>
        ExchangeOf(mode, checkFrame, kind, Stamped(message), retryOnOldResponseThreshold, from) == Answered(r.value, stream.input)
      ensures r.Failure? ==> (ExchangeOf(mode, checkFrame, kind, Stamped(message), retryOnOldResponseThreshold, from)
        == Refused(r.error, stream.input) || Stalled(r.error, old(stream.chunks)))
      ensures r.Success? ==> Accepted(mode, kind, Stamped(message), r.value)
      ensures r.Failure? ==> FromResponse(r.error)
    {
      ghost var sends, writes, id := written, Writes(stream.events), transactionId;
      ghost var input, script := stream.input, stream.chunks;
      var attempt := 1;
      log, from := [], input;
      while true
        invariant Pending(log, retries, slaveBusyUsesRetryCount)
        invariant attempt == 1 + Charged(log, slaveBusyUsesRetryCount)
        invariant transactionId == IdAfter(mode, id, |log|)
        invariant written == sends + Resent(mode, message, id, |log|) && Writes(stream.events) == writes + |log|
        invariant Unread(stream.input, input) && Unread(stream.chunks, script)
        invariant |log| == 0 ==> stream.input == input
        decreases |stream.chunks|, Max(0, retries) - Charged(log, slaveBusyUsesRetryCount)
      {
        from := stream.input;
        var next;
        r, next := LoggedAttempt(kind, message, attempt, log, sends, writes, id, input, script);
        log := log + [next];
        if next.Completed? || next.Raised? {
          return;
        }
        if next.Retried? || slaveBusyUsesRetryCount {
          attempt := attempt + 1;
        }
      }
    }
  }
}

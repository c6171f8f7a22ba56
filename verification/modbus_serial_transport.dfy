/**
 * What the two serial transmission modes share: writing a frame after
 * discarding the input buffer, and refusing a received response whose
 * checksum does not match (unless frame checking is switched off). The
 * mode decides how a frame is built and which checksum is compared.
 */
module ModbusSerialTransport {
  import opened Wrappers
  import opened Bytes
  import opened Exceptions
  import opened Messages
  import opened StreamResources
  import ModbusUtility
  import AbstractModbusMessage
  import ModbusConstants
  import ModbusMessageFactory
  import ModbusTransportBase
  import Ascii = ModbusAsciiTransport
  import Rtu = ModbusRtuTransport

  datatype SerialMode = AsciiMode | RtuMode

  /** The frame written for a message in the given mode. */
  function BuildMessageFrame(mode: SerialMode, message: Message): (r: seq<byte>)
    ensures mode.AsciiMode? ==> (|r| == 5 + 2 * |AbstractModbusMessage.MessageFrame(message)|
      && r[0] == Ascii.Colon && r[|r| - 2..] == [13, 10])
    ensures mode.RtuMode? ==> (|r| == |AbstractModbusMessage.MessageFrame(message)| + 2
      && r[..|r| - 2] == AbstractModbusMessage.MessageFrame(message))
  {
    match mode
    case AsciiMode => Ascii.BuildMessageFrame(message)
    case RtuMode => Rtu.BuildMessageFrame(message)
  }

  /** The mode's checksum test of a received frame against the message decoded from it. */
  predicate ChecksumsMatch(mode: SerialMode, message: Message, messageFrame: seq<byte>)
    requires |messageFrame| >= 2
    ensures mode.AsciiMode? ==> (ChecksumsMatch(mode, message, messageFrame)
      <==> (ModbusUtility.Sum(AbstractModbusMessage.MessageFrame(message)) + messageFrame[|messageFrame| - 1]) % 0x100 == 0)
    ensures mode.RtuMode? ==> (ChecksumsMatch(mode, message, messageFrame)
      <==> Rtu.BuildMessageFrame(message) == AbstractModbusMessage.MessageFrame(message) + messageFrame[|messageFrame| - 2..])
  {
    match mode
    case AsciiMode => Ascii.ChecksumsMatch(message, messageFrame)
    case RtuMode => Rtu.ChecksumsMatch(message, messageFrame)
  }

  /**
   * The response a received frame holds, as every transport decodes it,
   * refused with IOException when frame checking is on and the checksum
   * does not match.
   */
  function CreateResponse(mode: SerialMode, checkFrame: bool, kind: MessageKind, frame: seq<byte>)
    : (r: Result<Message, Exception>)
    ensures ModbusTransportBase.CreateResponse(kind, frame).Failure? ==> r == ModbusTransportBase.CreateResponse(kind, frame)
    ensures r.Success? <==> (ModbusTransportBase.CreateResponse(kind, frame).Success?
      && (checkFrame ==> |frame| >= 2 && ChecksumsMatch(mode, ModbusTransportBase.CreateResponse(kind, frame).value, frame)))
    ensures r.Success? ==> r == ModbusTransportBase.CreateResponse(kind, frame)
    ensures ModbusTransportBase.CreateResponse(kind, frame).Success? && r.Failure? ==> r.error == IOException
  {
    var response :- ModbusTransportBase.CreateResponse(kind, frame);
    if checkFrame && !ChecksumsMatch(mode, response, frame) then Failure(IOException)
    else Success(response)
  }

  /** With frame checking off, a serial transport decodes exactly as every transport does. */
  lemma UncheckedResponse(mode: SerialMode, kind: MessageKind, frame: seq<byte>)
    ensures CreateResponse(mode, false, kind, frame) == ModbusTransportBase.CreateResponse(kind, frame)
  {
  }

  /** Writes the frame for a message, after discarding whatever the input buffer holds. */
  method Write(mode: SerialMode, stream: StreamResource, message: Message)
    modifies stream`events
    ensures stream.events == old(stream.events) + [Discarded, Wrote(BuildMessageFrame(mode, message))]
  {
    stream.DiscardInBuffer();
    var frame := BuildMessageFrame(mode, message);
    stream.Write(frame);
  }

  /** A serial transport validates nothing beyond what every transport checks. */
  function OnValidateResponse(request: Message, response: Message): (r: Outcome<Exception>)
    ensures r.Pass?
  {
    Pass
  }

  /** The response class a function code calls for: the exception response above the offset. */
  predicate RespondsAs(m: Message)
  {
    if m.functionCode > ModbusConstants.ExceptionOffset then m.body.SlaveExceptionResponse?
    else (ModbusMessageFactory.RequestKind(m.functionCode).Some?
      && KindOf(m) == ModbusMessageFactory.ResponseKind(ModbusMessageFactory.RequestKind(m.functionCode).value))
  }

  /**
   * A well-formed response of the class its function code calls for,
   * decoded from the frame its RTU sender wrote, passes the checksum test
   * and comes back normalised.
   */
  lemma RtuResponseRoundTrip(m: Message, checkFrame: bool)
    requires ModbusMessageFactory.WellFormed(m) && RespondsAs(m)
    ensures CreateResponse(RtuMode, checkFrame, KindOf(m), Rtu.BuildMessageFrame(m))
      == Success(ModbusMessageFactory.Normalized(m))
  {
    var frame := AbstractModbusMessage.MessageFrame(m);
    ModbusMessageFactory.MessageRoundTrip(m, ModbusUtility.CalculateCrc(frame));
    ModbusMessageFactory.NormalizedFrame(m);
    assert (frame + ModbusUtility.CalculateCrc(frame))[1] == m.functionCode;
  }

  /**
   * A well-formed response of the class its function code calls for,
   * decoded from the frame its ASCII sender's line holds (the message frame
   * and its LRC), passes the checksum test and comes back normalised.
   */
  lemma AsciiResponseRoundTrip(m: Message, checkFrame: bool)
    requires ModbusMessageFactory.WellFormed(m) && RespondsAs(m)
    ensures var frame := AbstractModbusMessage.MessageFrame(m);
      CreateResponse(AsciiMode, checkFrame, KindOf(m), frame + [ModbusUtility.CalculateLrc(frame)])
        == Success(ModbusMessageFactory.Normalized(m))
  {
    var frame := AbstractModbusMessage.MessageFrame(m);
    ModbusMessageFactory.MessageRoundTrip(m, [ModbusUtility.CalculateLrc(frame)]);
    ModbusMessageFactory.NormalizedFrame(m);
    assert (frame + [ModbusUtility.CalculateLrc(frame)])[1] == m.functionCode;
  }
}

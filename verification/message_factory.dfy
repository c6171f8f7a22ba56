/**
 * The message factory: decoding a frame as a message of a given class, and
 * decoding a request frame by its function code; and the dispatch of a
 * request's own response validation.
 */
module ModbusMessageFactory {
  import opened Wrappers
  import opened Bytes
  import opened Exceptions
  import opened Messages
  import opened DataCollections
  import opened AbstractModbusMessage
  import ModbusMessageImpl
  import ModbusConstants
  import ReadCoilsInputsRequestMessage
  import ReadHoldingInputRegistersRequestMessage
  import ReadCoilsInputsResponseMessage
  import ReadHoldingInputRegistersResponseMessage
  import WriteSingleCoilRequestResponseMessage
  import WriteSingleRegisterRequestResponseMessage
  import WriteMultipleCoilsRequestMessage
  import WriteMultipleCoilsResponseMessage
  import WriteMultipleRegistersRequestMessage
  import WriteMultipleRegistersResponseMessage
  import DiagnosticsRequestResponseMessage
  import ReadWriteMultipleRegistersRequestMessage
  import SlaveExceptionResponseMessage

  /** The shortest frame a request may be decoded from. */
  const MinRequestFrameLength: nat := 3

  /** The minimum frame size of each message class. */
  function MinimumFrameSize(kind: MessageKind): (r: nat)
    ensures 3 <= r <= 11
  {
    match kind
    case ReadCoilsInputsRequestType => ReadCoilsInputsRequestMessage.MinimumFrameSize
    case ReadHoldingInputRegistersRequestType => ReadHoldingInputRegistersRequestMessage.MinimumFrameSize
    case ReadCoilsInputsResponseType => ReadCoilsInputsResponseMessage.MinimumFrameSize
    case ReadHoldingInputRegistersResponseType => ReadHoldingInputRegistersResponseMessage.MinimumFrameSize
    case WriteSingleCoilRequestResponseType => WriteSingleCoilRequestResponseMessage.MinimumFrameSize
    case WriteSingleRegisterRequestResponseType => WriteSingleRegisterRequestResponseMessage.MinimumFrameSize
    case WriteMultipleCoilsRequestType => WriteMultipleCoilsRequestMessage.MinimumFrameSize
    case WriteMultipleCoilsResponseType => WriteMultipleCoilsResponseMessage.MinimumFrameSize
    case WriteMultipleRegistersRequestType => WriteMultipleRegistersRequestMessage.MinimumFrameSize
    case WriteMultipleRegistersResponseType => WriteMultipleRegistersResponseMessage.MinimumFrameSize
    case DiagnosticsRequestResponseType => DiagnosticsRequestResponseMessage.MinimumFrameSize
    case ReadWriteMultipleRegistersRequestType => ReadWriteMultipleRegistersRequestMessage.MinimumFrameSize
    case SlaveExceptionResponseType => SlaveExceptionResponseMessage.MinimumFrameSize
  }

  /**
   * Decodes a frame as a message of the given class. A frame shorter than
   * the class's minimum raises FormatException; the message carries the
   * frame's slave address and function code and a zero transaction id.
   */
  function CreateModbusMessage(kind: MessageKind, frame: seq<byte>): (r: Result<Message, Exception>)
    ensures |frame| < MinimumFrameSize(kind) ==> r == Failure(FormatException)
    ensures r.Failure? ==> r.error in {FormatException, ArgumentOutOfRangeException}
    ensures r.Success? ==> (KindOf(r.value) == kind && WellTyped(r.value) && r.value.transactionId == 0
      && |frame| >= MinimumFrameSize(kind)
      && r.value.slaveAddress == frame[0] && r.value.functionCode == frame[1])
    ensures r.Success? ==> FullData(r.value)
  {
    if IsRequestOnly(kind) then CreateRequestMessage(kind, frame)
    else if IsResponseOnly(kind) then CreateResponseMessage(kind, frame)
    else CreateRequestResponseMessage(kind, frame)
  }

  /**
   * A decoded read response holds all the data its byte count announces:
   * eight discretes or half a register per byte.
   */
  predicate FullData(m: Message) {
    (m.body.ReadCoilsInputsResponse? ==> |m.body.discretes| == 8 * m.body.byteCount as int)
    && (m.body.ReadHoldingInputRegistersResponse? ==> 2 * |m.body.registers| == m.body.byteCount as int)
  }

  /** The classes only requests are decoded as. */
  predicate IsRequestOnly(kind: MessageKind) {
    kind.ReadCoilsInputsRequestType? || kind.ReadHoldingInputRegistersRequestType? || kind.WriteMultipleCoilsRequestType?
      || kind.WriteMultipleRegistersRequestType? || kind.ReadWriteMultipleRegistersRequestType?
  }

  /** The classes only responses are decoded as. */
  predicate IsResponseOnly(kind: MessageKind) {
    kind.ReadCoilsInputsResponseType? || kind.ReadHoldingInputRegistersResponseType? || kind.WriteMultipleCoilsResponseType?
      || kind.WriteMultipleRegistersResponseType? || kind.SlaveExceptionResponseType?
  }

  /** CreateModbusMessage for the request classes. */
  function CreateRequestMessage(kind: MessageKind, frame: seq<byte>): (r: Result<Message, Exception>)
    requires IsRequestOnly(kind)
    ensures |frame| < MinimumFrameSize(kind) ==> r == Failure(FormatException)
    ensures r.Failure? ==> r.error in {FormatException, ArgumentOutOfRangeException}
    ensures r.Success? ==> (KindOf(r.value) == kind && WellTyped(r.value) && r.value.transactionId == 0
      && |frame| >= MinimumFrameSize(kind)
      && r.value.slaveAddress == frame[0] && r.value.functionCode == frame[1])
  {
    if kind.ReadCoilsInputsRequestType? then ReadCoilsInputsRequestMessage.Create(frame)
    else if kind.ReadHoldingInputRegistersRequestType? then ReadHoldingInputRegistersRequestMessage.Create(frame)
    else if kind.WriteMultipleCoilsRequestType? then WriteMultipleCoilsRequestMessage.Create(frame)
    else if kind.WriteMultipleRegistersRequestType? then WriteMultipleRegistersRequestMessage.Create(frame)
    else ReadWriteMultipleRegistersRequestMessage.Create(frame)
  }

  /** CreateModbusMessage for the response classes. */
  function CreateResponseMessage(kind: MessageKind, frame: seq<byte>): (r: Result<Message, Exception>)
    requires IsResponseOnly(kind)
    ensures |frame| < MinimumFrameSize(kind) ==> r == Failure(FormatException)
    ensures r.Failure? ==> r.error in {FormatException, ArgumentOutOfRangeException}
    ensures r.Success? ==> (KindOf(r.value) == kind && WellTyped(r.value) && r.value.transactionId == 0
      && |frame| >= MinimumFrameSize(kind)
      && r.value.slaveAddress == frame[0] && r.value.functionCode == frame[1])
    ensures r.Success? ==> FullData(r.value)
  {
    if kind.ReadCoilsInputsResponseType? then ReadCoilsInputsResponseMessage.Create(frame)
    else if kind.ReadHoldingInputRegistersResponseType? then ReadHoldingInputRegistersResponseMessage.Create(frame)
    else if kind.WriteMultipleCoilsResponseType? then WriteMultipleCoilsResponseMessage.Create(frame)
    else if kind.WriteMultipleRegistersResponseType? then WriteMultipleRegistersResponseMessage.Create(frame)
    else SlaveExceptionResponseMessage.Create(frame)
  }

  /** CreateModbusMessage for the classes that serve as both request and response. */
  function CreateRequestResponseMessage(kind: MessageKind, frame: seq<byte>): (r: Result<Message, Exception>)
    requires !IsRequestOnly(kind) && !IsResponseOnly(kind)
    ensures |frame| < MinimumFrameSize(kind) ==> r == Failure(FormatException)
    ensures r.Failure? ==> r.error in {FormatException, ArgumentOutOfRangeException}
    ensures r.Success? ==> (KindOf(r.value) == kind && WellTyped(r.value) && r.value.transactionId == 0
      && |frame| >= MinimumFrameSize(kind)
      && r.value.slaveAddress == frame[0] && r.value.functionCode == frame[1])
  {
    if kind.WriteSingleCoilRequestResponseType? then WriteSingleCoilRequestResponseMessage.Create(frame)
    else if kind.WriteSingleRegisterRequestResponseType? then WriteSingleRegisterRequestResponseMessage.Create(frame)
    else DiagnosticsRequestResponseMessage.Create(frame)
  }

  /** The request class a function code selects, if the slave supports it. */
  function RequestKind(functionCode: byte): (r: Option<MessageKind>)
    ensures r.Some? <==> functionCode in {1, 2, 3, 4, 5, 6, 8, 15, 16, 23}
  {
    if functionCode == ModbusConstants.ReadCoils || functionCode == ModbusConstants.ReadInputs then
      Some(ReadCoilsInputsRequestType)
    else if functionCode == ModbusConstants.ReadHoldingRegisters || functionCode == ModbusConstants.ReadInputRegisters then
      Some(ReadHoldingInputRegistersRequestType)
    else if functionCode == ModbusConstants.WriteSingleCoil then Some(WriteSingleCoilRequestResponseType)
    else if functionCode == ModbusConstants.WriteSingleRegister then Some(WriteSingleRegisterRequestResponseType)
    else if functionCode == ModbusConstants.Diagnostics then Some(DiagnosticsRequestResponseType)
    else if functionCode == ModbusConstants.WriteMultipleCoils then Some(WriteMultipleCoilsRequestType)
    else if functionCode == ModbusConstants.WriteMultipleRegisters then Some(WriteMultipleRegistersRequestType)
    else if functionCode == ModbusConstants.ReadWriteMultipleRegisters then Some(ReadWriteMultipleRegistersRequestType)
    else None
  }

  /**
   * Decodes a request frame as the class its function code selects. A frame
   * shorter than three bytes raises FormatException, an unsupported function
   * code ArgumentException.
   */
  function CreateModbusRequest(frame: seq<byte>): (r: Result<Message, Exception>)
    ensures |frame| < MinRequestFrameLength ==> r == Failure(FormatException)
    ensures |frame| >= MinRequestFrameLength && RequestKind(frame[1]).None? ==> r == Failure(ArgumentException)
    ensures |frame| >= MinRequestFrameLength && RequestKind(frame[1]).Some? ==>
      r == CreateModbusMessage(RequestKind(frame[1]).value, frame)
    ensures r.Success? ==> (Some(KindOf(r.value)) == RequestKind(r.value.functionCode) && WellTyped(r.value)
      && r.value.slaveAddress == frame[0] && r.value.functionCode == frame[1] && r.value.transactionId == 0)
  {
    if |frame| < MinRequestFrameLength then Failure(FormatException)
    else
      match RequestKind(frame[1])
      case None => Failure(ArgumentException)
      case Some(kind) => CreateModbusMessage(kind, frame)
  }

  /**
   * The messages whose frames decode back to them (up to normalisation):
   * counts within their class's maximum, byte counts that match the data,
   * one data register in a diagnostics message, an exception function code
   * above the offset.
   */
  predicate WellFormed(m: Message) {
    match m.body
    case ReadCoilsInputsRequest(_, n) => n as nat <= ModbusConstants.MaximumDiscreteRequestResponseSize
    case ReadHoldingInputRegistersRequest(_, n) => n as nat <= ModbusConstants.MaximumRegisterRequestResponseSize
    case ReadCoilsInputsResponse(bc, d) => bc as int == (|d| + 7) / 8
    case ReadHoldingInputRegistersResponse(bc, r) => bc as int == 2 * |r|
    case WriteSingleCoilRequestResponse(_, _) => true
    case WriteSingleRegisterRequestResponse(_, _) => true
    case WriteMultipleCoilsRequest(_, n, bc, d) =>
      n as nat <= ModbusConstants.MaximumDiscreteRequestResponseSize && bc as int == (|d| + 7) / 8
    case WriteMultipleCoilsResponse(_, n) => n as nat <= ModbusConstants.MaximumDiscreteRequestResponseSize
    case WriteMultipleRegistersRequest(_, n, bc, r) =>
      n as nat <= ModbusConstants.MaximumRegisterRequestResponseSize && bc as int == 2 * |r|
    case WriteMultipleRegistersResponse(_, n) => n as nat <= ModbusConstants.MaximumRegisterRequestResponseSize
    case DiagnosticsRequestResponse(_, r) => |r| == 1
    case ReadWriteMultipleRegistersRequest(read, write) =>
      read.body.ReadHoldingInputRegistersRequest?
      && read.body.numberOfPoints as nat <= ModbusConstants.MaximumRegisterRequestResponseSize
      && write.body.WriteMultipleRegistersRequest?
      && write.body.numberOfPoints as nat <= ModbusConstants.MaximumRegisterRequestResponseSize
      && write.body.byteCount as int == 2 * |write.body.registers|
    case SlaveExceptionResponse(_) => m.functionCode as int > ModbusConstants.ExceptionOffset
  }

  /**
   * What decoding gives back: no transaction id, discretes padded to whole
   * bytes, and the parts of a read/write request carrying its slave address
   * and function code.
   */
  function Normalized(m: Message): (r: Message)
    ensures r.slaveAddress == m.slaveAddress && r.functionCode == m.functionCode && r.transactionId == 0
    ensures KindOf(r) == KindOf(m)
  {
    match m.body
    case ReadCoilsInputsResponse(bc, d) => m.(transactionId := 0, body := ReadCoilsInputsResponse(bc, Padded(d)))
    case WriteMultipleCoilsRequest(s, n, bc, d) => m.(transactionId := 0, body := WriteMultipleCoilsRequest(s, n, bc, Padded(d)))
    case ReadWriteMultipleRegistersRequest(read, write) =>
      m.(transactionId := 0, body := ReadWriteMultipleRegistersRequest(
        ReadWriteMultipleRegistersRequestMessage.Readdressed(m, read),
        ReadWriteMultipleRegistersRequestMessage.Readdressed(m, write)))
    case _ => m.(transactionId := 0)
  }

  /** Encoding a well-formed message and decoding the frame as its class gives the normalised message back. */
  lemma {:induction false} MessageRoundTrip(m: Message, rest: seq<byte>)
    requires WellFormed(m)
    ensures CreateModbusMessage(KindOf(m), MessageFrame(m) + rest) == Success(Normalized(m))
  {
    if m.body.ReadCoilsInputsRequest? || m.body.ReadHoldingInputRegistersRequest? || m.body.ReadCoilsInputsResponse?
      || m.body.ReadHoldingInputRegistersResponse? || m.body.SlaveExceptionResponse? {
      ReadRoundTrip(m, rest);
    } else if m.body.WriteSingleCoilRequestResponse? || m.body.WriteSingleRegisterRequestResponse?
      || m.body.DiagnosticsRequestResponse? || m.body.ReadWriteMultipleRegistersRequest? {
      SingleRoundTrip(m, rest);
    } else {
      WriteRoundTrip(m, rest);
    }
  }

  /** MessageRoundTrip for the read classes and the exception response. */
  lemma {:induction false} ReadRoundTrip(m: Message, rest: seq<byte>)
    requires WellFormed(m)
    requires m.body.ReadCoilsInputsRequest? || m.body.ReadHoldingInputRegistersRequest? || m.body.ReadCoilsInputsResponse?
      || m.body.ReadHoldingInputRegistersResponse? || m.body.SlaveExceptionResponse?
    ensures CreateModbusMessage(KindOf(m), MessageFrame(m) + rest) == Success(Normalized(m))
  {
    match m.body
    case ReadCoilsInputsRequest(_, _) => ReadCoilsInputsRequestMessage.RoundTrip(m, rest);
    case ReadHoldingInputRegistersRequest(_, _) => ReadHoldingInputRegistersRequestMessage.RoundTrip(m, rest);
    case ReadCoilsInputsResponse(_, _) => ReadCoilsInputsResponseMessage.RoundTrip(m, rest);
    case ReadHoldingInputRegistersResponse(_, _) => ReadHoldingInputRegistersResponseMessage.RoundTrip(m, rest);
    case SlaveExceptionResponse(_) => SlaveExceptionResponseMessage.RoundTrip(m, rest);
  }

  /** MessageRoundTrip for the single-value classes, diagnostics and the read/write request. */
  lemma {:induction false} SingleRoundTrip(m: Message, rest: seq<byte>)
    requires WellFormed(m)
    requires m.body.WriteSingleCoilRequestResponse? || m.body.WriteSingleRegisterRequestResponse?
      || m.body.DiagnosticsRequestResponse? || m.body.ReadWriteMultipleRegistersRequest?
    ensures CreateModbusMessage(KindOf(m), MessageFrame(m) + rest) == Success(Normalized(m))
  {
    match m.body
    case WriteSingleCoilRequestResponse(_, _) => WriteSingleCoilRequestResponseMessage.RoundTrip(m, rest);
    case WriteSingleRegisterRequestResponse(_, _) => WriteSingleRegisterRequestResponseMessage.RoundTrip(m, rest);
    case DiagnosticsRequestResponse(_, _) => DiagnosticsRequestResponseMessage.RoundTrip(m, rest);
    case ReadWriteMultipleRegistersRequest(_, _) => ReadWriteMultipleRegistersRequestMessage.RoundTrip(m, rest);
  }

  /** MessageRoundTrip for the write multiple classes. */
  lemma {:induction false} WriteRoundTrip(m: Message, rest: seq<byte>)
    requires WellFormed(m)
    requires m.body.WriteMultipleCoilsRequest? || m.body.WriteMultipleCoilsResponse?
      || m.body.WriteMultipleRegistersRequest? || m.body.WriteMultipleRegistersResponse?
    ensures CreateModbusMessage(KindOf(m), MessageFrame(m) + rest) == Success(Normalized(m))
  {
    match m.body
    case WriteMultipleCoilsRequest(_, _, _, _) => WriteMultipleCoilsRequestMessage.RoundTrip(m, rest);
    case WriteMultipleCoilsResponse(_, _) => WriteMultipleCoilsResponseMessage.RoundTrip(m, rest);
    case WriteMultipleRegistersRequest(_, _, _, _) => WriteMultipleRegistersRequestMessage.RoundTrip(m, rest);
    case WriteMultipleRegistersResponse(_, _) => WriteMultipleRegistersResponseMessage.RoundTrip(m, rest);
  }

  /** A well-formed request whose function code selects its class decodes back from its frame. */
  lemma RequestRoundTrip(m: Message, rest: seq<byte>)
    requires WellFormed(m) && RequestKind(m.functionCode) == Some(KindOf(m))
    ensures CreateModbusRequest(MessageFrame(m) + rest) == Success(Normalized(m))
  {
    MessageRoundTrip(m, rest);
    assert (MessageFrame(m) + rest)[1] == m.functionCode;
  }

  /** The number of frame bytes a message of the given class occupies. */
  function FrameLength(kind: MessageKind, frame: seq<byte>): (r: nat)
    requires |frame| >= MinimumFrameSize(kind)
    ensures MinimumFrameSize(kind) <= r
  {
    match kind
    case ReadCoilsInputsResponseType => 3 + frame[2] as int
    case ReadHoldingInputRegistersResponseType => 3 + frame[2] as int
    case WriteMultipleCoilsRequestType => 7 + frame[6] as int
    case WriteMultipleRegistersRequestType => 7 + frame[6] as int
    case ReadWriteMultipleRegistersRequestType => 11 + frame[10] as int
    case _ => MinimumFrameSize(kind)
  }

  /** A decoded message's own frame is the part of the frame it was decoded from. */
  lemma DecodedFrame(kind: MessageKind, frame: seq<byte>)
    requires CreateModbusMessage(kind, frame).Success?
    ensures FrameLength(kind, frame) <= |frame|
    ensures MessageFrame(CreateModbusMessage(kind, frame).value) == frame[..FrameLength(kind, frame)]
  {
    match kind
    case WriteMultipleCoilsRequestType => WriteMultipleCoilsRequestMessage.DecodedFrame(frame);
    case WriteMultipleRegistersRequestType => WriteMultipleRegistersRequestMessage.DecodedFrame(frame);
    case ReadWriteMultipleRegistersRequestType => ReadWriteMultipleRegistersRequestMessage.DecodedFrame(frame);
    case _ =>
  }

  /** Normalising a message leaves its frame as it was. */
  lemma NormalizedFrame(m: Message)
    requires WellFormed(m)
    ensures MessageFrame(Normalized(m)) == MessageFrame(m)
  {
    match m.body
    case ReadCoilsInputsResponse(_, d) =>
      PaddedNetworkBytes(d);
      assert FieldsOf(Normalized(m)) == FieldsOf(m).(transactionId := 0, data := Some(ModbusMessageImpl.Discretes(Padded(d))));
    case WriteMultipleCoilsRequest(_, _, _, d) =>
      PaddedNetworkBytes(d);
      assert FieldsOf(Normalized(m)) == FieldsOf(m).(transactionId := 0, data := Some(ModbusMessageImpl.Discretes(Padded(d))));
    case ReadWriteMultipleRegistersRequest(read, write) =>
      ReadWriteMultipleRegistersRequestMessage.ReaddressedUnit(m, read);
      ReadWriteMultipleRegistersRequestMessage.ReaddressedUnit(m, write);
    case _ =>
      assert FieldsOf(Normalized(m)) == FieldsOf(m).(transactionId := 0);
  }

  /**
   * Decoding a well-formed message's frame, followed by anything, takes
   * exactly the bytes of that frame.
   */
  lemma FrameLengthOfMessage(m: Message, rest: seq<byte>)
    requires WellFormed(m)
    ensures |MessageFrame(m) + rest| >= MinimumFrameSize(KindOf(m))
    ensures FrameLength(KindOf(m), MessageFrame(m) + rest) == |MessageFrame(m)|
  {
    MessageRoundTrip(m, rest);
    DecodedFrame(KindOf(m), MessageFrame(m) + rest);
    NormalizedFrame(m);
  }

  /** The classes that validate their responses themselves. */
  predicate IsRequest(m: Message) {
    m.body.ReadCoilsInputsRequest? || m.body.ReadHoldingInputRegistersRequest?
    || m.body.WriteSingleCoilRequestResponse? || m.body.WriteSingleRegisterRequestResponse?
    || m.body.WriteMultipleCoilsRequest? || m.body.WriteMultipleRegistersRequest?
    || m.body.ReadWriteMultipleRegistersRequest?
  }

  /** A request's own validation of a response; messages of other classes accept every response. */
  function RequestValidateResponse(request: Message, response: Message): (r: Outcome<Exception>)
    requires WellTyped(request)
    ensures !IsRequest(request) ==> r == Pass
    ensures r.Fail? ==> r.error in {InvalidCastException, IOException}
    ensures IsRequest(request) && r.Pass? ==> KindOf(response) == ResponseKind(KindOf(request))
  {
    match request.body
    case ReadCoilsInputsRequest(_, _) => ReadCoilsInputsRequestMessage.ValidateResponse(request, response)
    case ReadHoldingInputRegistersRequest(_, _) => ReadHoldingInputRegistersRequestMessage.ValidateResponse(request, response)
    case WriteSingleCoilRequestResponse(_, _) => WriteSingleCoilRequestResponseMessage.ValidateResponse(request, response)
    case WriteSingleRegisterRequestResponse(_, _) => WriteSingleRegisterRequestResponseMessage.ValidateResponse(request, response)
    case WriteMultipleCoilsRequest(_, _, _, _) => WriteMultipleCoilsRequestMessage.ValidateResponse(request, response)
    case WriteMultipleRegistersRequest(_, _, _, _) => WriteMultipleRegistersRequestMessage.ValidateResponse(request, response)
    case ReadWriteMultipleRegistersRequest(_, _) => ReadWriteMultipleRegistersRequestMessage.ValidateResponse(request, response)
    case _ => Pass
  }

  /** The response class the master expects for a request class. */
  function ResponseKind(kind: MessageKind): MessageKind {
    match kind
    case ReadCoilsInputsRequestType => ReadCoilsInputsResponseType
    case ReadHoldingInputRegistersRequestType => ReadHoldingInputRegistersResponseType
    case WriteMultipleCoilsRequestType => WriteMultipleCoilsResponseType
    case WriteMultipleRegistersRequestType => WriteMultipleRegistersResponseType
    case ReadWriteMultipleRegistersRequestType => ReadHoldingInputRegistersResponseType
    case _ => kind
  }
}

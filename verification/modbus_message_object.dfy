/**
 * A message as a mutable object: the shared implementation object holding
 * its fields, the setters that write through to it, and the decoding of a
 * frame into a freshly made message, which first checks the class's minimum
 * frame size, then sets the slave address and function code, then the
 * fields the class adds.
 */
module ModbusMessageObjects {
  import opened Wrappers
  import opened Bytes
  import opened Exceptions
  import opened Messages
  import opened AbstractModbusMessage
  import opened Impl = ModbusMessageImpl
  import ModbusConstants
  import ModbusMessageFactory

  /** The largest number of points a class's number-of-points setter accepts, if the class has one. */
  function MaximumNumberOfPoints(kind: MessageKind): (r: Option<nat>)
    ensures r.Some? ==> r.value in {ModbusConstants.MaximumDiscreteRequestResponseSize,
      ModbusConstants.MaximumRegisterRequestResponseSize}
  {
    match kind
    case ReadCoilsInputsRequestType => Some(ModbusConstants.MaximumDiscreteRequestResponseSize)
    case WriteMultipleCoilsRequestType => Some(ModbusConstants.MaximumDiscreteRequestResponseSize)
    case WriteMultipleCoilsResponseType => Some(ModbusConstants.MaximumDiscreteRequestResponseSize)
    case ReadHoldingInputRegistersRequestType => Some(ModbusConstants.MaximumRegisterRequestResponseSize)
    case WriteMultipleRegistersRequestType => Some(ModbusConstants.MaximumRegisterRequestResponseSize)
    case WriteMultipleRegistersResponseType => Some(ModbusConstants.MaximumRegisterRequestResponseSize)
    case _ => None
  }

  /**
   * The fields after a class has stored the fields `f` of a decoded message
   * over `before`: the present fields of `f`, the slave address and the
   * function code replace those of `before`; the transaction id and every
   * field `f` lacks keep their value.
   */
  function Overlay(before: MessageFields, f: MessageFields): MessageFields {
    MessageFields(
      if f.byteCount.Some? then f.byteCount else before.byteCount,
      if f.exceptionCode.Some? then f.exceptionCode else before.exceptionCode,
      before.transactionId,
      f.functionCode,
      if f.numberOfPoints.Some? then f.numberOfPoints else before.numberOfPoints,
      f.slaveAddress,
      if f.startAddress.Some? then f.startAddress else before.startAddress,
      if f.subFunctionCode.Some? then f.subFunctionCode else before.subFunctionCode,
      if f.data.Some? then f.data else before.data)
  }

  /** A message object of one class. */
  class ModbusMessage {
    const kind: MessageKind
    const impl: Impl.ModbusMessageImpl
    /** the parts of a read/write request */
    var readRequest: Option<Message>
    var writeRequest: Option<Message>

    /** A message with no fields set. */
    constructor (kind: MessageKind)
      ensures this.kind == kind && fresh(impl) && impl.Fields() == EmptyFields()
      ensures readRequest == None && writeRequest == None
    {
      this.kind := kind;
      impl := new Impl.ModbusMessageImpl();
      readRequest, writeRequest := None, None;
    }

    /** A message with the given slave address and function code. */
    constructor WithAddress(kind: MessageKind, slaveAddress: byte, functionCode: byte)
      ensures this.kind == kind && fresh(impl)
      ensures impl.Fields() == EmptyFields().(slaveAddress := slaveAddress, functionCode := functionCode)
      ensures readRequest == None && writeRequest == None
    {
      this.kind := kind;
      impl := new Impl.ModbusMessageImpl.WithAddress(slaveAddress, functionCode);
      readRequest, writeRequest := None, None;
    }

    /** The message frame the library computes from the stored fields. */
    function MessageFrame(): (r: seq<byte>)
      reads impl
      ensures r == Impl.MessageFrame(impl.Fields())
      ensures r[0] == impl.slaveAddress && r[1] == impl.functionCode
    {
      [impl.slaveAddress] + Impl.ProtocolDataUnit(impl.Fields())
    }

    method SetTransactionId(value: u16)
      modifies impl`transactionId
      ensures impl.Fields() == old(impl.Fields()).(transactionId := value)
    {
      impl.transactionId := value;
    }

    method SetFunctionCode(value: byte)
      modifies impl`functionCode
      ensures impl.Fields() == old(impl.Fields()).(functionCode := value)
    {
      impl.functionCode := value;
    }

    method SetSlaveAddress(value: byte)
      modifies impl`slaveAddress
      ensures impl.Fields() == old(impl.Fields()).(slaveAddress := value)
    {
      impl.slaveAddress := value;
    }

    method SetStartAddress(value: u16)
      modifies impl`startAddress
      ensures impl.Fields() == old(impl.Fields()).(startAddress := Some(value))
    {
      impl.startAddress := Some(value);
    }

    /**
     * The number-of-points setter of the classes that have one: a value
     * above the class's maximum raises ArgumentOutOfRangeException and
     * leaves the field as it was.
     */
    method SetNumberOfPoints(value: u16) returns (r: Outcome<Exception>)
      requires MaximumNumberOfPoints(kind).Some?
      modifies impl`numberOfPoints
      ensures r.Pass? <==> value as nat <= MaximumNumberOfPoints(kind).value
      ensures r.Pass? ==> impl.Fields() == old(impl.Fields()).(numberOfPoints := Some(value))
      ensures r.Fail? ==> r.error == ArgumentOutOfRangeException && unchanged(impl)
    {
      var checked := CheckNumberOfPoints(value, MaximumNumberOfPoints(kind).value);
      if checked.Failure? {
        return Fail(checked.error);
      }
      impl.numberOfPoints := Some(checked.value);
      return Pass;
    }

    /**
     * Decodes a frame into this message. A frame shorter than the class's
     * minimum raises FormatException and changes nothing. Otherwise the
     * slave address and function code are taken from the frame, and the
     * class's own fields are those of the frame decoded as that class;
     * the transaction id is kept. Decoding fails exactly when the pure
     * decoder of the class fails, with the same exception.
     */
    method Initialize(frame: seq<byte>) returns (r: Outcome<Exception>)
      modifies impl, this`readRequest, this`writeRequest
      ensures |frame| < ModbusMessageFactory.MinimumFrameSize(kind) ==>
        r == Fail(FormatException) && unchanged(impl) && unchanged(this)
      ensures r.Pass? <==> ModbusMessageFactory.CreateModbusMessage(kind, frame).Success?
      ensures r.Fail? ==> r.error == ModbusMessageFactory.CreateModbusMessage(kind, frame).error
      ensures r.Fail? && |frame| >= ModbusMessageFactory.MinimumFrameSize(kind) ==>
        impl.slaveAddress == frame[0] && impl.functionCode == frame[1]
        && impl.transactionId == old(impl.transactionId)
      ensures r.Pass? ==>
        var m := ModbusMessageFactory.CreateModbusMessage(kind, frame).value;
        impl.Fields() == Overlay(old(impl.Fields()), FieldsOf(m))
        && (kind == ReadWriteMultipleRegistersRequestType ==>
          readRequest == Some(m.body.readRequest) && writeRequest == Some(m.body.writeRequest))
        && (kind != ReadWriteMultipleRegistersRequestType ==>
          readRequest == old(readRequest) && writeRequest == old(writeRequest))
    {
      if |frame| < ModbusMessageFactory.MinimumFrameSize(kind) {
        return Fail(FormatException);
      }
      var header := impl.Initialize(frame);
      assert header == Pass;
      var decoded := ModbusMessageFactory.CreateModbusMessage(kind, frame);
      if decoded.Failure? {
        return Fail(decoded.error);
      }
      InitializeUnique(FieldsOf(decoded.value));
      if kind == ReadWriteMultipleRegistersRequestType {
        readRequest := Some(decoded.value.body.readRequest);
        writeRequest := Some(decoded.value.body.writeRequest);
      }
      return Pass;
    }

    /** Stores the fields the class adds, as decoded. */
    method InitializeUnique(f: MessageFields)
      modifies impl
      requires impl.slaveAddress == f.slaveAddress && impl.functionCode == f.functionCode
      ensures impl.Fields() == Overlay(old(impl.Fields()), f)
    {
      if f.byteCount.Some? { impl.byteCount := f.byteCount; }
      if f.exceptionCode.Some? { impl.exceptionCode := f.exceptionCode; }
      if f.numberOfPoints.Some? { impl.numberOfPoints := f.numberOfPoints; }
      if f.startAddress.Some? { impl.startAddress := f.startAddress; }
      if f.subFunctionCode.Some? { impl.subFunctionCode := f.subFunctionCode; }
      if f.data.Some? { impl.data := f.data; }
    }
  }

  /**
   * The factory's decoding of a frame: a new message of the class,
   * initialised from the frame. On success its fields are exactly those of
   * the decoded message, and its frame is the decoded message's frame for
   * every class but the read/write request.
   */
  method CreateModbusMessage(kind: MessageKind, frame: seq<byte>) returns (r: Result<ModbusMessage, Exception>)
    ensures r.Failure? <==> ModbusMessageFactory.CreateModbusMessage(kind, frame).Failure?
    ensures r.Failure? ==> r.error == ModbusMessageFactory.CreateModbusMessage(kind, frame).error
    ensures r.Success? ==>
      var m := ModbusMessageFactory.CreateModbusMessage(kind, frame).value;
      fresh(r.value) && fresh(r.value.impl) && r.value.kind == kind
      && r.value.impl.Fields() == FieldsOf(m)
      && r.value.MessageFrame() == MessageFrameAsWritten(m)
  {
    var message := new ModbusMessage(kind);
    var outcome := message.Initialize(frame);
    if outcome.Fail? {
      return Failure(outcome.error);
    }
    ghost var m := ModbusMessageFactory.CreateModbusMessage(kind, frame).value;
    assert Overlay(EmptyFields(), FieldsOf(m)) == FieldsOf(m);
    return Success(message);
  }

  /** The frame of an initialised message of any class but the read/write request is the decoded message's frame. */
  lemma InitializedFrame(kind: MessageKind, frame: seq<byte>)
    requires ModbusMessageFactory.CreateModbusMessage(kind, frame).Success?
    requires kind != ReadWriteMultipleRegistersRequestType
    ensures Impl.MessageFrame(FieldsOf(ModbusMessageFactory.CreateModbusMessage(kind, frame).value))
      == AbstractModbusMessage.MessageFrame(ModbusMessageFactory.CreateModbusMessage(kind, frame).value)
    ensures |frame| >= ModbusMessageFactory.FrameLength(kind, frame)
    ensures Impl.MessageFrame(FieldsOf(ModbusMessageFactory.CreateModbusMessage(kind, frame).value))
      == frame[..ModbusMessageFactory.FrameLength(kind, frame)]
  {
    var m := ModbusMessageFactory.CreateModbusMessage(kind, frame).value;
    MessageFramesAgree(m);
    ModbusMessageFactory.DecodedFrame(kind, frame);
  }
}

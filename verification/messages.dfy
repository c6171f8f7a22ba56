/**
 * The Modbus messages as values. Every message carries the slave address,
 * the function code and the transaction identifier that all message classes
 * share; `Body` has one constructor per message class and holds the fields
 * that class adds.
 */
module Messages {
  import opened Bytes

  datatype Message = Message(slaveAddress: byte, functionCode: byte, transactionId: u16, body: Body)

  datatype Body =
    | ReadCoilsInputsRequest(startAddress: u16, numberOfPoints: u16)
    | ReadHoldingInputRegistersRequest(startAddress: u16, numberOfPoints: u16)
    | ReadCoilsInputsResponse(byteCount: byte, discretes: seq<bool>)
    | ReadHoldingInputRegistersResponse(byteCount: byte, registers: seq<u16>)
    | WriteSingleCoilRequestResponse(startAddress: u16, value: u16)
    | WriteSingleRegisterRequestResponse(startAddress: u16, value: u16)
    | WriteMultipleCoilsRequest(startAddress: u16, numberOfPoints: u16, byteCount: byte, discretes: seq<bool>)
    | WriteMultipleCoilsResponse(startAddress: u16, numberOfPoints: u16)
    | WriteMultipleRegistersRequest(startAddress: u16, numberOfPoints: u16, byteCount: byte, registers: seq<u16>)
    | WriteMultipleRegistersResponse(startAddress: u16, numberOfPoints: u16)
    | DiagnosticsRequestResponse(subFunctionCode: u16, registers: seq<u16>)
    | ReadWriteMultipleRegistersRequest(readRequest: Message, writeRequest: Message)
    | SlaveExceptionResponse(slaveExceptionCode: byte)

  /** The message classes, standing for the type argument of the generic factory method. */
  datatype MessageKind =
    | ReadCoilsInputsRequestType
    | ReadHoldingInputRegistersRequestType
    | ReadCoilsInputsResponseType
    | ReadHoldingInputRegistersResponseType
    | WriteSingleCoilRequestResponseType
    | WriteSingleRegisterRequestResponseType
    | WriteMultipleCoilsRequestType
    | WriteMultipleCoilsResponseType
    | WriteMultipleRegistersRequestType
    | WriteMultipleRegistersResponseType
    | DiagnosticsRequestResponseType
    | ReadWriteMultipleRegistersRequestType
    | SlaveExceptionResponseType

  /** The class of a message; only a slave exception response is of the exception response class. */
  function KindOf(m: Message): (r: MessageKind)
    ensures r == SlaveExceptionResponseType <==> m.body.SlaveExceptionResponse?
  {
    BodyKind(m.body)
  }

  /** The class of a message with this body. */
  function BodyKind(body: Body): MessageKind {
    match body
    case ReadCoilsInputsRequest(_, _) => ReadCoilsInputsRequestType
    case ReadHoldingInputRegistersRequest(_, _) => ReadHoldingInputRegistersRequestType
    case ReadCoilsInputsResponse(_, _) => ReadCoilsInputsResponseType
    case ReadHoldingInputRegistersResponse(_, _) => ReadHoldingInputRegistersResponseType
    case WriteSingleCoilRequestResponse(_, _) => WriteSingleCoilRequestResponseType
    case WriteSingleRegisterRequestResponse(_, _) => WriteSingleRegisterRequestResponseType
    case WriteMultipleCoilsRequest(_, _, _, _) => WriteMultipleCoilsRequestType
    case WriteMultipleCoilsResponse(_, _) => WriteMultipleCoilsResponseType
    case WriteMultipleRegistersRequest(_, _, _, _) => WriteMultipleRegistersRequestType
    case WriteMultipleRegistersResponse(_, _) => WriteMultipleRegistersResponseType
    case DiagnosticsRequestResponse(_, _) => DiagnosticsRequestResponseType
    case ReadWriteMultipleRegistersRequest(_, _) => ReadWriteMultipleRegistersRequestType
    case SlaveExceptionResponse(_) => SlaveExceptionResponseType
  }

  /** A message of the slave exception response class. */
  type SlaveExceptionResponseMessage = m: Message | m.body.SlaveExceptionResponse?
    witness Message(0, 0, 0, SlaveExceptionResponse(0))

  /**
   * The parts of a read/write request are of the classes its properties are
   * declared with: a read holding registers request and a write multiple
   * registers request.
   */
  predicate WellTyped(m: Message) {
    m.body.ReadWriteMultipleRegistersRequest? ==>
      m.body.readRequest.body.ReadHoldingInputRegistersRequest? && m.body.writeRequest.body.WriteMultipleRegistersRequest?
  }
}

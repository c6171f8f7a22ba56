/**
 * The master side of the protocol: each operation checks its arguments
 * against the operation's limit before it builds a request, sends the
 * request through the transport, and a read returns the first values of the
 * response's data, as many as it asked for.
 */
module ModbusMasters {
  import opened Wrappers
  import opened Bytes
  import opened Exceptions
  import opened Messages
  import opened SequenceUtility
  import opened ModbusTransports
  import ModbusConstants
  import Factory = ModbusMessageFactory
  import Base = ModbusTransportBase
  import DataCollections
  import AbstractModbusMessage
  import DiscreteRequests = ReadCoilsInputsRequestMessage
  import RegisterRequests = ReadHoldingInputRegistersRequestMessage
  import CoilRequests = WriteSingleCoilRequestResponseMessage
  import RegisterRequestResponses = WriteSingleRegisterRequestResponseMessage
  import CoilsRequests = WriteMultipleCoilsRequestMessage
  import RegistersRequests = WriteMultipleRegistersRequestMessage
  import ReadWriteRequests = ReadWriteMultipleRegistersRequestMessage
  import DiscreteResponses = ReadCoilsInputsResponseMessage
  import RegisterResponses = ReadHoldingInputRegistersResponseMessage

  // the limits the operations check their arguments against
  const MaximumReadDiscretes: u16 := 2000
  const MaximumReadRegisters: u16 := 125
  const MaximumWriteRegisters: nat := 123
  const MaximumWriteCoils: nat := 1968
  const MaximumReadWriteRead: u16 := 125
  const MaximumReadWriteWrite: nat := 121

  /** A count outside 1 to the maximum raises ArgumentException. */
  function ValidateNumberOfPoints(numberOfPoints: u16, maxNumberOfPoints: u16): (r: Outcome<Exception>)
    ensures r.Pass? <==> 1 <= numberOfPoints <= maxNumberOfPoints
    ensures r.Fail? ==> r.error == ArgumentException
  {
    if numberOfPoints < 1 || numberOfPoints > maxNumberOfPoints then Fail(ArgumentException) else Pass
  }

  /** Missing data raises ArgumentNullException; a length outside 1 to the maximum raises ArgumentException. */
  function ValidateData<T>(data: Option<seq<T>>, maxDataLength: nat): (r: Outcome<Exception>)
    ensures data.None? ==> r == Fail(ArgumentNullException)
    ensures data.Some? ==> (r.Pass? <==> 1 <= |data.value| <= maxDataLength)
    ensures data.Some? && r.Fail? ==> r.error == ArgumentException
  {
    if data.None? then Fail(ArgumentNullException)
    else if |data.value| == 0 || |data.value| > maxDataLength then Fail(ArgumentException)
    else Pass
  }

  /** The answer to a read of discretes: a read coils / inputs response for the request, with the byte count its count needs. */
  predicate DiscretesAnswer(slaveAddress: byte, functionCode: byte, numberOfPoints: u16, response: Message) {
    response.slaveAddress == slaveAddress && response.functionCode == functionCode
    && response.body.ReadCoilsInputsResponse?
    && response.body.byteCount as int == (numberOfPoints as int + 7) / 8
  }

  /** The answer to a read of registers: a read registers response for the request, two bytes per register asked for. */
  predicate RegistersAnswer(slaveAddress: byte, functionCode: byte, numberOfPoints: u16, response: Message) {
    response.slaveAddress == slaveAddress && response.functionCode == functionCode
    && response.body.ReadHoldingInputRegistersResponse?
    && response.body.byteCount as int == 2 * numberOfPoints as int
  }

  /**
   * A response the transport accepted for a request has the request's slave
   * address and function code and passed the request's own validation.
   */
  lemma AcceptedAnswer(mode: TransportMode, kind: MessageKind, sent: Message, response: Message)
    requires WellTyped(sent) && Accepted(mode, kind, sent, response)
    ensures response.slaveAddress == sent.slaveAddress && response.functionCode == sent.functionCode
    ensures Factory.RequestValidateResponse(sent, response).Pass?
    ensures sent.body.WriteSingleCoilRequestResponse? || sent.body.WriteSingleRegisterRequestResponse? ==>
      response.body == sent.body
    ensures sent.body.WriteMultipleRegistersRequest? ==>
      response.body == WriteMultipleRegistersResponse(sent.body.startAddress, sent.body.numberOfPoints)
    ensures sent.body.WriteMultipleCoilsRequest? ==>
      response.body == WriteMultipleCoilsResponse(sent.body.startAddress, sent.body.numberOfPoints)
    ensures sent.body.ReadCoilsInputsRequest? ==>
      DiscretesAnswer(sent.slaveAddress, sent.functionCode, sent.body.numberOfPoints, response)
    ensures sent.body.ReadHoldingInputRegistersRequest? ==>
      RegistersAnswer(sent.slaveAddress, sent.functionCode, sent.body.numberOfPoints, response)
    ensures sent.body.ReadWriteMultipleRegistersRequest? ==>
      RegistersAnswer(sent.slaveAddress, sent.functionCode, sent.body.readRequest.body.numberOfPoints, response)
  {
  }

  class ModbusMaster {
    const transport: ModbusTransport

    constructor (transport: ModbusTransport)
      ensures this.transport == transport
    {
      this.transport := transport;
    }

    /**
     * Sends a read coils or read inputs request and keeps the first
     * number-of-points discretes of the answer: exactly that many.
     */
    method PerformReadDiscretes(request: Message)
      returns (r: Result<seq<bool>, Exception>, answer: Result<Message, Exception>, ghost attempts: nat,
               ghost from: seq<byte>)
      requires request.body.ReadCoilsInputsRequest?
      modifies transport.stream`input, transport.stream`chunks, transport.stream`events, transport`transactionId, transport`written
      ensures transport.Answers(ReadCoilsInputsResponseType, request, old(transport.written), old(transport.transactionId), old(transport.stream.input), old(transport.stream.chunks), attempts, from, answer)
      ensures r.Success? ==> (answer.Success?
        && DiscretesAnswer(request.slaveAddress, request.functionCode, request.body.numberOfPoints, answer.value)
        && r.value == Take(answer.value.body.discretes, request.body.numberOfPoints as nat)
        && |r.value| == request.body.numberOfPoints as int)
      ensures r.Failure? ==> answer == Failure(r.error) && FromResponse(r.error)
    {
      answer, attempts, from := ExecuteCustomMessage(ReadCoilsInputsResponseType, request);
      ghost var sent := transport.Stamped(request);
      if answer.Failure? {
        return Failure(answer.error), answer, attempts, from;
      }
      var response := answer.value;
      AcceptedAnswer(transport.mode, ReadCoilsInputsResponseType, sent, response);
      TruncationKeepsCount(response, request.body.numberOfPoints);
      r := Success(Take(response.body.discretes, request.body.numberOfPoints as nat));
    }

    /**
     * Sends a read registers request and keeps the first number-of-points
     * registers of the answer: exactly that many.
     */
    method PerformReadRegisters(request: Message)
      returns (r: Result<seq<u16>, Exception>, answer: Result<Message, Exception>, ghost attempts: nat,
               ghost from: seq<byte>)
      requires request.body.ReadHoldingInputRegistersRequest?
      modifies transport.stream`input, transport.stream`chunks, transport.stream`events, transport`transactionId, transport`written
      ensures transport.Answers(ReadHoldingInputRegistersResponseType, request, old(transport.written), old(transport.transactionId), old(transport.stream.input), old(transport.stream.chunks), attempts, from, answer)
      ensures r.Success? ==> (answer.Success?
        && RegistersAnswer(request.slaveAddress, request.functionCode, request.body.numberOfPoints, answer.value)
        && r.value == Take(answer.value.body.registers, request.body.numberOfPoints as nat)
        && |r.value| == request.body.numberOfPoints as int)
      ensures r.Failure? ==> answer == Failure(r.error) && FromResponse(r.error)
    {
      answer, attempts, from := ExecuteCustomMessage(ReadHoldingInputRegistersResponseType, request);
      ghost var sent := transport.Stamped(request);
      if answer.Failure? {
        return Failure(answer.error), answer, attempts, from;
      }
      var response := answer.value;
      AcceptedAnswer(transport.mode, ReadHoldingInputRegistersResponseType, sent, response);
      r := Success(Take(response.body.registers, request.body.numberOfPoints as nat));
    }

    /**
     * Sends a read/write request and keeps the first registers of the
     * answer, as many as its read part asks for.
     */
    method PerformReadWriteRegisters(request: Message)
      returns (r: Result<seq<u16>, Exception>, answer: Result<Message, Exception>, ghost attempts: nat,
               ghost from: seq<byte>)
      requires request.body.ReadWriteMultipleRegistersRequest? && WellTyped(request)
      modifies transport.stream`input, transport.stream`chunks, transport.stream`events, transport`transactionId, transport`written
      ensures transport.Answers(ReadHoldingInputRegistersResponseType, request, old(transport.written), old(transport.transactionId), old(transport.stream.input), old(transport.stream.chunks), attempts, from, answer)
      ensures r.Success? ==> (answer.Success?
        && RegistersAnswer(request.slaveAddress, request.functionCode, request.body.readRequest.body.numberOfPoints,
          answer.value)
        && r.value == Take(answer.value.body.registers, request.body.readRequest.body.numberOfPoints as nat)
        && |r.value| == request.body.readRequest.body.numberOfPoints as int)
      ensures r.Failure? ==> answer == Failure(r.error) && FromResponse(r.error)
    {
      answer, attempts, from := ExecuteCustomMessage(ReadHoldingInputRegistersResponseType, request);
      ghost var sent := transport.Stamped(request);
      if answer.Failure? {
        return Failure(answer.error), answer, attempts, from;
      }
      var response := answer.value;
      AcceptedAnswer(transport.mode, ReadHoldingInputRegistersResponseType, sent, response);
      r := Success(Take(response.body.registers, request.body.readRequest.body.numberOfPoints as nat));
    }

    /** Reads coils: a count outside 1 to 2000 raises ArgumentException before anything is sent. */
    method ReadCoils(slaveAddress: byte, startAddress: u16, numberOfPoints: u16)
      returns (r: Result<seq<bool>, Exception>, answer: Result<Message, Exception>, ghost attempts: nat,
               ghost from: seq<byte>)
      modifies transport.stream`input, transport.stream`chunks, transport.stream`events, transport`transactionId, transport`written
      ensures ValidateNumberOfPoints(numberOfPoints, MaximumReadDiscretes).Fail? ==>
        r == Failure(ArgumentException) && unchanged(transport, transport.stream)
      ensures ValidateNumberOfPoints(numberOfPoints, MaximumReadDiscretes).Pass? ==>
        transport.Answers(ReadCoilsInputsResponseType, DiscreteRequests.New(ModbusConstants.ReadCoils, slaveAddress, startAddress, numberOfPoints).value,
          old(transport.written), old(transport.transactionId), old(transport.stream.input), old(transport.stream.chunks), attempts, from, answer)
      ensures r.Success? ==> (answer.Success?
        && DiscretesAnswer(slaveAddress, ModbusConstants.ReadCoils, numberOfPoints, answer.value)
        && r.value == Take(answer.value.body.discretes, numberOfPoints as nat) && |r.value| == numberOfPoints as int)
      ensures r.Failure? && r.error != ArgumentException ==> answer == Failure(r.error) && FromResponse(r.error)
    {
      var valid := ValidateNumberOfPoints(numberOfPoints, MaximumReadDiscretes);
      if valid.Fail? {
        return Failure(valid.error), Failure(valid.error), 0, [];
      }
      var request := DiscreteRequests.New(ModbusConstants.ReadCoils, slaveAddress, startAddress, numberOfPoints).value;
      r, answer, attempts, from := PerformReadDiscretes(request);
    }

    /** Reads discrete inputs: a count outside 1 to 2000 raises ArgumentException before anything is sent. */
    method ReadInputs(slaveAddress: byte, startAddress: u16, numberOfPoints: u16)
      returns (r: Result<seq<bool>, Exception>, answer: Result<Message, Exception>, ghost attempts: nat,
               ghost from: seq<byte>)
      modifies transport.stream`input, transport.stream`chunks, transport.stream`events, transport`transactionId, transport`written
      ensures ValidateNumberOfPoints(numberOfPoints, MaximumReadDiscretes).Fail? ==>
        r == Failure(ArgumentException) && unchanged(transport, transport.stream)
      ensures ValidateNumberOfPoints(numberOfPoints, MaximumReadDiscretes).Pass? ==>
        transport.Answers(ReadCoilsInputsResponseType, DiscreteRequests.New(ModbusConstants.ReadInputs, slaveAddress, startAddress, numberOfPoints).value,
          old(transport.written), old(transport.transactionId), old(transport.stream.input), old(transport.stream.chunks), attempts, from, answer)
      ensures r.Success? ==> (answer.Success?
        && DiscretesAnswer(slaveAddress, ModbusConstants.ReadInputs, numberOfPoints, answer.value)
        && r.value == Take(answer.value.body.discretes, numberOfPoints as nat) && |r.value| == numberOfPoints as int)
      ensures r.Failure? && r.error != ArgumentException ==> answer == Failure(r.error) && FromResponse(r.error)
    {
      var valid := ValidateNumberOfPoints(numberOfPoints, MaximumReadDiscretes);
      if valid.Fail? {
        return Failure(valid.error), Failure(valid.error), 0, [];
      }
      var request := DiscreteRequests.New(ModbusConstants.ReadInputs, slaveAddress, startAddress, numberOfPoints).value;
      r, answer, attempts, from := PerformReadDiscretes(request);
    }

    /** Reads holding registers: a count outside 1 to 125 raises ArgumentException before anything is sent. */
    method ReadHoldingRegisters(slaveAddress: byte, startAddress: u16, numberOfPoints: u16)
      returns (r: Result<seq<u16>, Exception>, answer: Result<Message, Exception>, ghost attempts: nat,
               ghost from: seq<byte>)
      modifies transport.stream`input, transport.stream`chunks, transport.stream`events, transport`transactionId, transport`written
      ensures ValidateNumberOfPoints(numberOfPoints, MaximumReadRegisters).Fail? ==>
        r == Failure(ArgumentException) && unchanged(transport, transport.stream)
      ensures ValidateNumberOfPoints(numberOfPoints, MaximumReadRegisters).Pass? ==>
        transport.Answers(ReadHoldingInputRegistersResponseType, RegisterRequests.New(ModbusConstants.ReadHoldingRegisters, slaveAddress, startAddress, numberOfPoints).value,
          old(transport.written), old(transport.transactionId), old(transport.stream.input), old(transport.stream.chunks), attempts, from, answer)
      ensures r.Success? ==> (answer.Success?
        && RegistersAnswer(slaveAddress, ModbusConstants.ReadHoldingRegisters, numberOfPoints, answer.value)
        && r.value == Take(answer.value.body.registers, numberOfPoints as nat) && |r.value| == numberOfPoints as int)
      ensures r.Failure? && r.error != ArgumentException ==> answer == Failure(r.error) && FromResponse(r.error)
    {
      var valid := ValidateNumberOfPoints(numberOfPoints, MaximumReadRegisters);
      if valid.Fail? {
        return Failure(valid.error), Failure(valid.error), 0, [];
      }
      var request := RegisterRequests.New(ModbusConstants.ReadHoldingRegisters, slaveAddress, startAddress, numberOfPoints).value;
      r, answer, attempts, from := PerformReadRegisters(request);
    }

    /** Reads input registers: a count outside 1 to 125 raises ArgumentException before anything is sent. */
    method ReadInputRegisters(slaveAddress: byte, startAddress: u16, numberOfPoints: u16)
      returns (r: Result<seq<u16>, Exception>, answer: Result<Message, Exception>, ghost attempts: nat,
               ghost from: seq<byte>)
      modifies transport.stream`input, transport.stream`chunks, transport.stream`events, transport`transactionId, transport`written
      ensures ValidateNumberOfPoints(numberOfPoints, MaximumReadRegisters).Fail? ==>
        r == Failure(ArgumentException) && unchanged(transport, transport.stream)
      ensures ValidateNumberOfPoints(numberOfPoints, MaximumReadRegisters).Pass? ==>
        transport.Answers(ReadHoldingInputRegistersResponseType, RegisterRequests.New(ModbusConstants.ReadInputRegisters, slaveAddress, startAddress, numberOfPoints).value,
          old(transport.written), old(transport.transactionId), old(transport.stream.input), old(transport.stream.chunks), attempts, from, answer)
      ensures r.Success? ==> (answer.Success?
        && RegistersAnswer(slaveAddress, ModbusConstants.ReadInputRegisters, numberOfPoints, answer.value)
        && r.value == Take(answer.value.body.registers, numberOfPoints as nat) && |r.value| == numberOfPoints as int)
      ensures r.Failure? && r.error != ArgumentException ==> answer == Failure(r.error) && FromResponse(r.error)
    {
      var valid := ValidateNumberOfPoints(numberOfPoints, MaximumReadRegisters);
      if valid.Fail? {
        return Failure(valid.error), Failure(valid.error), 0, [];
      }
      var request := RegisterRequests.New(ModbusConstants.ReadInputRegisters, slaveAddress, startAddress, numberOfPoints).value;
      r, answer, attempts, from := PerformReadRegisters(request);
    }

    /** Writes one coil; the slave's answer echoes the request. */
    method WriteSingleCoil(slaveAddress: byte, coilAddress: u16, value: bool)
      returns (r: Outcome<Exception>, answer: Result<Message, Exception>, ghost attempts: nat, ghost from: seq<byte>)
      modifies transport.stream`input, transport.stream`chunks, transport.stream`events, transport`transactionId, transport`written
      ensures transport.Answers(WriteSingleCoilRequestResponseType, CoilRequests.New(slaveAddress, coilAddress, value),
        old(transport.written), old(transport.transactionId), old(transport.stream.input), old(transport.stream.chunks), attempts, from, answer)
      ensures r.Pass? <==> answer.Success?
      ensures r.Pass? ==>
        (answer.value.slaveAddress == slaveAddress && answer.value.functionCode == ModbusConstants.WriteSingleCoil
        && answer.value.body == CoilRequests.New(slaveAddress, coilAddress, value).body)
      ensures r.Fail? ==> answer == Failure(r.error) && FromResponse(r.error)
    {
      var request := CoilRequests.New(slaveAddress, coilAddress, value);
      answer, attempts, from := ExecuteCustomMessage(WriteSingleCoilRequestResponseType, request);
      ghost var sent := transport.Stamped(request);
      if answer.Failure? {
        return Fail(answer.error), answer, attempts, from;
      }
      AcceptedAnswer(transport.mode, WriteSingleCoilRequestResponseType, sent, answer.value);
      r := Pass;
    }

    /** Writes one holding register; the slave's answer echoes the request. */
    method WriteSingleRegister(slaveAddress: byte, registerAddress: u16, value: u16)
      returns (r: Outcome<Exception>, answer: Result<Message, Exception>, ghost attempts: nat, ghost from: seq<byte>)
      modifies transport.stream`input, transport.stream`chunks, transport.stream`events, transport`transactionId, transport`written
      ensures transport.Answers(WriteSingleRegisterRequestResponseType,
        RegisterRequestResponses.New(slaveAddress, registerAddress, value), old(transport.written), old(transport.transactionId), old(transport.stream.input), old(transport.stream.chunks), attempts, from, answer)
      ensures r.Pass? <==> answer.Success?
      ensures r.Pass? ==>
        (answer.value.slaveAddress == slaveAddress && answer.value.functionCode == ModbusConstants.WriteSingleRegister
        && answer.value.body == WriteSingleRegisterRequestResponse(registerAddress, value))
      ensures r.Fail? ==> answer == Failure(r.error) && FromResponse(r.error)
    {
      var request := RegisterRequestResponses.New(slaveAddress, registerAddress, value);
      answer, attempts, from := ExecuteCustomMessage(WriteSingleRegisterRequestResponseType, request);
      ghost var sent := transport.Stamped(request);
      if answer.Failure? {
        return Fail(answer.error), answer, attempts, from;
      }
      AcceptedAnswer(transport.mode, WriteSingleRegisterRequestResponseType, sent, answer.value);
      r := Pass;
    }

    /**
     * Writes holding registers: missing data raises ArgumentNullException and
     * a length outside 1 to 123 ArgumentException, before anything is sent.
     */
    method WriteMultipleRegisters(slaveAddress: byte, startAddress: u16, data: Option<seq<u16>>)
      returns (r: Outcome<Exception>, answer: Result<Message, Exception>, ghost attempts: nat, ghost from: seq<byte>)
      modifies transport.stream`input, transport.stream`chunks, transport.stream`events, transport`transactionId, transport`written
      ensures ValidateData(data, MaximumWriteRegisters).Fail? ==>
        r == ValidateData(data, MaximumWriteRegisters) && unchanged(transport, transport.stream)
      ensures ValidateData(data, MaximumWriteRegisters).Pass? ==>
        transport.Answers(WriteMultipleRegistersResponseType, RegistersRequests.New(slaveAddress, startAddress, data.value).value,
          old(transport.written), old(transport.transactionId), old(transport.stream.input), old(transport.stream.chunks), attempts, from, answer)
      ensures ValidateData(data, MaximumWriteRegisters).Pass? ==> (r.Pass? <==> answer.Success?)
      ensures r.Pass? ==>
        (data.Some? && answer.value.slaveAddress == slaveAddress
        && answer.value.functionCode == ModbusConstants.WriteMultipleRegisters
        && answer.value.body == WriteMultipleRegistersResponse(startAddress, |data.value| as u16))
      ensures r.Fail? && r.error != ArgumentException && r.error != ArgumentNullException ==>
        answer == Failure(r.error) && FromResponse(r.error)
    {
      var valid := ValidateData(data, MaximumWriteRegisters);
      if valid.Fail? {
        return valid, Failure(valid.error), 0, [];
      }
      var request := RegistersRequests.New(slaveAddress, startAddress, data.value).value;
      answer, attempts, from := ExecuteCustomMessage(WriteMultipleRegistersResponseType, request);
      ghost var sent := transport.Stamped(request);
      if answer.Failure? {
        return Fail(answer.error), answer, attempts, from;
      }
      AcceptedAnswer(transport.mode, WriteMultipleRegistersResponseType, sent, answer.value);
      r := Pass;
    }

    /**
     * Writes coils: missing data raises ArgumentNullException and a length
     * outside 1 to 1968 ArgumentException, before anything is sent.
     */
    method WriteMultipleCoils(slaveAddress: byte, startAddress: u16, data: Option<seq<bool>>)
      returns (r: Outcome<Exception>, answer: Result<Message, Exception>, ghost attempts: nat, ghost from: seq<byte>)
      modifies transport.stream`input, transport.stream`chunks, transport.stream`events, transport`transactionId, transport`written
      ensures ValidateData(data, MaximumWriteCoils).Fail? ==>
        r == ValidateData(data, MaximumWriteCoils) && unchanged(transport, transport.stream)
      ensures ValidateData(data, MaximumWriteCoils).Pass? ==>
        transport.Answers(WriteMultipleCoilsResponseType, CoilsRequests.New(slaveAddress, startAddress, data.value).value,
          old(transport.written), old(transport.transactionId), old(transport.stream.input), old(transport.stream.chunks), attempts, from, answer)
      ensures ValidateData(data, MaximumWriteCoils).Pass? ==> (r.Pass? <==> answer.Success?)
      ensures r.Pass? ==>
        (data.Some? && answer.value.slaveAddress == slaveAddress
        && answer.value.functionCode == ModbusConstants.WriteMultipleCoils
        && answer.value.body == WriteMultipleCoilsResponse(startAddress, |data.value| as u16))
      ensures r.Fail? && r.error != ArgumentException && r.error != ArgumentNullException ==>
        answer == Failure(r.error) && FromResponse(r.error)
    {
      var valid := ValidateData(data, MaximumWriteCoils);
      if valid.Fail? {
        return valid, Failure(valid.error), 0, [];
      }
      var request := CoilsRequests.New(slaveAddress, startAddress, data.value).value;
      answer, attempts, from := ExecuteCustomMessage(WriteMultipleCoilsResponseType, request);
      ghost var sent := transport.Stamped(request);
      if answer.Failure? {
        return Fail(answer.error), answer, attempts, from;
      }
      AcceptedAnswer(transport.mode, WriteMultipleCoilsResponseType, sent, answer.value);
      r := Pass;
    }

    /**
     * Writes holding registers and reads holding registers in one request:
     * a read count outside 1 to 125 raises ArgumentException, then missing
     * write data ArgumentNullException and a write length outside 1 to 121
     * ArgumentException, before anything is sent.
     */
    method ReadWriteMultipleRegisters(slaveAddress: byte, startReadAddress: u16, numberOfPointsToRead: u16,
                                      startWriteAddress: u16, writeData: Option<seq<u16>>)
      returns (r: Result<seq<u16>, Exception>, answer: Result<Message, Exception>, ghost attempts: nat,
               ghost from: seq<byte>)
      modifies transport.stream`input, transport.stream`chunks, transport.stream`events, transport`transactionId, transport`written
      ensures ValidateNumberOfPoints(numberOfPointsToRead, MaximumReadWriteRead).Fail? ==>
        r == Failure(ArgumentException) && unchanged(transport, transport.stream)
      ensures (ValidateNumberOfPoints(numberOfPointsToRead, MaximumReadWriteRead).Pass?
        && ValidateData(writeData, MaximumReadWriteWrite).Fail?) ==>
        r == Failure(ValidateData(writeData, MaximumReadWriteWrite).error) && unchanged(transport, transport.stream)
      ensures (ValidateNumberOfPoints(numberOfPointsToRead, MaximumReadWriteRead).Pass?
        && ValidateData(writeData, MaximumReadWriteWrite).Pass?) ==>
        transport.Answers(ReadHoldingInputRegistersResponseType, ReadWriteRequests.New(slaveAddress, startReadAddress,
          numberOfPointsToRead, startWriteAddress, writeData.value).value, old(transport.written), old(transport.transactionId), old(transport.stream.input), old(transport.stream.chunks), attempts, from, answer)
      ensures r.Success? ==> (answer.Success?
        && RegistersAnswer(slaveAddress, ModbusConstants.ReadWriteMultipleRegisters, numberOfPointsToRead, answer.value)
        && r.value == Take(answer.value.body.registers, numberOfPointsToRead as nat)
        && |r.value| == numberOfPointsToRead as int)
      ensures r.Failure? && r.error != ArgumentException && r.error != ArgumentNullException ==>
        answer == Failure(r.error) && FromResponse(r.error)
    {
      var validRead := ValidateNumberOfPoints(numberOfPointsToRead, MaximumReadWriteRead);
      if validRead.Fail? {
        return Failure(validRead.error), Failure(validRead.error), 0, [];
      }
      var validWrite := ValidateData(writeData, MaximumReadWriteWrite);
      if validWrite.Fail? {
        return Failure(validWrite.error), Failure(validWrite.error), 0, [];
      }
      var request := ReadWriteRequests.New(slaveAddress, startReadAddress, numberOfPointsToRead, startWriteAddress,
        writeData.value).value;
      r, answer, attempts, from := PerformReadWriteRegisters(request);
    }

    /**
     * Sends any request and returns the transport's answer of the expected
     * class: the request is sent at least once, and the answer is the one
     * the input holds for it as last sent. It only forwards to the
     * transport, so the other operations send their requests through it as
     * well.
     */
    method ExecuteCustomMessage(kind: MessageKind, request: Message)
      returns (r: Result<Message, Exception>, ghost attempts: nat, ghost from: seq<byte>)
      requires WellTyped(request)
      modifies transport.stream`input, transport.stream`chunks, transport.stream`events, transport`transactionId, transport`written
      ensures transport.Answers(kind, request, old(transport.written), old(transport.transactionId), old(transport.stream.input), old(transport.stream.chunks), attempts, from, r)
      ensures r.Success? ==> (Accepted(transport.mode, kind, transport.Stamped(request), r.value)
        && Factory.FullData(r.value))
      ensures r.Failure? ==> FromResponse(r.error)
    {
      ghost var log;
      r, log, from := transport.UnicastMessage(kind, request);
      attempts := |log|;
    }
  }

  /**
   * Every count and length the operations let through fits the request
   * classes' own limits, so building the request never raises.
   */
  lemma LimitsFitRequests(slaveAddress: byte, start: u16, numberOfPoints: u16, registers: seq<u16>, coils: seq<bool>)
    ensures ValidateNumberOfPoints(numberOfPoints, MaximumReadDiscretes).Pass? ==>
      DiscreteRequests.New(ModbusConstants.ReadCoils, slaveAddress, start, numberOfPoints).Success?
    ensures ValidateNumberOfPoints(numberOfPoints, MaximumReadRegisters).Pass? ==>
      RegisterRequests.New(ModbusConstants.ReadHoldingRegisters, slaveAddress, start, numberOfPoints).Success?
    ensures ValidateData(Some(registers), MaximumWriteRegisters).Pass? ==>
      RegistersRequests.New(slaveAddress, start, registers).Success?
    ensures ValidateData(Some(coils), MaximumWriteCoils).Pass? ==>
      CoilsRequests.New(slaveAddress, start, coils).Success?
    ensures (ValidateNumberOfPoints(numberOfPoints, MaximumReadWriteRead).Pass?
      && ValidateData(Some(registers), MaximumReadWriteWrite).Pass?) ==>
      ReadWriteRequests.New(slaveAddress, start, numberOfPoints, start, registers).Success?
  {
  }

  /**
   * A decoded read coils / inputs response that passed validation holds at
   * least the count asked for, so the read returns exactly that many values.
   */
  lemma TruncationKeepsCount(response: Message, numberOfPoints: u16)
    requires response.body.ReadCoilsInputsResponse?
    requires |response.body.discretes| == 8 * response.body.byteCount as int
    requires response.body.byteCount as int == (numberOfPoints as int + 7) / 8
    ensures |Take(response.body.discretes, numberOfPoints as nat)| == numberOfPoints as int
  {
  }

  /**
   * The discretes a slave sends come back to the master exactly: the
   * response decodes with the byte count the master checks, and cutting its
   * data to the count drops the padding of the last byte.
   */
  lemma DiscretesReadBack(functionCode: byte, slaveAddress: byte, data: seq<bool>, rest: seq<byte>)
    requires |data| <= ModbusConstants.MaximumDiscreteRequestResponseSize
    ensures var sent := DiscreteResponses.New(functionCode, slaveAddress, DataCollections.DiscreteByteCount(data), data);
      var received := DiscreteResponses.Create(AbstractModbusMessage.MessageFrame(sent) + rest);
      received.Success? && received.value.body.byteCount as int == (|data| + 7) / 8
      && Take(received.value.body.discretes, |data|) == data
  {
    var sent := DiscreteResponses.New(functionCode, slaveAddress, DataCollections.DiscreteByteCount(data), data);
    DiscreteResponses.RoundTrip(sent, rest);
    assert DataCollections.Padded(data)[..|data|] == data;
  }

  /** The registers a slave sends come back to the master exactly. */
  lemma RegistersReadBack(functionCode: byte, slaveAddress: byte, data: seq<u16>, rest: seq<byte>)
    requires |data| <= ModbusConstants.MaximumRegisterRequestResponseSize
    ensures var sent := RegisterResponses.New(functionCode, slaveAddress, Some(data)).value;
      var received := RegisterResponses.Create(AbstractModbusMessage.MessageFrame(sent) + rest);
      received.Success? && received.value.body.byteCount as int == 2 * |data|
      && Take(received.value.body.registers, |data|) == data
  {
    RegisterResponses.NewRoundTrip(functionCode, slaveAddress, data, rest);
  }
}

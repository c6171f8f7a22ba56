/**
 * The slave side of the protocol: a slave answers each request from the
 * data store of the request's slave address. The stores live in one
 * dictionary shared by every slave, keyed by slave address, and a store is
 * created the first time an address is served.
 */
module ModbusSlaves {
  import opened Wrappers
  import opened Bytes
  import opened Exceptions
  import opened Messages
  import opened DataStores
  import opened SequenceUtility
  import ModbusConstants
  import DataCollections
  import DiscreteResponses = ReadCoilsInputsResponseMessage
  import RegisterResponses = ReadHoldingInputRegistersResponseMessage
  import CoilsWritten = WriteMultipleCoilsResponseMessage
  import RegistersWritten = WriteMultipleRegistersResponseMessage
  import ExceptionResponses = SlaveExceptionResponseMessage
  import AbstractModbusMessage
  import ModbusMessageFactory

  /** What a slave reports to its subscribers while it handles requests. */
  datatype SlaveEvent =
    | RequestReceived(request: Message)
    /** after the write of a write request, before the read of a read/write request */
    | WriteComplete(request: Message)

  /**
   * What handling one request did: the store of the request's slave address
   * afterwards, the response or the exception raised, and whether the write
   * completed (so that WriteComplete was raised).
   */
  datatype Handling = Handling(store: DataStore, response: Result<Message, Exception>, writeCompleted: bool)

  /** The store of a slave address: its entry, or a fresh default store for an address served for the first time. */
  function StoreOf(stores: map<byte, DataStore>, address: byte): (s: DataStore)
    ensures address in stores ==> s == stores[address]
    ensures address !in stores ==> s == DefaultDataStore()
  {
    if address in stores then stores[address] else DefaultDataStore()
  }

  /** The function code of the exception response to a request: the request's plus the exception offset, in 8 bits. */
  function ExceptionFunctionCode(functionCode: byte): (r: byte)
    ensures functionCode as int < ModbusConstants.ExceptionOffset as int ==>
      r as int - ModbusConstants.ExceptionOffset as int == functionCode as int
  {
    ((ModbusConstants.ExceptionOffset as int + functionCode as int) % 0x100) as byte
  }

  /** The registers or discretes a read request asks for, as a response carrying them. */
  function ReadDiscretes(request: Message, bank: seq<bool>): (r: Result<Message, Exception>)
    requires request.body.ReadCoilsInputsRequest?
    ensures r.Success? <==> request.body.startAddress as int + 1 + request.body.numberOfPoints as int <= |bank|
    ensures r.Failure? ==> r.error == InvalidModbusRequestException(ModbusConstants.IllegalDataAddress)
    ensures r.Success? ==>
      (r.value.slaveAddress == request.slaveAddress && r.value.functionCode == request.functionCode
      && r.value.body.ReadCoilsInputsResponse?
      && |r.value.body.discretes| == request.body.numberOfPoints as int
      && r.value.body.byteCount == DataCollections.DiscreteByteCount(r.value.body.discretes))
    ensures r.Success? ==> forall i :: 0 <= i < |r.value.body.discretes| ==>
      r.value.body.discretes[i] == bank[request.body.startAddress as int + 1 + i]
  {
    var data :- ReadData(bank, request.body.startAddress, request.body.numberOfPoints);
    Success(DiscreteResponses.New(request.functionCode, request.slaveAddress, DataCollections.DiscreteByteCount(data), data))
  }

  function ReadRegisters(request: Message, bank: seq<u16>): (r: Result<Message, Exception>)
    requires request.body.ReadHoldingInputRegistersRequest?
    ensures r.Success? <==> request.body.startAddress as int + 1 + request.body.numberOfPoints as int <= |bank|
    ensures r.Failure? ==> r.error == InvalidModbusRequestException(ModbusConstants.IllegalDataAddress)
    ensures r.Success? ==>
      (r.value.slaveAddress == request.slaveAddress && r.value.functionCode == request.functionCode
      && r.value.body.ReadHoldingInputRegistersResponse?
      && |r.value.body.registers| == request.body.numberOfPoints as int
      && r.value.body.byteCount == DataCollections.RegisterByteCount(r.value.body.registers))
    ensures r.Success? ==> forall i :: 0 <= i < |r.value.body.registers| ==>
      r.value.body.registers[i] == bank[request.body.startAddress as int + 1 + i]
  {
    var data :- ReadData(bank, request.body.startAddress, request.body.numberOfPoints);
    RegisterResponses.New(request.functionCode, request.slaveAddress, Some(data))
  }

  /** The coils after a write single coil request: on exactly when the value is 0xFF00. */
  function WriteSingleCoil(request: Message, bank: seq<bool>): (r: Result<seq<bool>, Exception>)
    requires request.body.WriteSingleCoilRequestResponse?
    ensures r.Success? <==> request.body.startAddress as int + 2 <= |bank|
    ensures r.Failure? ==> r.error == InvalidModbusRequestException(ModbusConstants.IllegalDataAddress)
    ensures r.Success? ==> |r.value| == |bank|
    ensures r.Success? ==> r.value[request.body.startAddress as int + 1] == (request.body.value == ModbusConstants.CoilOn)
    ensures r.Success? ==> forall i :: 0 <= i < |bank| && i != request.body.startAddress as int + 1 ==> r.value[i] == bank[i]
  {
    WriteData([request.body.value == ModbusConstants.CoilOn], bank, request.body.startAddress)
  }

  /**
   * The coils after a write multiple coils request: the request's first
   * number-of-points discretes are stored, and the padding of its last byte
   * is not.
   */
  function WriteMultipleCoils(request: Message, bank: seq<bool>): (r: Result<seq<bool>, Exception>)
    requires request.body.WriteMultipleCoilsRequest?
    ensures var stored := Take(request.body.discretes, request.body.numberOfPoints as nat);
      r.Success? <==> request.body.startAddress as int + 1 + |stored| <= |bank|
    ensures r.Failure? ==> r.error == InvalidModbusRequestException(ModbusConstants.IllegalDataAddress)
    ensures r.Success? ==> |r.value| == |bank|
    ensures r.Success? ==> var stored := Take(request.body.discretes, request.body.numberOfPoints as nat);
      forall i :: 0 <= i < |bank| ==>
        r.value[i] == if request.body.startAddress as int + 1 <= i < request.body.startAddress as int + 1 + |stored|
        then request.body.discretes[i - request.body.startAddress as int - 1] else bank[i]
  {
    WriteData(Take(request.body.discretes, request.body.numberOfPoints as nat), bank, request.body.startAddress)
  }

  function WriteSingleRegister(request: Message, bank: seq<u16>): (r: Result<seq<u16>, Exception>)
    requires request.body.WriteSingleRegisterRequestResponse?
    ensures r.Success? <==> request.body.startAddress as int + 2 <= |bank|
    ensures r.Failure? ==> r.error == InvalidModbusRequestException(ModbusConstants.IllegalDataAddress)
    ensures r.Success? ==> |r.value| == |bank| && r.value[request.body.startAddress as int + 1] == request.body.value
    ensures r.Success? ==> forall i :: 0 <= i < |bank| && i != request.body.startAddress as int + 1 ==> r.value[i] == bank[i]
  {
    WriteData([request.body.value], bank, request.body.startAddress)
  }

  function WriteMultipleRegisters(request: Message, bank: seq<u16>): (r: Result<seq<u16>, Exception>)
    requires request.body.WriteMultipleRegistersRequest?
    ensures r.Success? <==> request.body.startAddress as int + 1 + |request.body.registers| <= |bank|
    ensures r.Failure? ==> r.error == InvalidModbusRequestException(ModbusConstants.IllegalDataAddress)
    ensures r.Success? ==> |r.value| == |bank|
    ensures r.Success? ==> forall i :: 0 <= i < |bank| ==>
      r.value[i] == if request.body.startAddress as int + 1 <= i < request.body.startAddress as int + 1 + |request.body.registers|
      then request.body.registers[i - request.body.startAddress as int - 1] else bank[i]
  {
    WriteData(request.body.registers, bank, request.body.startAddress)
  }

  /**
   * Handling a request against the store of its slave address, by function
   * code. A request whose class does not match its function code raises
   * InvalidCastException; an unsupported function code raises the
   * IllegalFunction request exception. A write that succeeds keeps its effect
   * even when building the response then raises.
   */
  function Applied(request: Message, store: DataStore): (h: Handling)
    requires WellTyped(request)
    ensures h.store.inputDiscretes == store.inputDiscretes && h.store.inputRegisters == store.inputRegisters
    ensures |h.store.coilDiscretes| == |store.coilDiscretes| && |h.store.holdingRegisters| == |store.holdingRegisters|
    ensures !IsWrite(request.functionCode) ==> h.store == store && !h.writeCompleted
    ensures !Supported(request.functionCode)
      ==> h.response == Failure(InvalidModbusRequestException(ModbusConstants.IllegalFunction))
  {
    var fc := request.functionCode;
    if fc == ModbusConstants.ReadCoils || fc == ModbusConstants.ReadInputs then
      if !request.body.ReadCoilsInputsRequest? then Handling(store, Failure(InvalidCastException), false)
      else
        var bank := if fc == ModbusConstants.ReadCoils then store.coilDiscretes else store.inputDiscretes;
        Handling(store, ReadDiscretes(request, bank), false)
    else if fc == ModbusConstants.ReadHoldingRegisters || fc == ModbusConstants.ReadInputRegisters then
      if !request.body.ReadHoldingInputRegistersRequest? then Handling(store, Failure(InvalidCastException), false)
      else
        var bank := if fc == ModbusConstants.ReadHoldingRegisters then store.holdingRegisters else store.inputRegisters;
        Handling(store, ReadRegisters(request, bank), false)
    else if fc == ModbusConstants.Diagnostics then
      Handling(store, Success(request), false)
    else if fc == ModbusConstants.WriteSingleCoil then
      if !request.body.WriteSingleCoilRequestResponse? then Handling(store, Failure(InvalidCastException), false)
      else
        match WriteSingleCoil(request, store.coilDiscretes)
        case Failure(e) => Handling(store, Failure(e), false)
        case Success(bank) => Handling(store.(coilDiscretes := bank), Success(request), true)
    else if fc == ModbusConstants.WriteSingleRegister then
      if !request.body.WriteSingleRegisterRequestResponse? then Handling(store, Failure(InvalidCastException), false)
      else
        match WriteSingleRegister(request, store.holdingRegisters)
        case Failure(e) => Handling(store, Failure(e), false)
        case Success(bank) => Handling(store.(holdingRegisters := bank), Success(request), true)
    else if fc == ModbusConstants.WriteMultipleCoils then
      if !request.body.WriteMultipleCoilsRequest? then Handling(store, Failure(InvalidCastException), false)
      else
        match WriteMultipleCoils(request, store.coilDiscretes)
        case Failure(e) => Handling(store, Failure(e), false)
        case Success(bank) =>
          var response := CoilsWritten.New(request.slaveAddress, request.body.startAddress, request.body.numberOfPoints);
          Handling(store.(coilDiscretes := bank), response, response.Success?)
    else if fc == ModbusConstants.WriteMultipleRegisters then
      if !request.body.WriteMultipleRegistersRequest? then Handling(store, Failure(InvalidCastException), false)
      else
        match WriteMultipleRegisters(request, store.holdingRegisters)
        case Failure(e) => Handling(store, Failure(e), false)
        case Success(bank) =>
          var response := RegistersWritten.New(request.slaveAddress, request.body.startAddress, request.body.numberOfPoints);
          Handling(store.(holdingRegisters := bank), response, response.Success?)
    else if fc == ModbusConstants.ReadWriteMultipleRegisters then
      if !request.body.ReadWriteMultipleRegistersRequest? then Handling(store, Failure(InvalidCastException), false)
      else
        var write := request.body.writeRequest;
        match WriteMultipleRegisters(write, store.holdingRegisters)
        case Failure(e) => Handling(store, Failure(e), false)
        case Success(bank) =>
          var written := store.(holdingRegisters := bank);
          var acknowledged := RegistersWritten.New(write.slaveAddress, write.body.startAddress, write.body.numberOfPoints);
          if acknowledged.Failure? then Handling(written, Failure(acknowledged.error), false)
          else Handling(written, ReadRegisters(request.body.readRequest, bank), true)
    else
      Handling(store, Failure(InvalidModbusRequestException(ModbusConstants.IllegalFunction)), false)
  }

  /**
   * The answer to a request once handling is over: a request exception
   * becomes an exception response with the request's slave address, its
   * function code plus the exception offset and the exception's code; a
   * response, or any other exception, is passed on unchanged.
   */
  function Caught(request: Message, outcome: Result<Message, Exception>): (r: Result<Message, Exception>)
    ensures outcome.Failure? && outcome.error.InvalidModbusRequestException? ==>
      r.Success? && r.value.slaveAddress == request.slaveAddress
      && r.value.body == SlaveExceptionResponse(outcome.error.exceptionCode)
      && r.value.functionCode == ExceptionFunctionCode(request.functionCode)
    ensures !(outcome.Failure? && outcome.error.InvalidModbusRequestException?) ==> r == outcome
  {
    if outcome.Failure? && outcome.error.InvalidModbusRequestException? then
      Success(ExceptionResponses.New(request.slaveAddress, ExceptionFunctionCode(request.functionCode),
        outcome.error.exceptionCode))
    else outcome
  }

  /** The function codes that change a slave's store. */
  predicate IsWrite(functionCode: byte) {
    functionCode in {ModbusConstants.WriteSingleCoil, ModbusConstants.WriteSingleRegister,
      ModbusConstants.WriteMultipleCoils, ModbusConstants.WriteMultipleRegisters, ModbusConstants.ReadWriteMultipleRegisters}
  }

  /** The function codes a slave handles: exactly those of the requests the message factory decodes. */
  predicate Supported(functionCode: byte)
    ensures Supported(functionCode) <==> ModbusMessageFactory.RequestKind(functionCode).Some?
  {
    functionCode in {ModbusConstants.ReadCoils, ModbusConstants.ReadInputs, ModbusConstants.ReadHoldingRegisters,
      ModbusConstants.ReadInputRegisters, ModbusConstants.Diagnostics, ModbusConstants.WriteSingleCoil,
      ModbusConstants.WriteSingleRegister, ModbusConstants.WriteMultipleCoils, ModbusConstants.WriteMultipleRegisters,
      ModbusConstants.ReadWriteMultipleRegisters}
  }

  /** The data stores of all slaves, by slave address: one dictionary that every slave shares. */
  class DataStoreDictionary {
    var stores: map<byte, DataStore>

    constructor ()
      ensures stores == map[]
    {
      stores := map[];
    }

    /** The store of an address, added as a fresh default store when the address has none. */
    method GetOrAdd(address: byte) returns (s: DataStore)
      modifies this`stores
      ensures s == StoreOf(old(stores), address)
      ensures stores == old(stores)[address := s]
    {
      if address !in stores {
        stores := stores[address := DefaultDataStore()];
      }
      s := stores[address];
    }

    /** Stores a data store under an address, replacing the address's entry only. */
    method Set(address: byte, store: DataStore)
      modifies this`stores
      ensures stores == old(stores)[address := store]
    {
      stores := stores[address := store];
    }

    /** Adds a data store under an address that has none; an existing entry is kept. */
    method TryAdd(address: byte, store: DataStore)
      modifies this`stores
      ensures stores == if address in old(stores) then old(stores) else old(stores)[address := store]
    {
      if address !in stores {
        stores := stores[address := store];
      }
    }
  }

  /**
   * The entries after a slave is constructed, as the constructor is written:
   * its store setter runs while the unit id is still 0, so the entry of
   * address 0 is replaced by a fresh store; the store getter then adds a
   * fresh store for the unit id when it has none, and the final TryAdd finds
   * the entry already there.
   */
  function StoresAsWritten(stores: map<byte, DataStore>, unitId: byte): (r: map<byte, DataStore>)
    ensures 0 in r && r[0] == DefaultDataStore()
    ensures unitId in r && (unitId != 0 && unitId in stores ==> r[unitId] == stores[unitId])
    ensures unitId != 0 && unitId !in stores ==> r[unitId] == DefaultDataStore()
    ensures forall a :: a in stores && a != 0 ==> a in r && r[a] == stores[a]
    ensures forall a :: a in r ==> a in stores || a == 0 || a == unitId
  {
    var reset := stores[0 := DefaultDataStore()];
    if unitId in reset then reset else reset[unitId := DefaultDataStore()]
  }

  /** The entries after a slave is constructed, as intended: a fresh store for the unit id when it has none. */
  function StoresAfterConstruction(stores: map<byte, DataStore>, unitId: byte): (r: map<byte, DataStore>)
    ensures unitId in r && r[unitId] == StoreOf(stores, unitId)
    ensures forall a :: a in stores ==> a in r && r[a] == stores[a]
    ensures forall a :: a in r && a != unitId ==> a in stores
  {
    if unitId in stores then stores else stores[unitId := DefaultDataStore()]
  }

  /** Constructing a slave with unit id 5 throws away the store that address 0 already had. */
  lemma ConstructionResetsAddressZero()
    ensures var stores := map[0 := DataStore([], [], [], [])];
      StoresAsWritten(stores, 5)[0] != stores[0]
      && StoresAfterConstruction(stores, 5)[0] == stores[0]
  {
    var stores := map[0 := DataStore([], [], [], [])];
    assert |StoresAsWritten(stores, 5)[0].coilDiscretes| == 0x1_0000;
  }

  /** Constructing a slave leaves every other address's store as it was. */
  lemma ConstructionKeepsOtherStores(stores: map<byte, DataStore>, unitId: byte, address: byte)
    requires address in stores && address != unitId
    ensures address in StoresAfterConstruction(stores, unitId)
    ensures StoresAfterConstruction(stores, unitId)[address] == stores[address]
  {
  }

  class ModbusSlave {
    /** the dictionary of stores every slave shares */
    const dataStores: DataStoreDictionary
    var unitId: byte
    /**
     * The request-received hook: the exception code a subscriber rejects a
     * request with, or nothing when the request is let through.
     */
    var requestReceived: Message -> Option<byte>
    var events: seq<SlaveEvent>

    constructor (unitId: byte, dataStores: DataStoreDictionary)
      modifies dataStores
      ensures this.unitId == unitId && this.dataStores == dataStores && events == []
      ensures forall m :: requestReceived(m) == None
      ensures dataStores.stores == StoresAfterConstruction(old(dataStores.stores), unitId)
    {
      this.unitId := unitId;
      this.dataStores := dataStores;
      requestReceived := _ => None;
      events := [];
      new;
      var store := GetDataStore();
      dataStores.TryAdd(unitId, store);
    }

    /** The slave's own store, created on first use. */
    method GetDataStore() returns (s: DataStore)
      modifies dataStores
      ensures s == StoreOf(old(dataStores.stores), unitId)
      ensures dataStores.stores == old(dataStores.stores)[unitId := s]
    {
      s := dataStores.GetOrAdd(unitId);
    }

    /** Replaces the slave's own store and no other. */
    method SetDataStore(store: DataStore)
      modifies dataStores
      ensures dataStores.stores == old(dataStores.stores)[unitId := store]
    {
      dataStores.Set(unitId, store);
    }

    /**
     * Answers a request. The hook runs first, and a code it rejects the
     * request with is answered with an exception response before any store
     * is touched. Otherwise the request is handled against the store of its
     * slave address (created on first use), as Applied says; a write raises
     * WriteComplete once the store holds it, and a request exception becomes
     * an exception response. Other exceptions are raised.
     */
    method ApplyRequest(request: Message) returns (r: Result<Message, Exception>)
      requires WellTyped(request)
      modifies this`events, dataStores`stores
      ensures requestReceived(request).Some? ==>
        r == Caught(request, Failure(InvalidModbusRequestException(requestReceived(request).value)))
        && dataStores.stores == old(dataStores.stores)
        && events == old(events) + [RequestReceived(request)]
      ensures requestReceived(request).None? ==>
        var h := Applied(request, StoreOf(old(dataStores.stores), request.slaveAddress));
        r == Caught(request, h.response)
        && dataStores.stores == old(dataStores.stores)[request.slaveAddress := h.store]
        && events == old(events) + [RequestReceived(request)] + (if h.writeCompleted then [WriteComplete(request)] else [])
    {
      events := events + [RequestReceived(request)];
      var rejection := requestReceived(request);
      if rejection.Some? {
        return Caught(request, Failure(InvalidModbusRequestException(rejection.value)));
      }
      var store := dataStores.GetOrAdd(request.slaveAddress);
      var fc := request.functionCode;
      var outcome: Result<Message, Exception>;
      if fc == ModbusConstants.ReadCoils || fc == ModbusConstants.ReadInputs {
        if !request.body.ReadCoilsInputsRequest? {
          outcome := Failure(InvalidCastException);
        } else {
          outcome := ReadDiscretes(request, if fc == ModbusConstants.ReadCoils then store.coilDiscretes else store.inputDiscretes);
        }
      } else if fc == ModbusConstants.ReadHoldingRegisters || fc == ModbusConstants.ReadInputRegisters {
        if !request.body.ReadHoldingInputRegistersRequest? {
          outcome := Failure(InvalidCastException);
        } else {
          outcome := ReadRegisters(request,
            if fc == ModbusConstants.ReadHoldingRegisters then store.holdingRegisters else store.inputRegisters);
        }
      } else if fc == ModbusConstants.Diagnostics {
        outcome := Success(request);
      } else if fc in {ModbusConstants.WriteSingleCoil, ModbusConstants.WriteSingleRegister,
        ModbusConstants.WriteMultipleCoils, ModbusConstants.WriteMultipleRegisters} {
        outcome := ApplyWrite(request, store);
      } else if fc == ModbusConstants.ReadWriteMultipleRegisters {
        outcome := ApplyReadWrite(request, store);
      } else {
        outcome := Failure(InvalidModbusRequestException(ModbusConstants.IllegalFunction));
      }
      r := Caught(request, outcome);
    }

    /** The write requests of ApplyRequest: the store holds the write before WriteComplete is raised. */
    method ApplyWrite(request: Message, store: DataStore) returns (outcome: Result<Message, Exception>)
      requires WellTyped(request) && request.functionCode in {ModbusConstants.WriteSingleCoil,
        ModbusConstants.WriteSingleRegister, ModbusConstants.WriteMultipleCoils, ModbusConstants.WriteMultipleRegisters}
      requires request.slaveAddress in dataStores.stores && dataStores.stores[request.slaveAddress] == store
      modifies this`events, dataStores`stores
      ensures var h := Applied(request, store);
        outcome == h.response && dataStores.stores == old(dataStores.stores)[request.slaveAddress := h.store]
        && events == old(events) + (if h.writeCompleted then [WriteComplete(request)] else [])
    {
      var fc := request.functionCode;
      if fc == ModbusConstants.WriteSingleCoil {
        if !request.body.WriteSingleCoilRequestResponse? {
          outcome := Failure(InvalidCastException);
        } else {
          var bank := WriteSingleCoil(request, store.coilDiscretes);
          if bank.Failure? {
            outcome := Failure(bank.error);
          } else {
            dataStores.Set(request.slaveAddress, store.(coilDiscretes := bank.value));
            outcome := Success(request);
            events := events + [WriteComplete(request)];
          }
        }
      } else if fc == ModbusConstants.WriteSingleRegister {
        if !request.body.WriteSingleRegisterRequestResponse? {
          outcome := Failure(InvalidCastException);
        } else {
          var bank := WriteSingleRegister(request, store.holdingRegisters);
          if bank.Failure? {
            outcome := Failure(bank.error);
          } else {
            dataStores.Set(request.slaveAddress, store.(holdingRegisters := bank.value));
            outcome := Success(request);
            events := events + [WriteComplete(request)];
          }
        }
      } else if fc == ModbusConstants.WriteMultipleCoils {
        if !request.body.WriteMultipleCoilsRequest? {
          outcome := Failure(InvalidCastException);
        } else {
          var bank := WriteMultipleCoils(request, store.coilDiscretes);
          if bank.Failure? {
            outcome := Failure(bank.error);
          } else {
            dataStores.Set(request.slaveAddress, store.(coilDiscretes := bank.value));
            outcome := CoilsWritten.New(request.slaveAddress, request.body.startAddress, request.body.numberOfPoints);
            if outcome.Success? {
              events := events + [WriteComplete(request)];
            }
          }
        }
      } else {
        if !request.body.WriteMultipleRegistersRequest? {
          outcome := Failure(InvalidCastException);
        } else {
          var bank := WriteMultipleRegisters(request, store.holdingRegisters);
          if bank.Failure? {
            outcome := Failure(bank.error);
          } else {
            dataStores.Set(request.slaveAddress, store.(holdingRegisters := bank.value));
            outcome := RegistersWritten.New(request.slaveAddress, request.body.startAddress, request.body.numberOfPoints);
            if outcome.Success? {
              events := events + [WriteComplete(request)];
            }
          }
        }
      }
    }

    /** The read/write request of ApplyRequest: the write, then WriteComplete, then the read of the updated registers. */
    method ApplyReadWrite(request: Message, store: DataStore) returns (outcome: Result<Message, Exception>)
      requires WellTyped(request) && request.functionCode == ModbusConstants.ReadWriteMultipleRegisters
      requires request.slaveAddress in dataStores.stores && dataStores.stores[request.slaveAddress] == store
      modifies this`events, dataStores`stores
      ensures var h := Applied(request, store);
        outcome == h.response && dataStores.stores == old(dataStores.stores)[request.slaveAddress := h.store]
        && events == old(events) + (if h.writeCompleted then [WriteComplete(request)] else [])
    {
      if !request.body.ReadWriteMultipleRegistersRequest? {
        outcome := Failure(InvalidCastException);
      } else {
        var write := request.body.writeRequest;
        var bank := WriteMultipleRegisters(write, store.holdingRegisters);
        if bank.Failure? {
          outcome := Failure(bank.error);
        } else {
          var written := store.(holdingRegisters := bank.value);
          dataStores.Set(request.slaveAddress, written);
          var acknowledged := RegistersWritten.New(write.slaveAddress, write.body.startAddress, write.body.numberOfPoints);
          if acknowledged.Failure? {
            outcome := Failure(acknowledged.error);
          } else {
            events := events + [WriteComplete(request)];
            outcome := ReadRegisters(request.body.readRequest, written.holdingRegisters);
          }
        }
      }
    }
  }

  /**
   * An unsupported function code is answered with an exception response for
   * that function code carrying IllegalFunction, and the store is not touched.
   */
  lemma UnsupportedFunctionCode(request: Message, store: DataStore)
    requires WellTyped(request) && !Supported(request.functionCode)
    ensures var h := Applied(request, store);
      h.store == store && !h.writeCompleted
      && Caught(request, h.response) == Success(ExceptionResponses.New(request.slaveAddress,
        ExceptionFunctionCode(request.functionCode), ModbusConstants.IllegalFunction))
  {
  }

  /**
   * A code the hook rejects a request with is answered with an exception
   * response carrying it, which a master decodes back as the exception
   * response to a request of that function code.
   */
  lemma RejectedRequest(request: Message, code: byte, rest: seq<byte>)
    requires 0 < request.functionCode as int < ModbusConstants.ExceptionOffset as int
    ensures var r := Caught(request, Failure(InvalidModbusRequestException(code)));
      r.Success? && KindOf(r.value) == SlaveExceptionResponseType
      && ExceptionResponses.Create(AbstractModbusMessage.MessageFrame(r.value) + rest) == r
  {
    var r := Caught(request, Failure(InvalidModbusRequestException(code)));
    ExceptionResponses.RoundTrip(r.value, rest);
  }

  /**
   * Reads leave the store as it was. A read within the bank answers with the
   * request's function code and slave address and the data's own byte count;
   * one past its end answers IllegalDataAddress.
   */
  lemma ReadsLeaveStore(request: Message, store: DataStore)
    requires WellTyped(request)
    requires request.functionCode in {ModbusConstants.ReadCoils, ModbusConstants.ReadInputs,
      ModbusConstants.ReadHoldingRegisters, ModbusConstants.ReadInputRegisters}
    ensures var h := Applied(request, store);
      h.store == store && !h.writeCompleted
      && (h.response.Failure? ==>
        (h.response.error == InvalidCastException
        || h.response.error == InvalidModbusRequestException(ModbusConstants.IllegalDataAddress)))
    ensures var r := Applied(request, store).response;
      r.Success? ==>
        (r.value.functionCode == request.functionCode && r.value.slaveAddress == request.slaveAddress
        && (r.value.body.ReadCoilsInputsResponse? || r.value.body.ReadHoldingInputRegistersResponse?)
        && (r.value.body.ReadCoilsInputsResponse? ==>
          r.value.body.byteCount == DataCollections.DiscreteByteCount(r.value.body.discretes))
        && (r.value.body.ReadHoldingInputRegistersResponse? ==>
          r.value.body.byteCount == DataCollections.RegisterByteCount(r.value.body.registers)))
  {
  }

  /** Diagnostics echoes the request and leaves the store as it was. */
  lemma DiagnosticsEchoes(request: Message, store: DataStore)
    requires WellTyped(request) && request.functionCode == ModbusConstants.Diagnostics
    ensures Applied(request, store) == Handling(store, Success(request), false)
  {
  }

  /**
   * Write single coil turns the coil on exactly when the request's value is
   * 0xFF00, changes no other coil or bank, and answers with the request.
   */
  lemma WriteSingleCoilStores(request: Message, store: DataStore)
    requires request.functionCode == ModbusConstants.WriteSingleCoil && request.body.WriteSingleCoilRequestResponse?
    requires request.body.startAddress as int + 2 <= |store.coilDiscretes|
    ensures var h := Applied(request, store);
      var at := request.body.startAddress as int + 1;
      h.response == Success(request) && h.writeCompleted
      && |h.store.coilDiscretes| == |store.coilDiscretes|
      && (h.store.coilDiscretes[at] <==> request.body.value == ModbusConstants.CoilOn)
      && (forall i :: 0 <= i < |store.coilDiscretes| && i != at ==> h.store.coilDiscretes[i] == store.coilDiscretes[i])
      && h.store == store.(coilDiscretes := h.store.coilDiscretes)
  {
  }

  /**
   * Write multiple coils stores the request's first number-of-points
   * discretes from the start address, so the padding of the request's last
   * byte is dropped and the coils after them keep their values; it answers
   * with the start address and the count.
   */
  lemma WriteMultipleCoilsStoresPoints(request: Message, store: DataStore)
    requires request.functionCode == ModbusConstants.WriteMultipleCoils && request.body.WriteMultipleCoilsRequest?
    requires request.body.numberOfPoints as int <= |request.body.discretes|
    requires request.body.startAddress as int + 1 + request.body.numberOfPoints as int <= |store.coilDiscretes|
    ensures var h := Applied(request, store);
      var n := request.body.numberOfPoints;
      h.store == store.(coilDiscretes := h.store.coilDiscretes)
      && ReadData(h.store.coilDiscretes, request.body.startAddress, n) == Success(request.body.discretes[..n])
      && (forall i :: request.body.startAddress as int + 1 + n as int <= i < |store.coilDiscretes| ==>
        h.store.coilDiscretes[i] == store.coilDiscretes[i])
      && h.response == CoilsWritten.New(request.slaveAddress, request.body.startAddress, n)
  {
    var n := request.body.numberOfPoints;
    var items := request.body.discretes[..n];
    assert Take(request.body.discretes, n as nat) == items;
    ReadAfterWrite(items, store.coilDiscretes, request.body.startAddress);
  }

  /** Write single register stores the value at the start address and answers with the request. */
  lemma WriteSingleRegisterStores(request: Message, store: DataStore)
    requires request.functionCode == ModbusConstants.WriteSingleRegister && request.body.WriteSingleRegisterRequestResponse?
    requires request.body.startAddress as int + 2 <= |store.holdingRegisters|
    ensures var h := Applied(request, store);
      h.response == Success(request) && h.writeCompleted
      && ReadData(h.store.holdingRegisters, request.body.startAddress, 1) == Success([request.body.value])
      && h.store == store.(holdingRegisters := h.store.holdingRegisters)
  {
    ReadAfterWrite([request.body.value], store.holdingRegisters, request.body.startAddress);
  }

  /**
   * Read/write multiple registers writes before it reads: a read of the
   * range just written returns the written registers, and the store keeps
   * them.
   */
  lemma ReadWriteObservesWrite(request: Message, store: DataStore)
    requires WellTyped(request) && request.functionCode == ModbusConstants.ReadWriteMultipleRegisters
    requires request.body.ReadWriteMultipleRegistersRequest?
    requires var write := request.body.writeRequest; var read := request.body.readRequest;
      write.body.numberOfPoints as int == |write.body.registers| <= ModbusConstants.MaximumRegisterRequestResponseSize
      && read.body.startAddress == write.body.startAddress && read.body.numberOfPoints == write.body.numberOfPoints
      && write.body.startAddress as int + 1 + |write.body.registers| <= |store.holdingRegisters|
    ensures var h := Applied(request, store);
      h.writeCompleted && h.response.Success?
      && h.response.value.body.registers == request.body.writeRequest.body.registers
      && ReadData(h.store.holdingRegisters, request.body.writeRequest.body.startAddress,
        request.body.writeRequest.body.numberOfPoints) == Success(request.body.writeRequest.body.registers)
  {
    var write := request.body.writeRequest;
    ReadAfterWrite(write.body.registers, store.holdingRegisters, write.body.startAddress);
  }

  /**
   * A read/write request whose write runs past the bank answers
   * IllegalDataAddress without writing or reading anything.
   */
  lemma ReadWriteRefusedWrite(request: Message, store: DataStore)
    requires WellTyped(request) && request.functionCode == ModbusConstants.ReadWriteMultipleRegisters
    requires request.body.ReadWriteMultipleRegistersRequest?
    requires var write := request.body.writeRequest;
      write.body.startAddress as int + 1 + |write.body.registers| > |store.holdingRegisters|
    ensures var h := Applied(request, store);
      h.store == store && !h.writeCompleted
      && Caught(request, h.response) == Success(ExceptionResponses.New(request.slaveAddress,
        ExceptionFunctionCode(request.functionCode), ModbusConstants.IllegalDataAddress))
  {
  }
}

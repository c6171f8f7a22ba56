/**
 * The implementation shared by all message classes: the fields a message may
 * carry (absent ones are None), the protocol data unit they are laid out in,
 * and the message frame (slave address followed by the protocol data unit).
 */
module ModbusMessageImpl {
  import opened Wrappers
  import opened Bytes
  import opened Exceptions
  import opened DataCollections
  import ModbusConstants

  /** The data a message carries: discretes or registers. */
  datatype DataCollection = Discretes(discretes: seq<bool>) | Registers(registers: seq<u16>)

  /** The bytes of a data collection on the wire. */
  function NetworkBytes(data: DataCollection): seq<byte> {
    match data
    case Discretes(d) => DiscreteNetworkBytes(d)
    case Registers(r) => RegisterNetworkBytes(r)
  }

  datatype MessageFields = MessageFields(
    byteCount: Option<byte>,
    exceptionCode: Option<byte>,
    transactionId: u16,
    functionCode: byte,
    numberOfPoints: Option<u16>,
    slaveAddress: byte,
    startAddress: Option<u16>,
    subFunctionCode: Option<u16>,
    data: Option<DataCollection>)

  /** The fields of a message that has not been given any. */
  function EmptyFields(): MessageFields {
    MessageFields(None, None, 0, 0, None, 0, None, None, None)
  }

  function OptionalByte(b: Option<byte>): seq<byte> {
    if b.Some? then [b.value] else []
  }

  function OptionalWord(w: Option<u16>): seq<byte> {
    if w.Some? then HostToNetworkOrder(w.value) else []
  }

  /**
   * The protocol data unit: the function code, then each present field in
   * the order exception code, sub-function code, start address, number of
   * points, byte count, data; 16-bit fields are big-endian.
   */
  function ProtocolDataUnit(f: MessageFields): (r: seq<byte>)
    ensures |r| >= 1 && r[0] == f.functionCode
  {
    [f.functionCode]
      + OptionalByte(f.exceptionCode)
      + OptionalWord(f.subFunctionCode)
      + OptionalWord(f.startAddress)
      + OptionalWord(f.numberOfPoints)
      + OptionalByte(f.byteCount)
      + (if f.data.Some? then NetworkBytes(f.data.value) else [])
  }

  /** The length of the protocol data unit is one byte per byte field, two per word field, plus the data. */
  lemma ProtocolDataUnitLength(f: MessageFields)
    ensures |ProtocolDataUnit(f)| ==
      1 + |OptionalByte(f.exceptionCode)| + |OptionalWord(f.subFunctionCode)| + |OptionalWord(f.startAddress)|
        + |OptionalWord(f.numberOfPoints)| + |OptionalByte(f.byteCount)|
        + (if f.data.Some? then |NetworkBytes(f.data.value)| else 0)
    ensures f.exceptionCode.Some? ==> ProtocolDataUnit(f)[1] == f.exceptionCode.value
  {
  }

  /** The protocol data unit after the function code depends on neither the function code nor the address fields. */
  lemma UnitIgnoresHeader(f: MessageFields, slaveAddress: byte, functionCode: byte, transactionId: u16)
    ensures ProtocolDataUnit(f.(slaveAddress := slaveAddress, functionCode := functionCode,
      transactionId := transactionId))[1..] == ProtocolDataUnit(f)[1..]
  {
  }

  /** The slave address followed by the protocol data unit. */
  function MessageFrame(f: MessageFields): (r: seq<byte>)
    ensures |r| >= 2 && r[0] == f.slaveAddress && r[1] == f.functionCode && r[1..] == ProtocolDataUnit(f)
  {
    [f.slaveAddress] + ProtocolDataUnit(f)
  }

  /**
   * The frame of fields holding a start address, a number of points, a byte
   * count and data, as the write multiple requests do: header, the two
   * words, the byte count, the data.
   */
  lemma WriteFieldsFrame(f: MessageFields, s: u16, n: u16, byteCount: byte, data: DataCollection)
    requires f.exceptionCode == None && f.subFunctionCode == None
    requires f.startAddress == Some(s) && f.numberOfPoints == Some(n) && f.byteCount == Some(byteCount)
    requires f.data == Some(data)
    ensures MessageFrame(f) == [f.slaveAddress, f.functionCode] + HostToNetworkOrder(s) + HostToNetworkOrder(n)
      + [byteCount] + NetworkBytes(data)
  {
    var ws, wn, d := HostToNetworkOrder(s), HostToNetworkOrder(n), NetworkBytes(data);
    assert OptionalByte(f.exceptionCode) == [] && OptionalWord(f.subFunctionCode) == [];
    assert ProtocolDataUnit(f) == [f.functionCode] + ws + wn + [byteCount] + d;
    ConsLayout(f.slaveAddress, f.functionCode, ws, wn, byteCount, d);
  }

  /** The frame of fields holding only a byte count and data, as the read responses do. */
  lemma ResponseFieldsFrame(f: MessageFields, byteCount: byte, data: DataCollection)
    requires f.exceptionCode == None && f.subFunctionCode == None
    requires f.startAddress == None && f.numberOfPoints == None && f.byteCount == Some(byteCount)
    requires f.data == Some(data)
    ensures MessageFrame(f) == [f.slaveAddress, f.functionCode, byteCount] + NetworkBytes(data)
  {
    var d := NetworkBytes(data);
    assert ProtocolDataUnit(f) == [f.functionCode] + [byteCount] + d;
    assert [f.slaveAddress] + ([f.functionCode] + [byteCount] + d) == [f.slaveAddress, f.functionCode, byteCount] + d;
  }

  lemma ConsLayout(a: byte, b: byte, ws: seq<byte>, wn: seq<byte>, c: byte, d: seq<byte>)
    ensures [a] + ([b] + ws + wn + [c] + d) == [a, b] + ws + wn + [c] + d
  {
  }

  /**
   * The slave address and function code a frame starts with; a frame shorter
   * than the minimum frame size raises FormatException.
   */
  function InitializeHeader(frame: seq<byte>): (r: Result<(byte, byte), Exception>)
    ensures r.Success? <==> |frame| >= ModbusConstants.MinimumFrameSize
    ensures r.Success? ==> r.value == (frame[0], frame[1])
    ensures r.Failure? ==> r.error == FormatException
  {
    if |frame| < ModbusConstants.MinimumFrameSize then Failure(FormatException)
    else Success((frame[0], frame[1]))
  }

  /** The shared implementation object of a message, whose fields the message classes set. */
  class ModbusMessageImpl {
    var byteCount: Option<byte>
    var exceptionCode: Option<byte>
    var transactionId: u16
    var functionCode: byte
    var numberOfPoints: Option<u16>
    var slaveAddress: byte
    var startAddress: Option<u16>
    var subFunctionCode: Option<u16>
    var data: Option<DataCollection>

    /** The current field values. */
    function Fields(): MessageFields
      reads this
    {
      MessageFields(byteCount, exceptionCode, transactionId, functionCode, numberOfPoints,
        slaveAddress, startAddress, subFunctionCode, data)
    }

    constructor ()
      ensures Fields() == EmptyFields()
    {
      byteCount, exceptionCode, transactionId, functionCode := None, None, 0, 0;
      numberOfPoints, slaveAddress, startAddress, subFunctionCode, data := None, 0, None, None, None;
    }

    constructor WithAddress(slaveAddress: byte, functionCode: byte)
      ensures Fields() == EmptyFields().(slaveAddress := slaveAddress, functionCode := functionCode)
    {
      byteCount, exceptionCode, transactionId, this.functionCode := None, None, 0, functionCode;
      numberOfPoints, this.slaveAddress, startAddress, subFunctionCode, data := None, slaveAddress, None, None, None;
    }

    /**
     * Takes the slave address and function code from the first two bytes of
     * the frame. A frame shorter than the minimum raises FormatException and
     * changes nothing; no other field changes in either case.
     */
    method Initialize(frame: seq<byte>) returns (r: Outcome<Exception>)
      modifies this`slaveAddress, this`functionCode
      ensures InitializeHeader(frame).Failure? ==> r == Fail(FormatException) && unchanged(this)
      ensures InitializeHeader(frame).Success? ==>
        r == Pass && (slaveAddress, functionCode) == InitializeHeader(frame).value
    {
      if |frame| < ModbusConstants.MinimumFrameSize {
        return Fail(FormatException);
      }
      slaveAddress := frame[0];
      functionCode := frame[1];
      return Pass;
    }
  }
}

/**
 * The slave's data store: four banks (coils, discrete inputs, holding
 * registers, input registers). Each bank keeps an unused element at index 0,
 * so Modbus address `a` lives at index `a + 1`.
 */
module DataStores {
  import opened Wrappers
  import opened Bytes
  import opened Exceptions
  import ModbusConstants

  datatype DataStore = DataStore(
    coilDiscretes: seq<bool>,
    inputDiscretes: seq<bool>,
    holdingRegisters: seq<u16>,
    inputRegisters: seq<u16>)

  /** Banks of 65535 addressable elements each, all false or zero, behind the unused element. */
  function DefaultDataStore(): (s: DataStore)
    ensures |s.coilDiscretes| == |s.inputDiscretes| == |s.holdingRegisters| == |s.inputRegisters| == 0x1_0000
  {
    DataStore(seq(0x1_0000, _ => false), seq(0x1_0000, _ => false), seq(0x1_0000, _ => 0), seq(0x1_0000, _ => 0))
  }

  /**
   * The `count` elements at Modbus addresses `startAddress` onwards; a range
   * that runs past the bank is answered with the IllegalDataAddress exception code.
   */
  function ReadData<T>(bank: seq<T>, startAddress: u16, count: u16): (r: Result<seq<T>, Exception>)
    ensures r.Success? <==> startAddress + 1 + count <= |bank|
    ensures r.Failure? ==> r.error == InvalidModbusRequestException(ModbusConstants.IllegalDataAddress)
    ensures r.Success? ==> |r.value| == count
    ensures r.Success? ==> forall i :: 0 <= i < count ==> r.value[i] == bank[startAddress + 1 + i]
  {
    var startIndex := startAddress + 1;
    if |bank| < startIndex + count then Failure(InvalidModbusRequestException(ModbusConstants.IllegalDataAddress))
    else Success(bank[startIndex..startIndex + count])
  }

  /**
   * The bank with `items` stored at Modbus addresses `startAddress` onwards;
   * a range that runs past the bank is answered with IllegalDataAddress.
   */
  function WriteData<T>(items: seq<T>, bank: seq<T>, startAddress: u16): (r: Result<seq<T>, Exception>)
    ensures r.Success? <==> startAddress + 1 + |items| <= |bank|
    ensures r.Failure? ==> r.error == InvalidModbusRequestException(ModbusConstants.IllegalDataAddress)
    ensures r.Success? ==> |r.value| == |bank|
    ensures r.Success? ==> forall i :: 0 <= i < |bank| ==>
      r.value[i] == if startAddress + 1 <= i < startAddress + 1 + |items| then items[i - startAddress - 1] else bank[i]
  {
    var startIndex := startAddress + 1;
    if |bank| < startIndex + |items| then Failure(InvalidModbusRequestException(ModbusConstants.IllegalDataAddress))
    else Success(bank[..startIndex] + items + bank[startIndex + |items|..])
  }

  /** Reading back what was just written gives the written items, and the unused element never changes. */
  lemma ReadAfterWrite<T>(items: seq<T>, bank: seq<T>, startAddress: u16)
    requires |items| < 0x1_0000
    requires WriteData(items, bank, startAddress).Success?
    ensures var written := WriteData(items, bank, startAddress).value;
      ReadData(written, startAddress, |items|) == Success(items) && written[0] == bank[0]
  {
    var written := WriteData(items, bank, startAddress).value;
    var r := ReadData(written, startAddress, |items|).value;
    assert r == items;
  }
}

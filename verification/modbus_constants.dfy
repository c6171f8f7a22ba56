/**
 * Protocol constants of the Modbus library. Function codes and exception codes
 * are those of the MODBUS Application Protocol Specification V1.1b3
 * (section 6 for function codes, section 7 for exception codes).
 */
module ModbusConstants {
  import opened Bytes

  // supported function codes
  const ReadCoils: byte := 1
  const ReadInputs: byte := 2
  const ReadHoldingRegisters: byte := 3
  const ReadInputRegisters: byte := 4
  const WriteSingleCoil: byte := 5
  const WriteSingleRegister: byte := 6
  const Diagnostics: byte := 8
  const DiagnosticsReturnQueryData: u16 := 0
  const WriteMultipleCoils: byte := 15
  const WriteMultipleRegisters: byte := 16
  const ReadWriteMultipleRegisters: byte := 23

  // largest number of coils/inputs and of registers one message may carry
  const MaximumDiscreteRequestResponseSize: nat := 2040
  const MaximumRegisterRequestResponseSize: nat := 127

  // added to the function code of a request to flag an exception response
  const ExceptionOffset: byte := 128

  // slave exception codes
  const IllegalFunction: byte := 1
  const IllegalDataAddress: byte := 2
  const Acknowledge: byte := 5
  const SlaveDeviceBusy: byte := 6

  // retry policy defaults of a transport
  const DefaultRetries: int := 3
  const DefaultWaitToRetryMilliseconds: int := 250

  // smallest message frame (slave address and function code), checksum excluded
  const MinimumFrameSize: nat := 2

  // register values of a single coil write
  const CoilOn: u16 := 0xFF00
  const CoilOff: u16 := 0x0000

  // end of an ASCII frame
  const NewLine: string := "\r\n"
}

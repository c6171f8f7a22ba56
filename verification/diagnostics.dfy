/** The diagnostics request, which the slave echoes as its response (function code 8). */
module DiagnosticsRequestResponseMessage {
  import opened Wrappers
  import opened Bytes
  import opened Exceptions
  import opened Messages
  import opened DataCollections
  import opened SequenceUtility
  import opened AbstractModbusMessage
  import ModbusConstants

  const MinimumFrameSize: nat := 6

  /** A diagnostics message with the given sub-function code and data. */
  function New(subFunctionCode: u16, slaveAddress: byte, data: seq<u16>): (r: Message)
    ensures r.slaveAddress == slaveAddress && r.functionCode == ModbusConstants.Diagnostics && r.transactionId == 0
    ensures r.body == DiagnosticsRequestResponse(subFunctionCode, data)
  {
    Message(slaveAddress, ModbusConstants.Diagnostics, 0, DiagnosticsRequestResponse(subFunctionCode, data))
  }

  /** The sub-function code at offset 2 and one data register at offset 4. */
  function InitializeUnique(slaveAddress: byte, functionCode: byte, frame: seq<byte>): (r: Message)
    requires |frame| >= MinimumFrameSize
  {
    var data := RegistersFromBytes(Slice(Some(frame), 4, 2).value).value;
    Message(slaveAddress, functionCode, 0, DiagnosticsRequestResponse(NetworkToHostOrder(frame, 2), data))
  }

  /** Decodes a frame; any frame of at least six bytes decodes to one data register. */
  function Create(frame: seq<byte>): (r: Result<Message, Exception>)
    ensures r.Success? ==> |frame| >= 2 && r.value.slaveAddress == frame[0] && r.value.functionCode == frame[1]
    ensures r.Success? <==> |frame| >= MinimumFrameSize
    ensures r.Failure? ==> r.error == FormatException
    ensures r.Success? ==> (r.value.body.DiagnosticsRequestResponse? && |r.value.body.registers| == 1
      && r.value.transactionId == 0 && MessageFrame(r.value) == frame[..MinimumFrameSize])
  {
    var header :- Initialize(MinimumFrameSize, frame);
    var m := InitializeUnique(header.0, header.1, frame);
    HostOrderRoundTrip(frame, 2);
    RegisterBytesRoundTrip(frame[4..6]);
    assert frame[..MinimumFrameSize] == [frame[0], frame[1]] + frame[2..4] + frame[4..6];
    Success(m)
  }

  /** A diagnostics message with one data register survives encoding and decoding. */
  lemma RoundTrip(m: Message, rest: seq<byte>)
    requires m.body.DiagnosticsRequestResponse? && |m.body.registers| == 1
    ensures Create(MessageFrame(m) + rest) == Success(m.(transactionId := 0))
  {
    var s, data := m.body.subFunctionCode, m.body.registers;
    var frame := MessageFrame(m) + rest;
    assert frame == [m.slaveAddress, m.functionCode] + HostToNetworkOrder(s) + (RegisterNetworkBytes(data) + rest);
    NetworkOrderRoundTrip(s, [m.slaveAddress, m.functionCode], RegisterNetworkBytes(data) + rest);
    assert frame[4..6] == RegisterNetworkBytes(data);
    RegistersRoundTrip(data);
  }
}

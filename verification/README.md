# NModbus4 protocol engine in Dafny

This project models the protocol engine of NModbus4, a Modbus library for .NET.
It covers these parts of the library:

- **Message codec.** Each Modbus message class reads its fields from a frame
  (`Initialize` / `InitializeUnique`) and writes them back
  (`MessageFrame` / `ProtocolDataUnit`). The shared field store
  `ModbusMessageImpl` lays the fields out.
- **Message factory.** It chooses the message class for a request frame by
  its function code.
- **Framing on three transports.**
  - ASCII: `:`, the frame in hexadecimal, its LRC, then CR LF.
  - RTU: the frame, then its CRC. The transport reads as many bytes as the
    function code says.
  - IP: a 7-byte MBAP header. Its transaction id comes from a counter that
    skips 0.
- **Retry loop.** `ModbusTransport.UnicastMessage`:
  - writes the request;
  - re-reads on ACKNOWLEDGE and on stale IP responses;
  - resubmits on SLAVE DEVICE BUSY;
  - retries FormatException, NotImplementedException, TimeoutException and
    IOException up to `Retries` times;
  - validates the response it keeps.
- **Slave.** `ModbusSlave.ApplyRequest` dispatches a request against the data
  store of the addressed slave. It turns an `InvalidModbusRequestException`
  into a slave exception response.
- **Master.** The master checks the number of points and the data lengths,
  then truncates the answers it reads.
- **Helpers.** Slicing, reading a line from a stream, a two-way discriminated
  union, and the projections of `SlaveException`.

Each source file is one module.

The model's form follows the source:

- **Pure code becomes functions.** Frame encoding and decoding, validation and
  the factory are datatypes and functions. Lemmas prove round trips and the
  error cases.
- **Stateful code becomes classes.** Each object that updates its fields is a
  class whose methods are proved against specification functions:
  - the message object (`ModbusMessageObjects.ModbusMessage` over
    `ModbusMessageImpl.ModbusMessageImpl`);
  - the stream;
  - the transport, with its transaction id counter and retry loop;
  - the shared data store dictionary and the slave;
  - the master.
- **Loops stay loops.** The RTU `Read` loop, the IP read and `ReadLine` are
  methods with loop invariants.

The stream is a class that holds a scripted input. Each entry of `chunks`
gives the most bytes one `Read` call may return. A `Read` with no chunks left
raises the stream's failure, a timeout or an I/O error. The stream records
what was written and when the input was discarded.

The retry loop returns a ghost log with one entry per attempt. Its contract
ties this log to the result:

- the number of busy and retried attempts is charged against `Retries`;
- each attempt writes exactly one frame, and the transport's ghost record of
  written messages grows by the request as sent;
- on IP, each attempt draws a new transaction id;
- the result is what the pure function `ExchangeOf` gives for the bytes
  the last attempt read. That is the first response that is neither an
  ACKNOWLEDGE nor a stale IP response, if it passes validation. Otherwise it
  is the SlaveException, validation error, framing error or decoding error
  met first. The one exception is a stream that stalls before a frame ends;
- a success passes every check the source makes;
- a failure is an exception that the exchange itself produced.

`AnswerWritten` connects this function to the sending side: a response that
the slave's transport wrote ahead of the rest of the input is the answer read,
or is read past, exactly as the source's read-again loop says.

## Model

| member | source | states |
|---|---|---|
| `AbstractModbusMessage.FieldsOf` | Modbus/Message/AbstractModbusMessage.cs:24-40 | The header properties (transaction id, function code, slave address) read and write the shared field store. |
| `AbstractModbusMessage.ProtocolDataUnit` | Modbus/Message/AbstractModbusMessage.cs:42-46 | Every protocol data unit begins with the message's function code. |
| `AbstractModbusMessage.MessageFrame` | Modbus/Message/AbstractModbusMessage.cs:42-46 | A message frame is the slave address followed by the protocol data unit. This is the intended frame. The model's serial transports send it, whereas the source's serial transports send the field-store frame, which differs for a read/write request (see "## Findings"). |
| `AbstractModbusMessage.MessageFrameAsWritten` | Modbus/Message/AbstractModbusMessage.cs:42-43 | The frame the library computes, from the shared fields alone. It starts with the slave address and the function code. For every class except the read/write request it is the slave address followed by the message's protocol data unit. |
| `AbstractModbusMessage.FrameHeader` | Modbus/Message/AbstractModbusMessage.cs:42-46 | Every frame starts with the slave address and the function code. |
| `AbstractModbusMessage.MessageFramesAgree` | Modbus/Message/ModbusMessageImpl.cs:40-52 | For every message class except the read/write request, the frame built from the shared fields is the intended frame. |
| `AbstractModbusMessage.ReadWriteFrameAsWritten` | Modbus/Message/AbstractModbusMessage.cs:42-43 | For a read/write request, the frame built from the shared fields holds only the slave address and the function code. |
| `AbstractModbusMessage.Initialize` | Modbus/Message/AbstractModbusMessage.cs:52-62 | A frame shorter than the class's minimum size raises FormatException. Otherwise the header is the frame's first two bytes. |
| `AbstractModbusMessage.CheckNumberOfPoints` | Modbus/Message/ReadCoilsInputsRequest.cs:28-41 | A number of points above the maximum raises ArgumentOutOfRangeException; any other value is stored. |
| `Bytes.HostToNetworkOrder` | Modbus/Message/ModbusMessageImpl.cs:73-81 | A 16-bit field is written as two bytes. |
| `Bytes.NetworkToHostOrder` | Modbus/Message/WriteMultipleCoilsResponse.cs:48-49 | A 16-bit field read big-endian at an offset, written back, gives the two bytes it was read from. |
| `Bytes.NetworkOrderRoundTrip` | Modbus/Message/ModbusMessageImpl.cs:73-81 | A written 16-bit field reads back as the same value at any offset. |
| `Bytes.HostOrderRoundTrip` | Modbus/Message/ReadCoilsInputsRequest.cs:60-64 | Two frame bytes read as a field and written again are the same two bytes. |
| `DataCollections.DiscreteByteCount` | NModbus4.UnitTests/Data/DiscreteCollectionFixture.cs:9-20 | The byte count of up to 2040 discretes is the number of bytes needed at eight discretes per byte. |
| `DataCollections.DiscreteNetworkBytes` | NModbus4.UnitTests/Data/DiscreteCollectionFixture.cs:23-27 | Discretes pack into one byte per eight, rounded up. |
| `DataCollections.DiscretesFromBytes` | NModbus4.UnitTests/Data/DiscreteCollectionFixture.cs:45-57 | Each byte unpacks into eight discretes. |
| `DataCollections.Padded` | Modbus/Device/ModbusMaster.cs:387-391 | Padding fills up to a whole byte and keeps the discretes as a prefix. |
| `DataCollections.DiscretesRoundTrip` | NModbus4.UnitTests/Data/DiscreteCollectionFixture.cs:45-57 | Packing then unpacking discretes gives them back, padded with false to whole bytes. |
| `DataCollections.DiscreteBytesRoundTrip` | Modbus/Message/ReadCoilsInputsResponse.cs:30-39 | Unpacking then packing bytes gives the same bytes. |
| `DataCollections.PaddedNetworkBytes` | NModbus4.UnitTests/Data/DiscreteCollectionFixture.cs:23-27 | Padding does not change the packed bytes. |
| `DataCollections.DiscreteByteCountExamples` | NModbus4.UnitTests/Data/DiscreteCollectionFixture.cs:9-20 | Nine discretes need two bytes; eight need one. |
| `DataCollections.DiscreteNetworkBytesExample` | NModbus4.UnitTests/Data/DiscreteCollectionFixture.cs:23-27 | Two set discretes pack into the byte 3 (lowest bit first). |
| `DataCollections.DiscretesFromBytesExample` | NModbus4.UnitTests/Data/DiscreteCollectionFixture.cs:71-75 | The byte 194 unpacks lowest bit first. |
| `DataCollections.DiscretesFromBytesOrder` | NModbus4.UnitTests/Data/DiscreteCollectionFixture.cs:45-57 | Bytes unpack in order, each lowest bit first. |
| `DataCollections.RegisterByteCount` | Modbus/Message/ReadHoldingInputRegistersResponse.cs:20 | The byte count of up to 127 registers is two per register. |
| `DataCollections.RegisterNetworkBytes` | Modbus/Message/ModbusMessageImpl.cs:88-91 | Registers are written as two bytes each. |
| `DataCollections.RegistersFromBytes` | Modbus/Message/ReadHoldingInputRegistersResponse.cs:35-44 | An even number of bytes reads as half as many registers; an odd number raises FormatException. |
| `DataCollections.RegistersRoundTrip` | Modbus/Message/ReadHoldingInputRegistersResponse.cs:35-44 | Written registers read back unchanged. |
| `DataCollections.RegisterBytesRoundTrip` | Modbus/Message/ReadHoldingInputRegistersResponse.cs:35-44 | An even number of bytes read as registers and written again is unchanged. |
| `DataStores.DefaultDataStore` | Modbus/Device/ModbusSlave.cs:18 | A default store has four banks of 65536 entries. |
| `DataStores.ReadData` | Modbus/Device/ModbusSlave.cs:71-76 | A read inside the bank gives the entries from start address plus one, because entry 0 is unused. A read past the bank raises the illegal-data-address request exception. |
| `DataStores.WriteData` | Modbus/Device/ModbusSlave.cs:157-175 | A write inside the bank replaces exactly the addressed entries. A write past the bank raises the illegal-data-address request exception. |
| `DataStores.ReadAfterWrite` | Modbus/Device/ModbusSlave.cs:254-265 | Reading back what was just written gives the written items. |
| `DiagnosticsRequestResponseMessage.New` | Modbus/Message/DiagnosticsRequestResponse.cs:15-20 | A diagnostics message has function code 8 and carries its sub-function and data. |
| `DiagnosticsRequestResponseMessage.Create` | Modbus/Message/DiagnosticsRequestResponse.cs:40-44 | A frame of at least 6 bytes decodes to a sub-function and one data word; a shorter one raises FormatException. `Create` is the header check of `Initialize` followed by the class's own `InitializeUnique`. |
| `DiagnosticsRequestResponseMessage.RoundTrip` | Modbus/Message/DiagnosticsRequestResponse.cs:40-44 | A diagnostics message with one data word survives encoding and decoding. |
| `DiscriminatedUnions.DiscriminatedUnion.Option` | Modbus/Utility/DiscriminatedUnion.cs:66 | The option is A exactly when the union holds an A. |
| `DiscriminatedUnions.DiscriminatedUnion.GetA` | Modbus/Utility/DiscriminatedUnion.cs:32-44 | A is returned when option A is set; otherwise InvalidOperationException is raised. |
| `DiscriminatedUnions.DiscriminatedUnion.GetB` | Modbus/Utility/DiscriminatedUnion.cs:49-61 | B is returned when option B is set; otherwise InvalidOperationException is raised. |
| `DiscriminatedUnions.DiscriminatedUnion.ToString` | Modbus/Utility/DiscriminatedUnion.cs:86-92 | The text is that of whichever value is set. |
| `DiscriminatedUnions.CreateThenGet` | Modbus/Utility/DiscriminatedUnion.cs:71-78 | A union created with one value returns that value and refuses the other. |
| `ModbusMessageFactory.MinimumFrameSize` | Modbus/Message/ModbusMessageFactory.cs:19-26 | Every message class needs between 3 and 11 frame bytes. |
| `ModbusMessageFactory.CreateModbusMessage` | Modbus/Message/ModbusMessageFactory.cs:19-26 | A frame shorter than the class's minimum raises FormatException. A decoded message is of the requested class and well typed, with transaction id 0. |
| `ModbusMessageFactory.CreateRequestMessage` | Modbus/Message/ModbusMessageFactory.cs:19-26 | Same as `CreateModbusMessage`, for a class that is only a request. |
| `ModbusMessageFactory.CreateResponseMessage` | Modbus/Message/ModbusMessageFactory.cs:19-26 | Same as `CreateModbusMessage`, for a class that is only a response. |
| `ModbusMessageFactory.CreateRequestResponseMessage` | Modbus/Message/ModbusMessageFactory.cs:19-26 | Same as `CreateModbusMessage`, for a class that is both a request and its response. |
| `ModbusMessageFactory.RequestKind` | Modbus/Message/ModbusMessageFactory.cs:38-48 | A request class exists exactly for function codes 1-6, 8, 15, 16 and 23. |
| `ModbusMessageFactory.CreateModbusRequest` | Modbus/Message/ModbusMessageFactory.cs:33-51 | A frame under the minimum request length raises FormatException. An unknown function code raises ArgumentException. Otherwise the frame is decoded as its function code's class. |
| `ModbusMessageFactory.Normalized` | Modbus/Message/ModbusMessageFactory.cs:19-26 | A normalised message keeps the header and the class and has transaction id 0. |
| `ModbusMessageFactory.MessageRoundTrip` | Modbus/Message/ModbusMessageFactory.cs:19-26 | Any well-formed message, encoded and then decoded as its own class, comes back normalised. Trailing bytes are ignored. |
| `ModbusMessageFactory.ReadRoundTrip` | Modbus/Message/ModbusMessageFactory.cs:19-26 | The same round trip for read requests and responses. |
| `ModbusMessageFactory.SingleRoundTrip` | Modbus/Message/ModbusMessageFactory.cs:19-26 | The same round trip for single-value and diagnostics messages. |
| `ModbusMessageFactory.WriteRoundTrip` | Modbus/Message/ModbusMessageFactory.cs:19-26 | The same round trip for multiple-write and read/write messages. |
| `ModbusMessageFactory.RequestRoundTrip` | Modbus/Message/ModbusMessageFactory.cs:33-51 | A well-formed request survives encoding and decoding by function code. |
| `ModbusMessageFactory.FrameLength` | Modbus/Message/ModbusMessageFactory.cs:19-26 | The bytes a class consumes are at least its minimum size. |
| `ModbusMessageFactory.DecodedFrame` | Modbus/Message/ModbusMessageFactory.cs:19-26 | A decoded message re-encodes to exactly the bytes it was decoded from. |
| `ModbusMessageFactory.NormalizedFrame` | Modbus/Message/AbstractModbusMessage.cs:42-46 | Normalising does not change the frame. |
| `ModbusMessageFactory.FrameLengthOfMessage` | Modbus/Message/ModbusMessageFactory.cs:19-26 | A message's frame is as long as the bytes its class consumes. |
| `ModbusMessageFactory.RequestValidateResponse` | Modbus/IO/ModbusTransport.cs:221-227 | Only requests validate responses. A validated response is of the class the request expects; a refusal raises InvalidCastException or IOException. |
| `ModbusMessageImpl.ProtocolDataUnit` | Modbus/Message/ModbusMessageImpl.cs:54-95 | The unit starts with the function code and lists the fields that are present. |
| `ModbusMessageImpl.ProtocolDataUnitLength` | Modbus/Message/ModbusMessageImpl.cs:54-95 | The unit's length is the sum of the lengths of the fields that are present. An exception code follows the function code. |
| `ModbusMessageImpl.UnitIgnoresHeader` | Modbus/Message/ModbusMessageImpl.cs:54-95 | The unit after its first byte does not depend on the header fields. |
| `ModbusMessageImpl.MessageFrame` | Modbus/Message/ModbusMessageImpl.cs:40-52 | The frame is the slave address followed by the unit. |
| `ModbusMessageImpl.WriteFieldsFrame` | Modbus/Message/ModbusMessageImpl.cs:54-95 | Fields of a multiple write lay out as header, start, count, byte count, data. |
| `ModbusMessageImpl.ResponseFieldsFrame` | Modbus/Message/ModbusMessageImpl.cs:54-95 | Fields of a read response lay out as header, byte count, data. |
| `ModbusMessageImpl.InitializeHeader` | Modbus/Message/ModbusMessageImpl.cs:97-109 | A frame under the minimum size raises FormatException; otherwise the header is its first two bytes. |
| `ModbusMessageImpl.ModbusMessageImpl.constructor` | Modbus/Message/ModbusMessageImpl.cs:12-14 | A new field store is empty. |
| `ModbusMessageImpl.ModbusMessageImpl.WithAddress` | Modbus/Message/ModbusMessageImpl.cs:16-20 | A store built with an address holds only the slave address and the function code. |
| `ModbusMessageImpl.ModbusMessageImpl.Initialize` | Modbus/Message/ModbusMessageImpl.cs:97-109 | A short frame raises FormatException and changes nothing. Otherwise only the slave address and the function code are set. |
| `Messages.KindOf` | Modbus/IO/ModbusTransport.cs:194-197 | A message is classed as a slave exception response exactly when its body is one. |
| `ModbusAsciiTransport.BuildMessageFrame` | Modbus/IO/ModbusAsciiTransport.cs:21-36 | An ASCII frame is a colon, two hex digits per frame byte and two for the LRC, then CR LF. |
| `ModbusAsciiTransport.ChecksumsMatch` | Modbus/IO/ModbusAsciiTransport.cs:38-39 | The LRC test passes exactly when the message frame's byte sum plus the last byte received is 0 modulo 256. |
| `ModbusAsciiTransport.FrameOfLine` | Modbus/IO/ModbusAsciiTransport.cs:47-62 | The bytes after the colon are decoded from hex. Fewer than 3 bytes raise IOException, and bad hex raises FormatException. |
| `ModbusAsciiTransport.ReadRequestResponse` | Modbus/IO/ModbusAsciiTransport.cs:47-62 | A successful read decodes the stream's first line and consumes it. A failure is the stream's or the decoder's error. |
| `ModbusAsciiTransport.HexLineRoundTrip` | Modbus/IO/ModbusAsciiTransport.cs:47-62 | A written hex line followed by anything reads back as the data it encodes. |
| `ModbusAsciiTransport.HexLineEnd` | Modbus/IO/ModbusAsciiTransport.cs:21-36 | The first CR LF of a written line is its terminator, because hex digits contain neither byte. |
| `ModbusAsciiTransport.HexLineText` | Modbus/IO/ModbusAsciiTransport.cs:47-62 | The text of a written line decodes to its data. |
| `ModbusAsciiTransport.FrameRoundTrip` | Modbus/IO/ModbusAsciiTransport.cs:21-36 | A written frame reads back as the message frame plus its LRC, which passes the checksum test. |
| `ModbusAsciiTransport.LineRoundTrip` | Modbus/IO/ModbusAsciiTransport.cs:21-36 | For any frame bytes, the written line reads back as the frame plus its LRC, and the first CR LF is the one that ends it. |
| `ModbusAsciiTransport.ReadExample` | NModbus4.UnitTests/IO/ModbusAsciiTransportFixture.cs:25-43 | The line ":110100130025B6" holds the frame 17 1 0 19 0 37 and its LRC 182. |
| `ModbusIpTransport.GetMbapHeader` | Modbus/IO/ModbusIpTransport.cs:68-81 | The header holds the transaction id, protocol 0, the length of the unit plus one, and the unit id. |
| `ModbusIpTransport.BuildMessageFrame` | Modbus/IO/ModbusIpTransport.cs:108-118 | An IP frame is the MBAP header followed by the message frame. |
| `ModbusIpTransport.NewTransactionId` | Modbus/IO/ModbusIpTransport.cs:86-94 | The next id is never 0: it is one more, and 65535 wraps to 1. |
| `ModbusIpTransport.AdvanceCycle` | Modbus/IO/ModbusIpTransport.cs:86-94 | Ids cycle through 1 to 65535. |
| `ModbusIpTransport.AdvanceFromStart` | NModbus4.UnitTests/IO/ModbusTcpTransportFixture.cs:105-112 | Starting at 0, the k-th id is k (mod 65535) plus one. |
| `ModbusIpTransport.DistinctTransactionIds` | Modbus/IO/ModbusIpTransport.cs:86-94 | Fewer than 65535 successive ids are all distinct. |
| `ModbusIpTransport.ReadBytes` | Modbus/IO/ModbusIpTransport.cs:23-66 | A read returns exactly the requested next input bytes. A read that returns 0 bytes raises IOException. Only a later part of the input is left. |
| `ModbusIpTransport.ReadRequestResponse` | Modbus/IO/ModbusIpTransport.cs:23-66 | The result is the 6-byte header plus as many bytes as its length field says. A failure is the stream's error or IOException for a read of 0 bytes. |
| `ModbusIpTransport.CreateMessageAndInitializeTransactionId` | Modbus/IO/ModbusIpTransport.cs:96-106 | The message is decoded from the bytes after the header and takes the header's transaction id. |
| `ModbusIpTransport.OnValidateResponse` | Modbus/IO/ModbusIpTransport.cs:134-141 | A response passes exactly when its transaction id matches; otherwise IOException is raised. |
| `ModbusIpTransport.ShouldRetryExamples` | NModbus4.UnitTests/IO/ModbusTcpTransportFixture.cs:114-168 | Threshold 0 never re-reads. Response 3 to request 5 with threshold 3 is re-read. A matching id is not re-read. |
| `ModbusIpTransport.OnShouldRetryResponse` | Modbus/IO/ModbusIpTransport.cs:143-152 | A skipped response has a transaction id below the request's. With a threshold of 0 or 1 nothing is skipped. With a higher threshold, the response to the previous id is skipped. |
| `ModbusIpTransport.ShouldRetryDoesNotWrap` | Modbus/IO/ModbusIpTransport.cs:143-152 | A response id above the request id is never re-read, even right after the counter wrapped. |
| `ModbusIpTransport.FrameLengthField` | Modbus/IO/ModbusIpTransport.cs:68-81 | The header's length field counts exactly the bytes after it. |
| `ModbusIpTransport.LengthField` | Modbus/IO/ModbusIpTransport.cs:68-81 | A frame whose header announces the length of what follows has that length. |
| `ModbusIpTransport.FrameRoundTrip` | Modbus/IO/ModbusIpTransport.cs:96-106 | A written IP frame decodes to the normalised message with its transaction id. |
| `ModbusMasters.ValidateNumberOfPoints` | Modbus/Device/ModbusMaster.cs:378-385 | A count passes exactly when it is between 1 and the maximum; otherwise ArgumentException is raised. |
| `ModbusMasters.ValidateData` | Modbus/Device/ModbusMaster.cs:367-376 | Missing data raises ArgumentNullException. A length outside 1 to the maximum raises ArgumentException. |
| `ModbusMasters.AcceptedAnswer` | Modbus/IO/ModbusTransport.cs:206-230 | An accepted answer has the request's address and function code and passes the request's own check: a write is echoed, and a read answer has the byte count its count needs. |
| `ModbusMasters.ModbusMaster.constructor` | Modbus/Device/ModbusDevice.cs:13 | A master drives the transport it is given. |
| `ModbusMasters.ModbusMaster.PerformReadDiscretes` | Modbus/Device/ModbusMaster.cs:387-391 | The request is sent at least once, and the answer is the outcome `ExchangeOf` gives for the input the last send read (`Answers`). The result is the answer's first number-of-points discretes, exactly that many. |
| `ModbusMasters.ModbusMaster.PerformReadRegisters` | Modbus/Device/ModbusMaster.cs:396-402 | The request is sent at least once, and the answer is the outcome `ExchangeOf` gives for the input the last send read (`Answers`). The result is the answer's first number-of-points registers, exactly that many. |
| `ModbusMasters.ModbusMaster.PerformReadWriteRegisters` | Modbus/Device/ModbusMaster.cs:404-410 | The request is sent at least once, and the answer is the outcome `ExchangeOf` gives for the input the last send read (`Answers`). The result is the answer's first registers, exactly as many as the read part asks for. |
| `ModbusMasters.ModbusMaster.ReadCoils` | Modbus/Device/ModbusMaster.cs:24-35 | A count outside 1 to 2000 raises ArgumentException and sends nothing. Otherwise the read coils request built from the arguments is sent and answered as `Answers` says, and exactly the requested coils are returned. |
| `ModbusMasters.ModbusMaster.ReadInputs` | Modbus/Device/ModbusMaster.cs:64-75 | The same as `ReadCoils`, for discrete inputs. |
| `ModbusMasters.ModbusMaster.ReadHoldingRegisters` | Modbus/Device/ModbusMaster.cs:104-115 | A count outside 1 to 125 raises ArgumentException and sends nothing. Otherwise the read holding registers request built from the arguments is sent and answered as `Answers` says, and exactly the requested registers are returned. |
| `ModbusMasters.ModbusMaster.ReadInputRegisters` | Modbus/Device/ModbusMaster.cs:144-155 | The same as `ReadHoldingRegisters`, for input registers. |
| `ModbusMasters.ModbusMaster.WriteSingleCoil` | Modbus/Device/ModbusMaster.cs:183-187 | The write request is sent and answered as `Answers` says. On success the slave echoed the request, with value 0xFF00 for on and 0 for off; a failure is the exchange error. |
| `ModbusMasters.ModbusMaster.WriteSingleRegister` | Modbus/Device/ModbusMaster.cs:208-216 | The write request is sent and answered as `Answers` says. On success the slave echoed the request; a failure is the exchange error. |
| `ModbusMasters.ModbusMaster.WriteMultipleRegisters` | Modbus/Device/ModbusMaster.cs:241-251 | Missing data, or a length outside 1 to 123, is refused before sending. Otherwise the request is sent and answered as `Answers` says, and on success the answer echoes the start address and count. |
| `ModbusMasters.ModbusMaster.WriteMultipleCoils` | Modbus/Device/ModbusMaster.cs:278-288 | Missing data, or a length outside 1 to 1968, is refused before sending. Otherwise the request is sent and answered as `Answers` says, and on success the answer echoes the start address and count. |
| `ModbusMasters.ModbusMaster.ReadWriteMultipleRegisters` | Modbus/Device/ModbusMaster.cs:318-331 | Up to 125 registers can be read and up to 121 written; anything else is refused before sending. Otherwise the request is sent and answered as `Answers` says, and the result holds exactly the read count. |
| `ModbusMasters.ModbusMaster.ExecuteCustomMessage` | Modbus/Device/ModbusMaster.cs:363-365 | The request is sent at least once, each time recorded as written, and the result is the outcome `ExchangeOf` gives for the input the last send read (`Answers`): an accepted answer of the expected class with whole data, or an exchange error. |
| `ModbusMasters.LimitsFitRequests` | Modbus/Device/ModbusMaster.cs:378-385 | Every count and length the master lets through builds a message without ArgumentOutOfRangeException. |
| `ModbusMasters.TruncationKeepsCount` | Modbus/Device/ModbusMaster.cs:387-391 | Truncating an accepted discrete answer leaves exactly the requested count. |
| `ModbusMasters.DiscretesReadBack` | Modbus/Device/ModbusMaster.cs:387-391 | The discretes a slave sends reach the master unchanged. |
| `ModbusMasters.RegistersReadBack` | Modbus/Device/ModbusMaster.cs:396-402 | The registers a slave sends reach the master unchanged. |
| `ModbusMessageObjects.MaximumNumberOfPoints` | Modbus/Message/ReadCoilsInputsRequest.cs:28-41 | A class's point limit is the discrete maximum or the register maximum. |
| `ModbusMessageObjects.ModbusMessage.constructor` | Modbus/Message/AbstractModbusMessage.cs:11-22 | A new message object has a fresh, empty field store. |
| `ModbusMessageObjects.ModbusMessage.WithAddress` | Modbus/Message/AbstractModbusMessage.cs:11-22 | A new message object with an address has a fresh store holding the slave address and the function code. |
| `ModbusMessageObjects.ModbusMessage.MessageFrame` | Modbus/Message/AbstractModbusMessage.cs:42-46 | The object's frame is its field store's frame. |
| `ModbusMessageObjects.ModbusMessage.SetTransactionId` | Modbus/Message/AbstractModbusMessage.cs:24-28 | Only the transaction id changes. |
| `ModbusMessageObjects.ModbusMessage.SetFunctionCode` | Modbus/Message/AbstractModbusMessage.cs:30-34 | Only the function code changes. |
| `ModbusMessageObjects.ModbusMessage.SetSlaveAddress` | Modbus/Message/AbstractModbusMessage.cs:36-40 | Only the slave address changes. |
| `ModbusMessageObjects.ModbusMessage.SetStartAddress` | Modbus/Message/ReadCoilsInputsRequest.cs:20-24 | Only the start address changes. |
| `ModbusMessageObjects.ModbusMessage.SetNumberOfPoints` | Modbus/Message/ReadCoilsInputsRequest.cs:28-41 | A value up to the maximum is stored. A larger value raises ArgumentOutOfRangeException and changes nothing. |
| `ModbusMessageObjects.ModbusMessage.Initialize` | Modbus/Message/AbstractModbusMessage.cs:52-62 | Initialising succeeds exactly when the pure decoder does, with the same error, and stores the decoded fields. |
| `ModbusMessageObjects.ModbusMessage.InitializeUnique` | Modbus/Message/WriteMultipleCoilsRequest.cs:81-92 | The class's own fields are overlaid on the store and nothing else changes. |
| `ModbusMessageObjects.CreateModbusMessage` | Modbus/Message/ModbusMessageFactory.cs:19-26 | The object fails exactly when the pure factory does. On success it holds the factory's message. |
| `ModbusMessageObjects.InitializedFrame` | Modbus/Message/AbstractModbusMessage.cs:52-62 | An initialised object's frame is the prefix of the input that its class consumes. |
| `ModbusRtuTransport.RequestBytesToRead` | Modbus/IO/ModbusRtuTransport.cs:22-50 | A request size is known for function codes 1-6, 8, 15 and 16; other codes raise NotImplementedException. |
| `ModbusRtuTransport.ResponseBytesToRead` | Modbus/IO/ModbusRtuTransport.cs:52-87 | A response size is known for exception responses and for function codes 1-6, 8, 15 and 16; other codes raise NotImplementedException. |
| `ModbusRtuTransport.RequestLength` | Modbus/IO/ModbusRtuTransport.cs:22-50 | For every supported request, the frame start plus the bytes still to read is its whole frame with CRC. |
| `ModbusRtuTransport.ResponseLength` | Modbus/IO/ModbusRtuTransport.cs:52-87 | For every supported response, the frame start plus the bytes still to read is its whole frame with CRC. |
| `ModbusRtuTransport.RequestFrameReadBack` | Modbus/IO/ModbusRtuTransport.cs:128-136 | A written request frame is read back whole, and the rest of the input is left. |
| `ModbusRtuTransport.ResponseFrameReadBack` | Modbus/IO/ModbusRtuTransport.cs:118-126 | A written response frame is read back whole, and the rest of the input is left. |
| `ModbusRtuTransport.Read` | Modbus/IO/ModbusRtuTransport.cs:89-100 | The result is exactly the requested next input bytes, however the stream splits them. |
| `ModbusRtuTransport.BuildMessageFrame` | Modbus/IO/ModbusRtuTransport.cs:102-112 | An RTU frame is the message frame followed by its 2 CRC bytes. |
| `ModbusRtuTransport.BuiltFrameChecksum` | Modbus/IO/ModbusRtuTransport.cs:114-116 | A written frame passes the CRC check against its message. |
| `ModbusRtuTransport.ChecksumsMatch` | Modbus/IO/ModbusRtuTransport.cs:114-116 | The CRC test passes exactly when the last two bytes received are the two bytes that framing the decoded message appends. |
| `ModbusRtuTransport.ReadRequest` | Modbus/IO/ModbusRtuTransport.cs:128-136 | The result is the 7-byte start plus as many bytes as its function code says. |
| `ModbusRtuTransport.ReadResponseFrame` | Modbus/IO/ModbusRtuTransport.cs:118-126 | The result is the 4-byte start plus as many bytes as its function code says. A start whose function code has no known size raises that error after the 4 bytes; otherwise the failure is the stream's. |
| `ModbusSerialTransport.BuildMessageFrame` | Modbus/IO/ModbusSerialTransport.cs:28-35 | A serial frame is the ASCII line or the RTU frame, whichever the mode calls for. |
| `ModbusSerialTransport.CreateResponse` | Modbus/IO/ModbusSerialTransport.cs:37-50 | A decoded response whose checksum fails raises IOException when frame checking is on. Otherwise the base decoding stands. |
| `ModbusSerialTransport.ChecksumsMatch` | Modbus/IO/ModbusSerialTransport.cs:52 | The mode's test: in ASCII the LRC sum is 0 modulo 256, and in RTU the received CRC is the one that framing the message appends. |
| `ModbusSerialTransport.UncheckedResponse` | Modbus/IO/ModbusSerialTransport.cs:37-50 | With frame checking off, decoding is the base decoding. |
| `ModbusSerialTransport.Write` | Modbus/IO/ModbusSerialTransport.cs:28-35 | The input buffer is discarded, then the frame is written. |
| `ModbusSerialTransport.OnValidateResponse` | Modbus/IO/ModbusSerialTransport.cs:54-57 | Serial transports add no check of their own. |
| `ModbusSerialTransport.RtuResponseRoundTrip` | Modbus/IO/ModbusSerialTransport.cs:37-50 | A response written by an RTU sender passes the CRC check and decodes normalised. |
| `ModbusSerialTransport.AsciiResponseRoundTrip` | Modbus/IO/ModbusSerialTransport.cs:37-50 | A response written by an ASCII sender passes the LRC check and decodes normalised. |
| `ModbusSlaves.StoreOf` | Modbus/Device/ModbusSlave.cs:54 | An address's store is its entry, or a fresh default store. |
| `ModbusSlaves.ExceptionFunctionCode` | Modbus/Device/ModbusSlave.cs:276-279 | The exception response's function code is the request's plus 128. |
| `ModbusSlaves.ReadDiscretes` | Modbus/Device/ModbusSlave.cs:66-85 | The answer carries the addressed discretes and their byte count, or the request is refused with an illegal data address. |
| `ModbusSlaves.ReadRegisters` | Modbus/Device/ModbusSlave.cs:87-105 | The answer carries the addressed registers, or the request is refused with an illegal data address. |
| `ModbusSlaves.WriteSingleCoil` | Modbus/Device/ModbusSlave.cs:107-120 | The addressed coil is on exactly when the value is 0xFF00. No other coil changes. |
| `ModbusSlaves.WriteMultipleCoils` | Modbus/Device/ModbusSlave.cs:122-140 | The first number-of-points discretes of the request are stored at the start address. No other coil changes. |
| `ModbusSlaves.WriteSingleRegister` | Modbus/Device/ModbusSlave.cs:142-155 | The addressed register takes the value. No other register changes. |
| `ModbusSlaves.WriteMultipleRegisters` | Modbus/Device/ModbusSlave.cs:157-175 | The request's registers are stored at the start address. No other register changes. |
| `ModbusSlaves.Caught` | Modbus/Device/ModbusSlave.cs:273-280 | An invalid-request exception becomes an exception response that carries its code. Any other outcome passes through. |
| `ModbusSlaves.Applied` | Modbus/Device/ModbusSlave.cs:188-270 | Handling a request by its function code never touches the input banks and keeps every bank's size. A request that is not a write leaves the store unchanged and raises no WriteComplete. An unsupported function code raises the IllegalFunction request exception. |
| `ModbusSlaves.Supported` | Modbus/Device/ModbusSlave.cs:188-270 | The slave handles exactly the function codes whose requests the message factory decodes: 1-6, 8, 15, 16 and 23. |
| `ModbusSlaves.DataStoreDictionary.constructor` | Modbus/Device/ModbusSlave.cs:24-25 | The shared dictionary starts empty. |
| `ModbusSlaves.DataStoreDictionary.GetOrAdd` | Modbus/Device/ModbusSlave.cs:54 | An address's store is returned, and added first if it is missing. |
| `ModbusSlaves.DataStoreDictionary.Set` | Modbus/Device/ModbusSlave.cs:45 | Only the address's entry is replaced. |
| `ModbusSlaves.DataStoreDictionary.TryAdd` | Modbus/Device/ModbusSlave.cs:21 | A store is added only where the address has none. |
| `ModbusSlaves.StoresAsWritten` | Modbus/Device/ModbusSlave.cs:15-22 | As written, construction leaves address 0 with a fresh default store whatever the unit id. The unit id gets a fresh store when it has none. Every other address keeps its entry, and no other address gains one. |
| `ModbusSlaves.StoresAfterConstruction` | Modbus/Device/ModbusSlave.cs:15-22 | As intended, construction adds a store for the unit id and keeps every existing entry. |
| `ModbusSlaves.ConstructionResetsAddressZero` | Modbus/Device/ModbusSlave.cs:18-19 | As written, constructing a slave with unit id 5 replaces the store that address 0 already had. |
| `ModbusSlaves.ConstructionKeepsOtherStores` | Modbus/Device/ModbusSlave.cs:21 | As intended, construction leaves every other address's store unchanged. |
| `ModbusSlaves.ModbusSlave.constructor` | Modbus/Device/ModbusSlave.cs:15-22 | The new slave shares the dictionary, which it updates as intended. |
| `ModbusSlaves.ModbusSlave.GetDataStore` | Modbus/Device/ModbusSlave.cs:44 | The slave's store is created on first use. |
| `ModbusSlaves.ModbusSlave.SetDataStore` | Modbus/Device/ModbusSlave.cs:45 | Only the slave's own entry is replaced. |
| `ModbusSlaves.ModbusSlave.ApplyRequest` | Modbus/Device/ModbusSlave.cs:178-283 | A request the hook refuses is answered by an exception response, and no store changes. Otherwise the request runs against the store of its own slave address, which is created on first use, and only that store changes. WriteComplete is raised after a write has been stored. A request exception becomes an exception response. |
| `ModbusSlaves.ModbusSlave.ApplyWrite` | Modbus/Device/ModbusSlave.cs:222-252 | The write is stored, and then WriteComplete is raised. |
| `ModbusSlaves.ModbusSlave.ApplyReadWrite` | Modbus/Device/ModbusSlave.cs:254-265 | The write, then WriteComplete, then the read of the updated registers. |
| `ModbusSlaves.UnsupportedFunctionCode` | Modbus/Device/ModbusSlave.cs:267-270 | An unsupported function code is refused with IllegalFunction, and the store is unchanged. |
| `ModbusSlaves.RejectedRequest` | Modbus/Device/ModbusSlave.cs:273-280 | A refused request is answered by an exception response that encodes and decodes with the offset function code. |
| `ModbusSlaves.ReadsLeaveStore` | Modbus/Device/ModbusSlave.cs:190-216 | Reads leave the store unchanged and raise no WriteComplete. |
| `ModbusSlaves.DiagnosticsEchoes` | Modbus/Device/ModbusSlave.cs:218-220 | Diagnostics echoes the request and changes nothing. |
| `ModbusSlaves.WriteSingleCoilStores` | Modbus/Device/ModbusSlave.cs:107-120 | A coil write inside the bank is stored and echoed. |
| `ModbusSlaves.WriteMultipleCoilsStoresPoints` | Modbus/Device/ModbusSlave.cs:122-140 | Only number-of-points coils are stored, not the padding. |
| `ModbusSlaves.WriteSingleRegisterStores` | Modbus/Device/ModbusSlave.cs:142-155 | A register write inside the bank is stored and echoed. |
| `ModbusSlaves.ReadWriteObservesWrite` | Modbus/Device/ModbusSlave.cs:254-265 | The read part returns registers as they are after the write. |
| `ModbusSlaves.ReadWriteRefusedWrite` | Modbus/Device/ModbusSlave.cs:254-265 | A write outside the bank refuses the whole request, and the store is unchanged. |
| `ModbusTransports.WriteEvents` | Modbus/IO/ModbusTransport.cs:112 | Sending a message writes exactly one frame. |
| `ModbusTransports.DecodeResponse` | Modbus/IO/ModbusTransport.cs:187-204 | A decoded response is of the expected class or a slave exception, and each error has its documented type. |
| `ModbusTransports.ReceiveWritten` | Modbus/IO/ModbusTransport.cs:187-204 | On every transport, a frame written for a message is received whole and decodes to the normalised message. |
| `ModbusTransports.ReceiveAscii` | Modbus/IO/ModbusAsciiTransport.cs:44-45 | The ASCII case of `ReceiveWritten`. |
| `ModbusTransports.ReceiveAsciiLine` | Modbus/IO/StreamResourceUtility.cs:7-24 | A written ASCII line is received up to its CR LF. |
| `ModbusTransports.ReceiveRtu` | Modbus/IO/ModbusRtuTransport.cs:118-126 | The RTU case of `ReceiveWritten`. |
| `ModbusTransports.RtuReceived` | Modbus/IO/ModbusRtuTransport.cs:118-126 | A written RTU frame is received whole. |
| `ModbusTransports.ReceiveIp` | Modbus/IO/ModbusIpTransport.cs:131-132 | The IP case of `ReceiveWritten`. |
| `ModbusTransports.OnValidateResponse` | Modbus/IO/ModbusTransport.cs:229 | Only IP adds a check: the transaction ids must match. |
| `ModbusTransports.OnShouldRetryResponse` | Modbus/IO/ModbusTransport.cs:254 | Only a TCP/IP transport skips a response, and only one whose transaction id is below the request's. The serial transports keep the base `false`. |
| `ModbusTransports.Charged` | Modbus/IO/ModbusTransport.cs:147-175 | The attempts charged against `Retries` are at most the attempts made. |
| `ModbusTransports.StampedWith` | Modbus/IO/ModbusIpTransport.cs:120-126 | On IP, a sent message carries the new transaction id; on serial transports it is unchanged. |
| `ModbusTransports.Resent` | Modbus/IO/ModbusTransport.cs:106-112 | k attempts send the same request k times; on IP the i-th send carries the i-th id after the starting one. |
| `ModbusTransports.ResentIdsDistinct` | Modbus/IO/ModbusIpTransport.cs:86-94 | On IP, the transaction ids of fewer than 65535 attempts are all distinct. |
| `ModbusTransports.AfterException` | Modbus/IO/ModbusTransport.cs:147-179 | Classifies a failed attempt. SLAVE DEVICE BUSY resubmits, counted only when `SlaveBusyUsesRetryCount` is set. Retryable errors resubmit while attempts remain. Everything else is raised. |
| `Exceptions.IsRetryable` | Modbus/IO/ModbusTransport.cs:164-167 | Format, not-implemented, timeout and I/O exceptions are retried. A slave exception, an invalid-request exception or an exception of the runtime never is. |
| `ModbusTransports.NextPending` | Modbus/IO/ModbusTransport.cs:162-175 | A resubmitted attempt leaves the loop pending. |
| `ModbusTransports.LastAttempt` | Modbus/IO/ModbusTransport.cs:176-179 | A completed or raised attempt concludes the loop with its result. |
| `ModbusTransports.NextFrame` | Modbus/IO/ModbusTransport.cs:187-204 | The next frame the input holds, in the transport's framing, with what follows it; or the error a rejected RTU frame start or ASCII line raises; or none when the input ends first. A frame is `Received`, and what follows is a shorter part of the input. |
| `ModbusTransports.FramedReceived` | Modbus/IO/ModbusTransport.cs:187-204 | A frame the input holds is the next frame: the converse of `NextFrame`'s contract. |
| `ModbusTransports.ReadOf` | Modbus/IO/ModbusTransport.cs:187-204 | The next response: of the expected class or a slave exception, with whole data. A refusal is never a slave exception. There is none exactly when the input holds no whole frame. |
| `ModbusTransports.AnswerOf` | Modbus/IO/ModbusTransport.cs:114-141 | The answer is of the expected class, not an exception response, and not stale. A refusal is an exchange error, and what is left is a later part of the input. |
| `ModbusTransports.ExchangeOf` | Modbus/IO/ModbusTransport.cs:108-145 | The outcome of one exchange is an answer that passes every check the source makes, or an exchange error. |
| `ModbusTransports.ReadBack` | Modbus/IO/ModbusTransport.cs:187-204 | What is read back keeps the written message's header and class, and on IP its transaction id. |
| `ModbusTransports.ExceptionAnyKind` | Modbus/IO/ModbusTransport.cs:194-197 | An exception response decodes the same whatever class the transport expects. |
| `ModbusTransports.ReadWritten` | Modbus/IO/ModbusTransport.cs:187-204 | A response the slave wrote, followed by anything, is the next response read. |
| `ModbusTransports.AnswerWritten` | Modbus/IO/ModbusTransport.cs:114-145 | When the slave wrote a response first: an ACKNOWLEDGE or a stale response is read past, and the answer is the one after it. Any other exception response raises a SlaveException carrying it. Any other response is the answer, and it is the exchange's outcome when it passes validation. |
| `ModbusTransports.ModbusTransport.constructor` | Modbus/IO/ModbusTransport.cs:35-65 | New transports use 3 retries, 250 ms waits, threshold 0, no busy counting and frame checking on. |
| `ModbusTransports.ModbusTransport.SetWaitToRetryMilliseconds` | Modbus/IO/ModbusTransport.cs:53-65 | A negative wait raises ArgumentException and changes nothing; any other value is stored. |
| `ModbusTransports.ModbusTransport.GetNewTransactionId` | Modbus/IO/ModbusIpTransport.cs:86-94 | The counter advances to the next non-zero id, which is returned. |
| `ModbusTransports.ModbusTransport.Stamped` | Modbus/IO/ModbusIpTransport.cs:120-126 | The message as sent carries the transport's current id on IP and is unchanged otherwise. |
| `ModbusTransports.ModbusTransport.Write` | Modbus/IO/ModbusIpTransport.cs:120-126 | On IP, a new id is drawn first. The frame of the stamped message is written once, and the stamped message is recorded as written. |
| `ModbusTransports.ModbusTransport.ReadResponseFrame` | Modbus/IO/ModbusTransport.cs:187-204 | The frame read is the next frame of the input (`NextFrame`), and the input after it is left. A rejected frame start raises the error `NextFrame` gives. Otherwise the failure is a stalled stream. |
| `ModbusTransports.ModbusTransport.ReadResponse` | Modbus/IO/ModbusTransport.cs:187-204 | The result is the next response of the input as `ReadOf` gives it: the frame decoded as the expected class or as a slave exception, or the framing or decoding error. Otherwise the failure is a stalled stream. |
| `ModbusTransports.ModbusTransport.ReadRequest` | Modbus/IO/ModbusRtuTransport.cs:128-136 | One request frame is taken from the input, in the transport's framing. |
| `ModbusTransports.ModbusTransport.ReadAnswer` | Modbus/IO/ModbusTransport.cs:114-141 | The result is the answer `AnswerOf` gives for the input: ACKNOWLEDGE and stale IP responses are read past, and the first other response is returned; an exception response before it raises a SlaveException. Otherwise the failure is a stalled stream. |
| `ModbusTransports.ModbusTransport.ReadOnce` | Modbus/IO/ModbusTransport.cs:118-139 | One pass of the read-again loop: it settles the answer `AnswerOf` gives, or reads past an ACKNOWLEDGE or stale response and leaves that answer to the rest of the input. |
| `ModbusTransports.ModbusTransport.ReadValidated` | Modbus/IO/ModbusTransport.cs:114-145 | The answer read for the request as sent is returned only if it passes validation, and a failed validation raises its error. The result is the outcome `ExchangeOf` gives for the input, the response is `Accepted`, and any slave exception comes from a response. Otherwise the failure is a stalled stream. |
| `ModbusTransports.ModbusTransport.Exchange` | Modbus/IO/ModbusTransport.cs:108-145 | The stamped request is written once. The result is the outcome `ExchangeOf` gives for the input: the answer, if it passes validation, or the exception raised. Otherwise the failure is a stalled stream. |
| `ModbusTransports.ModbusTransport.Attempt` | Modbus/IO/ModbusTransport.cs:106-180 | One pass of the loop writes one frame, for the request stamped with the new id. Its result is the outcome `ExchangeOf` gives for the input, or a stalled stream. It is completed exactly on success, and otherwise classified by `AfterException`. |
| `ModbusTransports.AttemptLogged` | Modbus/IO/ModbusTransport.cs:162-179 | Every attempt either concludes the loop or leaves it pending, charged as its kind says. |
| `ModbusTransports.ModbusTransport.LoggedAttempt` | Modbus/IO/ModbusTransport.cs:106-180 | One pass of the loop moves the id, the written messages and the frame count on by one send, and its result is the outcome `ExchangeOf` gives for the input. The extended log is concluded or pending. A busy answer that is not charged only comes after the stream delivered bytes. |
| `ModbusTransports.ModbusTransport.UnicastMessage` | Modbus/IO/ModbusTransport.cs:99-185 | The result concludes the attempt log under the retry rules. Each attempt writes one frame for the same request and, on IP, draws one id. The result is the outcome `ExchangeOf` gives for the input the last attempt read, which is a later part of the input; for a single attempt it is the whole input. Otherwise the failure is a stalled stream. |
| `ModbusTransportBase.CreateResponse` | Modbus/IO/ModbusTransport.cs:187-204 | A frame under 2 bytes raises IndexOutOfRangeException. A function code above 128 decodes a slave exception; any other decodes the expected class. |
| `ModbusTransportBase.ValidateResponse` | Modbus/IO/ModbusTransport.cs:206-230 | The checks run in order: function code, slave address, the request's own check, then the transport's. A code or address mismatch raises IOException. |
| `ModbusTransportBase.ShouldRetryResponse` | Modbus/IO/ModbusTransport.cs:235-249 | Re-read only when the code and address match and the transport's hook asks for it. |
| `ModbusUtility.CalculateLrc` | Modbus/IO/ModbusAsciiTransport.cs:38-39 | The LRC brings the byte sum to 0 modulo 256. |
| `ModbusUtility.LrcExamples` | NModbus4.UnitTests/IO/ModbusAsciiTransportFixture.cs:14-23 | The LRC of 2 1 0 0 0 1 is 252, and that of 17 1 0 19 0 37 is 182. |
| `ModbusUtility.CalculateCrc` | Modbus/IO/ModbusRtuTransport.cs:102-112 | The CRC is 2 bytes, computed bit by bit from 0xFFFF with the reflected polynomial 0xA001, low byte first. |
| `ModbusUtility.CrcExample` | Modbus/IO/ModbusRtuTransport.cs:102-112 | The CRC of the bytes 1 1 is 193 224. |
| `ModbusUtility.HexDigitValue` | Modbus/IO/ModbusAsciiTransport.cs:47-62 | Each hex digit written reads back as its value. |
| `ModbusUtility.HexValue` | Modbus/IO/ModbusAsciiTransport.cs:47-62 | A hex character's value is below 16. |
| `ModbusUtility.GetAsciiChars` | Modbus/IO/ModbusAsciiTransport.cs:21-36 | Each byte is written as two characters. |
| `ModbusUtility.AsciiBytes` | Modbus/IO/ModbusAsciiTransport.cs:21-36 | Each character is written as its code. |
| `ModbusUtility.GetAsciiBytes` | Modbus/IO/ModbusAsciiTransport.cs:21-36 | Each byte is written as two ASCII bytes. |
| `ModbusUtility.HexCharsAreAscii` | Modbus/IO/ModbusAsciiTransport.cs:21-36 | Written hex characters are ASCII digits or capital letters. |
| `ModbusUtility.HexToBytes` | Modbus/IO/ModbusAsciiTransport.cs:53 | Hex decodes into half as many bytes. Odd lengths and non-hex characters raise FormatException. |
| `ModbusUtility.HexRoundTrip` | Modbus/IO/ModbusAsciiTransport.cs:47-62 | Written hex decodes to the original bytes. |
| `ModbusUtility.GetAsciiCharsConcat` | Modbus/IO/ModbusAsciiTransport.cs:21-36 | The hex of a concatenation is the concatenation of the hex. |
| `ModbusUtility.AsciiExample` | NModbus4.UnitTests/IO/ModbusAsciiTransportFixture.cs:14-23 | The frame 2 1 0 0 0 1 with its LRC is written "020100000001FC". |
| `ReadCoilsInputsRequestMessage.New` | Modbus/Message/ReadCoilsInputsRequest.cs:13-18 | More than 2040 points raises ArgumentOutOfRangeException; otherwise the request holds its fields. |
| `ReadCoilsInputsRequestMessage.Create` | Modbus/Message/ReadCoilsInputsRequest.cs:60-64 | A frame of 6 bytes or more decodes start and count. A shorter one raises FormatException. `Create` is the header check of `Initialize` followed by the class's own `InitializeUnique`. |
| `ReadCoilsInputsRequestMessage.RoundTrip` | Modbus/Message/ReadCoilsInputsRequest.cs:60-64 | A request within the limit survives encoding and decoding. |
| `ReadCoilsInputsRequestMessage.ValidateResponse` | Modbus/Message/ReadCoilsInputsRequest.cs:46-58 | A response is accepted exactly when it is a discrete response whose byte count is (count + 7) / 8. Any other class raises InvalidCastException, and a wrong byte count raises IOException. |
| `ReadCoilsInputsRequestMessage.BestEffortValidation` | Modbus/Message/ReadCoilsInputsRequest.cs:46-58 | Requests for 1 and for 6 coils accept the same one-byte response. |
| `ReadCoilsInputsResponseMessage.New` | Modbus/Message/ReadCoilsInputsResponse.cs:12-17 | A response carries its byte count and discretes. |
| `ReadCoilsInputsResponseMessage.Create` | Modbus/Message/ReadCoilsInputsResponse.cs:30-39 | A frame holding its announced byte count decodes eight discretes per byte; a short one raises FormatException. `Create` is the header check of `Initialize` followed by the class's own `InitializeUnique`. |
| `ReadCoilsInputsResponseMessage.FieldsFrame` | Modbus/Message/ReadCoilsInputsResponse.cs:30-39 | A decoded response re-encodes to the bytes it came from. |
| `ReadCoilsInputsResponseMessage.RoundTrip` | Modbus/Message/ReadCoilsInputsResponse.cs:30-39 | A response survives encoding and decoding, its discretes padded to whole bytes. |
| `ReadHoldingInputRegistersRequestMessage.New` | Modbus/Device/ModbusMaster.cs:104-115 | More than 127 points raises ArgumentOutOfRangeException; otherwise the request holds its fields. |
| `ReadHoldingInputRegistersRequestMessage.Create` | Modbus/Device/ModbusSlave.cs:87-105 | A frame of 6 bytes or more decodes start and count. A shorter one raises FormatException. `Create` is the header check of `Initialize` followed by the class's own `InitializeUnique`. |
| `ReadHoldingInputRegistersRequestMessage.RoundTrip` | Modbus/Device/ModbusSlave.cs:87-105 | A request within the limit survives encoding and decoding. |
| `ReadHoldingInputRegistersRequestMessage.ValidateResponse` | Modbus/Device/ModbusMaster.cs:396-402 | A response is accepted exactly when it is a register response whose byte count is twice the count. |
| `ReadHoldingInputRegistersResponseMessage.New` | Modbus/Message/ReadHoldingInputRegistersResponse.cs:12-22 | Missing data raises ArgumentNullException. The byte count is two per register. |
| `ReadHoldingInputRegistersResponseMessage.Create` | Modbus/Message/ReadHoldingInputRegistersResponse.cs:35-44 | A frame holding its announced even byte count decodes the registers. Otherwise FormatException is raised. `Create` is the header check of `Initialize` followed by the class's own `InitializeUnique`. |
| `ReadHoldingInputRegistersResponseMessage.FieldsFrame` | Modbus/Message/ReadHoldingInputRegistersResponse.cs:35-44 | A decoded response re-encodes to the bytes it came from. |
| `ReadHoldingInputRegistersResponseMessage.RoundTrip` | Modbus/Message/ReadHoldingInputRegistersResponse.cs:35-44 | A response whose byte count matches its registers survives encoding and decoding. |
| `ReadHoldingInputRegistersResponseMessage.NewRoundTrip` | Modbus/Message/ReadHoldingInputRegistersResponse.cs:12-22 | A response built from at most 127 registers survives encoding and decoding. |
| `ReadWriteMultipleRegistersRequestMessage.New` | Modbus/Message/ReadWriteMultipleRegistersRequest.cs:11-29 | The request holds a read part with function code 3 and a write part with function code 16. Limits of either part raise ArgumentOutOfRangeException. |
| `ReadWriteMultipleRegistersRequestMessage.Create` | Modbus/Message/ReadWriteMultipleRegistersRequest.cs:70-88 | A frame holding its announced write byte count decodes both parts; a short one raises FormatException. `Create` is the header check of `Initialize` followed by the class's own `InitializeUnique`. |
| `ReadWriteMultipleRegistersRequestMessage.DecodedFrame` | Modbus/Message/ReadWriteMultipleRegistersRequest.cs:70-88 | A decoded request re-encodes to the bytes it came from. |
| `ReadWriteMultipleRegistersRequestMessage.ReadPartUnit` | Modbus/Message/ReadWriteMultipleRegistersRequest.cs:70-88 | The read part's unit holds frame bytes 2 to 5. |
| `ReadWriteMultipleRegistersRequestMessage.WritePartUnit` | Modbus/Message/ReadWriteMultipleRegistersRequest.cs:70-88 | The write part's unit holds the frame from byte 6 on. |
| `ReadWriteMultipleRegistersRequestMessage.UnitAfterHeader` | Modbus/Message/AbstractModbusMessage.cs:42-46 | The unit after the function code is the frame after the header. |
| `ReadWriteMultipleRegistersRequestMessage.DecodedParts` | Modbus/Message/ReadWriteMultipleRegistersRequest.cs:70-88 | A decodable frame is decoded as its read part and its write part. |
| `ReadWriteMultipleRegistersRequestMessage.Readdressed` | Modbus/Message/ReadWriteMultipleRegistersRequest.cs:76-85 | A part rebuilt under the request's header keeps the part's fields. |
| `ReadWriteMultipleRegistersRequestMessage.RoundTrip` | Modbus/Message/ReadWriteMultipleRegistersRequest.cs:31-47 | A well-formed request survives encoding (header, read part, write part) and decoding. |
| `ReadWriteMultipleRegistersRequestMessage.FrameOfParts` | Modbus/Message/ReadWriteMultipleRegistersRequest.cs:31-47 | The frame splits back into the parts' units. |
| `ReadWriteMultipleRegistersRequestMessage.PartsLayout` | Modbus/Message/ReadWriteMultipleRegistersRequest.cs:31-47 | The frame is the header, then the read part's unit, then the write part's unit. |
| `ReadWriteMultipleRegistersRequestMessage.ReadPartLayout` | Modbus/Message/ReadWriteMultipleRegistersRequest.cs:31-47 | The read part's unit is 5 bytes. |
| `ReadWriteMultipleRegistersRequestMessage.WritePartLayout` | Modbus/Message/ReadWriteMultipleRegistersRequest.cs:31-47 | The write part's unit announces its byte count at offset 4. |
| `ReadWriteMultipleRegistersRequestMessage.ReaddressedUnit` | Modbus/Message/ReadWriteMultipleRegistersRequest.cs:76-85 | Readdressing does not change a part's unit after its function code. |
| `ReadWriteMultipleRegistersRequestMessage.DecodeParts` | Modbus/Message/ReadWriteMultipleRegistersRequest.cs:70-88 | A frame whose parts decode is decoded to exactly those parts. |
| `ReadWriteMultipleRegistersRequestMessage.FrameAsWrittenLosesRequest` | Modbus/Message/AbstractModbusMessage.cs:42-43 | The frame of the request built from slave address 1, read 1 register at 0 and write [5] at 0 is [1, 23] as written, and it does not decode. The intended frame is 13 bytes. |
| `ReadWriteMultipleRegistersRequestMessage.ExampleFrame` | Modbus/Message/ReadWriteMultipleRegistersRequest.cs:31-47 | The intended frame of that request is 1 23 0 0 0 1 0 0 0 1 2 0 5. |
| `ReadWriteMultipleRegistersRequestMessage.ExampleReadPart` | Modbus/Message/ReadWriteMultipleRegistersRequest.cs:31-47 | Its read part's unit after the function code is 0 0 0 1. |
| `ReadWriteMultipleRegistersRequestMessage.ExampleWritePart` | Modbus/Message/ReadWriteMultipleRegistersRequest.cs:31-47 | Its write part's unit after the function code is 0 0 0 1 2 0 5. |
| `ReadWriteMultipleRegistersRequestMessage.ValidateResponse` | Modbus/Message/ReadWriteMultipleRegistersRequest.cs:58-68 | A response is accepted exactly when it is a register response whose byte count is twice the read count. |
| `SequenceUtility.Slice` | Modbus/Unme.Common/SequenceUtility.cs:5-26 | A missing source raises ArgumentNullException, and bounds outside it raise ArgumentOutOfRangeException. Otherwise the result is the elements from start, size of them. |
| `SequenceUtility.SliceExamples` | NModbus4.UnitTests/Utility/CollectionUtilityFixture.cs:11-29 | The slices the unit tests check. |
| `SequenceUtility.SliceOfConcatenation` | Modbus/Unme.Common/SequenceUtility.cs:5-26 | Slicing a middle piece of a concatenation gives that piece. |
| `SequenceUtility.Take` | Modbus/Device/ModbusMaster.cs:387-391 | The result is the first n elements, or all of them when there are fewer. |
| `SlaveExceptions.SlaveException.FunctionCode` | Modbus/SlaveException.cs:75-76 | The response's function code, or 0 without a response. |
| `SlaveExceptions.SlaveException.SlaveExceptionCode` | Modbus/SlaveException.cs:82-83 | The response's exception code, or 0 without a response. |
| `SlaveExceptions.SlaveException.SlaveAddress` | Modbus/SlaveException.cs:89-90 | The response's slave address, or 0 without a response. |
| `SlaveExceptions.SlaveException.Text` | Modbus/SlaveException.cs:61-69 | The base message, followed by the response's description when there is a response. |
| `SlaveExceptions.ProjectionsOfResponse` | NModbus4.UnitTests/SlaveExceptionFixture.cs:10-75 | Every projection of an exception built from a response reads the response, and without a response they are all 0. |
| `SlaveExceptionResponseMessage.New` | Modbus/Device/ModbusSlave.cs:276-279 | An exception response carries its address, function code and exception code. |
| `SlaveExceptionResponseMessage.Create` | Modbus/IO/ModbusTransport.cs:194-197 | A frame of 3 bytes or more with a function code above 128 decodes. Otherwise FormatException is raised. `Create` is the header check of `Initialize` followed by the class's own `InitializeUnique`. |
| `SlaveExceptionResponseMessage.RoundTrip` | Modbus/IO/ModbusTransport.cs:194-197 | An exception response survives encoding and decoding. |
| `StreamResources.StreamResource.constructor` | Modbus/IO/ModbusRtuTransport.cs:96 | A stream starts with its scripted input and no events. |
| `StreamResources.StreamResource.Read` | Modbus/IO/ModbusRtuTransport.cs:96 | At most the next chunk's size of input bytes is copied into the buffer at the offset, and nothing else in the buffer changes. A stream with no chunks left raises its failure. |
| `StreamResources.StreamResource.Write` | Modbus/IO/ModbusSerialTransport.cs:28-35 | The frame is recorded as written. |
| `StreamResources.StreamResource.DiscardInBuffer` | Modbus/IO/ModbusSerialTransport.cs:25-26 | The discard is recorded. |
| `StreamResourceUtility.CharOf` | Modbus/IO/StreamResourceUtility.cs:14 | Only byte 13 decodes to CR and only byte 10 to LF. |
| `StreamResourceUtility.Text` | Modbus/IO/StreamResourceUtility.cs:14 | Bytes decode one character each. |
| `StreamResourceUtility.NewLineIndex` | Modbus/IO/StreamResourceUtility.cs:21 | The position of the first CR LF, and none before it. |
| `StreamResourceUtility.ReadLine` | Modbus/IO/StreamResourceUtility.cs:7-24 | The result is the text before the first CR LF, and the input after it is left. A stream that ends first raises its failure. |
| `StreamResourceUtility.ReadByte` | Modbus/IO/StreamResourceUtility.cs:10 | One read of one byte gives the next input byte, or nothing. |
| `StreamResourceUtility.TextNewLine` | Modbus/IO/StreamResourceUtility.cs:21 | The text ends with CR LF exactly when the bytes do. |
| `StreamResourceUtility.LineFound` | Modbus/IO/StreamResourceUtility.cs:21-23 | When the read bytes first end with CR LF, that is the first line end, and the line is the text before it. |
| `StreamResourceUtility.NoNewLineWithin` | Modbus/IO/StreamResourceUtility.cs:21 | Bytes read without a line end at the last two hold no line end. |
| `StreamResourceUtility.NewLineIndexIs` | Modbus/IO/StreamResourceUtility.cs:21 | The first CR LF is where one is and none precedes it. |
| `StreamResourceUtility.ReadLineExample` | NModbus4.UnitTests/IO/ModbusAsciiTransportFixture.cs:25-43 | The line ":0A" is read up to its CR LF. |
| `WriteMultipleCoilsRequestMessage.New` | Modbus/Message/WriteMultipleCoilsRequest.cs:22-29 | The count is the data length, truncated to 16 bits. A count above 2040 raises ArgumentOutOfRangeException. The byte count is the packed length. |
| `WriteMultipleCoilsRequestMessage.Create` | Modbus/Message/WriteMultipleCoilsRequest.cs:81-92 | A frame holding its announced byte count decodes. A short one raises FormatException, and an out-of-limit count raises ArgumentOutOfRangeException. `Create` is the header check of `Initialize` followed by the class's own `InitializeUnique`. |
| `WriteMultipleCoilsRequestMessage.DecodedFrame` | Modbus/Message/WriteMultipleCoilsRequest.cs:81-92 | A decoded request re-encodes to the bytes it came from. |
| `WriteMultipleCoilsRequestMessage.FieldsFrame` | Modbus/Message/WriteMultipleCoilsRequest.cs:81-92 | The frame of the decoded fields is the frame's prefix. |
| `WriteMultipleCoilsRequestMessage.DecodedRequest` | Modbus/Message/WriteMultipleCoilsRequest.cs:81-92 | The decoded request holds the frame's start, count, byte count and unpacked data. |
| `WriteMultipleCoilsRequestMessage.RoundTrip` | Modbus/Message/WriteMultipleCoilsRequest.cs:81-92 | A request survives encoding and decoding, its discretes padded to whole bytes. |
| `WriteMultipleCoilsRequestMessage.DecodeLayout` | Modbus/Message/WriteMultipleCoilsRequest.cs:81-92 | Laid-out fields decode to those fields. |
| `WriteMultipleCoilsRequestMessage.DecodeFields` | Modbus/Message/WriteMultipleCoilsRequest.cs:81-92 | A frame of this layout decodes to its fields. |
| `WriteMultipleCoilsRequestMessage.FrameLayout` | Modbus/Message/WriteMultipleCoilsRequest.cs:81-92 | The frame is header, start, count, byte count, packed data. |
| `WriteMultipleCoilsRequestMessage.NewRoundTrip` | Modbus/Message/WriteMultipleCoilsRequest.cs:22-29 | A request built from at most 2040 coils survives encoding and decoding. |
| `WriteMultipleCoilsRequestMessage.ValidateResponse` | Modbus/Message/WriteMultipleCoilsRequest.cs:64-79 | A response is accepted exactly when it echoes the start address and count. |
| `WriteMultipleCoilsResponseMessage.New` | Modbus/Message/WriteMultipleCoilsResponse.cs:12-17 | More than 2040 points raises ArgumentOutOfRangeException. |
| `WriteMultipleCoilsResponseMessage.Create` | Modbus/Message/WriteMultipleCoilsResponse.cs:46-50 | A frame of 6 bytes decodes start and count. A short one raises FormatException, and an out-of-limit count raises ArgumentOutOfRangeException. `Create` is the header check of `Initialize` followed by the class's own `InitializeUnique`. |
| `WriteMultipleCoilsResponseMessage.RoundTrip` | Modbus/Message/WriteMultipleCoilsResponse.cs:46-50 | A response within the limit survives encoding and decoding. |
| `WriteMultipleRegistersRequestMessage.New` | NModbus4.UnitTests/Message/WriteMultipleRegistersRequestFixture.cs:11-21 | The count is the data length, truncated to 16 bits. A count above 127 raises ArgumentOutOfRangeException. The byte count is two per register. |
| `WriteMultipleRegistersRequestMessage.Create` | Modbus/Device/ModbusSlave.cs:157-175 | A frame holding its announced byte count decodes. A short one raises FormatException, and an out-of-limit count raises ArgumentOutOfRangeException. `Create` is the header check of `Initialize` followed by the class's own `InitializeUnique`. |
| `WriteMultipleRegistersRequestMessage.DecodedFrame` | Modbus/Device/ModbusSlave.cs:157-175 | A decoded request re-encodes to the bytes it came from. |
| `WriteMultipleRegistersRequestMessage.FieldsFrame` | Modbus/Device/ModbusSlave.cs:157-175 | The frame of the decoded fields is the frame's prefix. |
| `WriteMultipleRegistersRequestMessage.DecodedRequest` | Modbus/Device/ModbusSlave.cs:157-175 | The decoded request holds the frame's start, count, byte count and registers. |
| `WriteMultipleRegistersRequestMessage.RoundTrip` | NModbus4.UnitTests/Message/WriteMultipleRegistersRequestFixture.cs:30-36 | A request survives encoding and decoding. |
| `WriteMultipleRegistersRequestMessage.DecodeFields` | Modbus/Device/ModbusSlave.cs:157-175 | A frame of this layout decodes to its fields. |
| `WriteMultipleRegistersRequestMessage.FrameLayout` | Modbus/Device/ModbusMaster.cs:241-251 | The frame is header, start, count, byte count, registers. |
| `WriteMultipleRegistersRequestMessage.NewRoundTrip` | NModbus4.UnitTests/Message/WriteMultipleRegistersRequestFixture.cs:30-36 | A request built from at most 127 registers survives encoding and decoding. |
| `WriteMultipleRegistersRequestMessage.ValidateResponse` | Modbus/Device/ModbusMaster.cs:241-251 | A response is accepted exactly when it echoes the start address and count. |
| `WriteMultipleRegistersResponseMessage.New` | Modbus/Device/ModbusSlave.cs:157-175 | More than 127 points raises ArgumentOutOfRangeException. |
| `WriteMultipleRegistersResponseMessage.Create` | Modbus/Device/ModbusMaster.cs:241-251 | A frame of 6 bytes decodes start and count; a short one raises FormatException. `Create` is the header check of `Initialize` followed by the class's own `InitializeUnique`. |
| `WriteMultipleRegistersResponseMessage.RoundTrip` | Modbus/Device/ModbusMaster.cs:241-251 | A response within the limit survives encoding and decoding. |
| `WriteSingleCoilRequestResponseMessage.New` | Modbus/Message/WriteSingleCoilRequestResponse.cs:14-19 | The value is 0xFF00 exactly when the coil is set on, and 0 exactly when it is off. |
| `WriteSingleCoilRequestResponseMessage.Create` | Modbus/Message/WriteSingleCoilRequestResponse.cs:55-59 | A frame of 6 bytes decodes address and value; a short one raises FormatException. `Create` is the header check of `Initialize` followed by the class's own `InitializeUnique`. |
| `WriteSingleCoilRequestResponseMessage.RoundTrip` | Modbus/Message/WriteSingleCoilRequestResponse.cs:55-59 | The message survives encoding and decoding. |
| `WriteSingleCoilRequestResponseMessage.ValidateResponse` | Modbus/Message/WriteSingleCoilRequestResponse.cs:38-53 | A response is accepted exactly when it equals the request. Any other class raises InvalidCastException, and any difference raises IOException. |
| `WriteSingleRegisterRequestResponseMessage.New` | Modbus/Device/ModbusMaster.cs:208-216 | The message has function code 6 and holds the address and value. |
| `WriteSingleRegisterRequestResponseMessage.Create` | Modbus/Device/ModbusSlave.cs:142-155 | A frame of 6 bytes decodes address and value; a short one raises FormatException. `Create` is the header check of `Initialize` followed by the class's own `InitializeUnique`. |
| `WriteSingleRegisterRequestResponseMessage.RoundTrip` | Modbus/Device/ModbusSlave.cs:142-155 | The message survives encoding and decoding. |
| `WriteSingleRegisterRequestResponseMessage.ValidateResponse` | Modbus/Device/ModbusMaster.cs:208-216 | A response is accepted exactly when it equals the request. |

## Left out

- **Missing source files.** The following files are not part of this model:
  - `ReadHoldingInputRegistersRequest`, `WriteSingleRegisterRequestResponse`,
    `WriteMultipleRegistersRequest`, `WriteMultipleRegistersResponse` and
    `SlaveExceptionResponse`;
  - `ModbusUtility`, the `Modbus` constants class, `DataStore`,
    `DataStoreFactory`, `DiscreteCollection` and `RegisterCollection`.

  These are modelled from their use sites, their sibling classes, their unit
  tests and the Modbus Application Protocol specification. The model assumes:
  - the 2040-discrete and 127-register message limits;
  - minimum frame size 2;
  - exception offset 128;
  - default retries 3 and a 250 ms wait;
  - data-store reads and writes outside a bank raise
    `InvalidModbusRequestException(IllegalDataAddress)`, with entry 0 unused;
  - an odd register byte count raises FormatException.
- **Timing and tracing.** `Sleep` calls, `lock`, `Debug` output, `ReadTimeout`
  and `WriteTimeout`, and `Dispose` are left out: they have no effect on
  values.
- **Async master methods.** The asynchronous variants of the master methods
  are left out; they perform the same exchange as the synchronous ones.
- **Listening.** `ModbusSlave.ListenAsync`, the UDP, TCP and serial slaves,
  and the TCP client adapter are left out, because they are network and
  thread plumbing around `ApplyRequest`.
- **Shared store dictionary.** The static `ConcurrentDictionary` of data
  stores is one `DataStoreDictionary` object that the slaves share. Its
  thread safety is not modelled.
- **Data stores are values.** A `DataStore` is a value, so aliasing of a store
  held in two places is not captured. The data store's own read and write
  events are left out.
- **Request hook.** The `ModbusSlaveRequestReceived` handler is a function
  from a request to an optional rejection code, because the handler's own
  code is outside the library.
- **WriteComplete.** It is recorded as a flag in the slave's event log.
- ModbusTransports.ModbusTransport.UnicastMessage: states the messages
  written (through the ghost `written` record) and the number of frames, not
  the bytes of the whole run. The bytes of each frame are stated once per
  write, by `Write` and `Exchange`.
- ModbusTransports.ModbusTransport.UnicastMessage: the attempt counter is an
  unbounded integer; the source's 32-bit `int` overflow after about 2^31
  busy retries is not modelled.
- StreamResources.StreamResource.Write: writing never fails, because a
  failing write raises an exception that the retry loop treats like any
  other I/O error, which the read path already covers.
- StreamResources.StreamResource.DiscardInBuffer: only recorded as an
  event. The scripted input is not cleared, so pending bytes that a real
  port would drop stay readable.
- ModbusRtuTransport.RequestBytesToRead: function code 23 raises
  NotImplementedException, as in the source. An RTU slave therefore cannot
  receive a read/write request.
- ModbusIpTransport.OnShouldRetryResponse: the stale-response test follows
  the code. It re-reads only when the response id is below the request id
  and within the threshold, so it does not wrap around at 65535.
- ModbusTransports.ReceiveWritten: stated for responses decoded as their
  own class only (`KindOf(m)`). Decoding one class's frame as another class
  is not characterised.
- ModbusTransports.ModbusTransport.UnicastMessage: only the last attempt's
  result is tied to the bytes it read. Earlier attempts are described by
  the attempt log and the frames written, not by the bytes each one read.
- ModbusTransports.ModbusTransport.ReadAnswer (and `ReadResponse`,
  `Exchange`, `UnicastMessage` and the master operations built on it): a
  stream that runs out of chunks, or an IP read that returns 0 bytes, ends
  the read with the stream's error (`Stalled`). Nothing is then stated about
  what the unread bytes would have held.
- ModbusTransports.AnswerWritten: it covers one response written ahead of
  the rest of the input. A run of several is obtained by applying it once
  per response.
- ModbusMessageObjects.ModbusMessage.Initialize: after a failure the store
  holds the header. Which of the class's own fields were already set when
  the failure was raised is not stated.
- DiscriminatedUnions.DiscriminatedUnion.ToString and
  `SlaveExceptions.SlaveException.Text`: the formatting is a parameter, so
  the exact English text and the resource strings are not modelled.
- ModbusUtility.CalculateCrc: the source's lookup table is not part of
  this model. The CRC is computed bit by bit with the polynomial it encodes
  (0xA001). Its contract states only the length. One known value
  (`CrcExample`) and its agreement with the checksum test are proved.
- ModbusAsciiTransport.BuildMessageFrame: a read/write request (function
  code 23) is framed with its intended frame, not with the source's
  `[slave address, 23]`. The as-written frame is modelled on the message
  side (`ReadWriteFrameAsWritten`, `FrameAsWrittenLosesRequest`).
- ModbusRtuTransport.BuildMessageFrame: the same; a read/write request is
  framed as intended, not as `[slave address, 23]` plus its CRC.
- ModbusSerialTransport.BuildMessageFrame: inherits the intended
  read/write request frame from the two builders above.
- ModbusSerialTransport.ChecksumsMatch (and the ASCII and RTU tests): the
  checksum is taken over the intended frame of the decoded message. This
  differs from the source's frame only for a read/write request
  (`MessageFramesAgree`), for which the source checks `[slave address, 23]`.
- SequenceUtility.Slice: the bound `startIndex + size` is checked over
  unbounded integers. The source adds them in a 32-bit `int`, so a size near
  2^31 wraps the sum negative and passes the bounds test. The core's callers pass
  small values.

## Findings

| source | as written | input that shows it | evidently intended | confidence | as-written member | corrected member |
|---|---|---|---|---|---|---|
| Modbus/Message/ReadWriteMultipleRegistersRequest.cs:31-47 | The request overrides `ProtocolDataUnit` but not `MessageFrame`. `MessageFrame` (AbstractModbusMessage.cs:42-43) is built from the shared field store, where the read/write request stores only the header, so the ASCII and RTU transports send only the slave address and function code 23. | A request built with slave address 1, read 1 register at 0, write [5] at 0: its serial frame is [1, 23] instead of 1 23 0 0 0 1 0 0 0 1 2 0 5. | The frame is the slave address followed by the overridden protocol data unit, which holds both parts. | not executed | `ReadWriteMultipleRegistersRequestMessage.FrameAsWrittenLosesRequest` | `ReadWriteMultipleRegistersRequestMessage.RoundTrip` |
| Modbus/Device/ModbusSlave.cs:18-21 | The constructor assigns `DataStore` before `UnitId`. The setter writes `DataStores[UnitId]` while `UnitId` is still 0, which replaces address 0's store with a default store. | The dictionary already holds a store for address 0; a slave is constructed with unit id 5. | Construction adds a default store for its own unit id only and leaves every other address alone. | not executed | `ModbusSlaves.ConstructionResetsAddressZero` | `ModbusSlaves.ConstructionKeepsOtherStores` |

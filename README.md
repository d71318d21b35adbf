# Kimbus in Dafny

Kimbus is a C# Modbus library. A **master** builds Modbus request PDUs and sends them through a
transport. The TCP transport wraps each PDU in an MBAP header with a 16-bit transaction counter.
The master then checks and decodes the reply. A **slave** (`MbTcpSlave`) takes one received
frame, checks its MBAP header, dispatches on the function code to handlers that call the
user's callbacks, and answers with a normal or an exception reply. The repository also holds an
older stand-alone slave project (`Kimbus.Slave`). Its handlers differ only in their exception
handling, and its `Respond` refuses every request.

This model covers:

- **The `Try<T>` carrier and its LINQ binds** (`try.dfy`). C# delegates that may throw are
  modelled by what running them does: they return a value or throw an exception of a given kind.
- **Chunking** (`enumerable_extensions.dfy`). `Chunk` and `YieldChunkElements` are a loop over
  a sequence, proved equal to a pure `Chunks` function.
- **Byte encodings** (`codec.dfy`). Big-endian words, and coils packed least significant bit
  first, eight to a byte.
- **The MBAP header** (`mb_helpers.dfy`). `UnwrapMbapHeader`, and the frame that
  `GenerateResponse` builds.
- **The master** (`mb_master.dfy`). Builders, response checks and decoders are functions
  returning `Outcome` (`Returns` or `Throws`). The public operations are methods of a class over
  a transport object that logs sends and counts receives (`mb_transport.dfy`).
- **The TCP transport** (`mb_tcp_transport.dfy`). The socket is reduced to three fields:
  connected, closed, and the frames written. What the network does comes in as arguments.
- **The slave's handlers** (`modbus_functions.dfy`). Read and write handlers, and the two reply
  generators, which fill arrays.
- **The slave's `Respond`** (`mb_tcp_slave.dfy`). A class whose `Respond` method works over
  arrays, proved equal to the pure `Reply` function.
- **The older slave project** (`legacy_modbus_functions.dfy`, `legacy_tcp_slave.dfy`).
- **End-to-end lemmas** (`round_trips.dfy`). The master's request is framed by the transport,
  answered by the slave, and decoded by the master.

Nullable arguments are `Option`s, and `None` stands for `null`. A user callback is a function
from its arguments to what calling it does. It either returns, or throws with or without an
inner exception.

Some of the library's behaviour is surprising, and the model states and proves it as written:

- **The slave can crash on a throwing callback.** The slave's catch blocks build their log
  message as `"..." + ex.InnerException != null ? ... : ...`. C# parses the test as
  `("..." + ex.InnerException) != null`, which always holds. So a callback exception without an
  inner exception makes the handler throw instead of answering SlaveDeviceFailure
  (`ModbusFunctions.ReadFaultsWithoutInner`).
- **The master rejects correct echoes of writes of 256 or more values.** It reads the quantity
  in a multiple-write echo as `byte3 | byte4`, without a shift. A correct echo of a write of 256
  values or more is therefore never accepted (`MbMaster.FaithfulEchoAccepted`,
  `Interop.WriteCoilsRoundTrip`).
- **The file-write request checks only where the record starts.** A record is cut short at the
  end of the file, and can even be empty (`MbMaster.WriteFileAcceptsEmptyRecord`). The echo check
  compares only the positions that both byte lists have (`MbMaster.TruncatedFileEchoAccepted`).
- **Function code 4 has no length check in the slave.** It is handled whatever the request
  length (`MbTcpSlave.InputRegistersAnyLength`).
- **The older slave refuses everything.** Its `Respond` answers every framed request with
  IllegalFunction (`LegacyTcpSlave.LegacyAlwaysRefuses`).
- **The tests expect a different exception type from the code.** The master's tests expect
  `ArgumentOutOfRangeException` for out-of-range quantities, but the code throws
  `ArgumentException`. The model follows the code, and both are its `BadArgument` kind.

## Model

| member | source | states |
|---|---|---|
| `Codes.FunctionCodeOf` | Kimbus/MbFunctionCode.cs:3-14 | the function code a byte names is the one whose code is that byte, and every code byte names its function |
| `Codes.ExceptionCodeInjective` | Kimbus/ModbusExceptionCodes.cs:7-121 | distinct exception codes are sent as distinct bytes |
| `TryMonad.Unaggregate` | Kimbus/Helpers/Try.cs:55-63 | an AggregateException is replaced by its inner exception, one level only; any other exception is kept |
| `TryMonad.FromFunc` | Kimbus/Helpers/Try.cs:48-66 | success exactly when the function returns, holding its value; otherwise failure holding the thrown exception, unwrapped once |
| `TryMonad.FromAction` | Kimbus/Helpers/Try.cs:68-80 | success exactly when the action completes; the thrown exception is kept as it is, AggregateException included |
| `TryMonad.Apply` | Kimbus/Helpers/Try.cs:7-10 | success exactly when the function returns, holding its value; otherwise the exception, unwrapped once |
| `TryMonad.ApplyAction` | Kimbus/Helpers/Try.cs:12-19 | a completed action gives success `false`; a throwing one gives its exception, unwrapped once |
| `TryMonad.Success` | Kimbus/Helpers/Try.cs:21-24 | a success holding the value |
| `TryMonad.Failure` | Kimbus/Helpers/Try.cs:26-29 | always a failure, holding the exception, or its inner exception when it is an AggregateException |
| `TryMonad.Select` | Kimbus/Helpers/Try.cs:85-91 | a failure passes through; a success is handed to the projection as a whole |
| `TryMonad.SelectMany` | Kimbus/Helpers/Try.cs:93-102 | a failed input or middle step gives that failure; otherwise the result succeeds exactly when the output projection returns, with its value |
| `TryMonad.SelectManySkipsProjections` | Kimbus/Helpers/Try.cs:98 | with a failed input, neither projection affects the result |
| `TryMonad.SelectManySkipsOutput` | Kimbus/Helpers/Try.cs:99-100 | with a failed middle step, the output projection does not affect the result |
| `TryMonad.SelectManyCapturesOutput` | Kimbus/Helpers/Try.cs:101 | an exception thrown by the output projection becomes a failure |
| `EnumerableExtensions.ChunkLength` | Kimbus/Helpers/EnumerableExtensions.cs:18-20 | a chunk takes at least one element; a chunk size below 1 behaves as 1 |
| `EnumerableExtensions.Chunks` | Kimbus/Helpers/EnumerableExtensions.cs:7-21 | there are no chunks exactly for an empty source; every chunk is non-empty and no longer than the chunk length |
| `EnumerableExtensions.FlattenChunks` | Kimbus/Helpers/EnumerableExtensions.cs:10-12 | the chunks, concatenated in order, give back the source |
| `EnumerableExtensions.ChunkCount` | Kimbus/Helpers/EnumerableExtensions.cs:10-20 | for a positive size there are ceil(n / size) chunks |
| `EnumerableExtensions.ChunkAt` | Kimbus/Helpers/EnumerableExtensions.cs:15-21 | chunk j is the slice starting at j * size, cut short only by the end of the source |
| `EnumerableExtensions.FullChunks` | Kimbus/Helpers/EnumerableExtensions.cs:18-20 | every chunk but the last has exactly `chunkSize` elements |
| `EnumerableExtensions.Chunk` | Kimbus/Helpers/EnumerableExtensions.cs:7-13 | the chunks the enumerator loop yields are exactly `Chunks(source, chunkSize)` |
| `EnumerableExtensions.YieldChunkElements` | Kimbus/Helpers/EnumerableExtensions.cs:15-21 | the chunk is the source from the current element on, of `more + 1` elements unless the source ends first |
| `Codec.HalvesOfWord` | Kimbus/Master/MbMaster.cs:335 | a big-endian word splits back into the two bytes it was read from |
| `Codec.WordOfHalves` | Kimbus/Master/MbMaster.cs:56-57 | the high and low bytes of a 16-bit value read back as that value |
| `Codec.FunctionAndWords` | Kimbus/Master/MbMaster.cs:53-60 | five bytes: the function code, then two words that read back big-endian as the given ones |
| `Codec.Ceil8` | Kimbus/Master/MbMaster.cs:229 | `n / 8 + (n % 8 != 0 ? 1 : 0)` is the least c with n <= 8c |
| `Codec.SetHighBit` | Kimbus/Slave/ModbusFunctions.cs:15 | `fc \| 0x80` has the high bit set and the low seven bits of fc |
| `Codec.OrBits` | Kimbus/Master/MbMaster.cs:342 | bit n of `a \| b` is set exactly when it is set in a or in b |
| `Codec.PackByte` | Kimbus/Master/MbMaster.cs:30-32 | bit n of the byte is value n, and bits past the last value are clear |
| `Codec.BytesToBitsAt` | Kimbus/Master/MbMaster.cs:233 | bit k of the expanded bytes is bit k mod 8 of byte k div 8 |
| `Codec.Take` | Kimbus/Master/MbMaster.cs:158 | `Take(count)` is the prefix of length count, or the whole when shorter |
| `Codec.BitsOf` | Kimbus/Master/MbMaster.cs:232-233 | exactly `count` coils, coil i being bit i mod 8 of byte i div 8 |
| `Codec.PackBits` | Kimbus/Master/MbMaster.cs:96 | coils packed eight to a byte take ceil(n / 8) bytes |
| `Codec.PackBitsAt` | Kimbus/Master/MbMaster.cs:96 | bit n of packed byte j is coil 8j + n, and clear past the last coil |
| `Codec.PackedByteAt` | Kimbus/Master/MbMaster.cs:96 | packed byte j holds coils 8j to 8j + 7 |
| `Codec.UnpackPackedBits` | Kimbus/Slave/ModbusFunctions.cs:116 | unpacking packed coils gives the coils back |
| `Codec.WordsToBytes` | Kimbus/Master/MbMaster.cs:127 | 2n bytes, each word high byte first |
| `Codec.BytesToWords` | Kimbus/Slave/ModbusFunctions.cs:146 | an even run of bytes reads as half as many big-endian words |
| `Codec.PairChunks` | Kimbus/Slave/ModbusFunctions.cs:146 | an even run of bytes cut in chunks of two gives the pairs at 2j |
| `Codec.ChunkedWords` | Kimbus/Master/MbMaster.cs:242 | reading words through `Chunk(2)` gives the same words as BytesToWords |
| `Codec.WordsRoundTrip` | Kimbus/Master/MbMaster.cs:127 | words written out as bytes read back as the same words |
| `Codec.BytesRoundTrip` | Kimbus/Slave/ModbusFunctions.cs:146 | an even run of bytes read as words writes back as the same bytes |
| `MbHelpers.UnwrapMbapHeader` | Kimbus/Helpers/MbHelpers.cs:9-32 | fails exactly for fewer than 7 bytes, a non-zero protocol id, or a length field other than size - 6; otherwise gives the transaction id, unit id and the PDU from byte 7, one byte shorter than the length field |
| `MbHelpers.HiOfInt` | Kimbus/Slave/ModbusFunctions.cs:18 | `(byte)(x >> 8)` is the high byte for a 16-bit x |
| `MbHelpers.LoOfInt` | Kimbus/Slave/ModbusFunctions.cs:19 | `(byte)x` is the low byte for a 16-bit x |
| `MbHelpers.MbapFrame` | Kimbus/Slave/ModbusFunctions.cs:168-181 | seven header bytes followed by the buffer unchanged |
| `MbHelpers.UnwrapFrame` | Kimbus/Helpers/MbHelpers.cs:9-32 | a frame built for transaction id t, unit u and buffer b unwraps to (t, u, b) when the length fits |
| `MbHelpers.FrameOfUnwrapped` | Kimbus/Helpers/MbHelpers.cs:28-31 | every ADU that unwraps is the frame of what it unwraps to |
| `MbTransport.Transport.constructor` | Kimbus/Master/IMbTransport.cs:7-14 | a transport with the given behaviour, nothing sent or received yet |
| `MbTransport.Transport.Send` | Kimbus/Master/IMbTransport.cs:11 | the request is logged and answered by the send behaviour |
| `MbTransport.Transport.Receive` | Kimbus/Master/IMbTransport.cs:12 | the receive is counted and answered by the receive behaviour |
| `MbMaster.ToMbByte` | Kimbus/Master/MbMaster.cs:22-34 | fails exactly for more than eight values; otherwise bit n is value n and higher bits are clear |
| `MbMaster.PackedCoils` | Kimbus/Master/MbMaster.cs:96 | `Chunk(8).Select(ToMbByte)` never throws and equals the packed coils |
| `MbMaster.CreateReadPdu` | Kimbus/Master/MbMaster.cs:36-61 | fails exactly for count 0, above 2000 for codes 1 and 2, or above 123 for codes 3 and 4; otherwise five bytes: code, address and count big-endian |
| `MbMaster.CoilValue` | Kimbus/Master/MbMaster.cs:318 | a coil's value field is 0xFF00 or 0x0000 |
| `MbMaster.CreateWriteSingleCoilPdu` | Kimbus/Master/MbMaster.cs:63-68 | code 5, the address, then FF 00 for on or 00 00 for off |
| `MbMaster.SingleCoilValue` | Kimbus/Master/MbMaster.cs:66 | the value field reads 0xFF00 exactly when the coil is on |
| `MbMaster.CreateWriteSingleRegisterPdu` | Kimbus/Master/MbMaster.cs:70-80 | code 6, the address and the value big-endian |
| `MbMaster.CreateWriteMultipleCoilsPdu` | Kimbus/Master/MbMaster.cs:82-111 | null values are a null-argument error; an empty list or more than 0x7B0 coils is a bad argument; anything else is built |
| `MbMaster.WriteMultipleCoilsLayout` | Kimbus/Master/MbMaster.cs:96-110 | code 15, address, quantity n, byte count ceil(n / 8), then the coils packed LSB first with clear padding bits, unpacking to the values |
| `MbMaster.CreateWriteMultipleRegistersPdu` | Kimbus/Master/MbMaster.cs:113-141 | null values are a null-argument error; an empty list or more than 123 values is a bad argument; anything else is built |
| `MbMaster.WriteMultipleRegistersLayout` | Kimbus/Master/MbMaster.cs:127-140 | code 16, address, quantity n, byte count 2n, then data reading back as the values |
| `MbMaster.WriteMultipleRegistersData` | Kimbus/Master/MbMaster.cs:127-138 | the data of the request is the values, high byte first |
| `MbMaster.RecordWindow` | Kimbus/Master/MbMaster.cs:154-159 | the record's bytes from its start, at most recordSize of them, shorter only at the end of the file |
| `MbMaster.CreateWriteFilePdu` | Kimbus/Master/MbMaster.cs:143-152 | a null file is a null-argument error; an empty file, a record size of 0 or above 244, or a record starting past the end of the file is a bad argument |
| `MbMaster.FilePduLayout` | Kimbus/Master/MbMaster.cs:166-183 | code 0x15, data length = size - 2, reference type 6, file and record numbers, record length in words, then the padded record |
| `MbMaster.WriteFileLayout` | Kimbus/Master/MbMaster.cs:151-185 | the built request carries the record window, padded with one zero to an even length, and its header fields as FilePduLayout states |
| `MbMaster.RecordPdu` | Kimbus/Master/MbMaster.cs:161-183 | the request for one record holds the record and then only zero padding to an even length |
| `MbMaster.PaddedTail` | Kimbus/Master/MbMaster.cs:161-164 | a padded record is the record followed by zeros, of even length |
| `MbMaster.WriteFileAcceptsEmptyRecord` | Kimbus/Master/MbMaster.cs:151-159 | a record that starts exactly at the end of the file is accepted and sent with no data |
| `MbMaster.CheckFunction` | Kimbus/Master/MbMaster.cs:218-225 | no error exactly when the response's code, high bit masked off, is the function asked for |
| `MbMaster.CheckModbusException` | Kimbus/Master/MbMaster.cs:209-216 | no error exactly when the high bit is clear; otherwise the exception code of byte 1 is raised |
| `MbMaster.CheckReadResponsePduHeader` | Kimbus/Master/MbMaster.cs:188-207 | passes exactly when the code matches, the high bit is clear, and byte 1 equals both the expected count and size - 2; errors come in the order the checks run |
| `MbMaster.UnwrapDiscretePdu` | Kimbus/Master/MbMaster.cs:227-235 | succeeds exactly on a well-formed reply of ceil(count / 8) bytes, giving exactly count coils LSB first; otherwise the header check's error |
| `MbMaster.UnwrapAnalogPdu` | Kimbus/Master/MbMaster.cs:237-244 | succeeds exactly on a well-formed reply of 2 * count bytes, giving count big-endian words; otherwise the header check's error |
| `MbMaster.CheckWriteSingleResponse` | Kimbus/Master/MbMaster.cs:352-374 | accepted exactly when the echo carries the function code, the address and the value; an exception reply raises its code |
| `MbMaster.OrBytes` | Kimbus/Master/MbMaster.cs:342 | the quantity bytes OR-ed without a shift: every bit set in either byte |
| `MbMaster.CheckWriteMultipleResponse` | Kimbus/Master/MbMaster.cs:328-350 | accepted exactly when the echo carries code and address and its quantity bytes OR-ed equal the count written |
| `MbMaster.MultipleWriteNeedsSmallCount` | Kimbus/Master/MbMaster.cs:342-347 | no echo is accepted for a write of 256 values or more |
| `MbMaster.FaithfulEchoAccepted` | Kimbus/Master/MbMaster.cs:342-347 | a correct echo is accepted exactly when the count is below 256 |
| `MbMaster.CheckWriteFileResponse` | Kimbus/Master/MbMaster.cs:376-389 | accepted exactly when the code is 0x15 and the response agrees with the request on every position both have |
| `MbMaster.TruncatedFileEchoAccepted` | Kimbus/Master/MbMaster.cs:383 | every non-empty prefix of the request is accepted as its echo |
| `MbMaster.UnwrapUserFunctionPdu` | Kimbus/Master/MbMaster.cs:450-461 | succeeds exactly when the reply starts with the function code, giving the rest of it |
| `MbMaster.Query` | Kimbus/Master/MbMaster.cs:261-265 | a failed build or send is the result; success exactly when build, send and receive succeed and the check returns |
| `MbMaster.QueryIgnoresTransport` | Kimbus/Master/MbMaster.cs:262-264 | when the PDU cannot be built, the transport does not affect the result |
| `MbMaster.UserQuery` | Kimbus/Master/MbMaster.cs:442-445 | succeeds exactly when send and receive succeed and the reply starts with the function code, giving the rest |
| `MbMaster.Master.constructor` | Kimbus/Master/MbMaster.cs:15-20 | the master talks through the given transport |
| `MbMaster.Master.Exchange` | Kimbus/Master/MbMaster.cs:261-265 | sends only a built PDU and receives only after a successful send; the result is the query's |
| `MbMaster.Master.ReadCoils` | Kimbus/Master/MbMaster.cs:259-268 | the read-coils query; a request that cannot be built fails without touching the transport |
| `MbMaster.Master.ReadDiscreteInputs` | Kimbus/Master/MbMaster.cs:270-279 | the read-inputs query; a request that cannot be built fails without touching the transport |
| `MbMaster.Master.ReadHoldingRegisters` | Kimbus/Master/MbMaster.cs:281-290 | the holding-register query; a request that cannot be built fails without touching the transport |
| `MbMaster.Master.ReadInputRegisters` | Kimbus/Master/MbMaster.cs:292-301 | the input-register query; a request that cannot be built fails without touching the transport |
| `MbMaster.Master.WriteCoils` | Kimbus/Master/MbMaster.cs:303-326 | null fails at once; one value is a code 5 write checked against its value; otherwise a code 15 write, none sent for 0 or more than 0x7B0 values |
| `MbMaster.Master.WriteHoldingRegisters` | Kimbus/Master/MbMaster.cs:391-419 | null or no values fail at once; one value is a code 6 write; more a code 16 write, none sent for more than 123 |
| `MbMaster.Master.WriteFile` | Kimbus/Master/MbMaster.cs:421-435 | a null file fails at once; otherwise the file-write query checked against the request sent |
| `MbMaster.Master.SendUserFunction` | Kimbus/Master/MbMaster.cs:438-448 | sends the code followed by the data as they are; receives only after a successful send |
| `MbTcpTransport.NextId` | Kimbus/Master/MbTcpTransport.cs:24 | the next transaction id is the current one plus 1 modulo 2^16 |
| `MbTcpTransport.AdvanceAdds` | Kimbus/Master/MbTcpTransport.cs:22-25 | k advances add k modulo 2^16 |
| `MbTcpTransport.LittleNibble` | Kimbus/Master/MbTcpTransport.cs:27-30 | the byte that agrees with the value in its low eight bits |
| `MbTcpTransport.BigNibble` | Kimbus/Master/MbTcpTransport.cs:32-35 | the number of whole 256s in the value (see also NibblesRejoin) |
| `MbTcpTransport.NibblesRejoin` | Kimbus/Master/MbTcpTransport.cs:27-35 | `BigNibble(v) << 8 \| LittleNibble(v) == v` |
| `MbTcpTransport.Collect` | Kimbus/Master/MbTcpTransport.cs:75-79 | the buffer holds every received segment, in order |
| `MbTcpTransport.ReceiveOutcome` | Kimbus/Master/MbTcpTransport.cs:87-110 | a time-out or an empty buffer is a socket failure; otherwise success exactly when the frame unwraps, giving its PDU |
| `MbTcpTransport.ReceiveFrame` | Kimbus/Master/MbTcpTransport.cs:103-107 | a frame received in time gives its PDU whatever its transaction and unit ids |
| `MbTcpTransport.TcpTransport.constructor` | Kimbus/Master/MbTcpTransport.cs:37-47 | the counter starts at 0 and the socket is not connected |
| `MbTcpTransport.TcpTransport.NextTransaction` | Kimbus/Master/MbTcpTransport.cs:22-25 | the counter advances to NextId, nothing else changes |
| `MbTcpTransport.TcpTransport.Connect` | Kimbus/Master/MbTcpTransport.cs:51-64 | a wait that ends without a connection closes the socket and is a time-out; a connection gives success `false`; a thrown exception is passed on unwrapped once |
| `MbTcpTransport.TcpTransport.Receive` | Kimbus/Master/MbTcpTransport.cs:66-118 | disconnected: NotConnected, counter unchanged; connected: the outcome of the received bytes, the counter advanced once, and the socket closed on a time-out or an empty buffer |
| `MbTcpTransport.TcpTransport.Send` | Kimbus/Master/MbTcpTransport.cs:120-147 | disconnected: fails with nothing changed; readable: closes and fails; otherwise writes the PDU framed with the current id, which does not advance |
| `MbTcpTransport.SendAfterReceive` | Kimbus/Master/MbTcpTransport.cs:115-139 | a send after a receive frames its request with the next transaction id |
| `ModbusFunctions.ToUshort` | Kimbus/Slave/ModbusFunctions.cs:49 | `(ushort)x` keeps a 16-bit x |
| `ModbusFunctions.ReadStep` | Kimbus/Slave/ModbusFunctions.cs:32-64 | no callback: IllegalFunction; count outside [1, max]: IllegalDataValue; a callback's code other than Ok is answered as that code with no data; null values or a number other than count is a device failure; Ok only when the callback returns Ok with exactly count values, which are unpacked |
| `ModbusFunctions.ReadIgnoresCallbackOutOfRange` | Kimbus/Slave/ModbusFunctions.cs:42-45 | an out-of-range count is refused whatever the callback |
| `ModbusFunctions.Handle` | Kimbus/Slave/ModbusFunctions.cs:65-70 | a thrown callback exception is answered with device failure only when it has an inner exception; otherwise the handler faults |
| `ModbusFunctions.ReadFaultsWithoutInner` | Kimbus/Slave/ModbusFunctions.cs:65-70 | a read callback throwing without an inner exception makes Read fault |
| `ModbusFunctions.Read` | Kimbus/Slave/ModbusFunctions.cs:32-72 | faults exactly when the callback throws without an inner exception; with one, answers device failure; a callback's code other than Ok is answered as that code; null values or a number other than count is a device failure; Ok only with the unpacked values of a callback that returned Ok and exactly count values; any other code carries no data (see also ReadFaultsWithoutInner, ReadIgnoresCallbackOutOfRange) |
| `ModbusFunctions.ReadDigitals` | Kimbus/Slave/ModbusFunctions.cs:74-78 | faults exactly as Read does; an Ok answer has ceil(count / 8) bytes from which the callback's count values unpack again (see also ReadDigitalsReply) |
| `ModbusFunctions.ReadAnalogs` | Kimbus/Slave/ModbusFunctions.cs:80-84 | faults exactly as Read does; an Ok answer has 2 * count bytes that read back as the callback's values (see also ReadAnalogsReply) |
| `ModbusFunctions.ReadDigitalsReply` | Kimbus/Slave/ModbusFunctions.cs:74-78 | a successful bit read answers with ceil(count / 8) bytes, value i at bit i mod 8 of byte i div 8, higher bits clear |
| `ModbusFunctions.ReadAnalogsReply` | Kimbus/Slave/ModbusFunctions.cs:80-84 | a successful register read answers with 2 * count bytes reading back as the values |
| `ModbusFunctions.WriteCoilsStep` | Kimbus/Slave/ModbusFunctions.cs:87-121 | no callback or no input: IllegalFunction; a single coil must be FF00 or 0000 and passes one value; otherwise count in [1, 0x7B0] and ceil(count / 8) bytes, passing count coils LSB first |
| `ModbusFunctions.Called` | Kimbus/Slave/ModbusFunctions.cs:119-122 | the callback's code, or that it threw |
| `ModbusFunctions.WriteRegistersStep` | Kimbus/Slave/ModbusFunctions.cs:131-150 | no callback or no input: IllegalFunction; count in [1, 0x7B] and 2 * count bytes, passing count big-endian words; otherwise IllegalDataValue |
| `ModbusFunctions.WriteCoilsUnpacks` | Kimbus/Slave/ModbusFunctions.cs:109-121 | coils packed by a multiple-coil request, from a single coil up to 0x7B0, reach the callback unchanged |
| `ModbusFunctions.WriteRegistersUnpacks` | Kimbus/Slave/ModbusFunctions.cs:139-150 | registers written high byte first reach the callback unchanged |
| `ModbusFunctions.WriteCoils` | Kimbus/Slave/ModbusFunctions.cs:87-129 | no callback or no input is an illegal function; faults exactly when the callback throws without an inner exception; Ok only for one coil in two bytes or 1 to 0x7B0 coils in ceil(count / 8) bytes (see also WriteCoilsUnpacks) |
| `ModbusFunctions.WriteHoldingRegisters` | Kimbus/Slave/ModbusFunctions.cs:131-158 | no callback or no input is an illegal function; faults exactly when the callback throws without an inner exception; Ok only for 1 to 0x7B registers in 2 * count bytes (see also WriteRegistersUnpacks) |
| `ModbusFunctions.ExceptionFrameLayout` | Kimbus/Slave/ModbusFunctions.cs:13-29 | nine bytes: transaction id, 0, 0, 0, 3, unit id, code with the high bit, exception code |
| `ModbusFunctions.GenerateExceptionResponse` | Kimbus/Slave/ModbusFunctions.cs:13-29 | a fresh array holding the exception frame |
| `ModbusFunctions.GenerateResponse` | Kimbus/Slave/ModbusFunctions.cs:168-181 | a fresh array holding the header for the buffer and the buffer copied unchanged |
| `MbTcpSlave.ReadCase` | Kimbus/Slave/MbTcpSlave.cs:167-175 | the handler's code; on Ok the buffer is the function code, the data length and the data, else empty |
| `MbTcpSlave.WriteCase` | Kimbus/Slave/MbTcpSlave.cs:199-204 | the handler's code; on Ok the buffer echoes request bytes 7 to 11, else empty |
| `MbTcpSlave.Dispatch` | Kimbus/Slave/MbTcpSlave.cs:154-288 | a code outside 1-6, 15, 16 is an illegal function; only a handled code can fault; an Ok buffer starts with the function code, any other code leaves it empty (see also BadLengthRejected, DispatchBufferBounded, InputRegistersAnyLength, SingleCoilRouted, SingleRegisterRouted) |
| `MbTcpSlave.Reply` | Kimbus/Slave/MbTcpSlave.cs:131-301 | no reply to an unframed request; faults exactly when a framed request's handling faults; a reply carries the request's unit id and its function code, flagged or not (see also RepliesAreFrames, UnframedIgnored) |
| `MbTcpSlave.UnframedIgnored` | Kimbus/Slave/MbTcpSlave.cs:136-152 | 8 bytes or fewer, a non-zero protocol id, or a length field not matching the length gives no reply |
| `MbTcpSlave.UnknownFunctionRejected` | Kimbus/Slave/MbTcpSlave.cs:160-292 | a code outside 1-6, 15, 16 gets the IllegalFunction reply with the request's ids |
| `MbTcpSlave.BadLengthRejected` | Kimbus/Slave/MbTcpSlave.cs:162-287 | codes 1, 2, 3, 5, 6 need 12 bytes; 15 and 16 a byte count matching the length; otherwise IllegalFunction |
| `MbTcpSlave.InputRegistersAnyLength` | Kimbus/Slave/MbTcpSlave.cs:242-254 | code 4 is read at any request length: ReadAnalogs gets the address and count of bytes 8 to 11 and the input-register callback |
| `MbTcpSlave.SingleCoilRouted` | Kimbus/Slave/MbTcpSlave.cs:194-206 | a 12-byte code 5 request goes to WriteCoils with its address, count 1 and bytes 10 and 11 as input |
| `MbTcpSlave.SingleRegisterRouted` | Kimbus/Slave/MbTcpSlave.cs:255-268 | a 12-byte code 6 request goes to WriteHoldingRegisters with its address, count 1 and bytes 10 and 11 as input |
| `MbTcpSlave.RepliesAreFrames` | Kimbus/Slave/MbTcpSlave.cs:290-297 | every reply unwraps, with the request's ids and a PDU starting with the request's code, flagged on an exception |
| `MbTcpSlave.DispatchBufferBounded` | Kimbus/Slave/MbTcpSlave.cs:169-175 | an Ok buffer starts with the function code and is at most 2 + 250 bytes long |
| `MbTcpSlave.ReadBitsBounded` | Kimbus/Slave/MbTcpSlave.cs:167-175 | an Ok bit read has between 1 and 250 data bytes |
| `MbTcpSlave.ReadWordsBounded` | Kimbus/Slave/MbTcpSlave.cs:231-239 | an Ok register read has between 1 and 250 data bytes |
| `MbTcpSlave.TcpSlave.constructor` | Kimbus/Slave/MbTcpSlave.cs:23-33 | a new slave has no callbacks |
| `MbTcpSlave.TcpSlave.Respond` | Kimbus/Slave/MbTcpSlave.cs:131-301 | faults exactly when Reply faults; otherwise a fresh array holding Reply's bytes |
| `MbTcpSlave.TcpSlave.Switch` | Kimbus/Slave/MbTcpSlave.cs:154-288 | the code and a fresh buffer as Dispatch gives them, or that a handler faulted |
| `MbTcpSlave.ReadInto` | Kimbus/Slave/MbTcpSlave.cs:169-175 | a fresh buffer holding ReadCase's buffer |
| `MbTcpSlave.WriteInto` | Kimbus/Slave/MbTcpSlave.cs:200-204 | a fresh buffer holding WriteCase's buffer |
| `LegacyFunctions.AccumulateStep` | Kimbus.Slave/ModbusFunctions.cs:38-39 | folding in value n sets bit n when it is true and no other bit |
| `LegacyFunctions.AccumulateBits` | Kimbus.Slave/ModbusFunctions.cs:37-39 | the fold leaves exactly the bits of the values |
| `LegacyFunctions.BooleansToByte` | Kimbus.Slave/ModbusFunctions.cs:29-40 | fails exactly for more than eight values; otherwise the byte is the packed chunk |
| `LegacyFunctions.LegacyPack` | Kimbus.Slave/ModbusFunctions.cs:86 | `Chunk(8).Select(BooleansToByte)` never throws and equals the packed coils |
| `LegacyFunctions.Settle` | Kimbus.Slave/ModbusFunctions.cs:75-79 | every exception a callback throws becomes the failure value |
| `LegacyFunctions.Read` | Kimbus.Slave/ModbusFunctions.cs:42-81 | always answers: no callback is an illegal function; a callback's code other than Ok is answered as that code; null values or a number other than count is a device failure; Ok only with the unpacked values of a callback that returned Ok and exactly count values; any other code carries no data (see also ReadThrowIsFailure) |
| `LegacyFunctions.ReadDigitals` | Kimbus.Slave/ModbusFunctions.cs:83-87 | an Ok answer has ceil(count / 8) bytes from which the callback's count values unpack again |
| `LegacyFunctions.ReadAnalogs` | Kimbus.Slave/ModbusFunctions.cs:89-93 | an Ok answer has 2 * count bytes that read back as the callback's values |
| `LegacyFunctions.WriteCoils` | Kimbus.Slave/ModbusFunctions.cs:96-137 | no callback or no input is an illegal function; Ok only for one coil in two bytes or 1 to 0x7B0 coils in ceil(count / 8) bytes (see also WriteThrowIsFailure) |
| `LegacyFunctions.WriteHoldingRegisters` | Kimbus.Slave/ModbusFunctions.cs:139-165 | no callback or no input is an illegal function; Ok only for 1 to 0x7B registers in 2 * count bytes (see also RegisterWriteThrowIsFailure) |
| `LegacyFunctions.ReadThrowIsFailure` | Kimbus.Slave/ModbusFunctions.cs:57-79 | a throwing read callback gives device failure with no data |
| `LegacyFunctions.WriteThrowIsFailure` | Kimbus.Slave/ModbusFunctions.cs:128-136 | a throwing coil write callback gives device failure |
| `LegacyFunctions.RegisterWriteThrowIsFailure` | Kimbus.Slave/ModbusFunctions.cs:156-164 | a throwing register write callback gives device failure |
| `LegacyFunctions.LegacyAgrees` | Kimbus.Slave/ModbusFunctions.cs:42-165 | the older handlers answer as the Kimbus ones wherever those answer, and with device failure where those fault |
| `LegacyFunctions.GenerateExceptionResponse` | Kimbus.Slave/ModbusFunctions.cs:11-27 | a fresh array holding the nine-byte exception frame |
| `LegacyFunctions.GenerateResponse` | Kimbus.Slave/ModbusFunctions.cs:175-188 | a fresh array holding the header for the buffer and the buffer unchanged |
| `LegacyTcpSlave.LegacyReply` | Kimbus.Slave/ModbusTcpSlave.cs:130-193 | no reply exactly when the protocol id is not 0 or the length field does not match; otherwise nine bytes with the unit id, the flagged function code and IllegalFunction (see also LegacyAlwaysRefuses) |
| `LegacyTcpSlave.LegacyAlwaysRefuses` | Kimbus.Slave/ModbusTcpSlave.cs:130-193 | a reply exactly for protocol id 0 and a matching length; it is always the nine-byte IllegalFunction reply with the request's ids |
| `LegacyTcpSlave.Respond` | Kimbus.Slave/ModbusTcpSlave.cs:130-193 | a fresh array holding LegacyReply's bytes |
| `Interop.FramedRequest` | Kimbus/Slave/MbTcpSlave.cs:136-152 | a PDU framed by the master's transport passes the slave's header checks, with its ids and the PDU from byte 7 |
| `Interop.OkReplyReceived` | Kimbus/Slave/MbTcpSlave.cs:294-297 | an Ok buffer reaches the master's transport unchanged |
| `Interop.ErrorReplyReceived` | Kimbus/Slave/MbTcpSlave.cs:290-293 | a non-Ok code reaches the master's transport as the exception PDU |
| `Interop.AnalogPduDecodes` | Kimbus/Master/MbMaster.cs:237-244 | the master decodes the slave's register-read PDU to the registers or the exception it carries |
| `Interop.DiscretePduDecodes` | Kimbus/Master/MbMaster.cs:227-235 | the master decodes the slave's bit-read PDU to the coils or the exception it carries |
| `Interop.ReadAnswer` | Kimbus/Slave/ModbusFunctions.cs:49-63 | the values exactly when the callback answers Ok with count of them; otherwise a non-zero exception code |
| `Interop.ReadRequestFramed` | Kimbus/Master/MbMaster.cs:36-61 | a framed read request is a 12-byte request the slave accepts, with the code, address and count asked for |
| `Interop.ShortRequestFramed` | Kimbus/Slave/MbTcpSlave.cs:195-205 | a framed five-byte PDU is a 12-byte request holding the PDU in bytes 7 to 11 |
| `Interop.AnalogReadSwitched` | Kimbus/Slave/MbTcpSlave.cs:226-241 | the register read case answers the callback's registers or the code the slave reports |
| `Interop.DiscreteReadSwitched` | Kimbus/Slave/MbTcpSlave.cs:162-177 | the bit read case answers the callback's coils or the code the slave reports |
| `Interop.SlaveAnswersAnalogRead` | Kimbus/Slave/MbTcpSlave.cs:226-254 | a register read request reaches the master's transport as the PDU of the callback's answer |
| `Interop.SlaveAnswersDiscreteRead` | Kimbus/Slave/MbTcpSlave.cs:162-193 | a bit read request reaches the master's transport as the PDU of the callback's answer |
| `Interop.ReadRegistersRoundTrip` | Kimbus/Master/MbMaster.cs:281-301 | a register read ends in the master with the callback's registers, or the exception the slave reports |
| `Interop.ReadCoilsRoundTrip` | Kimbus/Master/MbMaster.cs:259-279 | a coil or input read ends in the master with the callback's coils, or the exception the slave reports |
| `Interop.WriteRequestFramed` | Kimbus/Slave/MbTcpSlave.cs:207-215 | a framed multiple-write PDU passes the slave's byte count check with its code, address, count and data |
| `Interop.WriteReplyReceived` | Kimbus/Slave/MbTcpSlave.cs:280-297 | a write's echo or exception PDU reaches the master's transport |
| `Interop.EchoDecodes` | Kimbus/Master/MbMaster.cs:328-350 | the master accepts the slave's echo of n values exactly when n < 256, and raises the code of an exception reply |
| `Interop.RegistersWritten` | Kimbus/Slave/ModbusFunctions.cs:131-158 | registers sent high byte first reach the callback, whose code is the answer |
| `Interop.CoilsWritten` | Kimbus/Slave/ModbusFunctions.cs:87-129 | coils sent packed reach the callback, whose code is the answer |
| `Interop.RegisterWriteDispatched` | Kimbus/Slave/MbTcpSlave.cs:269-287 | a code 16 request goes to WriteHoldingRegisters with its address, count and data |
| `Interop.CoilWriteDispatched` | Kimbus/Slave/MbTcpSlave.cs:207-225 | a code 15 request goes to WriteCoils with its address, count and data |
| `Interop.SlaveAnswersRegisterWrite` | Kimbus/Slave/MbTcpSlave.cs:269-297 | the registers reach the callback and its code comes back as the echo or the exception PDU |
| `Interop.SlaveAnswersCoilWrite` | Kimbus/Slave/MbTcpSlave.cs:207-225 | the coils reach the callback and its code comes back as the echo or the exception PDU |
| `Interop.WriteRegistersRoundTrip` | Kimbus/Master/MbMaster.cs:391-419 | the callback receives the registers written, and the master accepts the echo or raises the slave's exception |
| `Interop.WriteCoilsRoundTrip` | Kimbus/Master/MbMaster.cs:303-326 | the callback receives the coils written; the master accepts the echo only for fewer than 256 coils, or raises the slave's exception |

## Left out

- The RTU transport, `MbRtuTransport`, and its CRC16: they depend on serial-port I/O and on helpers that are not part of this model.
- `PrependMbapHeader` is not part of this model. The transport frames with `MbapFrame`, the layout `GenerateResponse` builds.
- `MbHelpers.BooleansToByte`, which the Kimbus slave's `ReadDigitals` uses, is not part of this model. It is modelled by `PackByte`, like the master's `ToMbByte`.
- Sockets, time-outs, the accept loop, per-connection tasks, `SocketAwaitable` and locking are left out. What the network does enters as arguments: a connection outcome, a poll result, received segments and a time-out flag.
- Logging (NLog, `Console.WriteLine`) is left out. The message text matters only for the precedence quirk in the Kimbus catch blocks, which is modelled.
- `Close`, `Dispose` and the `Connected` property are left out. They only release or report the socket.
- The constructors' IP address and port parsing is left out, and so is the master constructor's null-transport check: a Dafny object reference is never null.
- Exact .NET exception types are left out. Failures carry an exception kind: null argument, bad argument, mismatch, out of range, Modbus error code, socket error, unexpected, or aggregate. The `InvalidOperationException` that `First()` throws on an empty response (in `CheckFunction` and `CheckModbusException`, reached from the write checks, which have no empty-response guard) is modelled as out of range.
- `SendUserFunction` with null data throws before any `Try` is built. The model takes the data as a sequence, so null data cannot arise.
- The unused default callbacks of the older slave are left out.
- Null ADUs (the `adu == null` check of `UnwrapMbapHeader`) and null responses (the `response == null` checks of the three write-response checks) cannot be represented: byte lists are sequences, and the transport never passes null.
- The older slave's private `GenerateExceptionResponse` (Kimbus.Slave/ModbusTcpSlave.cs:195-211) is represented by the Kimbus project's `ModbusFunctions.GenerateExceptionResponse`, which builds the same nine bytes.
- The older slave project's `Chunk` comes from its own helpers namespace, which is not part of this model. `bools.Chunk(8)` and `input.Chunk(2)` there are modelled with the Kimbus `EnumerableExtensions.Chunk`, on the assumption that the two behave the same.
- The `typeof(T) == typeof(bool)` test in `Read<T>` becomes a `maxCount` argument: `ReadDigitals` passes 0x7D0 and `ReadAnalogs` passes 0x7D.
- The slave's 1024-byte receive buffer becomes a requirement that `Respond` gets at least 12 bytes.
- The end-to-end lemmas do not cover a callback that throws without an inner exception. There the Kimbus slave faults instead of replying, as `ReadFaultsWithoutInner` and `Handle` state.
- Connect's race between the connection and its time-out is left out. Only how the wait ended, and whether the socket is then connected, enter the model.
- Matching a reply's transaction and unit ids against the request is left out: the library does not do it (`ReceiveFrame` states that they are ignored).
- `MbMaster.Master.Exchange` and the public master operations state their result as the `Query` of the transport's behaviour. Timing and the socket-level effects of the real transport are not part of that contract.

# Simulator ↔ MFR wire protocol, modelled in Dafny

This project models the binary protocol core of a radar simulation suite.
The parts are:

- **CRC-32.** `calculateCRC32` builds a 256-entry table on its first call,
  then runs the table-driven byte loop (`Crc32`, `crc32.dfy`).
- **Batch header.** `PacketHeader` is 16 packed bytes: `magic`, `seqID`,
  `payloadCRC`, `count` (`PacketHeaderCodec`, `packet_header.dfy`).
- **Simulator sender.** `MFRSendUDPManager::sendTargetBatch` cuts a record
  list into datagrams of at most 30 records. Each datagram gets a header with
  the magic number `0xA1B2C3D4`, a sequence number from a counter that keeps
  running across calls, the record count, and the CRC-32 of the payload
  (`MfrSendUdp`, `sender.dfy`).
- **MFR receiver.** `MfrSimCommManager::processReceivedData` classifies each
  datagram by magic number and then by length. `processBatchPacket` checks
  the CRC, counts sequence gaps as lost packets, and hands each record to the
  upper layer as a `[0x01][record]` packet. Legacy single-target and missile
  datagrams are forwarded whole (`MfrSimComm`, `receiver.dfy`).
- **End-to-end.** Everything one `sendTargetBatch` call emits, received in
  order on fresh counters and whole, passes both checks and counts no loss.
  The upper layer gets exactly the tagged records, in order (`EndToEnd`,
  `end_to_end.dfy`). "Whole" holds for the program only when every frame
  fits the receiver's 1024-byte buffer, that is when `16 + 30 * R <= 1024`
  for a full frame of records of `R` bytes. For `R >= 34` every full frame
  is longer than the buffer (`FullFrameOverflows`).
- **ECC TCP client.** `MAP_TCP::sendPacket` frames a request as
  `[0x51][len, 4 bytes little-endian][payload]`. `send` and `disconnect`
  handle the socket state (`MapTcp`, `map_tcp.dfy`).
- **ECC response dispatcher.** `PacketParser::Parse` refuses an empty buffer
  and picks one of five deserializers by byte 0. Any failure becomes an error
  (`PacketParser`, `packet_parser.dfy`).

How source constructs are modelled:

- **Numbers.** Bytes are `bv8` and `uint32_t` is `bv32`, so sequence-number
  arithmetic wraps modulo 2^32 as in C++.
- **Classes.** Objects whose fields the source updates become classes with
  `modifies` clauses.
- **Static state.** The CRC table and its `initialized` flag are fields of a
  `Crc32Table` object. The sender's function-local static `globalSeqID` is a
  field of the sender object (see Left out).
- **Upper layer and sockets.** What goes to `callBackData`, `sendto`,
  `::send` and `closesocket` is kept in ghost logs. The OS's answers are
  parameters.
- **Receiver locks.** Whether `receiver_.lock()` finds the receiver on entry
  to `processReceivedData` is the boolean parameter `atEntry`. The
  `shared_ptr` that lock returns is held until the handler returns, so the
  handler's own lock (in `processBatchPacket`, `processTargetData` or
  `processMissileData`) always finds the receiver once the first lock did.
  `Receive` and `ProcessReceivedData` therefore pass `true` to the
  handlers. The handlers keep an `available` parameter for their own lock,
  but `false` never reaches them from the program.
- **Unseen headers.** Record sizes (`sizeof(TargetSimData)`,
  `sizeof(MissileSimData)`) are natural-number parameters. So are the
  `CommandType` byte values and the deserializers, which the headers outside
  this model declare.

Where the model departs from the code:

- **Batch length check.**
  - A batch whose payload is not exactly `count` records is meant to be
    refused.
  - `processBatchPacket` has no such check (see Findings). The code as
    written is `ProcessBatchAsWritten`.
  - The corrected `ProcessBatch` adds the minimal check: it rejects
    `count * recordSize > payloadLen`. That rejection is counted as an
    integrity failure, because the code has only that one failure counter.
  - The receiver object (`ProcessReceivedData`, `ProcessBatchPacket`) and
    `Receive` follow the corrected processing, not the code as written.
    The two differ only on frames whose count does not fit
    (`ProcessBatchCorrects`), and never on a frame the sender builds
    (`SenderFramesAsWritten`).
- **Deserializer input.** `Parse` passes each deserializer the whole buffer,
  byte 0 included; what a deserializer does with byte 0 is outside this
  model.
- **Batch header byte order.** The header uses host byte order. The model
  fixes little-endian on both ends.

## Model

| member | source | states |
|---|---|---|
| `Crc32.EmptyChecksum` | Common/CommonPacket.h:40-45 | The CRC-32 of zero bytes is 0: the register starts at `0xFFFFFFFF` and is XORed with `0xFFFFFFFF` at the end. |
| `Crc32.RegisterAppend` | Common/CommonPacket.h:42-44 | The byte loop composes over concatenation: running it on `a + b` equals running it on `b` from the register left by `a`. |
| `Crc32.UpdateIsBitUpdate` | Common/CommonPacket.h:33-43 | One table lookup `table[(crc ^ b) & 0xFF] ^ (crc >> 8)` equals eight rounds of the bitwise reflected CRC step with polynomial `0xEDB88320`. |
| `Crc32.ChecksumIsReference` | Common/CommonPacket.h:29-46 | The table-driven checksum equals the standard bitwise reflected CRC-32 (seed and final XOR `0xFFFFFFFF`) on every input. |
| `Crc32.ByteChangeDetected` | Common/CommonPacket.h:29-46 | Changing any one byte of the input changes the checksum. |
| `Crc32.SingleBitFlipDetected` | Common/CommonPacket.h:29-46 | Flipping any single bit of the input changes the checksum. |
| `Crc32.CheckValue` | Common/CommonPacket.h:29-46 | The checksum of the ASCII digits "123456789" is `0xCBF43926`, the standard CRC-32 check value. |
| `Crc32.Index` | Common/CommonPacket.h:43 | The slot `(crc ^ b) & 0xFF` read for each byte is below 256, so every table read is in bounds. |
| `Crc32.TableEntry` | Common/CommonPacket.h:34-36 | The inner eight-round loop computes the table entry for slot `i`. |
| `Crc32.Crc32Table.constructor` | Common/CommonPacket.h:30-31 | The static table starts as 256 zero slots and unbuilt. |
| `Crc32.Crc32Table.BuildTable` | Common/CommonPacket.h:33-37 | After the outer loop, all 256 slots hold their final entries. |
| `Crc32.Crc32Table.Calculate` | Common/CommonPacket.h:29-46 | Returns the CRC-32 of the data. The table is built on the first call only and is unchanged by later calls. |
| `PacketHeaderCodec.FieldOffsets` | Common/CommonPacket.h:11-17 | `magic`, `seqID`, `payloadCRC` and `count` occupy bytes 0-3, 4-7, 8-11 and 12-15 of the packed header. |
| `PacketHeaderCodec.DecodeEncode` | Common/CommonPacket.h:11-17 | A header followed by any payload reads back as the same header. |
| `PacketHeaderCodec.EncodeDecode` | Common/CommonPacket.h:11-17 | Every 16-byte image is the encoding of the header read from it, so the codec is a bijection. |
| `PacketHeaderCodec.ParseFrameBytes` | Simulator/UDPCommunicate/MFRSendUDPManager.cpp:75-82 | A datagram laid out as header then payload yields back both the header and the payload. |
| `Bytes.FlattenSlice` | Simulator/UDPCommunicate/MFRSendUDPManager.cpp:86 | After the `memcpy` of same-sized records, record `i` occupies payload bytes `[i*R, (i+1)*R)`. |
| `MfrSendUdp.NumFrames` | Simulator/UDPCommunicate/MFRSendUDPManager.cpp:67-73 | The loop runs `ceil(n / 30)` times: enough frames for `n` records, one fewer would not be, and none for an empty list. |
| `MfrSendUdp.ChunkSize` | Simulator/UDPCommunicate/MFRSendUDPManager.cpp:70-73 | Every chunk but the last holds 30 records; the last holds the remainder, between 1 and 30. |
| `MfrSendUdp.ChunksPartition` | Simulator/UDPCommunicate/MFRSendUDPManager.cpp:70-86 | The chunks, joined in order, are exactly the input: nothing is lost or repeated, and the counts sum to the input length. |
| `MfrSendUdp.HeaderFields` | Simulator/UDPCommunicate/MFRSendUDPManager.cpp:89-94 | Each header carries the magic number, the CRC-32 of its payload alone, and its chunk's exact record count. |
| `MfrSendUdp.ConsecutiveSeqIds` | Simulator/UDPCommunicate/MFRSendUDPManager.cpp:63-90 | The first frame of a call carries the counter's value on entry. Each later frame carries the previous number plus one, modulo 2^32. |
| `MfrSendUdp.FrameLayout` | Simulator/UDPCommunicate/MFRSendUDPManager.cpp:74-94 | Frame `k` is `16 + count*R` bytes. It decodes to its stamped header, followed by its chunk's records byte for byte. |
| `MfrSendUdp.PayloadsReassemble` | Simulator/UDPCommunicate/MFRSendUDPManager.cpp:70-97 | The payloads of all frames of a call, concatenated, are the bytes of the whole input. |
| `MfrSendUdp.MfrSendUdpManager.constructor` | Simulator/UDPCommunicate/MFRSendUDPManager.cpp:3-6 | The counter starts at 0 and nothing has been sent. The descriptor is whatever value the object holds. |
| `MfrSendUdp.MfrSendUdpManager.SendData` | Simulator/UDPCommunicate/MFRSendUDPManager.cpp:39-59 | With no open socket it refuses and sends nothing. Otherwise the datagram goes to `sendto`, and the result is `sendto`'s verdict. |
| `MfrSendUdp.MfrSendUdpManager.MakeFrame` | Simulator/UDPCommunicate/MFRSendUDPManager.cpp:74-94 | The buffer is the header (magic, sequence number, CRC of the payload, count) followed by the chunk's bytes. |
| `MfrSendUdp.MfrSendUdpManager.SendChunk` | Simulator/UDPCommunicate/MFRSendUDPManager.cpp:72-97 | One iteration sends frame `k` of the call and advances the counter by one. |
| `MfrSendUdp.MfrSendUdpManager.SendTargetBatch` | Simulator/UDPCommunicate/MFRSendUDPManager.cpp:61-102 | Hands `sendto` exactly the frames `Frames(records, counter on entry)`, in order, when the socket is open. The counter advances by the number of frames whatever `sendto` answers, and keeps its value across calls. |
| `MfrSimComm.FramesAreBatches` | MFR/CommManager/MfrSimCommManager.cpp:138-147 | Every frame with the magic number is routed to the batch path, whatever the record sizes. |
| `MfrSimComm.TargetLengthWins` | MFR/CommManager/MfrSimCommManager.cpp:151-159 | When the target and missile lengths coincide, a non-batch datagram of that length goes to the target handler. |
| `MfrSimComm.MagicShadowsLegacy` | MFR/CommManager/MfrSimCommManager.cpp:138-147 | A legacy-length datagram of at least 16 bytes that starts with the magic number is taken for a batch frame. |
| `MfrSimComm.FirstFrameNoLoss` | MFR/CommManager/MfrSimCommManager.cpp:188-198 | The first accepted frame records its number, sets the total to 1 and counts no loss. |
| `MfrSimComm.SuccessorNoLoss` | MFR/CommManager/MfrSimCommManager.cpp:188-198 | The expected successor `last + 1` (0 after `0xFFFFFFFF`) counts no loss. |
| `MfrSimComm.GapCounted` | MFR/CommManager/MfrSimCommManager.cpp:188-198 | Skipping `g` numbers adds exactly `g` to the loss count. The total grows by one and the last number is updated. |
| `MfrSimComm.DuplicateCountsAsWrap` | MFR/CommManager/MfrSimCommManager.cpp:190-193 | A repeated sequence number adds `2^32 - 1` to the loss count, because of unsigned wrap-around. |
| `MfrSimComm.LossExample` | MFR/CommManager/MfrSimCommManager.cpp:188-198 | Frames `a, a+1, a+4, a+5` on fresh counters give cumulative losses 0, 0, 2, 2 and a total of 4, for every `a`, including across the wrap. |
| `MfrSimComm.FanOutPackets` | MFR/CommManager/MfrSimCommManager.cpp:213-229 | Fan-out packet `i` is the type byte followed by record `i` of the payload, `1 + R` bytes. |
| `MfrSimComm.FanOutLayout` | MFR/CommManager/MfrSimCommManager.cpp:213-229 | For every `i < count`, packet `i` is `0x01` followed by payload bytes `[i*R, (i+1)*R)`. |
| `MfrSimComm.OverReadWitness` | MFR/CommManager/MfrSimCommManager.cpp:167-232 | A bare 16-byte frame with CRC 0 and count 1 passes the CRC check. The code as written then reads a record past the received bytes. The corrected processing drops it as an integrity failure, counting nothing else. |
| `MfrSimComm.ProcessBatchCorrects` | MFR/CommManager/MfrSimCommManager.cpp:167-232 | The corrected processing never over-reads. It differs from the original only on a frame that passes the CRC check but whose count does not fit its payload. The correction refuses that frame as an integrity failure. The original counts it as received and over-reads. On every other frame the two agree exactly. |
| `MfrSimComm.CrcMismatchDrops` | MFR/CommManager/MfrSimCommManager.cpp:176-183 | A CRC mismatch adds one to the integrity counter, leaves the other counters alone and delivers nothing. |
| `MfrSimComm.ValidFrameDelivers` | MFR/CommManager/MfrSimCommManager.cpp:185-229 | A frame that passes the CRC and length checks advances the sequence bookkeeping. With the receiver present, it delivers exactly the `count` tagged records of its payload. |
| `MfrSimComm.UnavailableChangesNothing` | MFR/CommManager/MfrSimCommManager.cpp:131-135 | Without a receiver on entry, nothing is processed and no counter moves. |
| `MfrSimComm.LegacyForwardedWhole` | MFR/CommManager/MfrSimCommManager.cpp:151-159 | A legacy target or missile datagram reaches the upper layer whole, as one packet, and leaves the counters alone. |
| `MfrSimComm.IgnoredDropped` | MFR/CommManager/MfrSimCommManager.cpp:160-163 | A datagram that is neither a batch nor of a legacy length is dropped silently. |
| `MfrSimComm.CountersMonotone` | MFR/CommManager/MfrSimCommManager.cpp:129-164 | No counter decreases. Per datagram, the total and integrity counters together grow by at most one. Only the batch path touches the counters. |
| `MfrSimComm.MfrSimCommManager.constructor` | MFR/CommManager/MfrSimCommManager.cpp:18-26 | The four counters start at zero and nothing has been delivered. |
| `MfrSimComm.MfrSimCommManager.ProcessReceivedData` | MFR/CommManager/MfrSimCommManager.cpp:129-164 | The new counters and the packets appended to the upper layer's log are those of `Receive` on the old counters. |
| `MfrSimComm.MfrSimCommManager.ProcessBatchPacket` | MFR/CommManager/MfrSimCommManager.cpp:167-232 | The new counters and deliveries are those of the corrected batch processing. |
| `MfrSimComm.MfrSimCommManager.AcceptFrame` | MFR/CommManager/MfrSimCommManager.cpp:188-229 | Does the sequence bookkeeping. If the handler's lock finds the receiver, which it always does when called from `processReceivedData`, it appends the fan-out of the payload. |
| `MfrSimComm.MfrSimCommManager.TrackSequence` | MFR/CommManager/MfrSimCommManager.cpp:188-198 | The counters after the sequence check equal `Accept` of the old counters. |
| `MfrSimComm.MfrSimCommManager.FanOutRecords` | MFR/CommManager/MfrSimCommManager.cpp:213-229 | The callback loop appends exactly the `count` tagged records, in index order. |
| `MfrSimComm.MfrSimCommManager.ProcessTargetData` | MFR/CommManager/MfrSimCommManager.cpp:259-282 | Forwards the whole datagram if its lock finds the receiver, which it always does when called from `processReceivedData`; otherwise does nothing. |
| `MfrSimComm.MfrSimCommManager.ProcessMissileData` | MFR/CommManager/MfrSimCommManager.cpp:234-257 | Forwards the whole datagram if its lock finds the receiver, which it always does when called from `processReceivedData`; otherwise does nothing. |
| `EndToEnd.FanOutFlatten` | MFR/CommManager/MfrSimCommManager.cpp:213-229 | Fanning out the bytes of same-sized records gives each record tagged with `0x01`, in order. |
| `EndToEnd.FrameAccepted` | MFR/CommManager/MfrSimCommManager.cpp:138-229 | Every frame the sender builds passes classification and both checks. It advances the counters by its own sequence number and delivers its chunk's tagged records. |
| `EndToEnd.BatchRoundTrip` | MFR/CommManager/MfrSimCommManager.cpp:129-232 | All frames of one `sendTargetBatch` call, received whole and in order on fresh counters, pass with no integrity failure and no loss. The total equals the number of frames, and the upper layer receives `[0x01] + r` for each record `r`, in order. For the program, "whole" needs `16 + count * R <= 1024` for every frame (see `FullFrameOverflows`). |
| `EndToEnd.SenderFramesAsWritten` | MFR/CommManager/MfrSimCommManager.cpp:167-232 | On every frame the sender builds, `processBatchPacket` as written and the corrected processing give the same counters and deliveries, so the end-to-end result holds for the code as written. |
| `EndToEnd.FlippedBitRejected` | MFR/CommManager/MfrSimCommManager.cpp:176-183 | A sender frame with any one payload bit flipped fails the CRC check: one integrity failure, no other counter moves, nothing delivered. |
| `EndToEnd.FullFrameOverflows` | Simulator/UDPCommunicate/MFRSendUDPManager.cpp:65-73 | With records of 34 bytes or more, every full 30-record frame is longer than the 1024-byte receive buffer. |
| `MapTcp.LenRoundTrip` | ECC/MAP_TCP.cpp:101-104 | Reading the four length bytes back as little-endian recovers every `len` in `[0, 2^31)`. |
| `MapTcp.TcpFrameLayout` | ECC/MAP_TCP.cpp:89-108 | The frame is `len + 5` bytes: `0x51`, then the little-endian length that reads back as `len`, then the payload verbatim. |
| `MapTcp.DecodeTcpFrameRoundTrip` | ECC/MAP_TCP.cpp:89-108 | A receiver that checks the header byte and the length field gets the payload back from every frame. |
| `MapTcp.TcpFrameInjective` | ECC/MAP_TCP.cpp:97-108 | Different payloads never produce the same frame. |
| `MapTcp.MapTcpClient.constructor` | ECC/MAP_TCP.cpp:13-15 | The socket starts invalid and nothing has been sent or closed. |
| `MapTcp.MapTcpClient.Disconnect` | ECC/MAP_TCP.cpp:55-60 | Afterwards the socket is invalid. An open handle is closed exactly once, and on an invalid socket nothing is closed, so a second call is a no-op. |
| `MapTcp.MapTcpClient.Send` | ECC/MAP_TCP.cpp:62-79 | With an invalid socket, returns -1 and sends nothing. Otherwise hands the first `len` bytes to `::send` and returns its result unchanged. Mapping `SOCKET_ERROR` to -1 changes nothing, because `SOCKET_ERROR` is -1. |
| `MapTcp.MapTcpClient.SendPacket` | ECC/MAP_TCP.cpp:82-120 | With an invalid socket, returns -1 before any frame is built. Otherwise hands exactly `TcpFrame(data[0..len))` to `::send` and returns its result unchanged, as `send` does. |
| `PacketParser.KindOf` | ECC/PacketParser.cpp:42-47 | A recognised byte is the tag of the case it selects. An unrecognised byte is the tag of no case. |
| `PacketParser.Dispatch` | ECC/PacketParser.cpp:47-101 | A case either yields a packet of its own kind or fails with its own deserialization error. |
| `PacketParser.Parse` | ECC/PacketParser.cpp:34-105 | An empty buffer fails before any byte is read. A success is for a non-empty buffer whose byte 0 is the tag of the packet's kind. |
| `PacketParser.UnknownTagFails` | ECC/PacketParser.cpp:102-103 | A byte 0 that matches none of the five tags fails as an unknown command, whatever follows it. |
| `PacketParser.TagSelectsCase` | ECC/PacketParser.cpp:42-101 | Byte 0 alone selects the case, and the selected deserializer receives the whole buffer. |
| `PacketParser.ParseSucceedsIff` | ECC/PacketParser.cpp:34-105 | Parsing succeeds if and only if the buffer is non-empty, byte 0 is a known tag, and that tag's deserializer accepts the whole buffer. |
| `PacketParser.StatusResponseParsed` | ECC/PacketParser.cpp:47-70 | A failing status deserializer fails the parse with no lists. A succeeding one yields the radar, LC, LS, target and missile lists in that order, exactly as produced. |
| `PacketParser.RadarModeAckParsed` | ECC/PacketParser.cpp:72-78 | Yields the radar mode command read by its deserializer, or fails when the deserializer fails. |
| `PacketParser.LsModeAckParsed` | ECC/PacketParser.cpp:80-86 | Yields the launcher mode command read by its deserializer, or fails when the deserializer fails. |
| `PacketParser.MissileAckParsed` | ECC/PacketParser.cpp:88-94 | Yields the missile launch command read by its deserializer, or fails when the deserializer fails. |
| `PacketParser.LsMoveAckParsed` | ECC/PacketParser.cpp:95-101 | Yields the launcher move command read by its deserializer, or fails when the deserializer fails. |

## Left out

- Socket lifecycle and I/O are not modelled: `MFRSocketOpen`,
  `MAP_TCP::connect` and `getSocket`, `runReceiver`'s `recvfrom` loop, and the
  destructors. Sends and closes are logged, and the OS's results are
  parameters.
- `runReceiver` truncates datagrams at `BUFFER_SIZE` (1024 bytes). The model
  takes the received bytes as given and does not model that truncation. A
  full frame is `16 + 30 * R` bytes, which is more than 1024 once `R >= 34`;
  the sender's own comment expects records of 40 to 50 bytes. With such
  records every full frame would arrive cut short and fail the CRC check, so
  the end-to-end result holds for the program only when
  `16 + 30 * R <= 1024`. This looks like a defect of the program, but
  `sizeof(TargetSimData)` is declared in a header outside this model.
- Threads, `isRunning_`, `callbackMutex_` and the `weak_ptr` locks are left
  out. Delivery is a sequential append. The entry lock's outcome is a
  boolean parameter. Every later lock in the same call finds the receiver,
  because the `shared_ptr` from the entry lock is still held.
- Logging (`Logger::log`, `std::cerr`, `DebugPrintHex`) is output only and is
  left out.
- The internals of the `Deserialize*` functions, the numeric values of
  `CommandType`, and the layouts of `TargetSimData`, `MissileSimData` and the
  status records are left out. They are declared in headers outside this
  model, so they appear here as parameters and abstract types.
- The `reinterpret_cast` between acknowledgement and command types is left
  out. Each acknowledgement deserializer is taken to produce the command value
  directly.
- The legacy handlers `memcpy` into a local struct that is never used; only
  the length that `memcpy` needs is kept.
- Counter overflow: `totalPackets`, `integrityFail` and `lossCount` are
  unbounded naturals. Their declared widths are in a header outside this
  model, so their overflow is not modelled.
- MfrSimComm.MfrSimCommManager.ProcessBatchPacket: follows the corrected
  `ProcessBatch`, and so does `ProcessReceivedData`. On a CRC-valid frame
  whose count does not fit its payload, the code as written counts the frame
  as received (new `lastSeqID`, `totalPackets` plus one) and reads past the
  payload. The model counts an integrity failure instead.
- MfrSimComm.MfrSimCommManager.constructor: the counters `g_lastSeqID`,
  `g_totalPackets`, `g_integrityFail` and `g_lossCount` are declared outside
  this file and act as process-wide globals. The constructor resets them
  for every instance. The model keeps them as fields of the manager object,
  so it assumes one manager per process. Two managers in one process, which
  would share the counters and reset each other's, are not modelled.
- MfrSimComm.ProcessBatch: the corrected check rejects only
  `count * R > payloadLen`. It does not reject payloads with trailing bytes
  beyond `count` records, although such a payload is meant to be refused
  too.
- MapTcp.MapTcpClient.SendPacket: requires `0 <= len <= |data|`. A negative
  `len` makes `packet.insert` read an invalid range, which is undefined
  behaviour, so that case is not modelled. For `len` from `2^31 - 5` up to
  `2^31 - 1` the frame is longer than the largest `int`, and converting
  `packet.size()` to `::send`'s `int` length does not hand over the whole
  frame. The model still logs the whole `TcpFrame` for those lengths.
- MapTcp.MapTcpClient.Send: requires `0 <= len <= |data|`. `send` passes
  `len` straight to `::send`. A `len` beyond the caller's buffer makes
  `::send` read past it, which is undefined behaviour. A negative `len` is
  handed to the OS, which refuses it with `SOCKET_ERROR`, returned as -1;
  the model does not cover that case. A partial write by `::send` shows only
  in the returned count; the log holds the bytes handed over.
- MfrSendUdp.MfrSendUdpManager.constructor: `globalSeqID` is one
  function-local static per process, shared by every `MFRSendUDPManager` and
  never reset. The model keeps it as a field of the sender object, set to 0
  by the constructor, so it assumes one sender object per process. Two
  senders in one process, which would share and interleave one counter, are
  not modelled.
- The sender's `mfr_socket_` is left uninitialised by its constructor. The
  model takes its value as a constructor parameter.
- The batch header uses the host's byte order. Both ends fix little-endian,
  which is what the same-architecture deployment amounts to.

## Findings

| source | as written | input that shows it | evidently intended | confidence | as-written member | corrected member |
|---|---|---|---|---|---|---|
| MFR/CommManager/MfrSimCommManager.cpp:213-229 | The callback loop reads `header->count` records from the payload without comparing `count * sizeof(TargetSimData)` with `payloadLen`. `count` comes from the datagram. | A 16-byte datagram with magic `0xA1B2C3D4`, any `seqID`, `payloadCRC` 0 (the CRC-32 of no bytes), `count` 1 and no payload. It passes the CRC check, and the loop reads one record past the received bytes. | Reject a frame whose declared records do not fit its payload before touching the sequence counters, as a failed integrity check. | not executed | `MfrSimComm.ProcessBatchAsWritten`, `MfrSimComm.OverReadWitness` | `MfrSimComm.ProcessBatch`, `MfrSimComm.ProcessBatchCorrects` |

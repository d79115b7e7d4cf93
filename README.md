# SKiM980A single-packet forwarder: a Dafny model

This project models the packet-forward core of the SKiM980A forwarder. The
forwarder bridges a LoRa radio and a serial (USB CDC) line:

- **Uplink.** A packet the radio receives is wrapped in a serial frame and written to the UART.
- **Downlink.** Bytes read from the UART are handed to the radio for transmission.
- **Acknowledgement.** The outcome of each transmission goes back over the UART as a short ACK or NACK frame.

Every frame lives in one of two fixed 255-byte buffers and has this layout:

- offset 0: start byte `0x01`
- offset 1: the state ordinal
- offsets 2–3: the total length, big-endian
- offsets 4–7: four metadata bytes
- offset 8 onward: the body
- last two bytes: CR LF

The model has five modules:

- `Bytes` (bytes.dfy): the C integer types of the 32-bit target. It covers the truncations to `uint8_t` and `int8_t` and the big-endian byte splits. `LowByte` uses Dafny's `%`, which is never negative, so `rssi` −80 becomes 0xB0, its two's-complement low byte.
- `Frames` (frames.dfy): `States_t` and the frame layouts as pure functions. `Frame`, `UplinkFrame` and `TxReportFrame` are the encoders. `LengthField`, `Meta`, `Body` and `WellFormed` are ghost views used only to state what an encoder produced. They are not a decoder; the source has none.
- `Intake` (intake.dfy): the serial read loop, stated on values. Each `UartGetBuffer` call is a `Chunk` holding the return code and the bytes delivered. The module also has lemmas on where the delivered bytes land.
- `PacketForward` (forwarder.dfy): the source's globals as the class `Forwarder`. It has the five radio callbacks as methods, the `switch` and the serial intake of one main-loop iteration. The frame encoders and the serial read loop are methods over the bare buffer arrays, which the class methods call.
  - The loop-carried locals `i` and `nbReadByte` of `main` become the fields `accumulated` and `lastReadCount`.
  - UART output and radio calls (`Sleep`, `Rx`, `Send`) are recorded in the ghost logs `uartOut` and `radioOps`.
  - The radio status, `Radio.TimeOnAir` and the UART read results are method inputs.
- `Scenarios` (scenarios.dfy): two client runs, proved only from the class's contracts. One takes an uplink "hi" frame to the UART. The other sends a downlink, then writes its 123 ms ACK frame to the UART.

Choices that follow the code as written:

- **`sizeof ack` / `sizeof nack`.** These measure a `const char *`. On the 32-bit target that is 4 (`Frames.POINTER_SIZE`), so `DnBufferSize` is 12 before the CR LF and 14 after it.
- **Report bodies.**
  - ACK: `snprintf` writes `"ACK\0"` at bytes 8–11.
  - NACK: `snprintf` writes `"NACK\0"` at bytes 8–12, and byte 12 is then overwritten by CR, so bytes 8–11 are `"NACK"`.
- **Uplink over-copy.** The `memcpy` in `OnRxDone` copies `size + 8` bytes from the driver's pointer. The model copies them too:
  - `payload` must hold `size + 8` readable bytes;
  - `size <= 239` keeps the store at offset `size + 15` in bounds;
  - the six bytes after the CR LF are `payload[size + 2 .. size + 8]`.
- **Serial intake.**
  - The read loop accumulates into `i`, but the `if` test, `TimeOnAir` and `Send` all use `nbReadByte`, which is only the last call's count. `Intake.SendsStreamPrefix` states what is sent: the first `nbReadByte` bytes of everything delivered. `PacketValidate` also receives `nbReadByte`, not the accumulated `i`.
  - When the last call delivered nothing, `i` is not reset. The bytes stay in the buffer and later reads continue from `i`.
- **Transmit-report metadata.** The acknowledgement carries the global `OnAirValue`. That is the value `TimeOnAir` returned for the latest downlink, not a value passed in by the callback.

## Model

| member | source | states |
|---|---|---|
| `Bytes.LowByte` | src/apps/pkt-fwd/SKiM980A/main.c:285-292 | the byte stored by a `uint8_t` conversion is in 0..255 and congruent to the value modulo 256 |
| `Bytes.ToInt8` | src/apps/pkt-fwd/SKiM980A/main.c:324 | storing the `int16_t` rssi into `RssiValue` gives a value in -128..127 congruent to it modulo 256 |
| `Bytes.Int8KeepsLowByte` | src/apps/pkt-fwd/SKiM980A/main.c:324 | storing through `int8_t` and then into the `uint8_t` buffer byte keeps the low byte of rssi |
| `Bytes.BigEndian16` | src/apps/pkt-fwd/SKiM980A/main.c:330-331 | the two length bytes, read big-endian, give back the length |
| `Bytes.BigEndian16Unique` | src/apps/pkt-fwd/SKiM980A/main.c:291-292 | any two bytes are the big-endian encoding of exactly one 16-bit value |
| `Bytes.BigEndian32` | src/apps/pkt-fwd/SKiM980A/main.c:285-288 | the four metadata bytes `OnAirValue >> 24 .. OnAirValue`, read big-endian, give back `OnAirValue` |
| `Frames.Ordinal` | src/apps/pkt-fwd/SKiM980A/main.c:99-107 | the state byte is the enumerator's value, below 6 |
| `Frames.OrdinalInjective` | src/apps/pkt-fwd/SKiM980A/main.c:99-107 | two states have the same byte exactly when they are the same state |
| `Frames.Frame` | src/apps/pkt-fwd/SKiM980A/main.c:322-331 | an encoded frame is body + 10 bytes long and well formed (start byte, length field equal to its byte count, CR LF), and its state byte, metadata and body read back as given |
| `Frames.FrameOfFields` | src/apps/pkt-fwd/SKiM980A/main.c:322-331 | every well-formed frame is the encoding of its own fields, so encoding is a bijection onto well-formed frames |
| `Frames.UplinkFrame` | src/apps/pkt-fwd/SKiM980A/main.c:316-331 | the uplink frame is payload + 10 bytes (at most 255), well formed, state RX, bytes 4/5 the low bytes of rssi/snr, bytes 6-7 zero, body the payload |
| `Frames.UplinkExample` | src/apps/pkt-fwd/SKiM980A/main.c:316-331 | "hi", rssi -80, snr 5 gives `01 01 00 0C B0 05 00 00 68 69 0D 0A` |
| `Frames.ReportBody` | src/apps/pkt-fwd/SKiM980A/main.c:278-309 | body bytes 8-11 are `"ACK\0"` after TX and `"NACK"` after TX_TIMEOUT (the NUL after NACK is overwritten by CR) |
| `Frames.TxReportFrame` | src/apps/pkt-fwd/SKiM980A/main.c:276-312 | a transmit report is 14 bytes, well formed (length field 14), state byte TX or TX_TIMEOUT, metadata `OnAirValue` big-endian, body as `ReportBody` |
| `Frames.AckExample` | src/apps/pkt-fwd/SKiM980A/main.c:276-292 | transmit done with on-air time 123 gives `01 04 00 0E 00 00 00 7B 41 43 4B 00 0D 0A` |
| `Frames.NackExample` | src/apps/pkt-fwd/SKiM980A/main.c:296-312 | transmit timeout with on-air time 123 gives `01 05 00 0E 00 00 00 7B 4E 41 43 4B 0D 0A` |
| `Intake.Advance` | src/apps/pkt-fwd/SKiM980A/main.c:257-258 | `i` after the read loop: never below its start and never past the start plus all bytes delivered |
| `Intake.AfterReads` | src/apps/pkt-fwd/SKiM980A/main.c:257-258 | `DnBuffer` after the read loop, each call storing its bytes at the current `i`; its length stays that of the buffer |
| `Intake.LastCount` | src/apps/pkt-fwd/SKiM980A/main.c:257-260 | `nbReadByte` after the read loop is the last call's count, never more than all bytes delivered |
| `Intake.AfterReadsOutside` | src/apps/pkt-fwd/SKiM980A/main.c:257-259 | the reads store only into `DnBuffer[i .. i + total)`: every other byte keeps its value |
| `Intake.ReadsContiguous` | src/apps/pkt-fwd/SKiM980A/main.c:257-259 | in one run of the loop the delivered bytes land back to back from `i`, in delivery order, and `i` ends where the last call's bytes begin |
| `Intake.FirstChunkKept` | src/apps/pkt-fwd/SKiM980A/main.c:257-258 | the bytes of a call that returned 0 are not overwritten by later calls of the loop, since `i` moves past them |
| `Intake.SendsStreamPrefix` | src/apps/pkt-fwd/SKiM980A/main.c:257-265 | from `i == 0`, `Send` receives the first `nbReadByte` bytes of the delivered stream, `nbReadByte` being the last call's count only |
| `PacketForward.PacketValidate` | src/apps/pkt-fwd/SKiM980A/main.c:348-350 | the validator accepts every packet (status 0) |
| `PacketForward.StoreBytes` | src/apps/pkt-fwd/SKiM980A/main.c:321 | copying bytes to offset `at` changes exactly those bytes to the copied ones and leaves the rest of the buffer as it was; the UART read at line 257 stores the same way |
| `PacketForward.Memset` | src/apps/pkt-fwd/SKiM980A/main.c:267 | `memset(buf, 0, n)` zeroes the first `n` bytes and leaves the rest as they were; the `switch` clears at lines 227, 239 and 245 the same way |
| `PacketForward.Snprintf` | src/apps/pkt-fwd/SKiM980A/main.c:282 | `snprintf` with limit `n` and a text without `%` stores at most `n - 1` characters of the text and then a NUL, and touches nothing else; `OnTxTimeout` calls it the same way at line 302 |
| `PacketForward.TxReportImage` | src/apps/pkt-fwd/SKiM980A/main.c:282-292 | the transmit callbacks' stores, in source order, yield the 14-byte report frame and leave bytes 14.. as they were |
| `PacketForward.UplinkImage` | src/apps/pkt-fwd/SKiM980A/main.c:320-331 | `OnRxDone`'s stores, in source order, yield the uplink frame, then six over-copied payload bytes, then the untouched rest |
| `PacketForward.EncodeTxReport` | src/apps/pkt-fwd/SKiM980A/main.c:281-292 | the stores leave `TxReportFrame` in bytes 0..13 with size 14, and nothing after byte 13 changes |
| `PacketForward.EncodeUplink` | src/apps/pkt-fwd/SKiM980A/main.c:320-331 | the stores leave `UplinkFrame` in bytes 0..size+9 with size + 10 as the new size, then `payload[size+2 .. size+8]`, and nothing after byte size+15 changes |
| `PacketForward.ReadChunk` | src/apps/pkt-fwd/SKiM980A/main.c:257 | one `UartGetBuffer` call on the bare buffer: its bytes are stored from offset `i`, the rest of the buffer is unchanged, and the count and status are the chunk's |
| `PacketForward.ReadLoop` | src/apps/pkt-fwd/SKiM980A/main.c:257-259 | the `while` loop on the bare buffer: the buffer, `i` and `nbReadByte` it leaves are those of `AfterReads`, `Advance` and `LastCount` for the calls made |
| `PacketForward.Forwarder.constructor` | src/apps/pkt-fwd/SKiM980A/main.c:114-123 | initial globals: LOWPOWER, both buffers zero with size 255, counters zero; the only radio call is the first 1000 ms receive |
| `PacketForward.Forwarder.ReportTx` | src/apps/pkt-fwd/SKiM980A/main.c:276-312 | sleeps the radio, sets the outcome state, writes the report frame into `DnBuffer` only |
| `PacketForward.Forwarder.OnTxDone` | src/apps/pkt-fwd/SKiM980A/main.c:276-294 | state TX; `DnBufferSize` 14; `DnBuffer[0..14)` is the ACK frame with `OnAirValue`; bytes 14.. unchanged; only state, `DnBuffer`/`DnBufferSize` and the radio log (one Sleep) change |
| `PacketForward.Forwarder.OnTxTimeout` | src/apps/pkt-fwd/SKiM980A/main.c:296-314 | as `OnTxDone` with state TX_TIMEOUT and the NACK frame |
| `PacketForward.Forwarder.OnRxDone` | src/apps/pkt-fwd/SKiM980A/main.c:316-334 | state RX; `UpBufferSize` is size + 10; `UpBuffer[0..size+10)` is the uplink frame whose body is the payload byte for byte; `RssiValue` is rssi wrapped to int8; only state, `UpBuffer`/`UpBufferSize`, `RssiValue`/`SnrValue` and one Sleep change |
| `PacketForward.Forwarder.OnRxTimeout` | src/apps/pkt-fwd/SKiM980A/main.c:336-340 | state RX_TIMEOUT after one Sleep; no buffer or other field changes |
| `PacketForward.Forwarder.OnRxError` | src/apps/pkt-fwd/SKiM980A/main.c:342-346 | state RX_ERROR after one Sleep; no buffer or other field changes |
| `PacketForward.Forwarder.Forward` | src/apps/pkt-fwd/SKiM980A/main.c:222-254 | afterwards the state is LOWPOWER. RX emits exactly `UpBuffer[0..UpBufferSize)` and zeroes those bytes. TX / TX_TIMEOUT do the same for `DnBuffer`. RX_TIMEOUT / RX_ERROR emit nothing. LOWPOWER emits nothing and arms a 1000 ms receive exactly when the radio is idle |
| `PacketForward.Forwarder.ReadSerial` | src/apps/pkt-fwd/SKiM980A/main.c:257-259 | after the read loop, the buffer, `i` and `nbReadByte` are those of `AfterReads`, `Advance` and `LastCount` for the calls made |
| `PacketForward.Forwarder.PollSerial` | src/apps/pkt-fwd/SKiM980A/main.c:256-269 | if the last read delivered bytes, `OnAirValue` becomes `TimeOnAir(nbReadByte)`, `Send` gets `DnBuffer[0..nbReadByte)` after the reads, and then all 255 bytes are zero and `i = nbReadByte = 0`; otherwise nothing is sent and the bytes stay with `i` advanced |
| `PacketForward.Forwarder.Step` | src/apps/pkt-fwd/SKiM980A/main.c:220-273 | one loop iteration: `Forward` followed by `PollSerial`, composed; the state is LOWPOWER afterwards from every state |

## Left out

- Radio and board set-up (main.c:174–217): board init, the `Radio.Init` callback table, channel and modem configuration. These are one-time calls with compile-time constants into code outside this model. Only the first `Radio.Rx(RX_TIMEOUT_VALUE)` at main.c:218 is modelled, as the constructor's radio log entry.
- The "Hello LoRa" banner (main.c:178), the LED toggle (main.c:236), `DelayMs(1)` (main.c:263) and the commented-out low-power handler: no effect on the state machine.
- Radio driver calls are not modelled beyond being logged (`Sleep`, `Receive`, `Send`). `Radio.GetStatus() == RF_IDLE` is the `radioIdle` input. `Radio.TimeOnAir` is the `timeOnAir` function input, so its value depends only on the byte count.
- `UartGetBuffer` and `UartPutBuffer` internals (src/boards/SKiM980A/uart-usb-board.c and the USB CDC stack) are not modelled:
  - reads are given as `Intake.Chunk` values;
  - writes are appended to `uartOut`;
  - the ignored return status of `UartPutBuffer` is not modelled.
- Interleaving of the radio callbacks (interrupt context) with the main loop. Each callback is an atomic method called between loop iterations, so data races are not modelled.
- The infinite `while(1)`: `Forwarder.Step` is one iteration.
- `PacketForward.ReadLoop`: the reads are a finite run whose last call returns a non-zero status (`Intake.ReadSession`). The read loop at main.c:257 never ends while `UartGetBuffer` keeps returning 0, for example with no bytes and status 0. That endless case is not modelled.
- `PacketForward.Forwarder.OnRxDone`: it requires `size <= 239` and `size + 8` readable payload bytes, because the source's `memcpy` of `size + 8` bytes otherwise reads past the driver's data or writes past `UpBuffer`. Callers that break either condition are not modelled.
- `PacketForward.Forwarder.PollSerial`: it requires the reads to be one loop run (only the last has a non-zero status) with `i` plus all delivered bytes at most 255, and no read longer than `DnBufferSize`. Reads that would overrun `DnBuffer` are not modelled.
- `Bytes.ToInt8`: the `int16_t` to `int8_t` conversion is implementation-defined in C. The model fixes it to two's-complement wrap-around, as the target compiler does.
- A frame decoder, CRC (main.c:293 leaves only a TODO) and a capacity error: none exists in the code.

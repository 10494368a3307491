# Modbus RTU engine of modbus-esp8266, in Dafny

This project models `ModbusRTUTemplate`, the Modbus RTU transport of the
modbus-esp8266 library (src/ModbusRTU.cpp). It covers:

- the table-driven CRC-16 `crc16` that frames are sealed with;
- `setBaudrate` and `begin`, which set the inter-frame silence `_t` (t3.5);
- `rawSend`, which writes the address, the PDU and the CRC to the port;
- `send`, which transmits a prepared frame and may record it as the one outstanding request;
- `cleanup`, which ends that request after `MODBUSRTU_TIMEOUT` milliseconds;
- `task`, the polling step that counts the bytes received, waits for the line to fall silent, reads one frame, filters it by address, checks its CRC and hands it to the master or slave side.

The model comes in two layers:

- **The class.** `Rtu.ModbusRtu` keeps the fields of the C++ object. `port` is an
  `SerialPort.Stream` object holding the received queue and the transmitted log.
  Each state-changing member is an imperative method with loops over the port. Its
  contract ties the new state of the object and its port (`Snap()`) to a function
  of the old state.
- **The functions.** Module `Transactions` holds those functions (`Send`,
  `Cleanup`, `Task` and the layers of `Task`) and proves the engine's properties
  about them:
  - the one-slot transaction is recorded, completed or timed out, and its callback
    fires at most once;
  - a frame `rawSend` wrote passes the receiver's check, and a master's reply
    completes its request;
  - a master never transmits from `task`;
  - a slave never answers a broadcast;
  - `task` always reads exactly the bytes it counted.

The other modules hold the pieces these rest on:

- `Crc16`: the table, the fold the loop computes, a proof that the table-driven fold is the bit-serial CRC-16/MODBUS under the reflected polynomial 0xA001, and a proof that a single corrupted byte always changes the CRC.
- `Framing`: the frame on the wire, and the check in both directions.
- `Timing`: the silence derived from the baud rate.
- `SerialPort`: the port.
- `LoopCounter`: the `uint8_t`-counted read loops of `task`, as written and with a wide counter.
- `Common`: the `uint8_t`/`uint32_t` conversions.

Collaborators the file only calls are parameters of `task`:
- `masterPDU` leaves `_reply` = `pduReply`.
- `slavePDU` leaves `_frame` = `response` and `_reply` = `slaveReply`.
- The slave's busy-wait for silence either ends in time or it does not: `quiet`.
- `malloc` either succeeds or fails: `allocOk`.
- `millis()` is the parameter `now`.

Callbacks are known by identity. Each call is appended to `events` with the result code it was given.

The constructors `Master` and `Slave` stand for `master()` and `slave(id)` of
ModbusRTU.h. `Prepare` stands for the request builders of the Modbus base
class. They fill `_frame` and `_len` before calling `send`. Neither file is
part of this model.

Where the code and the library's description disagree, the model follows the
code:
- A reply whose function code differs from the request's does not clear the
  request (lines 185-196 are skipped). It stays outstanding until a matching
  reply arrives or `cleanup` times it out, and its callback still fires once.
- The address-mismatch path (lines 148-153) and the master's "no request" path
  (lines 142-147) leave `_frame` as it was.
- The master's "no request" path does not call `cleanup`.

## Model

| member | source | states |
|---|---|---|
| Common.U8 | src/ModbusRTU.cpp:60 | the `uint8_t` conversion keeps a count below 256 and otherwise differs from it by a multiple of 256 |
| Common.Elapsed | src/ModbusRTU.cpp:241 | `millis() - _timestamp` in `uint32_t`: added to the start time modulo 2^32 it gives the current time, and it is the plain difference when the clock did not wrap |
| Crc16.TableAt | src/ModbusRTU.cpp:11-30 | `_auchCRC` has 257 entries and entry 16·j+k is entry k of row j |
| Crc16.TableIndex | src/ModbusRTU.cpp:38 | the `uint8_t` index `CRCHi ^ b` never reaches the 257th entry |
| Crc16.FoldNext | src/ModbusRTU.cpp:38-41 | one turn of the loop (index, lookup, update of `CRCHi`/`CRCLo`) folds one more byte into the register |
| Crc16.ComputeCrc16 | src/ModbusRTU.cpp:32-44 | the loop returns `Crc(address, frame, pduLen)`, the fold from 0xFF/0xFF of the address followed by the first `pduLen` bytes |
| Crc16.Pack | src/ModbusRTU.cpp:43 | `(CRCHi << 8) \| CRCLo` has `CRCHi` as its high byte and `CRCLo` as its low byte |
| Crc16.CrcReadsOnlyPrefix | src/ModbusRTU.cpp:37-38 | `crc16` depends on the first `pduLen` bytes of the frame only |
| Crc16.TableRow0 | src/ModbusRTU.cpp:12 | entries 0x00-0x0F are the byte-swapped eight-shift remainders of their index under polynomial 0xA001 |
| Crc16.TableRow1 | src/ModbusRTU.cpp:12-13 | the same for entries 0x10-0x1F |
| Crc16.TableRow2 | src/ModbusRTU.cpp:13-14 | the same for entries 0x20-0x2F |
| Crc16.TableRow3 | src/ModbusRTU.cpp:14-15 | the same for entries 0x30-0x3F |
| Crc16.TableRow4 | src/ModbusRTU.cpp:15-16 | the same for entries 0x40-0x4F |
| Crc16.TableRow5 | src/ModbusRTU.cpp:16-17 | the same for entries 0x50-0x5F |
| Crc16.TableRow6 | src/ModbusRTU.cpp:17-18 | the same for entries 0x60-0x6F |
| Crc16.TableRow7 | src/ModbusRTU.cpp:18-19 | the same for entries 0x70-0x7F |
| Crc16.TableRow8 | src/ModbusRTU.cpp:19-20 | the same for entries 0x80-0x8F |
| Crc16.TableRow9 | src/ModbusRTU.cpp:20-21 | the same for entries 0x90-0x9F |
| Crc16.TableRowA | src/ModbusRTU.cpp:21-22 | the same for entries 0xA0-0xAF |
| Crc16.TableRowB | src/ModbusRTU.cpp:22-23 | the same for entries 0xB0-0xBF |
| Crc16.TableRowC | src/ModbusRTU.cpp:23-24 | the same for entries 0xC0-0xCF |
| Crc16.TableRowD | src/ModbusRTU.cpp:24-26 | the same for entries 0xD0-0xDF |
| Crc16.TableRowE | src/ModbusRTU.cpp:26-27 | the same for entries 0xE0-0xEF |
| Crc16.TableRowF | src/ModbusRTU.cpp:27-29 | the same for entries 0xF0-0xFF |
| Crc16.TableIsReflectedPoly | src/ModbusRTU.cpp:11-30 | every entry the loop can read is the byte-swapped remainder of its index under the reflected CRC-16 polynomial 0xA001: the table is the standard Modbus one |
| Crc16.TableStep | src/ModbusRTU.cpp:38-41 | one turn of the loop, in terms of the packed register: it xors `CRCLo` into the byte-swapped eight-shift remainder of the index `CRCHi ^ b` |
| Crc16.StepSerial | src/ModbusRTU.cpp:38-41 | one turn of the loop is one byte of the bit-serial CRC-16: if the packed register is the byte-swapped serial register `c`, after the turn it is the byte-swapped register `c` with the byte xored in and shifted eight times |
| Crc16.FoldSerial | src/ModbusRTU.cpp:33-42 | the table-driven fold from 0xFF/0xFF over any bytes is the bit-serial fold from 0xFFFF, byte-swapped |
| Crc16.CrcIsStandard | src/ModbusRTU.cpp:32-44 | `crc16` returns the standard CRC-16/MODBUS of the address and the first `pduLen` bytes, its two bytes exchanged so that the byte sent first is the high one |
| Crc16.SerialFoldSeparates | src/ModbusRTU.cpp:37-42 | two byte strings that differ in one byte and agree elsewhere leave the register in different states |
| Crc16.ByteErrorDetected | src/ModbusRTU.cpp:32-44 | two PDUs of the same length that differ in exactly one byte never have the same CRC |
| Crc16.ExamplePrefix | src/ModbusRTU.cpp:32-44 | after `01 03 00` the register holds 0x20/0xF0 |
| Crc16.ExampleMiddle | src/ModbusRTU.cpp:32-44 | after `01 03 00 00 00` the register holds 0x19/0x84 |
| Crc16.ReadHoldingRegistersExample | src/ModbusRTU.cpp:32-44 | the request `01 03 00 00 00 0A` gets the check bytes `C5 CD` |
| Timing.SilenceThreshold | src/ModbusRTU.cpp:46-52 | `_t` is at least 2 ms; above 19200 baud it is 2 ms; at or below it is the smallest whole number of milliseconds longer than 35 bit times |
| Timing.ThresholdAntitone | src/ModbusRTU.cpp:46-52 | a faster line never waits longer |
| Timing.SilenceAt9600 | src/ModbusRTU.cpp:50 | at 9600 baud `_t` is 4 ms |
| Framing.Join | src/ModbusRTU.cpp:174 | the value rebuilt from the two received bytes has them as its high and low byte |
| Framing.JoinSplit | src/ModbusRTU.cpp:80-81 | splitting a CRC into the two bytes `rawSend` writes and joining them as `task` does gives it back |
| Framing.CheckBytes | src/ModbusRTU.cpp:80-81 | the two trailing bytes are two, and joined they are the CRC of the address and PDU |
| Framing.EncodeFrame | src/ModbusRTU.cpp:78-81 | what `rawSend` writes is `len + 3` bytes long and starts with the address |
| Framing.CheckBody | src/ModbusRTU.cpp:174-176 | the check refuses exactly the bodies shorter than two bytes as too short, and an intact body's PDU is all of it but the last two bytes |
| Framing.EncodeThenCheck | src/ModbusRTU.cpp:78-81 | round trip: the bytes after the address of a frame `rawSend` wrote pass the check of `task` with exactly the PDU sent |
| Framing.CheckThenEncode | src/ModbusRTU.cpp:174-176 | converse round trip: a body that passes the check is its PDU followed by that PDU's own check bytes |
| Framing.CheckBytesUnique | src/ModbusRTU.cpp:176 | the only two bytes that make a PDU pass are its own check bytes |
| Framing.AlteredCheckBytesRefused | src/ModbusRTU.cpp:176-182 | any other two bytes make the frame fail the CRC check |
| Framing.CorruptedPduRefused | src/ModbusRTU.cpp:174-182 | a PDU with one byte corrupted, followed by the check bytes of the PDU sent, fails the CRC check |
| Framing.TrailerIndexAsWritten | src/ModbusRTU.cpp:174 | as written, the high check byte is read at `_len - 2`, which is negative exactly when fewer than two bytes follow the address |
| Framing.PduLenAsWritten | src/ModbusRTU.cpp:175 | as written, `_len - 2` in `uint8_t` wraps to `_len + 254` when fewer than two bytes follow the address |
| Framing.LoneAddressOverruns | src/ModbusRTU.cpp:174-176 | a lone address byte makes line 174 read at index -2 and line 176 run the CRC over 254 bytes; the corrected check calls it too short |
| SerialPort.Head | src/ModbusRTU.cpp:140 | `read()` yields the front byte, and 0xFF once `-1` on an empty queue is stored in a `uint8_t` |
| SerialPort.Tail | src/ModbusRTU.cpp:140 | one read removes one byte, none from an empty queue |
| SerialPort.Drop | src/ModbusRTU.cpp:143 | `n` reads leave the bytes after the first `n`, or nothing |
| SerialPort.Take | src/ModbusRTU.cpp:163-164 | `n` reads yield `n` bytes: the queued ones in order, then 0xFF |
| SerialPort.DropNext | src/ModbusRTU.cpp:143 | one more read drops one more byte |
| SerialPort.DropTail | src/ModbusRTU.cpp:140-143 | reading the address and then `n` bytes drops `n + 1` |
| SerialPort.TakeNext | src/ModbusRTU.cpp:164 | one more read appends the next queued byte to the buffer |
| SerialPort.TakeFrame | src/ModbusRTU.cpp:163-164 | reading exactly a queued frame yields that frame and leaves what follows it |
| SerialPort.Stream.Available | src/ModbusRTU.cpp:114 | `available()` is the number of bytes received and not yet read |
| SerialPort.Stream.Read | src/ModbusRTU.cpp:140 | `read()` returns `Head` and leaves `Tail`, writing nothing |
| SerialPort.Stream.Write | src/ModbusRTU.cpp:78 | `write(b)` appends `b` to the transmitted bytes |
| SerialPort.Stream.WriteBytes | src/ModbusRTU.cpp:79 | `write(buf, len)` appends the first `len` bytes of `buf` |
| Transactions.Cleanup | src/ModbusRTU.cpp:239-253 | after `cleanup` no request is left timed out, and the port, the prepared frame, the role, `_t`, `t` and `_reply` are untouched |
| Transactions.CleanupOutcome | src/ModbusRTU.cpp:239-253 | a request older than the timeout is dropped (no unit, callback, data or sent frame) after one `EX_TIMEOUT` call of its callback, if any, and nothing else changes; otherwise nothing changes |
| Transactions.CleanupTwice | src/ModbusRTU.cpp:239-253 | a second `cleanup` at once finds nothing to do and returns false |
| Transactions.CleanupKeepsPending | src/ModbusRTU.cpp:239-253 | `cleanup` keeps the invariant that a master waiting on a unit holds the non-empty request it sent |
| Transactions.Send | src/ModbusRTU.cpp:89-108 | `send` succeeds exactly when `CanSend` holds, always leaves `_frame` null and `_len` 0, never reads the port and never calls a callback |
| Transactions.SendOutcome | src/ModbusRTU.cpp:89-108 | `send` transmits `rawSend(slaveId, _frame, _len)` exactly when no request is outstanding and a non-empty frame is prepared; otherwise it writes nothing and keeps the outstanding request; either way `_frame` is released and `_len` is 0, and no callback fires |
| Transactions.SendRecordsPending | src/ModbusRTU.cpp:93-101 | a successful `send` leaves a request outstanding exactly when asked to wait on a unicast unit, recording unit, time, callback, data, sent frame and register |
| Transactions.SendKeepsPending | src/ModbusRTU.cpp:93-100 | `send` keeps the invariant: the request it records is the non-empty frame it sent |
| Transactions.Observe | src/ModbusRTU.cpp:114-117 | the count never shrinks and covers every queued byte; only the count and its time change, and the time becomes `now` exactly when the count grows |
| Transactions.FunctionCodeMatches | src/ModbusRTU.cpp:185 | for a request code below 0x80 a reply matches exactly when its code is the request's or the request's with the exception bit set; a request code of 0x80 or more is never matched |
| Transactions.Finish | src/ModbusRTU.cpp:232 | the closing `if (isMaster) cleanup();` leaves the port, the buffer and the settings alone, and does nothing on a slave |
| Transactions.Dispatch | src/ModbusRTU.cpp:183-204 | handling an intact frame never reads the port; a master sets `_reply` to `REPLY_OFF` and writes nothing; a slave keeps the request and callbacks; a broadcast is never answered |
| Transactions.Deliver | src/ModbusRTU.cpp:183-232 | after an intact frame is handled the buffer is released and `_len` is 0, the queue is untouched, and nothing is written for a master or a broadcast |
| Transactions.Accept | src/ModbusRTU.cpp:174-182 | after the CRC check, pass or fail, the buffer is released and `_len` is 0, the queue is untouched, and nothing is written for a master or a broadcast |
| Transactions.ReadFrame | src/ModbusRTU.cpp:140-172 | reading a frame consumes exactly the `_len` counted bytes and ends with `_len` 0; a master writes nothing |
| Transactions.DeliverKeepsPending | src/ModbusRTU.cpp:183-232 | after an intact frame is handled the invariant holds, the queue is untouched and `_len` is 0 |
| Transactions.DeliverTransmits | src/ModbusRTU.cpp:198-204 | handling an intact frame transmits exactly when a slave got a unicast request and `slavePDU` asked for a reply, and then it transmits the framed response |
| Transactions.DeliverReports | src/ModbusRTU.cpp:183-197 | a master's reply with the request's function code completes the request with `masterPDU`'s result; anything else leaves request and callbacks as `cleanup` alone would |
| Transactions.AcceptKeepsPending | src/ModbusRTU.cpp:174-182 | after the CRC check, pass or fail, the invariant holds and `_len` is 0 |
| Transactions.AcceptTransmits | src/ModbusRTU.cpp:174-204 | a frame failing the check is never answered; a passing one as `DeliverTransmits` says |
| Transactions.AcceptReports | src/ModbusRTU.cpp:174-197 | only an intact reply with the request's function code completes the request |
| Transactions.ReadFrameKeepsPending | src/ModbusRTU.cpp:140-172 | reading a frame consumes exactly the `_len` bytes counted, ends with `_len` 0 and keeps the invariant |
| Transactions.ReadFrameTransmits | src/ModbusRTU.cpp:140-204 | a frame read is answered exactly when a slave gets an intact unicast request for its own unit and `slavePDU` asks for a reply |
| Transactions.ReadFrameReports | src/ModbusRTU.cpp:140-197 | a frame read completes the request exactly when a waiting master gets an intact, addressed, allocated reply with the request's function code |
| Transactions.FinishSeesOnlyRequest | src/ModbusRTU.cpp:232 | the closing `cleanup` acts on the request and callbacks alone |
| Transactions.Task | src/ModbusRTU.cpp:110-233 | `task` keeps the role and `_t`, and either leaves the queue untouched or consumes exactly the bytes it counted and ends with `_len` 0 |
| Transactions.TaskKeepsPending | src/ModbusRTU.cpp:110-233 | `task` keeps the invariant that a waiting master holds the request it sent |
| Transactions.MasterWaitsForSilence | src/ModbusRTU.cpp:122-126 | until `_t` ms have passed since the count last grew, a master's `task` only updates the count and its time |
| Transactions.MasterWaitsAfterArrival | src/ModbusRTU.cpp:114-126 | a master never reads in the step that sees new bytes arrive |
| Transactions.TaskConsumesObserved | src/ModbusRTU.cpp:114-172 | `task` counts at least the old count and every queued byte; when it reads a frame it consumes exactly the counted bytes and ends with `_len` 0, otherwise the queue is untouched |
| Transactions.TaskTransmits | src/ModbusRTU.cpp:198-204 | `task` transmits exactly when it reads and a slave answers; then it appends the response framed under the slave's address |
| Transactions.MasterNeverTransmits | src/ModbusRTU.cpp:183-197 | a master's `task` writes nothing |
| Transactions.SlaveSilentOnBroadcast | src/ModbusRTU.cpp:200-201 | a slave never answers a frame sent to address 0 |
| Transactions.TaskReports | src/ModbusRTU.cpp:183-232 | `task` completes the request with `masterPDU`'s result exactly when it reads an answering reply; while waiting for silence it touches neither request nor callbacks; otherwise it acts as `cleanup` |
| Transactions.TaskReportsAtMostOnce | src/ModbusRTU.cpp:188-191 | one `task` calls at most one callback and keeps the record of earlier calls |
| Transactions.MismatchKeepsPending | src/ModbusRTU.cpp:185 | an intact reply with another function code is consumed but the request stays outstanding and no callback fires |
| Transactions.FrameArrives | src/ModbusRTU.cpp:140-176 | a whole frame as `rawSend` writes it is counted in full, read to the end, and passes the check with its PDU |
| Transactions.ReplyCompletesRequest | src/ModbusRTU.cpp:183-197 | round trip, master side: the reply frame `rawSend` would write for the waited-on unit, with the request's function code, is read whole after the silence and completes the request, calling the callback once with `masterPDU`'s result |
| Transactions.RequestIsAnswered | src/ModbusRTU.cpp:198-204 | round trip, slave side: a request framed for the slave's own unit is read whole and answered with the framed response |
| LoopCounter.ReadsAsWritten | src/ModbusRTU.cpp:143 | the `uint8_t`-counted loop as written, run for a bounded number of turns: when it ends, the counter has reached the count |
| LoopCounter.AsWrittenNeverEnds | src/ModbusRTU.cpp:143 | as written, with a count of 256 or more the loop never ends, however many turns it is given |
| LoopCounter.AsWrittenAgrees | src/ModbusRTU.cpp:143 | with a count below 256 the loop as written is the loop with a wide counter |
| LoopCounter.ReadsCounted | src/ModbusRTU.cpp:163 | with a wide counter the loop makes exactly the counted reads and ends once it has had that many turns |
| LoopCounter.LongFrameNeverRead | src/ModbusRTU.cpp:158-163 | a frame of 258 bytes is never read as written, and is read in 257 turns with a wide counter |
| Rtu.ModbusRtu.Begin | src/ModbusRTU.cpp:54-58 | `begin` attaches the port, sets `_t` to 2 ms, returns true, and changes nothing else |
| Rtu.ModbusRtu.SetBaudrate | src/ModbusRTU.cpp:46-52 | `setBaudrate` sets `_t` to `SilenceThreshold(baud)` and changes nothing else |
| Rtu.ModbusRtu.RawSend | src/ModbusRTU.cpp:60-87 | `rawSend` appends exactly `EncodeFrame(slaveId, frame, len)` to the port and returns true |
| Rtu.ModbusRtu.Send | src/ModbusRTU.cpp:89-108 | the object and port after `send` are `Transactions.Send` of them before, the result is `CanSend`, and the invariant is kept |
| Rtu.ModbusRtu.Record | src/ModbusRTU.cpp:94-100 | the request fields take the sent frame's unit, time, callback, data, frame and register, and `_frame` is detached |
| Rtu.ModbusRtu.Cleanup | src/ModbusRTU.cpp:239-253 | the object after `cleanup` is `Transactions.Cleanup` of it before, and the result says whether the request timed out |
| Rtu.ModbusRtu.Conclude | src/ModbusRTU.cpp:242-249 | ending a request calls its callback once with the code and drops it, changing nothing else |
| Rtu.ModbusRtu.Finish | src/ModbusRTU.cpp:232 | `if (isMaster) cleanup();` is `Transactions.Finish` |
| Rtu.ModbusRtu.Skip | src/ModbusRTU.cpp:143 | the `uint8_t`-counted loop of `n` reads drops `n` bytes and writes nothing |
| Rtu.ModbusRtu.SkipFrame | src/ModbusRTU.cpp:143-144 | skipping a frame drops the `_len` bytes left and sets `_len` to 0 |
| Rtu.ModbusRtu.ReadBytes | src/ModbusRTU.cpp:163-164 | the read loop fills the buffer with `Take` of the queue and leaves `Drop` of it |
| Rtu.ModbusRtu.Task | src/ModbusRTU.cpp:110-233 | the object and port after `task` are `Transactions.Task` of them before, and the invariant is kept |
| Rtu.ModbusRtu.ReadFrame | src/ModbusRTU.cpp:140-147 | from the address read on, `task` follows `Transactions.ReadFrame` |
| Rtu.ModbusRtu.Admit | src/ModbusRTU.cpp:148-153 | after the address is read, the address filter and what follows give `Transactions.ReadFrame` of the state before the read |
| Rtu.ModbusRtu.Allocate | src/ModbusRTU.cpp:155-172 | allocation, the skip on failure and the read loop give `Transactions.ReadFrame` of the state before the address read |
| Rtu.ModbusRtu.Accept | src/ModbusRTU.cpp:174-182 | the CRC check and what follows give `Transactions.Accept`, refusing a body shorter than two bytes |
| Rtu.ModbusRtu.Deliver | src/ModbusRTU.cpp:183-232 | handing an intact frame on and releasing the buffer give `Transactions.Deliver` |
| Rtu.ModbusRtu.HandleReply | src/ModbusRTU.cpp:183-197 | a master's handling of an intact frame is `Transactions.Dispatch` |
| Rtu.ModbusRtu.HandleRequest | src/ModbusRTU.cpp:198-204 | a slave's handling of an intact frame, including its reply through `rawSend`, is `Transactions.Dispatch` |

## Left out

- Rtu.ModbusRtu.Task: requires at most 256 counted bytes, because the `uint8_t` loop counters of lines 143, 149, 158 and 163 never reach a larger `_len` and the loops would not end (see Findings). Within that bound the loops as written and with a wide counter agree (`LoopCounter.AsWrittenAgrees`).
- Timing.SilenceThreshold: requires a baud rate above 0, as does `Rtu.ModbusRtu.SetBaudrate`; `setBaudrate(0)` divides by zero at line 50, which is not modelled.
- Rtu.ModbusRtu.Cleanup: requires a port, only because its contract is stated on the snapshot of object and port; `cleanup` itself never touches the port.
- Transactions.Task: the slave's wait for silence (lines 127-138) is the boolean `quiet`. Bytes that arrive during the wait are not modelled: the port's queue is fixed for the length of one call.
- Transactions.Task: `millis()` is read once per call (`now`), where the source reads it at several points of one step.
- `masterPDU` and `slavePDU` (the PDU decoders of the Modbus base class) are not part of this model. Their effect on `_reply` and `_frame` is the parameters `pduReply`, `slaveReply` and `response`.
- ModbusRTU.h is not part of this model. The constants take their upstream values: broadcast address 0, timeout 1000 ms, `EX_SUCCESS` 0x00, `EX_TIMEOUT` 0xE4, `REPLY_OFF` 0x01. `_len` and `_t` are unbounded naturals, since their declared widths are not shown.
- The callback's payload arguments (`0, nullptr`) and the `_data` pointer's target are not modelled. A callback call is recorded with its result code only.
- `malloc`/`free` are modelled as `Some`/`None` buffers, and an allocation failure as the parameter `allocOk`.
- The direction pin (`_txPin`, `digitalWrite`), `delayMicroseconds`, `vTaskDelay`, `flush` and the debug prints are hardware timing and logging with no effect on the modelled state.
- The poll-frequency statistics (lines 205-227) and `getFrequencyWorking` (lines 235-237) use floating point and feed nothing else in the engine.
- The `unit` argument of `send` is unused by the source and by the model.

## Findings

| source | as written | input that shows it | evidently intended | confidence | as-written member | corrected member |
|---|---|---|---|---|---|---|
| src/ModbusRTU.cpp:174-176 | the check bytes are read at `_len - 2` and `_len - 1`, and `_len` is decreased by 2, with nothing making sure `_len >= 2` | a frame of one byte (the address alone) after the silence: `_len` becomes 0, line 174 reads index -2 of a zero-byte buffer, and line 176 computes the CRC over 254 bytes | a body shorter than the two check bytes is discarded like a CRC failure | not executed | Framing.LoneAddressOverruns | Framing.CheckBody |
| src/ModbusRTU.cpp:143-163 | the loops at lines 143, 149, 158 and 163 that skip or read a frame count with a `uint8_t i` up to `_len`, which counts every byte `available()` reports | 258 bytes in the receive buffer when the line falls silent (a receive buffer larger than 256 bytes, and `_len` wider than eight bits): `_len` is 257 after the address, `i` wraps from 255 to 0 and the loop never ends | the loop counter is as wide as `_len`, so the loop makes exactly `_len` reads | not executed; depends on the width of `_len` in ModbusRTU.h, which is not part of this model | LoopCounter.AsWrittenNeverEnds | LoopCounter.ReadsCounted |

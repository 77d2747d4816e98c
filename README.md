# igotu-gt120b downloader, modelled in Dafny

This project is a Dafny model of the core of the GT-120b GPS logger downloader.
The model takes the command layer down to the frame bytes and takes the download
workflow end to end. The core has these parts:

- **Framing** (module `Framing`, `comm.dfy`): commands are padded to a 16-byte
  frame with a two's-complement checksum. Checked answers carry the prefix `0x93`,
  a big-endian payload length, the payload and a checksum byte. `CommBulk` runs a
  single exchange on top of that.
- **Command catalog** (module `Commands`, `OffsetCalc`): NMEA switch, model,
  identification, count, set-time, memory read and delete-reboot. Each one is a
  request encoder, an answer validator and decoder, and a method that runs the
  exchange.
- **Workflow** (module `Workflow`): the download session runs in this order:
  1. identify the device;
  2. check the 8-byte slot at `0x1FFF80` and send the time;
  3. read the alias from the configuration block;
  4. probe for the end of the recorded data;
  5. do the bulk and tail downloads into the data dump;
  6. export;
  7. optionally delete, reboot and check the device again.
- **Record decoder** (module `Records`, `Data2`): a data block is a sequence of
  128-byte groups. Each group is an 8-byte header and four 30-byte records. A record
  is a skipped tag or a fix with a bit-packed UTC time stamp.
- **Transports** (module `Transport`, `IntfBulk`, `IntfFile`):
  - the device behind the `Intf` interface, as the command layer sees it;
  - the USB bulk transport: fragment reassembly, reconnect back-off, and the
    "same bus, other address" match after a reboot;
  - the replay transport: script parsing, replay with a cursor, and the dummy clock
    read from a comment.
- **Test helpers** (module `FuzzCompare`, `UDiff`): the fuzzy line comparison
  (1% tolerance on numbers) and the line-list normaliser of the unified-diff helper.

The modelling choices:

- Every `panic!`, `assert!`, `unwrap` and `expect` of the source is an `Err` of
  `Common.Result`.
- Rust's u32 overflow checks in the workflow's offset arithmetic are the `Overflow`
  error.
- The model's device answers memory-read frames from an abstract memory. An
  unwritten address reads `0xFF`. It answers every other frame through an abstract
  reply function of the frame and of the frames received before it.
- The device logs every frame it receives, every read it serves and every reboot.
  The workflow's contracts are stated over those logs.

Where the repository's data-format notes and the code disagree, the model follows
the code:
- hdop is the single byte 8, not a 16-bit value at 8..10;
- elevation is the unsigned little-endian u16 at 22..24, not a signed 32-bit value;
- latitude and longitude are unsigned u32;
- the tag byte is compared whole, with no masking.

## Model

| member | source | states |
|---|---|---|
| Framing.ChecksumOkIffSumZero | src/comm_bulk.rs:61-68 | the checksum test passes exactly when all bytes of the answer sum to 0 mod 256 |
| Framing.CommandFrame | src/comm_bulk.rs:49-55 | a command shorter than 16 bytes becomes a 16-byte frame: the command, zeros up to index 14, and a last byte that makes the sum 0 mod 256 |
| Framing.CommandFrameExplicit | src/comm_bulk.rs:51-53 | the frame is the command, the zero padding and the negated wrapping sum of the command bytes |
| Framing.PadAndChecksum | src/comm_bulk.rs:49-55 | a command of 16 bytes or more fails the length assertion; any other command gives exactly its frame |
| Framing.VerifyAnswer | src/comm_bulk.rs:57-77 | the checks come in the source's order (prefix, checksum, then declared length), each with its own error; success holds exactly when all three hold, and the payload is bytes 3..len-1, of the declared length |
| Framing.AnswerRoundTrip | src/comm_bulk.rs:57-77 | the answer frame built around a payload verifies to exactly that payload |
| Framing.AnswerUnique | src/comm_bulk.rs:57-77 | an answer that verifies is the frame built around its own payload, so the framing is a bijection |
| Framing.CheckFullAnswer | src/comm_bulk.rs:79-84 | succeeds exactly when the received payload equals the expected one |
| Comm.EqAnswer | src/comm_bulk.rs:26-30 | an exchange passes the equality check exactly when it produced the expected payload |
| Comm.CommBulk.constructor | src/comm_bulk.rs:9-11 | the channel wraps the given transport |
| Comm.CommBulk.SimpleCmdReturn | src/comm_bulk.rs:14-24 | sends the padded frame once and returns the verified payload of the device's answer; an over-long command sends nothing |
| Comm.CommBulk.SimpleCmdEqResult | src/comm_bulk.rs:26-30 | succeeds exactly when the command fits and the verified payload is the expected one; one frame is sent |
| Comm.CommBulk.SimpleCmdOnewayDeviceReset | src/comm_bulk.rs:32-38 | sends the padded frame without reading an answer, and the device reboots once |
| Transport.ReadOf | src/commands.rs:156-161 | a read frame names a 24-bit position and a 16-bit size |
| Transport.Device.constructor | src/intf.rs:1-6 | a device starts with empty frame and read logs and no reboot |
| Transport.Device.SendAndReceive | src/intf.rs:2 | the answer is the device's answer to the frame in its present state; the frame and the reads it asks for are logged |
| Transport.Device.CmdOnewayDeviceReset | src/intf.rs:3 | the frame is logged, nothing is read, and the boot counter goes up by one |
| Commands.NmeaSwitchCommand | src/commands.rs:8-10 | `93 01 01` and then `03` exactly when the flag is set, `00` exactly when it is not |
| Commands.CmdNmeaSwitch | src/commands.rs:6-13 | succeeds exactly when the switch answer's payload is empty; one frame is sent |
| Commands.DecodeModel | src/commands.rs:29-40 | accepts exactly three bytes `c2 20 m` with m one of 0x13, 0x14, 0x15, 0x17, and the model's code is m; other shapes are `UnexpectedAnswer`, other codes `UnknownModelCode` |
| Commands.ModelRoundTrip | src/commands.rs:33-40 | every model is decoded from the answer that carries its code |
| Commands.CmdModel | src/commands.rs:23-41 | the model decoded from the answer to the fixed model command; one frame is sent |
| Commands.VersionDateSplit | src/commands.rs:79-83 | the day, month and year fields of the 16-bit firmware date partition its bits |
| Commands.DevId2Value | src/commands.rs:88 | bits 16..63 of the little-endian u64 of bytes 8..16 are the little-endian value of bytes 10..16 |
| Commands.ModelDigits | src/commands.rs:90 | model 10 is printed as `0010` |
| Commands.DeviceIdForm | src/commands.rs:90 | the device id is `0010-` and twelve hex digits that denote the low 48 bits of the second id |
| Commands.DecodeIdentification | src/commands.rs:72-113 | accepts exactly 17-byte answers with big-endian model 10; gives the manufacturer empty exactly in original-software mode, name and alias `GT120B-` and bytes 11 and 10 in hex, and the fixed version strings |
| Commands.IdentificationFields | src/commands.rs:76-113 | the whole identification record of an accepted answer, field by field |
| Commands.IdentificationSerial | src/commands.rs:89 | the serial number is the decimal rendering of 10^10 times the model plus the little-endian u32 of bytes 0..4 |
| Commands.IdentificationDeviceId | src/commands.rs:87-90 | the device id is `0010-` followed by hex digits that denote the little-endian value of bytes 10..16 |
| Commands.IdentificationName | src/commands.rs:85-106 | the name is `GT120B-` followed by bytes 11 and 10, two hex digits each |
| Commands.LeDropLow2 | src/commands.rs:88 | shifting a little-endian integer right by 16 drops its two low bytes |
| Commands.CmdIdentification | src/commands.rs:63-118 | the identification decoded from the answer to `93 0a`; one frame is sent |
| Commands.CalculateOffsetFromCount | src/commands.rs:120-123 | the offset is 0x1000 times (8b + c/32 + 1) and stays within u32 |
| Commands.DecodeCount | src/commands.rs:131-135 | accepts exactly 3-byte answers and gives the offset of bytes 1 and 2 |
| Commands.CmdCount | src/commands.rs:125-140 | the count decoded from the answer to the count command; one frame is sent |
| Commands.SetTimeCommand | src/commands.rs:144-149 | the set-time command is 15 bytes long |
| Commands.SetTimeFields | src/commands.rs:146-149 | the command is `93 09`, the little-endian microseconds, and the whole seconds modulo 2^40 |
| Commands.CmdSetTime | src/commands.rs:142-152 | succeeds exactly when the set-time answer's payload is empty |
| Commands.ReadCommand | src/commands.rs:156-161 | the read request is 10 bytes long |
| Commands.ReadCommandDecodes | src/commands.rs:156-161 | the padded request is a read frame for the position modulo 2^24 and the size |
| Commands.ReadPayload | src/commands.rs:165-168 | accepts exactly payloads of the requested size, unchanged |
| Commands.ReadAnswerExact | src/commands.rs:163-168 | for every answer, a read of `size` bytes succeeds exactly when the answer is the checked frame around a payload of that size; a wrong prefix, checksum, declared length or payload size fails |
| Commands.ReadExchange | src/commands.rs:154-168 | against the device, a read returns the memory from the position modulo 2^24 |
| Commands.CmdRead | src/commands.rs:154-169 | returns the device memory at the 24-bit position; exactly that frame and that read are logged (the model's device answers every read correctly; see "Left out") |
| Commands.CmdDeleteReboot | src/commands.rs:171-176 | sends the delete frame one-way and the device reboots once |
| CommandVectors.EmptyAnswerVector | src/commands.rs:215 | `93 00 00 6d` verifies to the empty payload |
| CommandVectors.NmeaSwitchVector | src/commands.rs:212-220 | the NMEA-switch frame of the unit test |
| CommandVectors.ModelVector | src/commands.rs:223-232 | the model frame of the unit test, and its answer decodes to GT-120 |
| CommandVectors.IdentificationVector | src/commands.rs:237 | the identification frame of the unit test |
| CommandVectors.IdentificationAnswerVector | src/commands.rs:238 | the identification answer of the unit test verifies to its 17-byte payload |
| CommandVectors.IdentificationFieldsVector | src/commands.rs:241-252 | that payload decodes to every field the test asserts |
| CommandVectors.FirmwareVersionVector | src/commands.rs:250 | version 1, 2 and date word 0x2f4d render as `1.2.231013` |
| CommandVectors.DeviceIdVector | src/commands.rs:245 | the device id of the test is `0010-00188C710D66` |
| CommandVectors.NameVector | src/commands.rs:246 | the name of the test is `GT120B-0D66` |
| CommandVectors.SerialNumberVector | src/commands.rs:248 | the serial number of the test is `100224600998` |
| CommandVectors.CountVector | src/commands.rs:256-265 | the count frame of the unit test, and its answer gives offset 0x7A000 |
| CommandVectors.SetTimeVector | src/commands.rs:268-277 | the set-time frame for 1753997870971000 µs |
| CommandVectors.SetTimeCommandVector | src/commands.rs:270-274 | the unpadded set-time command for that time |
| CommandVectors.ReadVector | src/commands.rs:280-291 | the read frame for 8 bytes at 0x1FFF80, and the payload its answer yields |
| CommandVectors.ReadCommandVector | src/commands.rs:282 | the unpadded read command of the test |
| CommandVectors.ReadAnswerVector | src/commands.rs:283-290 | the read answer of the test verifies to its eight bytes |
| CommandVectors.DeleteRebootVector | src/commands.rs:294-301 | the delete-reboot frame of the unit test |
| OffsetCalc.OffsetBounds | tmp/offset-calculation/calc.rs:2-5 | every offset is a 4 KiB boundary between 0x1000 and 0x800000, so the u32 shifts never wrap |
| OffsetCalc.OffsetInjective | tmp/offset-calculation/calc.rs:2-5 | two count answers give the same offset exactly when they agree in b and in the top three bits of c |
| OffsetCalc.ParseHexU8 | tmp/offset-calculation/calc.rs:12-13 | the empty string is `Empty`; every failure is an integer-parse error |
| OffsetCalc.ParseHexDigits | tmp/offset-calculation/calc.rs:12 | the digit loop fails only with `InvalidDigit` or `PosOverflow` |
| OffsetCalc.ParseHexDigitsMeaning | tmp/offset-calculation/calc.rs:12 | the digit loop succeeds exactly on hex digits whose value fits a byte, and gives that value |
| OffsetCalc.HexValueCons | tmp/offset-calculation/calc.rs:12 | the first hex digit is worth 16 to the power of the number of digits after it |
| OffsetCalc.HexValueAppend | tmp/offset-calculation/calc.rs:12 | the value of a concatenation is the left part shifted by the digits of the right part |
| OffsetCalc.ParseHexU8Meaning | tmp/offset-calculation/calc.rs:12-13 | `from_str_radix(s, 16)` into u8: `Empty` exactly for the empty string; otherwise success exactly on a nonempty run of hex digits below 256 after an optional `+`, with that value |
| OffsetCalc.ParseHexU8RoundTrip | tmp/offset-calculation/calc.rs:35-42 | two upper-case hex digits parse back to the byte they render |
| OffsetCalc.ParseTwoDigits | tmp/offset-calculation/calc.rs:12-13 | any two hex digits parse to 16 times the first plus the second |
| OffsetCalc.CalculateOutWithBitshiftOps | tmp/offset-calculation/calc.rs:7-16 | the first parse failure is returned; otherwise the result is the offset of the two parsed bytes |
| OffsetCalc.OffsetVectors | tmp/offset-calculation/calc.rs:24-36 | the pairs `08 C0` (also `08 c0`) and `06 02` give 0x47000 and 0x31000 |
| OffsetCalc.MoreOffsetVectors | tmp/offset-calculation/calc.rs:38-42 | the pairs `0B 8B`, `02 6E` and `01 DC` give 0x5d000, 0x14000 and 0xf000 |
| OffsetCalc.OffsetVector | tmp/offset-calculation/calc.rs:18-22 | any two-digit pair gives the formula applied to its digit values |
| Records.RecordTimeBytes | src/gt120b_datadump.rs:107-113 | the packed u32 fields, read off the individual bytes 2..8 |
| Records.StampRoundTrip | src/gt120b_datadump.rs:107-125 | a record carrying the encoding of a time stamp decodes to that time stamp |
| Records.DecodeFix | src/gt120b_datadump.rs:105-132 | a fix decodes exactly when its date and time are valid, and the failure is `InvalidTimestamp` |
| Records.DecodeFixIgnoresTag | src/gt120b_datadump.rs:105-132 | the tag byte plays no part in the decoded fix |
| Records.DecodeFixFields | src/gt120b_datadump.rs:105-132 | the satellite nibbles are the two halves of byte 1, and the other fields are unsigned 8-, 16- and 32-bit values |
| Records.ParseOne | src/gt120b_datadump.rs:81-132 | no point exactly for the tags FF, 50, 41, 43 and 42; any other record gives its decoded fix or the time-stamp failure |
| Records.RecordOffsets | src/gt120b_datadump.rs:69-79 | four offsets per group, all inside the block |
| Records.OffsetAt | src/gt120b_datadump.rs:72-77 | entry 4g+j of the visiting order is record j of group g, at 128g + 8 + 30j |
| Records.RecordOffsetsShape | src/gt120b_datadump.rs:72-77 | entry i of the visiting order is record i mod 4 of group i / 4 |
| Records.RecordOffsetsPrefix | src/gt120b_datadump.rs:72-77 | the offsets of fewer groups begin the offsets of more groups |
| Records.DecodeRecordsErrPersists | src/gt120b_datadump.rs:116-125 | once a record fails, later records never change the block's result |
| Records.DecodeRecordsSnoc | src/gt120b_datadump.rs:74-77 | one more record keeps an earlier error, or stops with its own error, or appends its point |
| Records.StoppedDecides | src/gt120b_datadump.rs:72-77 | a loop stopped at a failing record has found the block's result |
| Records.LoopDone | src/gt120b_datadump.rs:72-78 | a loop that visited every record has decoded the whole block |
| Records.LoopStep | src/gt120b_datadump.rs:74-77 | one record of the loop either extends the loop state or stops the loop with the record's error |
| Records.ParseGroup | src/gt120b_datadump.rs:74-77 | the four records of a group extend the loop state, or the loop stops inside that group |
| Records.DumpblockParse | src/gt120b_datadump.rs:69-79 | the loop visits the records in order and its result is the decoding of the whole block |
| Records.HeaderOffsets | src/gt120b_datadump.rs:58-60 | one header per group |
| Records.HeaderOffsetsAt | src/gt120b_datadump.rs:58-60 | header g sits at byte 128g |
| Records.HeaderOffsetsPrefix | src/gt120b_datadump.rs:58-60 | the headers of fewer groups begin the headers of more groups |
| Records.HexStopped | src/gt120b_datadump.rs:55-67 | when group g stops the loop, the headers printed so far begin the full list, and the failing record lies in the group of the last header |
| Records.DumpblockHex | src/gt120b_datadump.rs:55-67 | the same result as the record loop; every header is printed when all records decode, and otherwise the headers up to the failing group |
| Records.PointsOfAppend | src/gt120b_datadump.rs:47-52 | feeding blocks one by one collects the points of each block in turn |
| Records.DataDump.constructor | src/gt120b_workflow.rs:58 | a new dump has received no block |
| Records.DataDump.ProcessDatablock | src/gt120b_datadump.rs:47-52 | succeeds exactly when the length is a multiple of 128 and every record decodes; a block of the right length is recorded |
| Records.DataDump.WriteOut | src/gt120b_workflow.rs:93-95 | the file count comes from the export of the points of the accepted blocks |
| Data2.Trackpoint | doc/topics/dataformat-parsing/data2.rs:11-59 | the same as `dumpblock_parse_one` except for tags 42 and 50, which are decoded as fixes |
| Data2.TimeVector | doc/topics/dataformat-parsing/data2.rs:34-52 | a record whose time-stamp bytes spell out a time decodes to it |
| Data2.FixVector | doc/topics/dataformat-parsing/data2.rs:32-59 | a record whose bytes spell out a fix decodes to it |
| Data2.SampleTimes | doc/topics/dataformat-parsing/data2.rs:91-107 | the six sample records decode to the times written beside them |
| Data2.Time91 | doc/topics/dataformat-parsing/data2.rs:91 | 2025-07-31T17:08:00Z |
| Data2.Time95 | doc/topics/dataformat-parsing/data2.rs:95 | 2025-07-31T17:08:49Z |
| Data2.Time96 | doc/topics/dataformat-parsing/data2.rs:96 | 2025-07-31T17:09:20Z |
| Data2.Time103 | doc/topics/dataformat-parsing/data2.rs:103 | 2025-07-31T20:07:35Z |
| Data2.Time104 | doc/topics/dataformat-parsing/data2.rs:104 | 2025-07-31T20:07:42Z |
| Data2.Time107 | doc/topics/dataformat-parsing/data2.rs:107 | 2025-07-31T20:08:44.441Z |
| Data2.SampleFix | doc/topics/dataformat-parsing/data2.rs:107 | the fix at line 107 in full; both decoders agree on it |
| Data2.Fix107 | doc/topics/dataformat-parsing/data2.rs:107 | the decoded fields of that record |
| Data2.SampleSwitchOff | doc/topics/dataformat-parsing/data2.rs:96-97 | the switch-off record decodes in `t` to the point of the record before it, and `dumpblock_parse_one` skips it |
| Data2.Fix96 | doc/topics/dataformat-parsing/data2.rs:96 | the decoded fields of that record |
| Data2.SameFix97 | doc/topics/dataformat-parsing/data2.rs:97 | the switch-off record carries the same fix |
| Data2.SampleErased | doc/topics/dataformat-parsing/data2.rs:109 | the erased record would not decode, and both decoders skip it |
| IntfBulk.MatchExcludes | src/intf_bulk.rs:152-161 | with a bus filter, the device last seen and any device on another bus never match |
| IntfBulk.FindDevice | src/intf_bulk.rs:82-86 | the first wanted device of a scan, and none exactly when no device is wanted |
| IntfBulk.Backoffs | src/intf_bulk.rs:91-98 | one sleep per missed scan |
| IntfBulk.BackoffSchedule | src/intf_bulk.rs:80-98 | the sleeps are 1000, 1500, 2250 and 3375 ms, and then 3000 ms for ever |
| IntfBulk.SteadyBackoff | src/intf_bulk.rs:93-98 | from the fifth sleep on, every sleep is 3000 ms |
| IntfBulk.BackoffBounds | src/intf_bulk.rs:80-98 | every sleep lies between 1000 and 3375 ms |
| IntfBulk.Gather | src/intf_bulk.rs:36-39 | the gathering loop uses only the fragments that are there |
| IntfBulk.Reassemble | src/intf_bulk.rs:33-39 | reassembly uses at least one fragment |
| IntfBulk.GatherSpec | src/intf_bulk.rs:36-39 | gathering takes the shortest prefix of the fragments that holds the needed bytes, and fails exactly when all fragments together are too short |
| IntfBulk.ReassembleSpec | src/intf_bulk.rs:33-41 | the answer is the shortest prefix of the fragments that holds the declared size plus 4; no later fragment is used |
| IntfBulk.ReassembleSplit | src/intf_bulk.rs:33-41 | however a frame is split into fragments, reassembly gives it back, whatever follows |
| IntfBulk.IntfBulk.Init | src/intf_bulk.rs:68-77 | a transport starts with nothing written, no sleep and no device filter, and with the transfers each coming exchange will see |
| IntfBulk.IntfBulk.ReadAnswer | src/intf_bulk.rs:124-135 | the first transfer of the queue, with the rest left in the queue, or `TransfersExhausted` when the queue is empty |
| IntfBulk.IntfBulk.SendAndReceive | src/intf_bulk.rs:25-42 | opens a fresh queue for this exchange, writes the frame and returns the answer reassembled from that queue's transfers; the next exchange starts from its own queue, so transfers the answer did not need are dropped |
| IntfBulk.IntfBulk.WaitForDeviceInfo | src/intf_bulk.rs:79-103 | the device found by the first scan that finds one; the sleeps follow the back-off schedule when waiting; without waiting the first miss fails |
| IntfBulk.IntfBulk.CmdOnewayDeviceReset | src/intf_bulk.rs:44-57 | writes the frame, waits for the device to come back on the same bus at another address, and keeps its new bus and address |
| IntfBulk.New | src/intf_bulk.rs:69-77 | the first GT-120 of the first scan, with no filter and no waiting; a scan without one fails |
| IntfFile.KindOf | src/intf_file.rs:33-45 | an entry line has at least its two marker characters |
| IntfFile.RemoveColons | src/intf_file.rs:48 | the result holds no colon and is no longer than the input |
| IntfFile.RemoveColonsFree | src/intf_file.rs:48 | a colon-free string is left alone |
| IntfFile.PendingCleared | src/intf_file.rs:46-52 | after an entry, no comment is pending until the next `#: ` line |
| IntfFile.PendingSet | src/intf_file.rs:34-36 | a `#: ` line stays pending, replacing any earlier one, until the next entry or comment |
| IntfFile.EntriesStep | src/intf_file.rs:30-53 | each line adds its own entry, with its kind, bytes, line number and pending comment, or adds nothing |
| IntfFile.EntriesFromLines | src/intf_file.rs:46-51 | every entry comes from an entry line and carries that line's kind, bytes and comment |
| IntfFile.EntriesOrdered | src/intf_file.rs:30-53 | the entries keep the order of their lines |
| IntfFile.EntriesCounted | src/intf_file.rs:30-53 | there is one entry per entry line |
| IntfFile.EntriesErr | src/intf_file.rs:48 | a parse that failed on bad hex stays failed with the same error |
| IntfFile.EntriesOk | src/intf_file.rs:30-53 | a script without bad hex parses |
| IntfFile.ParseScript | src/intf_file.rs:23-58 | the one-pass loop gives the entries of the whole script |
| IntfFile.ParseU64 | src/intf_file.rs:117 | a parsed number is an optional `+` and a nonempty digit string, with that string's value |
| IntfFile.TimeInComment | src/intf_file.rs:112-125 | success needs a `us=` and a later `)`, and gives a time below 2^63; a comment without `us=` fails |
| IntfFile.TimeInCommentWritten | src/intf_file.rs:113-124 | a comment carrying `us=<t>)` at its first `us=` gives back t |
| IntfFile.TimeOfDigits | src/intf_file.rs:113-124 | the same for any digit string that parses to t |
| IntfFile.TimeAt | src/intf_file.rs:113-118 | each step of the time extraction succeeding gives the parsed time |
| IntfFile.ParseDecimal | src/intf_file.rs:117 | the decimal rendering of a u64 parses back to it |
| IntfFile.NoCloseInDigits | src/intf_file.rs:116 | the first `)` after a digit string is right after its digits |
| IntfFile.ResponseRun | src/intf_file.rs:96-103 | the run of consecutive responses is maximal: it ends at a command or at the end of the script |
| IntfFile.IntfFile.constructor | src/intf_file.rs:54-57 | the replay starts at the first entry |
| IntfFile.IntfFile.SimSend | src/intf_file.rs:60-78 | succeeds exactly when the next entry is a command with the sent bytes, and moves the cursor by one when there is an entry |
| IntfFile.IntfFile.SendAndReceive | src/intf_file.rs:82-105 | succeeds exactly when the matched command is followed by a response; returns that response joined with every response directly after it |
| IntfFile.IntfFile.JoinRun | src/intf_file.rs:95-103 | the loop joins the whole run of responses and stops at the next command |
| IntfFile.IntfFile.CmdOnewayDeviceReset | src/intf_file.rs:107-110 | succeeds exactly when the next entry is the sent command |
| IntfFile.IntfFile.GetTimeMicros | src/intf_file.rs:112-125 | fails when no entry is left, and otherwise gives the time in the next entry's comment, without moving the cursor |
| Workflow.IsErasedSpec | src/gt120b_workflow.rs:202 | a block is erased exactly when it equals `vec![0xff; n]` |
| Workflow.BlockOffset | src/gt120b_workflow.rs:210 | reads inside a block at a 4 KiB boundary stay inside it after the 24-bit truncation |
| Workflow.DoubletCoversBlock | src/gt120b_workflow.rs:201-213 | the two reads of a non-empty doublet, joined, are the whole 0x1000-byte block |
| Workflow.Feed | src/gt120b_workflow.rs:207-213 | without a dump nothing happens; with one, the block is handed on and succeeds exactly when accepted |
| Workflow.ReadDoublet | src/gt120b_workflow.rs:196-215 | returns whether the probe held data; only a probe with data reads the rest; the reads made and the blocks fed are stated; against the model's device, whose reads always answer correctly, the only failures are u32 overflow or a rejected block |
| Workflow.DoubletRest | src/gt120b_workflow.rs:207-214 | after a probe with data: one more read, and both blocks fed |
| Workflow.BulkCovers | src/gt120b_workflow.rs:60-64 | when every doublet has data, the joined blocks fed to the dump are exactly the memory from 0x1000 on: nothing is skipped and nothing is read twice |
| Workflow.BulkCoversStep | src/gt120b_workflow.rs:61-63 | one more doublet covers one more block |
| Workflow.ContinuesBefore | src/gt120b_workflow.rs:156 | the loop condition held before every probe that was made |
| Workflow.ProbeStopUnique | src/gt120b_workflow.rs:156-164 | the number of probes is determined by the memory |
| Workflow.ProbeStopShape | src/gt120b_workflow.rs:156-164 | the search makes at least two probes, stops behind two empty ones, and never passes two empty probes in a row before that |
| Workflow.HitsContinue | src/gt120b_workflow.rs:156 | after a run of probes with data, the loop goes on for two more probes |
| Workflow.ProbeContiguous | src/gt120b_workflow.rs:149-169 | for m recorded blocks followed by two empty ones, the search makes m+2 probes and ends on the last recorded block |
| Workflow.LastHit | src/gt120b_workflow.rs:159-162 | the last probe with data lies among the probes made |
| Workflow.LastHitSpec | src/gt120b_workflow.rs:159-162 | that probe found data and no later one did; there is none exactly when no probe found data |
| Workflow.ProbeLoopStep | src/gt120b_workflow.rs:157-163 | one turn of the loop keeps its variables in step with the probes made |
| Workflow.Probe | src/gt120b_workflow.rs:158 | a probe reads without feeding a dump and reports whether the block has data |
| Workflow.FindEndOffset | src/gt120b_workflow.rs:149-169 | makes exactly the probes the stopping rule demands, then the extra read; returns the last probe with data (or the count offset) and whether every probe was empty |
| Workflow.ProbeRun | src/gt120b_workflow.rs:152-165 | the probe loop alone, with the same result |
| Workflow.BulkCount | src/gt120b_workflow.rs:60-64 | the number of 4 KiB steps from 0x1000 up to the end offset |
| Workflow.BulkPhase | src/gt120b_workflow.rs:60-64 | reads the doublets from 0x1000 below the end offset, feeding the dump, and returns the first offset not read |
| Workflow.BulkStep | src/gt120b_workflow.rs:61-63 | one doublet and the overflow check of the offset increment |
| Workflow.BulkCountAbove | src/gt120b_workflow.rs:61 | a doublet below the end offset is one that the loop reads |
| Workflow.BulkCountEnd | src/gt120b_workflow.rs:61 | when the offset reaches the end offset, the loop has read every doublet |
| Workflow.BulkOkNext | src/gt120b_workflow.rs:62 | one more doublet must succeed |
| Workflow.BulkStops | src/gt120b_workflow.rs:61-64 | a failing doublet fails the whole bulk loop |
| Workflow.TailCoversBlock | src/gt120b_workflow.rs:69-79 | the three tail reads, put in address order, are exactly the block |
| Workflow.ReadInto | src/gt120b_workflow.rs:69-72 | one read, fed to the dump |
| Workflow.TailPhase | src/gt120b_workflow.rs:67-81 | reads (offset, 0x100), (offset+0xF80, 0x80) and (offset+0x100, 0xE80) in that order and feeds each one |
| Workflow.TailRest | src/gt120b_workflow.rs:73-80 | the last two tail reads |
| Workflow.IdentifyOffset | src/gt120b_workflow.rs:188 | a successful identification's offset is a 4 KiB boundary from 0x1000 on, within u32 |
| Workflow.CountOffset | src/commands.rs:120-123 | the same for every offset the count formula gives |
| Workflow.Identify | src/gt120b_workflow.rs:171-191 | the NMEA switch, then model, identification and count, each answered after the frames before it; four frames are sent |
| Workflow.ConfigAliasForm | src/gt120b_workflow.rs:132-134 | the alias is bytes 16..48 of the configuration block with the trailing NULs removed |
| Workflow.ReadConfig | src/gt120b_workflow.rs:129-147 | reads the 0xEA-byte configuration block and changes only the alias |
| Workflow.SlotThenTime | src/gt120b_workflow.rs:26-34 | the slot must hold eight 0xFF bytes, and only then is the time sent, from the transport's clock |
| Workflow.AliasAndCount | src/gt120b_workflow.rs:36-53 | in original-software mode, a re-count answered after the frames sent before it and equal to the first offset, then the slot again; then the alias from the configuration block and the reads it served; the last frame is the count command, answered with the first offset; frames are only appended |
| Workflow.DumpPhase | src/gt120b_workflow.rs:57-81 | the bulk loop and, when asked, the tail, with the blocks fed and the reads made stated |
| Workflow.Download | src/gt120b_workflow.rs:55-81 | the end-offset search, the bulk loop below the end offset, and the tail unless every probe was empty |
| Workflow.Clear | src/gt120b_workflow.rs:107-126 | one reboot; the second identification must show the same model and the same record up to the alias, each mismatch with its error; then the slot read, which must be erased, and, as the last frame, the set-time command answered with an empty payload |
| Workflow.Finish | src/gt120b_workflow.rs:83-126 | no file written ends the run with the device kept; clearing happens only when it is asked for and some file was written |
| Workflow.Prepare | src/gt120b_workflow.rs:26-53 | the slot read (erased) followed by the set-time frame answered empty, then the alias and the reads of the original-software path; the last frame is the count command, answered with the first offset |
| Workflow.Transfer | src/gt120b_workflow.rs:55-126 | download into a fresh dump, then export and clear |
| Workflow.Workflow | src/gt120b_workflow.rs:12-127 | the whole session: only a GT-120 is accepted; a successful run saw an erased slot and made the probes of the stopping rule; the blocks fed are those of the bulk loop and the tail; the device reboots exactly when it is cleared |
| Text.DecimalRoundTrip | src/commands.rs:107 | `to_string` of an unsigned number is a digit string without a leading zero that denotes it |
| Text.ZeroPadValue | src/commands.rs:86 | zero padding keeps the value of a digit string |
| Text.HexRoundTrip | src/commands.rs:90 | w upper-case hex digits denote the number modulo 16^w |
| Text.HexByteRoundTrip | src/commands.rs:85 | two hex digits render a byte exactly |
| Text.HexDecode | src/intf_file.rs:48 | `hex::decode` takes two digits per byte |
| Text.HexDecodeEncode | src/intf_file.rs:48 | decoding undoes hex encoding |
| Text.Trim | src/intf_file.rs:35 | the trimmed string starts and ends with no whitespace |
| Text.TrimEndMatches | src/gt120b_workflow.rs:133 | only trailing occurrences of the character are removed, and all of them |
| Text.RStrip | helpers/python/udiff.py:22 | only trailing whitespace is removed, and all of it |
| Text.Latin1 | src/gt120b_workflow.rs:132 | one character per byte, with the byte's value |
| Text.Find | src/intf_file.rs:114 | the first occurrence of the pattern, and none exactly when it does not occur |
| UDiff.Filter | helpers/python/udiff.py:20 | the kept lines come from the input and do not start with the header |
| UDiff.FilterAppend | helpers/python/udiff.py:20 | filtering keeps the lines' relative order |
| UDiff.FilterKeeps | helpers/python/udiff.py:20 | a line is kept exactly when it does not start with the header |
| UDiff.FilterCount | helpers/python/udiff.py:20 | exactly the header lines are dropped |
| UDiff.RStripNewline | helpers/python/udiff.py:21-22 | adding the newline before stripping makes no difference |
| UDiff.PrepareFile | helpers/python/udiff.py:18-23 | the filtered lines with the last one right-stripped; an empty result is an error; the line count is the input's minus the header lines |
| UDiff.FinalNewlineIrrelevant | helpers/python/udiff.py:18-23 | a file whose last line lacks the final newline prepares like the same file with it |
| FuzzCompare.DigitsEnd | helpers/python/fuzzcompare.py:4 | the digit run ends at the first non-digit |
| FuzzCompare.MatchEnd | helpers/python/fuzzcompare.py:4 | the greedy match at a digit is a number and is not followed by a digit |
| FuzzCompare.MatchesFrom | helpers/python/fuzzcompare.py:27 | the matches are in order, disjoint, start at a digit and end before a non-digit |
| FuzzCompare.Tokens | helpers/python/fuzzcompare.py:27-28 | the matches of a line lie inside it, each nonempty and each before the next |
| FuzzCompare.MatchesAreNumbers | helpers/python/fuzzcompare.py:4 | every match is the text of a number |
| FuzzCompare.MatchesStartAfterNonDigit | helpers/python/fuzzcompare.py:4 | no match starts right after a digit |
| FuzzCompare.MatchesCoverDigits | helpers/python/fuzzcompare.py:4 | every digit lies inside a match: the text around the numbers holds no digit |
| FuzzCompare.ParseNumber | helpers/python/fuzzcompare.py:12-13 | parses exactly the texts of the number pattern |
| FuzzCompare.NumberShape | helpers/python/fuzzcompare.py:4 | a number is digits, or digits, a point and digits |
| FuzzCompare.ParsePointed | helpers/python/fuzzcompare.py:12 | a number with a point is its digits without the point over 10 to the fraction length |
| FuzzCompare.CloseMeansIsClose | helpers/python/fuzzcompare.py:14 | the integer comparison decides `isclose` with 1% relative tolerance on the exact values |
| FuzzCompare.CompareNumbersSymmetric | helpers/python/fuzzcompare.py:7-16 | the order of the arguments does not matter |
| FuzzCompare.CompareNumbersReflexive | helpers/python/fuzzcompare.py:7-16 | a number is close to itself |
| FuzzCompare.FuzzMatch | helpers/python/fuzzcompare.py:19-47 | the early returns decide the fuzzy match; no numbers or different counts never match |
| FuzzCompare.CheckGaps | helpers/python/fuzzcompare.py:40-42 | the loop finds exactly whether all texts between numbers agree |
| FuzzCompare.CheckNumbers | helpers/python/fuzzcompare.py:44-45 | the loop finds exactly whether all pairs of numbers are close |
| FuzzCompare.FuzzCompare | helpers/python/fuzzcompare.py:50-51 | equal lines, or lines that match fuzzily |
| FuzzCompare.NumbersMatchSymmetric | helpers/python/fuzzcompare.py:44-45 | comparing the numbers does not depend on the order of the lines |
| FuzzCompare.FuzzMatchSymmetric | helpers/python/fuzzcompare.py:19-47 | swapping the lines does not change the fuzzy match |
| FuzzCompare.FuzzMatchSelf | helpers/python/fuzzcompare.py:19-47 | a line matches itself fuzzily exactly when it holds a number |
| FuzzCompare.SkipNonDigits | helpers/python/fuzzcompare.py:27 | characters that are not digits are skipped |
| FuzzCompare.NextToken | helpers/python/fuzzcompare.py:27 | after non-digits, the next match is the digits and, if present, the point and its digits |
| FuzzCompare.CloseDecimals | helpers/python/fuzzcompare.py:66 | 1.234 and 1.23399999 are within 1% |
| FuzzCompare.FarDecimals | helpers/python/fuzzcompare.py:67 | 1.234 and 1.274 are not |
| FuzzCompare.ZeroWithPoint | helpers/python/fuzzcompare.py:70 | 0 and 0.0 are close |
| FuzzCompare.FarIntegers | helpers/python/fuzzcompare.py:74 | 11 and 10 are not close |
| FuzzCompare.TokensOfClockA | helpers/python/fuzzcompare.py:74 | the numbers of `a11:22b` are at 1..3 and 4..6 |
| FuzzCompare.TokensOfClockB | helpers/python/fuzzcompare.py:74 | the numbers of `a10:22b` are at 1..3 and 4..6 |
| FuzzCompare.ClockLines | helpers/python/fuzzcompare.py:74 | `a11:22b` and `a10:22b` do not match |
| FuzzCompare.TokensOfTagA | helpers/python/fuzzcompare.py:66 | the number of `<a>1.234</a>` is at 3..8 |
| FuzzCompare.TokensOfTagB | helpers/python/fuzzcompare.py:66 | the number of `<a>1.23399999</a>` is at 3..13 |
| FuzzCompare.CloseTaggedLines | helpers/python/fuzzcompare.py:66 | `<a>1.234</a>` and `<a>1.23399999</a>` match |
| FuzzCompare.FarLongDecimals | helpers/python/fuzzcompare.py:68 | 1.23399999 and 1.274 are not within 1% |
| FuzzCompare.FarTaggedLines | helpers/python/fuzzcompare.py:67 | `<a>1.234</a>` and `<a>1.274</a>` do not match |
| FuzzCompare.FarLongTaggedLines | helpers/python/fuzzcompare.py:68 | `<a>1.23399999</a>` and `<a>1.274</a>` do not match |
| FuzzCompare.OtherTagLines | helpers/python/fuzzcompare.py:69 | `<a>1.274</a>` and `<b>1.274</a>` do not match: equal numbers, different text before them |
| FuzzCompare.ZeroTaggedLines | helpers/python/fuzzcompare.py:70 | `<a>0</a>` and `<a>0.0</a>` match |
| Common.WrappingSumIsSumMod | src/comm_bulk.rs:52 | the wrapping byte fold is the sum modulo 256 |
| Common.WrappingNeg | src/comm_bulk.rs:53 | the two's complement adds up to 0 mod 256 |
| Common.LeRoundTrip | src/commands.rs:148 | little-endian bytes read back to the number modulo 256^n |
| Common.BeRoundTrip | src/comm_bulk.rs:69 | big-endian bytes read back to the number modulo 256^n |
| Common.Erased | src/gt120b_workflow.rs:202 | `vec![0xff; n]` |

## Left out

- USB I/O is not modelled: device listing, opening, claiming the interface, `ctrl_set_line_state`, bulk transfers and the queue of 8 pending 256-byte requests. The transfers that complete in each exchange's queue and the device lists of successive scans are fields of `IntfBulk.IntfBulk`.
- IntfBulk.IntfBulk.ReadAnswer: the source blocks until a transfer completes. The model fails with `TransfersExhausted` when the queue holds no more transfers.
- IntfBulk.IntfBulk.WaitForDeviceInfo: the source keeps scanning for ever while it waits. The model stops with `ScansExhausted` when the given scans run out.
- `IntfBulk::get_time_micros` reads the system clock, which is outside the model. The workflow's device carries the clock value as a field (`Transport.Device.clockMicros`).
- IntfFile.IntfFile.GetTimeMicros: chrono's range check of the time stamp (`Utc.timestamp_micros(..).single().unwrap()`) is not modelled. Only the `i64` conversion, a bound of 2^63, is kept.
- IntfFile.ParseU64: the different `ParseIntError` kinds are one error, `BadTimeValue`.
- Reading the replay file and splitting it into lines are outside the model; the script is given as its list of lines. A hex line that does not decode is the error `BadHex`, where the source panics.
- All logging and printing is left out: `debug!`, `info!`, `trace!` and `println!`, the JSON dump of the identification, and the configuration values (interval and smart tracking) that `cmdblock_readconfig` only prints.
- Records.DataDump.WriteOut: the GPX export code is not part of this model. What it writes is an abstract function from the decoded points to a file count. The day splitting, the metadata description (JSON or base64) and the `expect` on export errors are left out.
- Records.DecodeFix: the fields keep their raw integer values. The source divides them into `f32`s (by 100, 10 and 10^7), and floating point is not modelled.
- Records.ValidDateTime: chrono is replaced by a validity predicate on the proleptic Gregorian calendar.
- Workflow.ConfigAlias: `String::from_utf8_lossy` is modelled as one character per byte (ISO 8859-1). Multi-byte UTF-8 names and replacement characters are not modelled.
- Workflow.AliasAndCount: the source asserts that the second slot read equals the first. The model's memory never changes, so the two reads are equal and the check is not written out.
- Workflow.Clear: the effect of the delete on the device memory is not modelled. The memory is the same after the reboot; only the boot counter, which the reply function sees, changes.
- Workflow.Workflow: a u32 overflow in the offset arithmetic is the `Overflow` error, as in a debug build. A release build would wrap around.
- Commands.CmdRead: the model's device answers every read frame with the checked answer frame around exactly the requested memory. So the read error paths of the source cannot be reached through `Commands.CmdRead`, `Workflow.ReadDoublet` or the rest of the workflow. These paths are a wrong prefix, checksum or declared length in `verify_answer` and the size check of `cmd_read`, where the source panics. `Commands.ReadAnswerExact` states which answers those checks accept, for every answer.
- Transport.Device.SendAndReceive: answers to frames other than memory reads come from an abstract reply function of the frame history. The device's own logic for them is unknown.
- `is_real`, `main.rs`, `data.rs`, `gpx_summary.py` and the `g` helper of `data2.rs` are not part of this model.
- FuzzCompare.ParseNumber: Python's `float` accepts more texts than the number pattern, but its callers pass only matches of the pattern, and those are the texts the model parses.
- FuzzCompare.CloseMeansIsClose: the tolerance is computed on exact fractions, and the model has no float range. Python compares rounded binary floats, which can differ next to the 1% boundary. Python also turns numbers above about 1.8e308 into `inf`, and `isclose(inf, inf)` holds: `1` followed by 309 zeros is close to `5` followed by 309 zeros in Python and not in the model. Decimals too small for a float become `0.0` in Python, while the model keeps their exact values.
- FuzzCompare.CloseTaggedLines: of the test table, the self-match rows of lines 65 and 75 follow from `FuzzCompare.FuzzCompare`. The tag rows of lines 66 to 70 and the clock row of line 74 are stated as whole-line lemmas. The `trkpt` rows of lines 71 to 73 are left out.
- UDiff.PrepareFile: `readlines` and the file I/O are outside the model; the lines are given. `difflib.unified_diff` and the writing of the diff are not modelled.

# gdb-rsp in Dafny

This project models the core of `gdb-rsp`, a Rust library for the client side of the GDB
Remote Serial Protocol (RSP). The model has five parts:

- **Hex helpers.** `decode_hex` and the formatting the library writes with `{:x}`.
- **Connection.** The packet layer `RspConnection`:
  - framing `$…#cc` with the modulo-256 checksum;
  - the `+`/`-` acknowledgement loop with its optional retry limit, and the kept last packet;
  - escaped binary writes, hex writes and thread-id writes;
  - the reader `read_packet`, with run-length expansion and checksum checking.
- **Parsers.** The nom parsers of `parse.rs`: simple replies, memory replies, thread ids and
  thread lists, `qSymbol`, and the stop replies `S`, `T`, `W`, `X`, `w` and `O`.
- **Client.** The `GdbRspClient` requests. Each one builds the payload the source writes,
  exchanges the packet and interprets the reply. A client carries a `Build`: the host's byte
  order, on which the thread ids it writes depend, and the reading of `read_packet` it runs.

The connection's byte streams are values. Each operation takes the remaining input as a
`seq<byte>` and returns a `Step` or `Outcome` record:

- the result;
- the new connection or client state;
- the input still unread;
- the bytes it wrote.

Running out of input stands for the reader's I/O error.

Modules follow the source files:

| module | source |
|---|---|
| `Util` | `src/util.rs` |
| `Fmt` | the `{:x}` and `{}` formatting the source relies on |
| `Ids` | `ProcessId`, `Id` and thread-id output in `src/low.rs` |
| `Connection` | the writing half of `RspConnection` |
| `Reader` | `read_packet` |
| `Binary` | `write_binary` |
| `Parse` | the general parsers of `src/parse.rs` |
| `ThreadParse` | the thread-id parsers |
| `StopReply`, `StopReplyFacts` | the stop-reply parsers and their properties |
| `Client` | `src/client.rs` |
| `IncompleteInput` | complete packets on which the model and the nom parsers part ways (see "## Left out") |

`Types` and `Bytes` hold shared datatypes and byte-sequence helpers.

Two defects stop parts of the code from working at all: the start-of-packet scan of
`read_packet` and the thread-id parser `parse_thread_id` (see "## Findings"). The members built
on them take a `Types.Variant` parameter. `AsWritten` follows the code as it stands and
`Corrected` the evident intent. Both readings are proved about:

- with `read_packet` as written, no reply is ever read, so every request fails;
- with `parse_thread_id` as written, only thread ids with a numeric pid and an even number of
  hex digits in each number are read back.

Most operations have a partner stated as a lemma:

- **Round trips.** Most parsers are proved to read back what the matching writer produces, for
  the inputs named in each lemma's `requires`. Examples:
  - `Reader.FrameRoundTrip` for `full_packet` and the corrected `read_packet`;
  - `ThreadParse.ThreadIdReadBack` for thread ids, in either reading;
  - `StopReplyFacts.StopSignalFullRoundTrip` for `T` stop replies.
- **Retry outcome.** The acknowledgement loop's whole outcome is stated as a function of the number of NAKs read.
- **Session invariants.** These state what whole client sessions keep unchanged.

## Model

| member | source | states |
|---|---|---|
| Util.DecodeHex | src/util.rs:4-16 | decoding succeeds exactly when every byte is a hex digit of either case, and the value is the big-endian base-16 number they spell (the empty input reads as 0) |
| Util.DecodeFromValue | src/util.rs:4-16 | the accumulator loop `val * 16 + digit` over `s` starting from `acc` yields `acc * 16^|s|` plus the number `s` spells |
| Util.HexValueBound | src/util.rs:4-16 | a decoded value of n digits is below 16^n |
| Util.DecodeHexAppend | src/util.rs:4-16 | appending one hex digit multiplies the decoded value by 16 and adds the digit |
| Util.DecodeHexIgnoresCase | src/util.rs:7-11 | upper- and lower-case hex digits decode alike: lower-casing the input never changes the result |
| Util.DecodeHexExamples | src/util.rs:21-25 | `000a` is 10, `f01` is 3841, `hi` is rejected |
| Fmt.Hex2 | src/low.rs:304-312 | the two lower-case digits written for a byte decode back to that byte |
| Fmt.HexNumber | src/low.rs:321 | `{:x}` output is non-empty lower-case hex without a leading zero (except for 0 itself) and decodes back to the number |
| Fmt.Decimal | src/client.rs:252 | `{}` output is decimal digits without a leading zero and reads back as the number |
| Fmt.HexEncodeDigits | src/low.rs:304-312 | hex-encoding data gives lower-case hex in which pair i decodes to byte i |
| Ids.NewProcessId | src/low.rs:63-75 | the id built from a positive pid and optional tid has that pid, and the tid is Any exactly when none was given |
| Ids.ByteSwap32 | src/low.rs:321 | byte k of the swapped value is byte 3-k of the original |
| Ids.ToBe | src/low.rs:321 | `to_be` is the identity on a big-endian host and a byte swap on a little-endian one |
| Ids.ThreadIdBytes | src/low.rs:314-331 | a written thread id starts with `p` and contains a `.` exactly when the pid is a number; a bare `p-1` or `p0` is at most three bytes |
| Ids.ToBeInvolution | src/low.rs:321 | `to_be` applied twice gives the value back, on either host |
| Ids.ToBeInjective | src/low.rs:321 | distinct values stay distinct under `to_be`, and only 0 becomes 0 |
| Ids.OnWire | src/low.rs:314-331 | the id whose numbers have passed through `to_be` keeps the shape of the original, is valid exactly when the original is, and is the original on a big-endian host |
| Ids.OnWireInjective | src/low.rs:321-323 | different ids stay different after `to_be` is applied to their numbers |
| Ids.ThreadIdBytesSpellsOnWire | src/low.rs:314-331 | on any host `write_thread_id` writes the plain spelling of the id `OnWire(p, host)` |
| Ids.LittleEndianThreadIdCounterexample | src/low.rs:321 | on a little-endian host thread 0x1234 is sent as `34120000`, not as the big-endian form |
| Ids.SwappedIdDiffers | src/low.rs:314-331 | on a big-endian host two different pids with an Any thread are written differently |
| Connection.NewConn | src/low.rs:141-155 | a new connection acks, has no open packet, no kept packet and no retry limit |
| Connection.SetMaximumRetries | src/low.rs:157-159 | only the retry limit changes |
| Connection.Write | src/low.rs:110-121 | writing emits the bytes, adds them to the checksum modulo 256 and keeps them only while acking; nothing else changes |
| Connection.WriteConcat | src/low.rs:110-121 | two writes in a row have the effect of one write of both buffers |
| Connection.StartPacket | src/low.rs:166-181 | opening a packet emits `$`, resets the checksum and marks the packet open; nothing else changes |
| Connection.StartNotificationPacket | src/low.rs:183-203 | the same with `%` |
| Connection.Trailer | src/low.rs:205-212 | the trailer is `#` followed by two digits that decode to the checksum |
| Connection.AckLoopOutcome | src/low.rs:213-240 | the ack loop resends the kept packet once per non-`+` byte and stops with success at `+`, with TooManyRetries past a limit below 65535, or with an I/O error at the end of input |
| Connection.WidestBoundNeverReached | src/low.rs:221-225 | with the limit 65535 the `u16` counter wraps to 0 instead of exceeding it, so a packet is never given up and goes exactly as with no limit |
| Connection.FinishPacket | src/low.rs:205-242 | closing emits the trailer; without acking it succeeds at once; with acking its outcome is the ack loop's, and the kept packet is cleared only on success |
| Connection.FullPacket | src/low.rs:244-256 | a full packet emits the exact frame `$payload#cc` first; then, when acking, it follows the ack loop with resends of that frame |
| Connection.DisableAcking | src/low.rs:258-261 | acking is off and the kept packet is emptied; nothing else changes |
| Connection.WriteHex | src/low.rs:304-312 | hex output is two lower-case digits per byte that decode to the data, counted in the checksum |
| Connection.WriteHexLoop | src/low.rs:304-312 | the per-byte loop writes exactly the hex encoding of the data |
| Connection.WriteThreadId | src/low.rs:314-331 | the thread-id writer emits `ThreadIdBytes` for the host's byte order and counts it in the checksum |
| Connection.Interrupt | src/low.rs:339-346 | interrupting emits the single byte 0x03 and leaves the connection unchanged |
| Connection.RetriesExhausted | src/low.rs:213-240 | when more NAKs arrive than a limit below 65535 allows, the frame is sent limit+1 times and the result is TooManyRetries |
| Connection.AcknowledgedAfterRetries | src/low.rs:213-240 | after k NAKs and then `+`, the frame is sent k+1 times, the result is success and the kept packet is empty, whenever k is within the limit or the limit is absent or 65535 |
| Connection.NoAckFrameExample | src/low.rs:457-472 | in no-ack mode `qTfP` goes out as `$qTfP#7b` |
| Connection.StaleRetransmission | src/low.rs:205-242 | a packet abandoned after TooManyRetries stays in the kept buffer, so the next packet's resend carries both packets |
| Connection.AbandonedPacket | src/low.rs:213-240 | after TooManyRetries the kept buffer still holds the abandoned payload |
| Connection.StalePacketResent | src/low.rs:213-240 | a resend after a stale packet sends the old bytes followed by the new frame |
| Reader.ScanAsWrittenNeverStops | src/low.rs:374-379 | the start-of-packet scan as written never stops on any input |
| Reader.ReadPacketAsWrittenAlwaysFails | src/low.rs:370-379 | the reader as written consumes all input and fails with an I/O error, writing nothing |
| Reader.Scan | src/low.rs:374-379 | the corrected scan stops exactly at the first `$` or `%` and fails only when there is none |
| Reader.CollectBodyChecksum | src/low.rs:390-421 | the body checksum is the modulo-256 sum of every raw byte between the start and `#` |
| Reader.ServerCollectsVerbatim | src/low.rs:390-421 | a server (no run-length decoding) collects the bytes up to `#` unchanged |
| Reader.CollectRun | src/low.rs:398-412 | `x*k` expands to x followed by (k-29) mod 256 further copies, and the repeated byte resets to `$` |
| Reader.ReceivedChecksum | src/low.rs:430-434 | the received checksum is the decoded pair, or a value guaranteed to mismatch when the pair is not hex |
| Reader.Acknowledge | src/low.rs:426-446 | only normal packets are acknowledged and only while acking; `+` exactly when the checksum matches, `-` and InvalidChecksum otherwise |
| Reader.ReadBody | src/low.rs:387-449 | reading a body yields a packet or an I/O or checksum error, writes at most one ack byte and consumes at least the trailer |
| Reader.ReadPacket | src/low.rs:370-455 | the corrected reader's result and ack satisfy the rules above, and it consumes a prefix of the input |
| Reader.ReadPacketIn | src/low.rs:370-455 | in either reading the reader keeps the connection, fails only with an I/O or checksum error and acks by those rules; as written it always consumes everything and fails with an I/O error |
| Reader.ReadLiteralPacket | src/low.rs:370-455 | junk before the start is skipped; a packet without `#` and `*` is returned verbatim with the right ack, or rejected with `-` on a checksum mismatch |
| Reader.FrameRoundTrip | src/low.rs:244-256 | the frame `full_packet` writes is read back as that payload, acknowledged with `+` when acking |
| Reader.NotificationNotAcknowledged | src/low.rs:437-439 | a `%` notification is returned without any ack, whatever its checksum |
| Reader.BadChecksumRejected | src/low.rs:440-444 | a bad checksum while acking gives InvalidChecksum and a `-` |
| Reader.RunLengthExpands | src/low.rs:398-412 | a client expands a run-length pair inside a received packet |
| Reader.RunLengthUnderflow | src/low.rs:401 | every count byte k below 29 wraps around: `x*k` reads as x followed by k+227 further copies, 228 to 256 bytes in all |
| Reader.RunLengthAtStart | src/low.rs:406-408 | a `*` with no preceding byte repeats `$` |
| Binary.EscapeByte | src/low.rs:276-285 | `$`, `#`, `}` and `*` become `}` followed by the byte xor 0x20; other bytes pass through |
| Binary.Escape | src/low.rs:269-302 | escaped output contains no `$`, `#` or `*` |
| Binary.UnescapeEscape | src/low.rs:269-302 | unescaping the escaped data gives back the data |
| Binary.WriteBinaryEscapes | src/low.rs:269-302 | when no special byte is first in its run, the loop as written emits exactly the escaped data |
| Binary.WriteBinary | src/low.rs:269-302 | the as-written writer emits the escaped data on such inputs and counts what it emits in the checksum |
| Binary.WriteBinaryCounterexample | src/low.rs:279-281 | for the input `$a` the loop as written emits `}` 0x04 `$a`, which does not read back as the input |
| Binary.WriteBinaryFixed | src/low.rs:269-302 | the corrected writer's output always unescapes to the input and contains no `$`, `#` or `*` |
| Parse.Tag | src/parse.rs:38-41 | a tag matches exactly when the input starts with it, and leaves the remainder |
| Parse.Parse2Hex | src/parse.rs:9-23 | two leading hex digits are read as one byte; anything shorter or non-hex is rejected |
| Parse.Parse2HexHex2 | src/parse.rs:9-23 | a byte's two-digit form is read back as the byte |
| Parse.HexPairsDecode | src/parse.rs:78-80 | every byte of the hex-pair run is the decoding of the matching digit pair |
| Parse.ParseHexData | src/parse.rs:78-80 | hex data needs at least one pair and stops at the first place where no pair follows |
| Parse.ParseHexDataRoundTrip | src/parse.rs:78-80 | hex-encoded non-empty data is read back exactly |
| Parse.ParseHexNumber | src/parse.rs:26-29 | a number needs at least one digit pair and leaves what follows the last pair |
| Parse.ParseHexNumberValue | src/parse.rs:26-29 | folding `acc * 256 + byte` over the pairs equals decoding the consumed digits as one hex number |
| Parse.ParseHexNumberBound | src/parse.rs:26-29 | the value read from n digits is below 16^n |
| Parse.FoldBytesBigEndian | src/parse.rs:26-29 | folding the big-endian bytes of a number gives the number back |
| Parse.ParseHexNumberRoundTrip | src/parse.rs:26-29 | the even-length hex form of any number is read back as that number |
| Parse.LetterCode | src/parse.rs:31-36 | a letter followed by exactly two hex digits is read as that code |
| Parse.LetterCodeRoundTrip | src/parse.rs:31-36 | the letter and a byte's two digits are read back as the byte |
| Parse.ParseError | src/parse.rs:31-36 | `Exx` at the end of the reply is read as error code xx, and nothing else is |
| Parse.ParseOk | src/parse.rs:38-41 | only the exact reply `OK` is accepted |
| Parse.ParseSimpleReply | src/parse.rs:72-76 | `OK` is success, `Exx` an error packet, an empty reply Unsupported, and anything else is rejected |
| Parse.ParseMemory | src/parse.rs:329-333 | a memory reply is an error packet, else hex data, else Unsupported when empty, and is rejected otherwise |
| Parse.ParseMemoryRoundTrip | src/parse.rs:329-333 | hex-encoded memory contents are read back, unless they happen to look like `Exx` |
| Parse.ErrorLookalikeIsData | src/parse.rs:329-333 | `E0` and `E012` are read as data, because the error form needs exactly two digits |
| Parse.ParseQSymbol | src/parse.rs:322-327 | `OK` means no further request; `qSymbol:` followed by hex data is a lookup of that name; anything else is rejected |
| Parse.ParseQSymbolRoundTrip | src/parse.rs:322-327 | a server's lookup request for a non-empty name is read back as that name |
| ThreadParse.ParseThreadIdElement | src/parse.rs:283-287 | `0` is Any and `-1` is All; otherwise the id is the hex number truncated to 32 bits |
| ThreadParse.ParseThreadId | src/parse.rs:289-298 | a bare element is a pid with tid Any; otherwise the as-written parser requires `p`, element, `.` and element |
| ThreadParse.Qualified | src/parse.rs:289-298 | the as-written `p` form succeeds only when a `.` follows the pid |
| ThreadParse.ThreadIdNotReadBack | src/parse.rs:289-298 | the ids written as `p-1` and `p1.1` are rejected by the parser as written |
| ThreadParse.HexDigits | src/parse.rs:283-287 | the corrected element reader takes the longest run of hex digits |
| ThreadParse.ParseThreadIdElementFixed | src/parse.rs:283-287 | the corrected element accepts `0`, `-1` or any run of hex digits, and nothing else |
| ThreadParse.ElementRoundTrip | src/low.rs:314-331 | every valid id element as written is read back by the corrected element parser |
| ThreadParse.ParseThreadIdFixed | src/parse.rs:289-298 | a bare element gives tid Any; after `p` the tid part `.tid` is optional and defaults to All |
| ThreadParse.QualifiedFixed | src/parse.rs:289-298 | the corrected `p` form needs only a pid, takes a tid when `.` follows, and otherwise means all threads |
| ThreadParse.ThreadIdRoundTrip | src/low.rs:314-331 | every thread id the writer can produce is read back exactly by the corrected parser |
| ThreadParse.AsWrittenReadBack | src/parse.rs:283-298 | the parser as written reads back a written id exactly when its pid is a number and both numbers have an even count of hex digits |
| ThreadParse.ElementAsWritten | src/parse.rs:283-287 | an element with an even number of hex digits, `0` or `-1` is read whole by the element parser as written |
| ThreadParse.ElementOddDigits | src/parse.rs:283-287 | a number with an odd count of hex digits is rejected or read with its last digit left over |
| ThreadParse.EvenNumberRead | src/parse.rs:26-29 | hex pairs followed by no further digit are read as the number they spell |
| ThreadParse.ThreadIdReadBack | src/parse.rs:289-298 | in either reading, what `write_thread_id` writes for an id that reading can read comes back as that id |
| ThreadParse.HostThreadIdReadBack | src/low.rs:314-331 | on any host the bytes written read back as the id with `to_be` applied to its numbers, which is the id itself on a big-endian host |
| ThreadParse.ThreadIdBytesInjective | src/low.rs:314-331 | on any host, distinct writable ids are sent as distinct bytes |
| ThreadParse.ParseQcReply | src/parse.rs:300-304 | a `qC` reply is `QC` followed by a thread id, read by the parser of the chosen reading |
| ThreadParse.QcRoundTrip | src/parse.rs:300-304 | in either reading, `QC` plus a written id that reading can read is read back as that id |
| ThreadParse.QcAsWritten | src/parse.rs:300-304 | as written, `QC` plus a written valid id is read back exactly when the pid is a number and both numbers have an even count of hex digits |
| ThreadParse.ParseThreadIdList | src/parse.rs:306-315 | in either reading, a list needs a first thread id, which heads the result |
| ThreadParse.MoreThreadIdsRoundTrip | src/parse.rs:306-315 | in either reading, comma-prefixed written ids that reading can read are read back in order |
| ThreadParse.ThreadListRoundTrip | src/parse.rs:306-315 | in either reading, a comma-separated list of written ids that reading can read is read back in order |
| ThreadParse.ThreadListAsWritten | src/parse.rs:306-315 | as written, a list of one written valid id is read back exactly when the pid is a number and both numbers have an even count of hex digits |
| ThreadParse.SingleList | src/parse.rs:306-315 | in either reading, a list reads as the one id `q` exactly when the id parser reads `q` and uses up the input |
| ThreadParse.ParseThreadInfoReply | src/parse.rs:317-320 | `l` ends the list; otherwise the reply is a thread-id list read by the parser of the chosen reading |
| ThreadParse.ThreadInfoRoundTrip | src/parse.rs:317-320 | in either reading, a written thread list that reading can read is read back as a `Some` list |
| StopReply.SkipUntilSemi | src/parse.rs:159-161 | skipping succeeds at a `;` or on empty input and lands on the `;` |
| StopReply.ParseTRegister | src/parse.rs:110-115 | a register pair starts with a hex number |
| StopReply.ParseTThread | src/parse.rs:117-121 | in either reading, a `thread:` pair starts with its keyword, consumes input and yields a thread value |
| StopReply.ParseTCore | src/parse.rs:123-127 | a `core:` pair yields a core value |
| StopReply.ParseTWatch | src/parse.rs:129-133 | a `watch:` pair yields a watch value |
| StopReply.ParseTAwatch | src/parse.rs:135-139 | an `awatch:` pair yields an access-watch value |
| StopReply.ParseTRwatch | src/parse.rs:141-145 | an `rwatch:` pair yields a read-watch value |
| StopReply.ParseTSyscallEntry | src/parse.rs:147-151 | a `syscall_entry:` pair yields a syscall-entry value |
| StopReply.ParseTSyscallReturn | src/parse.rs:153-157 | a `syscall_return:` pair yields a syscall-return value |
| StopReply.ParseTLibrary | src/parse.rs:163-167 | a `library:` pair yields a library change |
| StopReply.ParseTReplayLog | src/parse.rs:169-174 | a `replaylog:` pair yields begin or end |
| StopReply.ParseTSwbreak | src/parse.rs:176-178 | a `swbreak:` pair yields a software break |
| StopReply.ParseTHwbreak | src/parse.rs:180-182 | a `hwbreak:` pair yields a hardware break |
| StopReply.ParseTFork | src/parse.rs:184-188 | in either reading, a `fork:` pair starts with its keyword and yields a fork value |
| StopReply.ParseTVFork | src/parse.rs:190-194 | in either reading, a `vfork:` pair starts with its keyword and yields a vfork value |
| StopReply.ParseTVForkDone | src/parse.rs:196-200 | a `vforkdone:` pair yields vfork-done |
| StopReply.ParseTExec | src/parse.rs:202-206 | an `exec:` pair yields an exec value |
| StopReply.ParseTCreate | src/parse.rs:208-212 | a `create:` pair yields create |
| StopReply.ParseAnyTPair | src/parse.rs:214-232 | in either reading, a pair is one of the known forms and never an unknown value, and it consumes input |
| StopReply.MorePairs | src/parse.rs:234-240 | in either reading, `;`-prefixed pairs are read until no further pair follows, and none is unknown |
| StopReply.TPairs | src/parse.rs:234-240 | in either reading, at least one pair must be present |
| StopReply.ParseStopSignalFull | src/parse.rs:234-240 | in either reading, a `T` reply is `T`, a signal byte and one or more known pairs filling the whole reply |
| StopReply.ParseStopSignal | src/parse.rs:82-86 | an `S` reply is exactly `S` and two hex digits |
| StopReply.ProcessSuffix | src/parse.rs:242-251 | the optional `;process:` suffix carries a hex number |
| StopReply.ParseStopExit | src/parse.rs:242-251 | a `W` reply is `W`, a two-digit code and an optional process suffix, filling the reply |
| StopReply.ParseStopExitSignal | src/parse.rs:253-264 | an `X` reply is `X`, a hex number and an optional process suffix |
| StopReply.ParseStopThreadExit | src/parse.rs:266-275 | a `w` reply is `w`, a status, `;` and a pid |
| StopReply.ParseInferiorOutput | src/parse.rs:277-281 | an `O` reply is `O` followed by hex data |
| StopReplyFacts.KeysDistinct | src/parse.rs:214-232 | the keywords of the pair forms are pairwise distinct |
| StopReplyFacts.KeysNotHex | src/parse.rs:214-232 | no keyword could be read as a register number |
| StopReplyFacts.KeyedPairRoundTrip | src/parse.rs:117-212 | in either reading, each keyed pair is read back from its written form by its own parser |
| StopReplyFacts.ThreadRoundTrip | src/parse.rs:117-121 | in either reading, `thread:` and a written id that reading can read come back as that thread |
| StopReplyFacts.ThreadPairAsWritten | src/parse.rs:117-194 | as written, the `thread:`, `fork:` and `vfork:` pairs read back a written valid id exactly when the pid is a number and both numbers have an even count of hex digits |
| StopReplyFacts.CoreRoundTrip | src/parse.rs:123-127 | `core:` and a number read back as that core |
| StopReplyFacts.ExecRoundTrip | src/parse.rs:202-206 | `exec:` and a hex path read back as that path |
| StopReplyFacts.ReplayLogRoundTrip | src/parse.rs:169-174 | `replaylog:begin` and `replaylog:end` read back as begin and end |
| StopReplyFacts.KeyedFromSkips | src/parse.rs:214-232 | for a keyword's input, every alternative tried before its own parser fails |
| StopReplyFacts.PairRoundTrip | src/parse.rs:214-232 | in either reading, every pair that reading can read, register pairs included, is read back by the alternation |
| StopReplyFacts.RegisterRoundTrip | src/parse.rs:110-115 | `regno:hexdata` is read back as that register and contents |
| StopReplyFacts.MorePairsRoundTrip | src/parse.rs:234-240 | in either reading, a run of `;`-prefixed readable pairs is read back in order |
| StopReplyFacts.TPairsRoundTrip | src/parse.rs:234-240 | in either reading, a `;`-separated list of readable pairs is read back in order |
| StopReplyFacts.StopSignalFullRoundTrip | src/parse.rs:234-240 | in either reading, a `T` reply of readable pairs is read back exactly when nothing follows its pairs |
| StopReplyFacts.TrailingSemicolonRejected | src/parse.rs:234-240 | in either reading, a `T` reply of pairs that reading can read is rejected when it ends in `;` and accepted without it |
| StopReplyFacts.UnknownFirstPairRejected | src/parse.rs:234-240 | an unreadable first pair rejects the reply |
| StopReplyFacts.UnknownLaterPairRejected | src/parse.rs:234-240 | an unknown later pair rejects the whole reply rather than being skipped |
| StopReplyFacts.UnknownKeyNotPair | src/parse.rs:214-232 | input whose first byte starts no keyword and no hex digit is no pair |
| StopReplyFacts.UnknownKeyExample | src/parse.rs:214-232 | a `T05` reply whose pair key starts with `k` is rejected |
| StopReplyFacts.StopSignalRoundTrip | src/parse.rs:82-86 | `S` and a byte's two digits read back as the byte |
| StopReplyFacts.StopExitRoundTrip | src/parse.rs:242-251 | `W`, a code and an optional process suffix read back |
| StopReplyFacts.StopExitIncompletePid | src/parse.rs:242-251 | `;process:` without a number rejects the reply |
| StopReplyFacts.StopExitSignalRoundTrip | src/parse.rs:253-264 | `X`, a signal number and an optional process suffix read back |
| StopReplyFacts.StopThreadExitRoundTrip | src/parse.rs:266-275 | `w`, status, `;` and pid read back |
| StopReplyFacts.InferiorOutputRoundTrip | src/parse.rs:277-281 | `O` and hex-encoded output read back as the output |
| Client.NewClient | src/client.rs:107-128 | a new client acks, is all-stop, does not require acks, has Any as its current thread and runs the given build |
| Client.ReadPacketWithRetries | src/client.rs:24-43 | the retry loop never changes the connection, only consumes input, and sends only `+`/`-` acks; with `read_packet` as written it fails at once with an I/O error, having consumed all input |
| Client.RetriesReachReply | src/client.rs:24-43 | with the corrected reader, corrupted packets and dispatched notifications before a reply are skipped (each corrupted one NAKed) and the reply is returned with its `+` |
| Client.NotificationErrorEnds | src/client.rs:27-29 | with the corrected reader, a notification whose dispatch fails ends the loop with that error |
| Client.SimpleReply | src/client.rs:45-53 | `OK` is success, empty is Unsupported, `Exx` an error packet, and every other reply is Unrecognized |
| Client.MemoryReply | src/client.rs:159-163 | the memory reply is the hex data when there is any, and an error packet, Unsupported or Unrecognized otherwise |
| Client.MemoryReplyRoundTrip | src/client.rs:159-163 | hex-encoded memory is returned as the data |
| Client.QSymbolReply | src/client.rs:392-394 | `OK` means done, `qSymbol:` and hex a lookup of that name, and anything else is Unrecognized |
| Client.QSymbolReplyRoundTrip | src/client.rs:392-394 | a lookup request and `OK` are interpreted as the name and as done |
| Client.Exchange | src/client.rs:153-164 | sending a packet and reading its reply leaves the client's mode unchanged, writes the packet's frame first, reports only transport failures, and always fails with `read_packet` as written |
| Client.ExchangeAnswered | src/client.rs:153-164 | with the corrected reader, when the server acks and answers, the exchange returns the answer, and writes the frame and then a `+` only when acking |
| Client.ExchangeAsWritten | src/client.rs:153-164 | with `read_packet` as written, a request whose packet went out consumes all remaining input and fails with an I/O error; a failed send fails as it would otherwise |
| Client.ThreadPayload | src/client.rs:212-218 | the payload is the command followed by a thread id, which begins with `p` |
| Client.ThreadPayloadReadBack | src/client.rs:212-218 | in either reading, the thread id after the command reads back as the id with `to_be` applied to its numbers, which is the id sent on a big-endian host |
| Client.DetachPayload | src/client.rs:130-140 | `D` alone without a pid, `D;` and the thread id as written on the host with one |
| Client.MemoryPayload | src/client.rs:157 | `m`, then two comma-separated fields that decode to the address and the length |
| Client.RegisterPayload | src/client.rs:205-207 | `P`, a field decoding to the register number, `=`, then the value bytes verbatim |
| Client.BreakpointCommand | src/client.rs:258-306 | `Z` to insert or `z` to remove, then the type digit 0-4 |
| Client.BreakpointCommandsDistinct | src/client.rs:258-306 | the ten wrappers send ten different commands |
| Client.BreakpointPayload | src/client.rs:243-255 | command, hex address and decimal size (0 when none is given), comma-separated |
| Client.FlagPayload | src/client.rs:308-337 | `name:1` when the flag is set and `name:0` when it is cleared |
| Client.Sort | src/client.rs:341-342 | the signals are sorted and are a permutation of the input |
| Client.SeparatedFields | src/client.rs:345-350 | each number written behind its separator decodes back to that number, in order |
| Client.SignalPayload | src/client.rs:339-354 | the command alone when there are no signals, else `:` and the sorted signals in hex separated by `;` |
| Client.CatchSyscallsPayload | src/client.rs:366-380 | `QCatchSyscalls:0` to disable, else `QCatchSyscalls:1` and `;`-prefixed hex numbers in the given order |
| Client.QSymbolPayload | src/client.rs:382-391 | `qSymbol::` with no symbol, else `qSymbol:`, the hex address, `:` and the raw name |
| Client.SimpleRequest | src/client.rs:45-53 | a request answered by `read_simple_reply` sends its payload; a reply that arrives is interpreted as a simple reply, and a transport error is passed on unchanged; the mode is unchanged; with `read_packet` as written it always fails with a transport error |
| Client.SimpleRequestAnswered | src/client.rs:45-53 | with the corrected reader, a request answered with a reply yields that reply's interpretation and consumes exactly the answer |
| Client.RequestNoAckMode | src/client.rs:82-91 | acking is turned off exactly when the server accepts `QStartNoAckMode`; only the connection changes; with `read_packet` as written the request fails with an I/O error |
| Client.NoAckModeAnswered | src/client.rs:82-91 | with the corrected reader and the server answering `OK`, acking is off afterwards; with any other answer it stays on |
| Client.EnterExtendedMode | src/client.rs:93-96 | `!` is sent and the client's mode is unchanged |
| Client.Detach | src/client.rs:130-140 | the detach payload for the client's host is sent and the mode is unchanged |
| Client.DetachPieces | src/client.rs:131-136 | on any host, writing `D;` and the id piece by piece inside an open packet sends the same frame as the full detach payload |
| Client.ReadMemory | src/client.rs:153-164 | the `m` payload is sent, the reply is interpreted as a memory reply, and a transport error is passed on |
| Client.ReadMemoryAnswered | src/client.rs:153-164 | with the corrected reader, a server answering with hex-encoded data yields that data |
| Client.WriteRegister | src/client.rs:202-210 | the `P` payload is sent and the mode is unchanged |
| Client.PingThread | src/client.rs:212-218 | `T` and the thread id as written on the client's host are sent |
| Client.SetOrClearBreakpoint | src/client.rs:243-255 | the breakpoint payload is sent and the mode is unchanged |
| Client.SetRandomization | src/client.rs:308-315 | `QDisableRandomization:` and the flag are sent |
| Client.SetNonStop | src/client.rs:317-328 | `QNonStop:` and the flag are sent; the non-stop mode takes the new state exactly when the reply is success, which never happens with `read_packet` as written |
| Client.SetNonStopAnswered | src/client.rs:317-328 | with the corrected reader and the server answering, non-stop mode changes exactly when the answer is `OK` |
| Client.SetThreadEvents | src/client.rs:330-337 | `QThreadEvents:` and the flag are sent |
| Client.SignalOp | src/client.rs:339-354 | the signal payload is sent and the mode is unchanged |
| Client.CatchSyscalls | src/client.rs:366-380 | the syscall payload is sent and the mode is unchanged |
| Client.SendQSymbol | src/client.rs:382-395 | the `qSymbol` payload is sent, the reply is interpreted as a symbol reply, and a transport error is passed on |
| Client.SendQSymbolAnswered | src/client.rs:382-395 | with the corrected reader, a server asking for a name yields that name |
| Client.WriteAll | src/client.rs:131-136 | writing pieces one after another equals writing their concatenation |
| Client.SendPieces | src/client.rs:131-136 | a packet written piece by piece is the full packet of the concatenated pieces |
| Client.Perform | src/client.rs:82-395 | any one request turns acking off only when `QStartNoAckMode` succeeds and changes non-stop mode only when `QNonStop` succeeds; with `read_packet` as written every request fails with a transport error |
| Client.AckingStaysOff | src/client.rs:82-91 | once acking is off, no sequence of requests turns it back on |
| Client.SessionKeepsAcking | src/client.rs:82-395 | a session without `QStartNoAckMode` keeps the acking mode it started with |
| Client.SessionKeepsMode | src/client.rs:317-328 | a session without `QNonStop` keeps the non-stop mode it started with |
| Client.SessionAsWritten | src/client.rs:24-43 | with `read_packet` as written no sequence of requests changes acking or the non-stop mode |

## Left out

- Incomplete input: nom distinguishes Incomplete, meaning it needs more input, from Error. The model treats a sub-parser's Incomplete as that sub-parser's failure, so an optional or repeated part simply stops where its input runs out. In the source, `opt!`, `many1!`, `fold_many1!` and `chain!` pass an Incomplete on instead: a `tag!` whose remaining input is a proper prefix of it (including none), or a `take!(2)` with one byte left, makes the whole parse Incomplete, and `alt_complete!` turns that into a failed alternative. So on some complete packets the source rejects what the model accepts:
  - `W`/`X` replies with nothing after the status: `W05` and `X05` are read with no process (`IncompleteInput.BareExitAndOddOutput`), where the source's `opt!` on the empty rest is Incomplete.
  - A hex run that ends in a lone digit at the very end of the input, in a parser with no `eof` after it. The pairs are read and the digit is left over: `Parse.ParseHexData`, `Parse.ParseHexNumber` and `Parse.ParseMemory` on `0a0` (`IncompleteInput.LoneTrailingDigitLeft`), so `Client.MemoryReply` and `Client.ReadMemory` give the byte 0x0a where the source answers Unrecognized, and `Client.QSymbolReply` reads `qSymbol:0a0` (`IncompleteInput.LoneTrailingDigitReplies`). The same holds for `O0a0` in `StopReply.ParseInferiorOutput`, and, in the as-written reading, for a bare thread id such as `123` in `ThreadParse.ParseQcReply` and `ThreadParse.ParseThreadIdList` (`IncompleteInput.LoneTrailingDigitQc`, `IncompleteInput.LoneTrailingDigitList`).
  - Wherever an `eof` or a required `;` follows such a run, as in `T`, `S`, `w`, `W`/`X` with `;process:`, `OK` and `Exx`, both reject, and only the kind of failure differs.
- I/O: reads, writes and flushes on the underlying streams cannot fail, except that running out of input is the reader's I/O error. No other `io::Error` is modelled.
- Parse.ParseHexNumber: values are unbounded. The source's `u64` accumulator would overflow on more than eight digit pairs: a panic in a debug build, wrap-around in release. `Parse.ParseHexNumberBound` states the bound that holds for the digits read.
- Connection.AckLoop: the `u16` retry counter is modelled with release-build wrap-around at 65536 (see `Connection.WidestBoundNeverReached`). A debug build would panic on that overflow instead.
- Client.ExchangeAnswered: holds only for a client running the corrected `read_packet`; with the scan as written no reply is ever read (`Client.ExchangeAsWritten`).
- Client.SimpleRequestAnswered: corrected `read_packet` only, for the same reason.
- Client.NoAckModeAnswered: corrected `read_packet` only, for the same reason.
- Client.ReadMemoryAnswered: corrected `read_packet` only, for the same reason.
- Client.SetNonStopAnswered: corrected `read_packet` only, for the same reason.
- Client.SendQSymbolAnswered: corrected `read_packet` only, for the same reason.
- Reader.CollectRun: a run-length count byte below 29 is modelled with release-build `u8` wrap-around (see `Reader.RunLengthUnderflow`). A debug build would panic instead. Counts outside 3–97, which the protocol does not allow, are not rejected either.
- Reader.ReadPacket: a received packet keeps its `}` escapes, because `read_packet` does not undo escaping. Checksums are checked only in acking mode and never for notifications. The protocol's description has decoding reverse escapes and reject every bad checksum; the model follows the code.
- Connection.NewConn: there is no retry limit until `set_maximum_retries` sets one. The ack loop treats any byte other than `+` as a NAK, not only `-`. The model follows the code in both respects.
- Capability negotiation (`qSupported` and feature gating), reply timeouts, the single-outstanding-request check, server-side command dispatch and a session state machine belong to the library's intended design but not to its code: `query_supported` is empty and there is no server dispatcher. The model follows the code.
- Client.ReadPacketWithRetries: `dispatch_notification` is not defined in `src/client.rs`. It is a function parameter `Dispatch` that either accepts a notification or fails with an error.
- Client.SendQSymbol: the source passes the reply `Vec` to `parse_qsymbol` and returns its nom result, which does not type-check. The model interprets the reply the way `read_memory` does, with a rejected reply becoming Unrecognized.
- `query_supported`, `maybe_set_thread`, `write_memory`, `cont` and `query_stop_reason` have empty or commented-out bodies; `query_stop_reason` sends `?` inside a function that has no result type. None of them is modelled.
- `startup` calls `disable_acking` when acks are not required and drops its result. That request is `Client.RequestNoAckMode`; `startup` itself has no member of its own.
- `read_register`, `vpacket`, `attach` and `kill`: these write a packet but do not read or return a reply, so their bodies do not type-check. Their payloads are the same shapes `Client.RegisterPayload` and `Client.ThreadPayload` build; the requests themselves are not modelled.
- The `queries` list built in `new` is never read, and is not part of the client state.
- Util.DecodeHex: values are unbounded. The source's `u64` result would overflow past sixteen digits; `Util.HexValueBound` states the bound instead.
- `Read`/`Write` trait objects, lifetimes, `read_char`'s one-byte buffer and `flush` are represented by the input and output byte sequences.

## Findings

| source | as written | input that shows it | evidently intended | confidence | as-written member | corrected member |
|---|---|---|---|---|---|---|
| src/low.rs:376 | the scan stops when `kind == b'$' && kind == b'%'`, which no byte satisfies | any input, e.g. `$OK#9a`: everything is consumed and the result is an I/O error | stop at `$` or `%` (`\|\|`) | high; not executed | Reader.ReadPacketAsWrittenAlwaysFails | Reader.FrameRoundTrip |
| src/low.rs:279-281 | `last_index` moves past a special byte only when `i > last_index`, so a special byte first in its run is written escaped and then again raw | `write_binary(b"$a")` emits `}` 0x04 `$a` | always continue after the escaped byte | high; not executed | Binary.WriteBinaryCounterexample | Binary.WriteBinaryFixed |
| src/low.rs:321-323 | ids are printed as `val.to_be()`, which swaps the bytes on little-endian hosts | thread 0x1234 is sent as `p34120000` on x86 | print `val` itself, as gdb expects | high; not executed | Ids.LittleEndianThreadIdCounterexample | ThreadParse.ThreadIdRoundTrip |
| src/parse.rs:289-298 | the `p` form requires `.tid`, and an element reads hex digits two at a time | `p-1` (all processes, as `write_thread_id` writes it) and `p1.1` are rejected | accept what `write_thread_id` writes: an optional `.tid` and any number of digits | medium; not executed | ThreadParse.ThreadIdNotReadBack | ThreadParse.ThreadIdRoundTrip |

/** Stop replies (src/parse.rs): `S`, the `T` packet with its `key:value`
    pairs, `W`, `X`, `w` and the `O` console-output packet, as in section
    E.3 "Stop Reply Packets" of the GDB manual's Remote Serial Protocol
    appendix. The `thread`, `fork` and `vfork` values are thread ids, so
    the `T` parsers take the reading `rd` of `parse_thread_id` they are
    built on: as written, or corrected. */
module StopReply {
  import opened Types
  import opened Bytes
  import opened Util
  import opened Fmt
  import opened Ids
  import opened Parse
  import opened ThreadParse

  /** One `n:r` pair of a `T` packet. `Unknown` exists in the source but
      no parser produces it. */
  datatype StopReplyValue =
    | Register(regno: nat, contents: seq<byte>)
    | Thread(thread: ProcessId)
    | Core(core: nat)
    | Unknown(raw: seq<byte>)
    | Watch(addr: nat)
    | Awatch(addr: nat)
    | Rwatch(addr: nat)
    | SyscallEntry(call: nat)
    | SyscallReturn(call: nat)
    | LibraryChange
    | ReplayLog(begin: bool)
    | SoftwareBreak
    | HardwareBreak
    | Fork(child: ProcessId)
    | VFork(child: ProcessId)
    | VForkDone
    | Exec(path: seq<byte>)
    | Create

  const THREAD: seq<byte> := [0x74, 0x68, 0x72, 0x65, 0x61, 0x64, 0x3a]                // "thread:"
  const CORE: seq<byte> := [0x63, 0x6f, 0x72, 0x65, 0x3a]                              // "core:"
  const WATCH: seq<byte> := [0x77, 0x61, 0x74, 0x63, 0x68, 0x3a]                       // "watch:"
  const AWATCH: seq<byte> := [0x61, 0x77, 0x61, 0x74, 0x63, 0x68, 0x3a]                // "awatch:"
  const RWATCH: seq<byte> := [0x72, 0x77, 0x61, 0x74, 0x63, 0x68, 0x3a]                // "rwatch:"
  const SYSCALL_ENTRY: seq<byte> :=
    [0x73, 0x79, 0x73, 0x63, 0x61, 0x6c, 0x6c, 0x5f, 0x65, 0x6e, 0x74, 0x72, 0x79, 0x3a]     // "syscall_entry:"
  const SYSCALL_RETURN: seq<byte> :=
    [0x73, 0x79, 0x73, 0x63, 0x61, 0x6c, 0x6c, 0x5f, 0x72, 0x65, 0x74, 0x75, 0x72, 0x6e, 0x3a]  // "syscall_return:"
  const LIBRARY: seq<byte> := [0x6c, 0x69, 0x62, 0x72, 0x61, 0x72, 0x79, 0x3a]          // "library:"
  const REPLAYLOG: seq<byte> := [0x72, 0x65, 0x70, 0x6c, 0x61, 0x79, 0x6c, 0x6f, 0x67, 0x3a]  // "replaylog:"
  const SWBREAK: seq<byte> := [0x73, 0x77, 0x62, 0x72, 0x65, 0x61, 0x6b, 0x3a]          // "swbreak:"
  const HWBREAK: seq<byte> := [0x68, 0x77, 0x62, 0x72, 0x65, 0x61, 0x6b, 0x3a]          // "hwbreak:"
  const FORK: seq<byte> := [0x66, 0x6f, 0x72, 0x6b, 0x3a]                              // "fork:"
  const VFORK: seq<byte> := [0x76, 0x66, 0x6f, 0x72, 0x6b, 0x3a]                       // "vfork:"
  const VFORKDONE: seq<byte> := [0x76, 0x66, 0x6f, 0x72, 0x6b, 0x64, 0x6f, 0x6e, 0x65, 0x3a]  // "vforkdone:"
  const EXEC: seq<byte> := [0x65, 0x78, 0x65, 0x63, 0x3a]                              // "exec:"
  const CREATE: seq<byte> := [0x63, 0x72, 0x65, 0x61, 0x74, 0x65, 0x3a]                // "create:"
  const BEGIN: seq<byte> := [0x62, 0x65, 0x67, 0x69, 0x6e]                             // "begin"
  const END: seq<byte> := [0x65, 0x6e, 0x64]                                           // "end"
  const PROCESS: seq<byte> := [0x3b, 0x70, 0x72, 0x6f, 0x63, 0x65, 0x73, 0x73, 0x3a]   // ";process:"

  const LETTER_S: byte := 0x53  // 'S'
  const LETTER_T: byte := 0x54  // 'T'
  const LETTER_W: byte := 0x57  // 'W'
  const LETTER_X: byte := 0x58  // 'X'
  const LOWER_W: byte := 0x77   // 'w'
  const LETTER_O: byte := 0x4f  // 'O'

  /** The keys of the keyed alternatives of `parse_any_t_pair`, numbered
      in the order it tries them (after the register pair, which has no
      key). */
  function Key(i: nat): seq<byte>
    requires i < KEY_COUNT
  {
    match i
    case 0 => THREAD
    case 1 => CORE
    case 2 => WATCH
    case 3 => AWATCH
    case 4 => RWATCH
    case 5 => SYSCALL_ENTRY
    case 6 => SYSCALL_RETURN
    case 7 => LIBRARY
    case 8 => REPLAYLOG
    case 9 => SWBREAK
    case 10 => HWBREAK
    case 11 => FORK
    case 12 => VFORK
    case 13 => VFORKDONE
    case 14 => EXEC
    case 15 => CREATE
  }

  const KEY_COUNT: nat := 16

  /** `skip_until_semi`: `take_until!(";")` leaves the input from the
      first `;` on; failing that, only the end of input is accepted. */
  function SkipUntilSemi(input: seq<byte>): (r: Option<seq<byte>>)
    ensures r.Some? <==> SEMI in input || |input| == 0
    ensures r.Some? ==> |r.value| <= |input| && (r.value == [] || r.value[0] == SEMI)
    decreases |input|
  {
    if |input| == 0 then Some(input)
    else if input[0] == SEMI then Some(input)
    else
      match SkipUntilSemi(input[1..])
      case None => None
      case Some(t) => if |t| == 0 then None else Some(t)
  }

  /** What `skip_until_semi` skips is the input up to its first `;`. */
  lemma {:induction false} SkipUntilSemiSkips(input: seq<byte>)
    requires SkipUntilSemi(input).Some?
    ensures var t := SkipUntilSemi(input).value;
      input[|input| - |t|..] == t && Free(input[..|input| - |t|], SEMI)
    decreases |input|
  {
    if |input| > 0 && input[0] != SEMI {
      var t := SkipUntilSemi(input).value;
      SkipUntilSemiSkips(input[1..]);
      assert input[..|input| - |t|] == [input[0]] + input[1..][..|input[1..]| - |t|];
    }
  }

  /** `parse_t_register`: a hex-pair register number, `:` and hex data. */
  function ParseTRegister(input: seq<byte>): (r: Option<Parsed<StopReplyValue>>)
    ensures r.Some? ==> Parse2Hex(input).Some? && r.value.value.Register?
  {
    match ParseHexNumber(input)
    case None => None
    case Some(n) =>
      match TagByte(n.rest, COLON)
      case None => None
      case Some(s) =>
        match ParseHexData(s)
        case None => None
        case Some(d) => Some(Parsed(Register(n.value, d.value), d.rest))
  }

  /** A keyword followed by a hex number (`core`, the watchpoints and
      the system calls). */
  function KeyNumber(input: seq<byte>, key: seq<byte>): (r: Option<Parsed<nat>>)
    requires |key| > 0
    ensures r.Some? ==> StartsWith(input, key) && |r.value.rest| < |input|
  {
    match Tag(input, key)
    case None => None
    case Some(s) => ParseHexNumber(s)
  }

  /** A keyword followed by a thread id (`thread`, `fork`, `vfork`). */
  function KeyThread(rd: Variant, input: seq<byte>, key: seq<byte>): (r: Option<Parsed<ProcessId>>)
    requires |key| > 0
    ensures r.Some? ==> StartsWith(input, key) && |r.value.rest| < |input|
  {
    match Tag(input, key)
    case None => None
    case Some(s) => ReadThreadId(rd, s)
  }

  /** A keyword whose value is skipped (`library`, `vforkdone`,
      `create`). */
  function KeySkip(input: seq<byte>, key: seq<byte>): (r: Option<seq<byte>>)
    requires |key| > 0
    ensures r.Some? ==> StartsWith(input, key) && |r.value| < |input|
  {
    match Tag(input, key)
    case None => None
    case Some(s) => SkipUntilSemi(s)
  }

  /** `parse_t_replaylog`: `begin` is true, `end` is false. */
  function ParseReplayLog(input: seq<byte>): (r: Option<Parsed<bool>>)
    ensures r.Some? ==> StartsWith(input, REPLAYLOG) && |r.value.rest| < |input|
  {
    match Tag(input, REPLAYLOG)
    case None => None
    case Some(s) =>
      match Tag(s, BEGIN)
      case Some(t) => Some(Parsed(true, t))
      case None =>
        match Tag(s, END)
        case Some(t) => Some(Parsed(false, t))
        case None => None
  }

  /** `parse_t_thread`. */
  function ParseTThread(rd: Variant, input: seq<byte>): (r: Option<Parsed<StopReplyValue>>)
    ensures r.Some? ==> StartsWith(input, THREAD) && |r.value.rest| < |input| && r.value.value.Thread?
  {
    match KeyThread(rd, input, THREAD)
    case None => None
    case Some(p) => Some(Parsed(Thread(p.value), p.rest))
  }

  /** `parse_t_core`. */
  function ParseTCore(input: seq<byte>): (r: Option<Parsed<StopReplyValue>>)
    ensures r.Some? ==> StartsWith(input, CORE) && |r.value.rest| < |input| && r.value.value.Core?
  {
    match KeyNumber(input, CORE)
    case None => None
    case Some(n) => Some(Parsed(Core(n.value), n.rest))
  }

  /** `parse_t_watch`. */
  function ParseTWatch(input: seq<byte>): (r: Option<Parsed<StopReplyValue>>)
    ensures r.Some? ==> StartsWith(input, WATCH) && |r.value.rest| < |input| && r.value.value.Watch?
  {
    match KeyNumber(input, WATCH)
    case None => None
    case Some(n) => Some(Parsed(Watch(n.value), n.rest))
  }

  /** `parse_t_awatch`. */
  function ParseTAwatch(input: seq<byte>): (r: Option<Parsed<StopReplyValue>>)
    ensures r.Some? ==> StartsWith(input, AWATCH) && |r.value.rest| < |input| && r.value.value.Awatch?
  {
    match KeyNumber(input, AWATCH)
    case None => None
    case Some(n) => Some(Parsed(Awatch(n.value), n.rest))
  }

  /** `parse_t_rwatch`. */
  function ParseTRwatch(input: seq<byte>): (r: Option<Parsed<StopReplyValue>>)
    ensures r.Some? ==> StartsWith(input, RWATCH) && |r.value.rest| < |input| && r.value.value.Rwatch?
  {
    match KeyNumber(input, RWATCH)
    case None => None
    case Some(n) => Some(Parsed(Rwatch(n.value), n.rest))
  }

  /** `parse_t_syscall_entry`. */
  function ParseTSyscallEntry(input: seq<byte>): (r: Option<Parsed<StopReplyValue>>)
    ensures r.Some? ==> StartsWith(input, SYSCALL_ENTRY) && |r.value.rest| < |input| && r.value.value.SyscallEntry?
  {
    match KeyNumber(input, SYSCALL_ENTRY)
    case None => None
    case Some(n) => Some(Parsed(SyscallEntry(n.value), n.rest))
  }

  /** `parse_t_syscall_return`. */
  function ParseTSyscallReturn(input: seq<byte>): (r: Option<Parsed<StopReplyValue>>)
    ensures r.Some? ==> StartsWith(input, SYSCALL_RETURN) && |r.value.rest| < |input| && r.value.value.SyscallReturn?
  {
    match KeyNumber(input, SYSCALL_RETURN)
    case None => None
    case Some(n) => Some(Parsed(SyscallReturn(n.value), n.rest))
  }

  /** `parse_t_library`. */
  function ParseTLibrary(input: seq<byte>): (r: Option<Parsed<StopReplyValue>>)
    ensures r.Some? ==> StartsWith(input, LIBRARY) && |r.value.rest| < |input| && r.value.value.LibraryChange?
  {
    match KeySkip(input, LIBRARY)
    case None => None
    case Some(s) => Some(Parsed(LibraryChange, s))
  }

  /** `parse_t_replaylog`. */
  function ParseTReplayLog(input: seq<byte>): (r: Option<Parsed<StopReplyValue>>)
    ensures r.Some? ==> StartsWith(input, REPLAYLOG) && |r.value.rest| < |input| && r.value.value.ReplayLog?
  {
    match ParseReplayLog(input)
    case None => None
    case Some(b) => Some(Parsed(ReplayLog(b.value), b.rest))
  }

  /** `parse_t_swbreak`. */
  function ParseTSwbreak(input: seq<byte>): (r: Option<Parsed<StopReplyValue>>)
    ensures r.Some? ==> StartsWith(input, SWBREAK) && |r.value.rest| < |input| && r.value.value.SoftwareBreak?
  {
    match Tag(input, SWBREAK)
    case None => None
    case Some(s) => Some(Parsed(SoftwareBreak, s))
  }

  /** `parse_t_hwbreak`. */
  function ParseTHwbreak(input: seq<byte>): (r: Option<Parsed<StopReplyValue>>)
    ensures r.Some? ==> StartsWith(input, HWBREAK) && |r.value.rest| < |input| && r.value.value.HardwareBreak?
  {
    match Tag(input, HWBREAK)
    case None => None
    case Some(s) => Some(Parsed(HardwareBreak, s))
  }

  /** `parse_t_fork`. */
  function ParseTFork(rd: Variant, input: seq<byte>): (r: Option<Parsed<StopReplyValue>>)
    ensures r.Some? ==> StartsWith(input, FORK) && |r.value.rest| < |input| && r.value.value.Fork?
  {
    match KeyThread(rd, input, FORK)
    case None => None
    case Some(p) => Some(Parsed(Fork(p.value), p.rest))
  }

  /** `parse_t_vfork`. */
  function ParseTVFork(rd: Variant, input: seq<byte>): (r: Option<Parsed<StopReplyValue>>)
    ensures r.Some? ==> StartsWith(input, VFORK) && |r.value.rest| < |input| && r.value.value.VFork?
  {
    match KeyThread(rd, input, VFORK)
    case None => None
    case Some(p) => Some(Parsed(VFork(p.value), p.rest))
  }

  /** `parse_t_vforkdone`. */
  function ParseTVForkDone(input: seq<byte>): (r: Option<Parsed<StopReplyValue>>)
    ensures r.Some? ==> StartsWith(input, VFORKDONE) && |r.value.rest| < |input| && r.value.value.VForkDone?
  {
    match KeySkip(input, VFORKDONE)
    case None => None
    case Some(s) => Some(Parsed(VForkDone, s))
  }

  /** `parse_t_exec`. */
  function ParseTExec(input: seq<byte>): (r: Option<Parsed<StopReplyValue>>)
    ensures r.Some? ==> StartsWith(input, EXEC) && |r.value.rest| < |input| && r.value.value.Exec?
  {
    match Tag(input, EXEC)
    case None => None
    case Some(s) =>
      match ParseHexData(s)
      case None => None
      case Some(d) => Some(Parsed(Exec(d.value), d.rest))
  }

  /** `parse_t_create`. */
  function ParseTCreate(input: seq<byte>): (r: Option<Parsed<StopReplyValue>>)
    ensures r.Some? ==> StartsWith(input, CREATE) && |r.value.rest| < |input| && r.value.value.Create?
  {
    match KeySkip(input, CREATE)
    case None => None
    case Some(s) => Some(Parsed(Create, s))
  }

  /** The keyed helpers, numbered as in `Key`. */
  function KeyedPair(rd: Variant, i: nat, input: seq<byte>): (r: Option<Parsed<StopReplyValue>>)
    requires i < KEY_COUNT
    ensures r.Some? ==> StartsWith(input, Key(i)) && !r.value.value.Unknown?
    ensures r.Some? ==> |r.value.rest| < |input|
  {
    match i
    case 0 => ParseTThread(rd, input)
    case 1 => ParseTCore(input)
    case 2 => ParseTWatch(input)
    case 3 => ParseTAwatch(input)
    case 4 => ParseTRwatch(input)
    case 5 => ParseTSyscallEntry(input)
    case 6 => ParseTSyscallReturn(input)
    case 7 => ParseTLibrary(input)
    case 8 => ParseTReplayLog(input)
    case 9 => ParseTSwbreak(input)
    case 10 => ParseTHwbreak(input)
    case 11 => ParseTFork(rd, input)
    case 12 => ParseTVFork(rd, input)
    case 13 => ParseTVForkDone(input)
    case 14 => ParseTExec(input)
    case 15 => ParseTCreate(input)
  }

  /** The keyed helpers that read a thread id, picked out by number. */
  lemma KeyedThreadIs(rd: Variant, input: seq<byte>)
    ensures KeyedPair(rd, 0, input) == ParseTThread(rd, input)
  {
  }

  lemma KeyedForkIs(rd: Variant, input: seq<byte>)
    ensures KeyedPair(rd, 11, input) == ParseTFork(rd, input)
  {
  }

  lemma KeyedVForkIs(rd: Variant, input: seq<byte>)
    ensures KeyedPair(rd, 12, input) == ParseTVFork(rd, input)
  {
  }

  /** `alt_complete!` over the keyed helpers from number `i` on. */
  function KeyedFrom(rd: Variant, input: seq<byte>, i: nat): (r: Option<Parsed<StopReplyValue>>)
    requires i <= KEY_COUNT
    ensures r.Some? ==> !r.value.value.Unknown? && |r.value.rest| < |input|
    decreases KEY_COUNT - i
  {
    if i == KEY_COUNT then None
    else
      match KeyedPair(rd, i, input)
      case Some(v) => Some(v)
      case None => KeyedFrom(rd, input, i + 1)
  }

  /** `parse_any_t_pair`: the register pair, then the keyed pairs in
      order. It never yields `Unknown`, and it always consumes input. */
  function ParseAnyTPair(rd: Variant, input: seq<byte>): (r: Option<Parsed<StopReplyValue>>)
    ensures r.Some? ==> !r.value.value.Unknown? && |r.value.rest| < |input|
  {
    match ParseTRegister(input)
    case Some(v) => Some(v)
    case None => KeyedFrom(rd, input, 0)
  }

  /** The loop of `separated_nonempty_list!(tag!(";"), ..)` after the
      first element: a `;` and an element, as often as both are there;
      when the element after a `;` fails, the `;` is left unread. */
  function MorePairs(rd: Variant, input: seq<byte>): (r: Parsed<seq<StopReplyValue>>)
    ensures |r.rest| <= |input|
    ensures r.rest == [] || r.rest[0] != SEMI || ParseAnyTPair(rd, r.rest[1..]).None?
    ensures forall k :: 0 <= k < |r.value| ==> !r.value[k].Unknown?
    decreases |input|
  {
    match TagByte(input, SEMI)
    case None => Parsed([], input)
    case Some(s) =>
      match ParseAnyTPair(rd, s)
      case None => Parsed([], input)
      case Some(p) =>
        var t := MorePairs(rd, p.rest);
        Parsed([p.value] + t.value, t.rest)
  }

  /** `separated_nonempty_list!`: at least one pair. */
  function TPairs(rd: Variant, input: seq<byte>): (r: Option<Parsed<seq<StopReplyValue>>>)
    ensures r.Some? <==> ParseAnyTPair(rd, input).Some?
    ensures r.Some? ==> |r.value.value| > 0 && forall k :: 0 <= k < |r.value.value| ==> !r.value.value[k].Unknown?
  {
    match ParseAnyTPair(rd, input)
    case None => None
    case Some(first) =>
      var more := MorePairs(rd, first.rest);
      Some(Parsed([first.value] + more.value, more.rest))
  }

  /** `parse_stop_signal_full`: `T`, the signal as two hex digits, the
      pairs separated by `;`, and the end of input. */
  function ParseStopSignalFull(rd: Variant, input: seq<byte>): (r: Option<Parsed<(byte, seq<StopReplyValue>)>>)
    ensures r.Some? ==> r.value.rest == [] && |input| >= 3 && input[0] == LETTER_T
    ensures r.Some? ==> |r.value.value.1| > 0 && forall k :: 0 <= k < |r.value.value.1| ==> !r.value.value.1[k].Unknown?
  {
    match TagByte(input, LETTER_T)
    case None => None
    case Some(s) =>
      match Parse2Hex(s)
      case None => None
      case Some(signo) =>
        match TPairs(rd, signo.rest)
        case None => None
        case Some(ps) => if AtEnd(ps.rest) then Some(Parsed((signo.value, ps.value), [])) else None
  }

  /** `parse_stop_signal`: `S` and the signal as two hex digits. */
  function ParseStopSignal(input: seq<byte>): (r: Option<Parsed<byte>>)
    ensures r.Some? <==>
      |input| == 3 && input[0] == LETTER_S && IsHexDigit(input[1]) && IsHexDigit(input[2])
    ensures r.Some? ==> r.value == Parsed(DigitValue(input[1]) * 16 + DigitValue(input[2]), [])
  {
    LetterCode(LETTER_S, input)
  }

  /** The optional `;process:<pid>` of `W` and `X`: taken when complete,
      otherwise the input is left as it was. */
  function ProcessSuffix(input: seq<byte>): (r: Parsed<Option<nat>>)
    ensures r.value.None? ==> r.rest == input
    ensures r.value.Some? ==>
      StartsWith(input, PROCESS) &&
      ParseHexNumber(input[|PROCESS|..]) == Some(Parsed(r.value.value, r.rest))
  {
    match Tag(input, PROCESS)
    case None => Parsed(None, input)
    case Some(s) =>
      match ParseHexNumber(s)
      case None => Parsed(None, input)
      case Some(n) => Parsed(Some(n.value), n.rest)
  }

  /** `parse_stop_exit`: `W`, the exit status as two hex digits, an
      optional `;process:<pid>`, and the end of input. */
  function ParseStopExit(input: seq<byte>): (r: Option<Parsed<(byte, Option<nat>)>>)
    ensures r.Some? ==>
      r.value.rest == [] && |input| >= 3 && input[0] == LETTER_W &&
      Parse2Hex(input[1..]).Some? && r.value.value.0 == Parse2Hex(input[1..]).value.value &&
      ProcessSuffix(input[3..]) == Parsed(r.value.value.1, [])
  {
    match TagByte(input, LETTER_W)
    case None => None
    case Some(s) =>
      match Parse2Hex(s)
      case None => None
      case Some(code) =>
        var pid := ProcessSuffix(code.rest);
        if AtEnd(pid.rest) then Some(Parsed((code.value, pid.value), [])) else None
  }

  /** `parse_stop_exit_signal`: as `W`, but the signal is a hex number of
      any number of pairs. */
  function ParseStopExitSignal(input: seq<byte>): (r: Option<Parsed<(nat, Option<nat>)>>)
    ensures r.Some? ==>
      r.value.rest == [] && |input| > 0 && input[0] == LETTER_X &&
      ParseHexNumber(input[1..]).Some? && r.value.value.0 == ParseHexNumber(input[1..]).value.value &&
      ProcessSuffix(ParseHexNumber(input[1..]).value.rest) == Parsed(r.value.value.1, [])
  {
    match TagByte(input, LETTER_X)
    case None => None
    case Some(s) =>
      match ParseHexNumber(s)
      case None => None
      case Some(sig) =>
        var pid := ProcessSuffix(sig.rest);
        if AtEnd(pid.rest) then Some(Parsed((sig.value, pid.value), [])) else None
  }

  /** `parse_stop_thread_exit`: `w`, the exit status, `;`, the thread's
      pid, and the end of input. */
  function ParseStopThreadExit(input: seq<byte>): (r: Option<Parsed<(nat, nat)>>)
    ensures r.Some? ==>
      r.value.rest == [] && |input| > 0 && input[0] == LOWER_W &&
      ParseHexNumber(input[1..]).Some? && r.value.value.0 == ParseHexNumber(input[1..]).value.value
  {
    match TagByte(input, LOWER_W)
    case None => None
    case Some(s) =>
      match ParseHexNumber(s)
      case None => None
      case Some(status) =>
        match TagByte(status.rest, SEMI)
        case None => None
        case Some(t) =>
          match ParseHexNumber(t)
          case None => None
          case Some(pid) => if AtEnd(pid.rest) then Some(Parsed((status.value, pid.value), [])) else None
  }

  /** `parse_inferior_output`: `O` and hex data; anything after the data
      is left unread. */
  function ParseInferiorOutput(input: seq<byte>): (r: Option<Parsed<seq<byte>>>)
    ensures r.Some? <==> |input| > 0 && input[0] == LETTER_O && ParseHexData(input[1..]).Some?
    ensures r.Some? ==> r == ParseHexData(input[1..])
  {
    match TagByte(input, LETTER_O)
    case None => None
    case Some(s) => ParseHexData(s)
  }
}

/** Round trips and rejections for the stop-reply grammar: what a stub
    writes for each pair and packet is read back, and where the grammar
    as written refuses well-formed stub output. */
module StopReplyFacts {
  import opened Types
  import opened Bytes
  import opened Util
  import opened Fmt
  import opened Ids
  import opened Parse
  import opened ThreadParse
  import opened StopReply

  /** A `T` key as written: ends in `:` and has no other `:`. */
  predicate Keyword(k: seq<byte>) {
    |k| > 0 && k[|k| - 1] == COLON && Free(k[..|k| - 1], COLON)
  }

  /** Where the first `:` is, or the length when there is none. */
  function ColonAt(w: seq<byte>): (r: nat)
    ensures r <= |w|
    decreases |w|
  {
    if |w| == 0 then 0 else if w[0] == COLON then 0 else 1 + ColonAt(w[1..])
  }

  lemma {:induction false} ColonAfterKeyword(k: seq<byte>, s: seq<byte>)
    requires Keyword(k)
    ensures ColonAt(k + s) == |k| - 1
    decreases |k|
  {
    if |k| > 1 {
      var k' := k[1..];
      assert k[0] == k[..|k| - 1][0];
      assert (k + s)[1..] == k' + s;
      assert k'[..|k'| - 1] == k[..|k| - 1][1..];
      assert Keyword(k');
      ColonAfterKeyword(k', s);
    }
  }

  /** No keyword is a prefix of another keyword followed by anything. */
  lemma KeywordsMatch(k: seq<byte>, t: seq<byte>, s: seq<byte>)
    requires Keyword(k) && Keyword(t)
    ensures StartsWith(k + s, t) ==> k == t
  {
    if StartsWith(k + s, t) {
      var w := k + s;
      ColonAfterKeyword(k, s);
      ColonAfterKeyword(t, w[|t|..]);
      assert w == t + w[|t|..];
      assert w[..|k|] == k;
    }
  }

  lemma KeysAreKeywords()
    ensures forall i :: 0 <= i < KEY_COUNT ==> Keyword(Key(i))
  {
  }

  lemma KeysDistinct()
    ensures forall i, j :: 0 <= i < j < KEY_COUNT ==> Key(i) != Key(j)
  {
  }

  /** No key starts with two hex digits, so the register pair never
      claims a keyed pair. */
  lemma KeysNotHex()
    ensures forall i :: 0 <= i < KEY_COUNT ==> !(IsHexDigit(Key(i)[0]) && IsHexDigit(Key(i)[1]))
  {
  }

  /** The number `i` whose `Key(i)` is the keyword of a keyed pair. */
  function KeyIndex(v: StopReplyValue): (r: nat)
    requires !v.Register? && !v.Unknown?
    ensures r < KEY_COUNT
  {
    match v
    case Thread(_) => 0
    case Core(_) => 1
    case Watch(_) => 2
    case Awatch(_) => 3
    case Rwatch(_) => 4
    case SyscallEntry(_) => 5
    case SyscallReturn(_) => 6
    case LibraryChange => 7
    case ReplayLog(_) => 8
    case SoftwareBreak => 9
    case HardwareBreak => 10
    case Fork(_) => 11
    case VFork(_) => 12
    case VForkDone => 13
    case Exec(_) => 14
    case Create => 15
  }

  /** What a stub writes after the key; skipped values are left empty. */
  function ValueWire(v: StopReplyValue): seq<byte>
    requires !v.Register? && !v.Unknown?
  {
    match v
    case Thread(p) => ThreadIdWire(p)
    case Fork(p) => ThreadIdWire(p)
    case VFork(p) => ThreadIdWire(p)
    case Core(n) => NumberWire(n)
    case Watch(n) => NumberWire(n)
    case Awatch(n) => NumberWire(n)
    case Rwatch(n) => NumberWire(n)
    case SyscallEntry(n) => NumberWire(n)
    case SyscallReturn(n) => NumberWire(n)
    case ReplayLog(b) => if b then BEGIN else END
    case Exec(path) => HexEncode(path)
    case _ => []
  }

  /** One pair as a stub writes it. */
  function PairWire(v: StopReplyValue): seq<byte> {
    if v.Register? then NumberWire(v.regno) + [COLON] + HexEncode(v.contents)
    else if v.Unknown? then v.raw
    else Key(KeyIndex(v)) + ValueWire(v)
  }

  /** Pairs a stub can write and the reading `rd` reads back: known, with
      non-empty hex data and thread ids `rd` can read. */
  predicate Encodable(rd: Variant, v: StopReplyValue) {
    && !v.Unknown?
    && (v.Register? ==> |v.contents| > 0)
    && (v.Exec? ==> |v.path| > 0)
    && (v.Thread? ==> Readable(rd, v.thread))
    && ((v.Fork? || v.VFork?) ==> Readable(rd, v.child))
  }

  /** What may follow a pair: the end, or the `;` before the next one. */
  predicate EndsValue(rest: seq<byte>) {
    rest == [] || rest[0] == SEMI
  }

  lemma TagOf(k: seq<byte>, x: seq<byte>)
    ensures Tag(k + x, k) == Some(x)
  {
    assert (k + x)[..|k|] == k && (k + x)[|k|..] == x;
  }

  lemma TagThen(k: seq<byte>, w: seq<byte>, rest: seq<byte>)
    ensures Tag(k + w + rest, k) == Some(w + rest)
  {
    assert k + w + rest == k + (w + rest);
    TagOf(k, w + rest);
  }

  lemma EndsValueFacts(rest: seq<byte>)
    requires EndsValue(rest)
    ensures Parse2Hex(rest).None? && EndsThreadId(rest) && SkipUntilSemi(rest) == Some(rest)
  {
  }

  /** The value after a key is read back. */
  lemma KeyedPairRoundTrip(rd: Variant, v: StopReplyValue, rest: seq<byte>)
    requires Encodable(rd, v) && !v.Register? && EndsValue(rest)
    ensures KeyedPair(rd, KeyIndex(v), Key(KeyIndex(v)) + ValueWire(v) + rest) == Some(Parsed(v, rest))
  {
    if v.Thread? || v.Fork? || v.VFork? {
      KeyedThreadRoundTrip(rd, v, rest);
    } else if v.Core? || v.Watch? || v.Awatch? || v.Rwatch? || v.SyscallEntry? || v.SyscallReturn? {
      KeyedNumberRoundTrip(rd, v, rest);
    } else {
      KeyedFlagRoundTrip(rd, v, rest);
    }
  }

  /** The pairs whose value is a thread id. */
  lemma {:induction false} KeyedThreadRoundTrip(rd: Variant, v: StopReplyValue, rest: seq<byte>)
    requires Encodable(rd, v) && (v.Thread? || v.Fork? || v.VFork?) && EndsValue(rest)
    ensures KeyedPair(rd, KeyIndex(v), Key(KeyIndex(v)) + ValueWire(v) + rest) == Some(Parsed(v, rest))
  {
    if v.Thread? {
      var p := v.thread;
      assert KeyIndex(v) == 0 && Key(0) == THREAD && ValueWire(v) == ThreadIdWire(p);
      KeyedThreadPair(rd, p, rest);
    } else if v.Fork? {
      var p := v.child;
      assert KeyIndex(v) == 11 && Key(11) == FORK && ValueWire(v) == ThreadIdWire(p);
      KeyedForkPair(rd, p, rest);
    } else {
      var p := v.child;
      assert KeyIndex(v) == 12 && Key(12) == VFORK && ValueWire(v) == ThreadIdWire(p);
      KeyedVForkPair(rd, p, rest);
    }
  }

  lemma KeyedThreadPair(rd: Variant, p: ProcessId, rest: seq<byte>)
    requires EndsValue(rest) && Readable(rd, p)
    ensures KeyedPair(rd, 0, THREAD + ThreadIdWire(p) + rest) == Some(Parsed(Thread(p), rest))
  {
    ThreadRoundTrip(rd, p, rest);
    KeyedThreadIs(rd, THREAD + ThreadIdWire(p) + rest);
  }

  lemma KeyedForkPair(rd: Variant, p: ProcessId, rest: seq<byte>)
    requires EndsValue(rest) && Readable(rd, p)
    ensures KeyedPair(rd, 11, FORK + ThreadIdWire(p) + rest) == Some(Parsed(Fork(p), rest))
  {
    ForkRoundTrip(rd, p, rest);
    KeyedForkIs(rd, FORK + ThreadIdWire(p) + rest);
  }

  lemma KeyedVForkPair(rd: Variant, p: ProcessId, rest: seq<byte>)
    requires EndsValue(rest) && Readable(rd, p)
    ensures KeyedPair(rd, 12, VFORK + ThreadIdWire(p) + rest) == Some(Parsed(VFork(p), rest))
  {
    VForkRoundTrip(rd, p, rest);
    KeyedVForkIs(rd, VFORK + ThreadIdWire(p) + rest);
  }

  /** The pairs whose value is a hex number. */
  lemma {:induction false} KeyedNumberRoundTrip(rd: Variant, v: StopReplyValue, rest: seq<byte>)
    requires Encodable(rd, v) && EndsValue(rest)
    requires v.Core? || v.Watch? || v.Awatch? || v.Rwatch? || v.SyscallEntry? || v.SyscallReturn?
    ensures KeyedPair(rd, KeyIndex(v), Key(KeyIndex(v)) + ValueWire(v) + rest) == Some(Parsed(v, rest))
  {
    if v.Core? {
      var n := v.core;
      assert KeyIndex(v) == 1 && Key(1) == CORE && ValueWire(v) == NumberWire(n);
      CoreRoundTrip(n, rest);
    } else if v.Watch? {
      var n := v.addr;
      assert KeyIndex(v) == 2 && Key(2) == WATCH && ValueWire(v) == NumberWire(n);
      WatchRoundTrip(n, rest);
    } else if v.Awatch? {
      var n := v.addr;
      assert KeyIndex(v) == 3 && Key(3) == AWATCH && ValueWire(v) == NumberWire(n);
      AwatchRoundTrip(n, rest);
    } else if v.Rwatch? {
      var n := v.addr;
      assert KeyIndex(v) == 4 && Key(4) == RWATCH && ValueWire(v) == NumberWire(n);
      RwatchRoundTrip(n, rest);
    } else if v.SyscallEntry? {
      var n := v.call;
      assert KeyIndex(v) == 5 && Key(5) == SYSCALL_ENTRY && ValueWire(v) == NumberWire(n);
      SyscallEntryRoundTrip(n, rest);
    } else {
      var n := v.call;
      assert KeyIndex(v) == 6 && Key(6) == SYSCALL_RETURN && ValueWire(v) == NumberWire(n);
      SyscallReturnRoundTrip(n, rest);
    }
  }

  /** The pairs whose value is a flag, a path or nothing. */
  lemma {:induction false} KeyedFlagRoundTrip(rd: Variant, v: StopReplyValue, rest: seq<byte>)
    requires Encodable(rd, v) && EndsValue(rest)
    requires v.LibraryChange? || v.ReplayLog? || v.SoftwareBreak? || v.HardwareBreak? || v.VForkDone? || v.Exec? || v.Create?
    ensures KeyedPair(rd, KeyIndex(v), Key(KeyIndex(v)) + ValueWire(v) + rest) == Some(Parsed(v, rest))
  {
    if v.LibraryChange? {
      assert KeyIndex(v) == 7 && Key(7) == LIBRARY && ValueWire(v) == [];
      LibraryChangeRoundTrip(rest);
    } else if v.ReplayLog? {
      var b := v.begin;
      assert KeyIndex(v) == 8 && Key(8) == REPLAYLOG && ValueWire(v) == (if b then BEGIN else END);
      ReplayLogRoundTrip(b, rest);
    } else if v.SoftwareBreak? {
      assert KeyIndex(v) == 9 && Key(9) == SWBREAK && ValueWire(v) == [];
      SoftwareBreakRoundTrip(rest);
    } else if v.HardwareBreak? {
      assert KeyIndex(v) == 10 && Key(10) == HWBREAK && ValueWire(v) == [];
      HardwareBreakRoundTrip(rest);
    } else if v.VForkDone? {
      assert KeyIndex(v) == 13 && Key(13) == VFORKDONE && ValueWire(v) == [];
      VForkDoneRoundTrip(rest);
    } else if v.Exec? {
      var path := v.path;
      assert KeyIndex(v) == 14 && Key(14) == EXEC && ValueWire(v) == HexEncode(path);
      ExecRoundTrip(path, rest);
    } else {
      assert KeyIndex(v) == 15 && Key(15) == CREATE && ValueWire(v) == [];
      CreateRoundTrip(rest);
    }
  }

  lemma KeyNumberRoundTrip(key: seq<byte>, n: nat, rest: seq<byte>)
    requires |key| > 0 && EndsValue(rest)
    ensures KeyNumber(key + NumberWire(n) + rest, key) == Some(Parsed(n, rest))
  {
    assert key + NumberWire(n) + rest == key + (NumberWire(n) + rest);
    TagOf(key, NumberWire(n) + rest);
    ParseHexNumberRoundTrip(n, rest);
  }

  lemma KeyThreadRoundTrip(rd: Variant, key: seq<byte>, p: ProcessId, rest: seq<byte>)
    requires |key| > 0 && EndsValue(rest) && Readable(rd, p)
    ensures KeyThread(rd, key + ThreadIdWire(p) + rest, key) == Some(Parsed(p, rest))
  {
    assert key + ThreadIdWire(p) + rest == key + (ThreadIdWire(p) + rest);
    TagOf(key, ThreadIdWire(p) + rest);
    ThreadIdReadBack(rd, p, rest);
  }

  lemma KeySkipRoundTrip(key: seq<byte>, rest: seq<byte>)
    requires |key| > 0 && EndsValue(rest)
    ensures KeySkip(key + [] + rest, key) == Some(rest)
  {
    assert key + [] + rest == key + rest;
    TagOf(key, rest);
  }

  lemma KeyFlagRoundTrip(key: seq<byte>, rest: seq<byte>)
    ensures Tag(key + [] + rest, key) == Some(rest)
  {
    assert key + [] + rest == key + rest;
    TagOf(key, rest);
  }

  lemma ThreadRoundTrip(rd: Variant, p: ProcessId, rest: seq<byte>)
    requires EndsValue(rest) && Readable(rd, p)
    ensures ParseTThread(rd, THREAD + ThreadIdWire(p) + rest) == Some(Parsed(Thread(p), rest))
  {
    KeyThreadRoundTrip(rd, THREAD, p, rest);
  }

  lemma CoreRoundTrip(n: nat, rest: seq<byte>)
    requires EndsValue(rest)
    ensures ParseTCore(CORE + NumberWire(n) + rest) == Some(Parsed(Core(n), rest))
  {
    KeyNumberRoundTrip(CORE, n, rest);
  }

  lemma WatchRoundTrip(n: nat, rest: seq<byte>)
    requires EndsValue(rest)
    ensures ParseTWatch(WATCH + NumberWire(n) + rest) == Some(Parsed(Watch(n), rest))
  {
    KeyNumberRoundTrip(WATCH, n, rest);
  }

  lemma AwatchRoundTrip(n: nat, rest: seq<byte>)
    requires EndsValue(rest)
    ensures ParseTAwatch(AWATCH + NumberWire(n) + rest) == Some(Parsed(Awatch(n), rest))
  {
    KeyNumberRoundTrip(AWATCH, n, rest);
  }

  lemma RwatchRoundTrip(n: nat, rest: seq<byte>)
    requires EndsValue(rest)
    ensures ParseTRwatch(RWATCH + NumberWire(n) + rest) == Some(Parsed(Rwatch(n), rest))
  {
    KeyNumberRoundTrip(RWATCH, n, rest);
  }

  lemma SyscallEntryRoundTrip(n: nat, rest: seq<byte>)
    requires EndsValue(rest)
    ensures ParseTSyscallEntry(SYSCALL_ENTRY + NumberWire(n) + rest) == Some(Parsed(SyscallEntry(n), rest))
  {
    KeyNumberRoundTrip(SYSCALL_ENTRY, n, rest);
  }

  lemma SyscallReturnRoundTrip(n: nat, rest: seq<byte>)
    requires EndsValue(rest)
    ensures ParseTSyscallReturn(SYSCALL_RETURN + NumberWire(n) + rest) == Some(Parsed(SyscallReturn(n), rest))
  {
    KeyNumberRoundTrip(SYSCALL_RETURN, n, rest);
  }

  lemma LibraryChangeRoundTrip(rest: seq<byte>)
    requires EndsValue(rest)
    ensures ParseTLibrary(LIBRARY + [] + rest) == Some(Parsed(LibraryChange, rest))
  {
    KeySkipRoundTrip(LIBRARY, rest);
  }

  lemma ReplayLogRoundTrip(b: bool, rest: seq<byte>)
    requires EndsValue(rest)
    ensures ParseTReplayLog(REPLAYLOG + (if b then BEGIN else END) + rest) == Some(Parsed(ReplayLog(b), rest))
  {
    ParseReplayLogRoundTrip(b, rest);
  }

  lemma SoftwareBreakRoundTrip(rest: seq<byte>)
    requires EndsValue(rest)
    ensures ParseTSwbreak(SWBREAK + [] + rest) == Some(Parsed(SoftwareBreak, rest))
  {
    KeyFlagRoundTrip(SWBREAK, rest);
  }

  lemma HardwareBreakRoundTrip(rest: seq<byte>)
    requires EndsValue(rest)
    ensures ParseTHwbreak(HWBREAK + [] + rest) == Some(Parsed(HardwareBreak, rest))
  {
    KeyFlagRoundTrip(HWBREAK, rest);
  }

  /** As written, the `thread:`, `fork:` and `vfork:` pairs read back
      exactly the ids with a numeric pid and even-length numbers. */
  lemma ThreadPairAsWritten(p: ProcessId, rest: seq<byte>)
    requires ValidProcessId(p) && EndsValue(rest)
    ensures ParseTThread(AsWritten, THREAD + ThreadIdWire(p) + rest) == Some(Parsed(Thread(p), rest))
      <==> Readable(AsWritten, p)
    ensures ParseTFork(AsWritten, FORK + ThreadIdWire(p) + rest) == Some(Parsed(Fork(p), rest))
      <==> Readable(AsWritten, p)
    ensures ParseTVFork(AsWritten, VFORK + ThreadIdWire(p) + rest) == Some(Parsed(VFork(p), rest))
      <==> Readable(AsWritten, p)
  {
    KeyThreadAsWritten(THREAD, p, rest);
    KeyThreadAsWritten(FORK, p, rest);
    KeyThreadAsWritten(VFORK, p, rest);
  }

  lemma KeyThreadAsWritten(key: seq<byte>, p: ProcessId, rest: seq<byte>)
    requires |key| > 0 && ValidProcessId(p) && EndsValue(rest)
    ensures KeyThread(AsWritten, key + ThreadIdWire(p) + rest, key) == Some(Parsed(p, rest))
      <==> Readable(AsWritten, p)
  {
    var x := ThreadIdWire(p) + rest;
    assert key + ThreadIdWire(p) + rest == key + x;
    TagOf(key, x);
    EndsValueFacts(rest);
    AsWrittenReadBack(p, rest);
  }

  lemma ForkRoundTrip(rd: Variant, p: ProcessId, rest: seq<byte>)
    requires EndsValue(rest) && Readable(rd, p)
    ensures ParseTFork(rd, FORK + ThreadIdWire(p) + rest) == Some(Parsed(Fork(p), rest))
  {
    KeyThreadRoundTrip(rd, FORK, p, rest);
  }

  lemma VForkRoundTrip(rd: Variant, p: ProcessId, rest: seq<byte>)
    requires EndsValue(rest) && Readable(rd, p)
    ensures ParseTVFork(rd, VFORK + ThreadIdWire(p) + rest) == Some(Parsed(VFork(p), rest))
  {
    KeyThreadRoundTrip(rd, VFORK, p, rest);
  }

  lemma VForkDoneRoundTrip(rest: seq<byte>)
    requires EndsValue(rest)
    ensures ParseTVForkDone(VFORKDONE + [] + rest) == Some(Parsed(VForkDone, rest))
  {
    KeySkipRoundTrip(VFORKDONE, rest);
  }

  lemma ExecRoundTrip(path: seq<byte>, rest: seq<byte>)
    requires EndsValue(rest) && |path| > 0
    ensures ParseTExec(EXEC + HexEncode(path) + rest) == Some(Parsed(Exec(path), rest))
  {
    var e := HexEncode(path);
    TagThen(EXEC, e, rest);
    EndsValueFacts(rest);
    ParseHexDataRoundTrip(path, rest);
  }

  lemma CreateRoundTrip(rest: seq<byte>)
    requires EndsValue(rest)
    ensures ParseTCreate(CREATE + [] + rest) == Some(Parsed(Create, rest))
  {
    KeySkipRoundTrip(CREATE, rest);
  }

  lemma ParseReplayLogRoundTrip(b: bool, rest: seq<byte>)
    ensures ParseReplayLog(REPLAYLOG + (if b then BEGIN else END) + rest) == Some(Parsed(b, rest))
  {
    var w := if b then BEGIN else END;
    assert REPLAYLOG + w + rest == REPLAYLOG + (w + rest);
    TagOf(REPLAYLOG, w + rest);
    TagOf(w, rest);
    if !b {
      assert (w + rest)[0] != BEGIN[0];
    }
  }

  /** A keyed helper other than the key's own fails on the key. */
  lemma KeyMiss(rd: Variant, i: nat, m: nat, x: seq<byte>)
    requires i < KEY_COUNT && m < KEY_COUNT && m != i
    ensures KeyedPair(rd, m, Key(i) + x).None?
  {
    KeysAreKeywords();
    KeysDistinct();
    KeywordsMatch(Key(i), Key(m), x);
  }

  /** `alt_complete!` passes over the helpers before the key's own. */
  lemma KeyedFromSkips(rd: Variant, i: nat, j: nat, x: seq<byte>)
    requires j <= i < KEY_COUNT
    ensures KeyedFrom(rd, Key(i) + x, j) == KeyedFrom(rd, Key(i) + x, i)
  {
    var w := Key(i) + x;
    forall m | j <= m < i
      ensures KeyedPair(rd, m, w).None?
    {
      KeyMiss(rd, i, m, x);
    }
    SkipsFrom(rd, w, i, j);
  }

  lemma {:induction false} SkipsFrom(rd: Variant, w: seq<byte>, i: nat, j: nat)
    requires j <= i < KEY_COUNT
    requires forall m :: j <= m < i ==> KeyedPair(rd, m, w).None?
    ensures KeyedFrom(rd, w, j) == KeyedFrom(rd, w, i)
    decreases i - j
  {
    if j < i {
      assert KeyedPair(rd, j, w).None?;
      KeyedFromNext(rd, w, j);
      SkipsFrom(rd, w, i, j + 1);
    }
  }

  lemma KeyedFromNext(rd: Variant, input: seq<byte>, j: nat)
    requires j < KEY_COUNT && KeyedPair(rd, j, input).None?
    ensures KeyedFrom(rd, input, j) == KeyedFrom(rd, input, j + 1)
  {
  }

  /** The register pair does not claim a keyed pair. */
  lemma RegisterMiss(i: nat, x: seq<byte>)
    requires i < KEY_COUNT
    ensures ParseTRegister(Key(i) + x).None?
  {
    KeysNotHex();
    var w := Key(i) + x;
    assert w[0] == Key(i)[0] && w[1] == Key(i)[1];
  }

  /** Every pair a stub writes is read back by `parse_any_t_pair`. */
  lemma PairRoundTrip(rd: Variant, v: StopReplyValue, rest: seq<byte>)
    requires Encodable(rd, v) && EndsValue(rest)
    ensures ParseAnyTPair(rd, PairWire(v) + rest) == Some(Parsed(v, rest))
  {
    if v.Register? {
      assert PairWire(v) == NumberWire(v.regno) + [COLON] + HexEncode(v.contents);
      RegisterPairFound(rd, v.regno, v.contents, rest);
    } else {
      var i := KeyIndex(v);
      assert PairWire(v) == Key(i) + ValueWire(v);
      Assoc(Key(i), ValueWire(v), rest);
      KeyedPairFound(rd, v, rest);
    }
  }

  /** A register pair is taken by the register parser. */
  lemma RegisterPairFound(rd: Variant, regno: nat, contents: seq<byte>, rest: seq<byte>)
    requires |contents| > 0 && EndsValue(rest)
    ensures ParseAnyTPair(rd, NumberWire(regno) + [COLON] + HexEncode(contents) + rest) ==
      Some(Parsed(Register(regno, contents), rest))
  {
    RegisterRoundTrip(regno, contents, rest);
  }

  /** A keyed pair falls through the register parser and reaches its own
      keyword's parser. */
  lemma KeyedPairFound(rd: Variant, v: StopReplyValue, rest: seq<byte>)
    requires Encodable(rd, v) && !v.Register? && EndsValue(rest)
    ensures ParseAnyTPair(rd, Key(KeyIndex(v)) + (ValueWire(v) + rest)) == Some(Parsed(v, rest))
  {
    var i := KeyIndex(v);
    var x := ValueWire(v) + rest;
    var w := Key(i) + x;
    assert Key(i) + ValueWire(v) + rest == w;
    KeyedPairRoundTrip(rd, v, rest);
    RegisterMiss(i, x);
    AnyTPairKeyed(rd, w);
    KeyedFromSkips(rd, i, 0, x);
    KeyedFromHit(rd, w, i, Parsed(v, rest));
  }

  lemma AnyTPairKeyed(rd: Variant, input: seq<byte>)
    requires ParseTRegister(input).None?
    ensures ParseAnyTPair(rd, input) == KeyedFrom(rd, input, 0)
  {
  }

  lemma KeyedFromHit(rd: Variant, input: seq<byte>, i: nat, r: Parsed<StopReplyValue>)
    requires i < KEY_COUNT && KeyedPair(rd, i, input) == Some(r)
    ensures KeyedFrom(rd, input, i) == Some(r)
  {
  }

  /** `parse_t_register` reads back a register number, `:` and the
      register's bytes. */
  lemma RegisterRoundTrip(regno: nat, contents: seq<byte>, rest: seq<byte>)
    requires |contents| > 0 && EndsValue(rest)
    ensures ParseTRegister(NumberWire(regno) + [COLON] + HexEncode(contents) + rest) ==
      Some(Parsed(Register(regno, contents), rest))
  {
    var e := HexEncode(contents);
    var t := [COLON] + e + rest;
    ColonSeams(NumberWire(regno), e, rest);
    assert !IsHexDigit(COLON);
    ParseHexNumberRoundTrip(regno, t);
    EndsValueFacts(rest);
    ParseHexDataRoundTrip(contents, rest);
    RegisterStep(NumberWire(regno) + t, regno, t, contents, rest);
  }

  lemma ColonSeams(a: seq<byte>, b: seq<byte>, rest: seq<byte>)
    ensures a + [COLON] + b + rest == a + ([COLON] + b + rest)
    ensures ([COLON] + b + rest)[0] == COLON && ([COLON] + b + rest)[1..] == b + rest
  {
  }

  lemma RegisterStep(input: seq<byte>, n: nat, t: seq<byte>, d: seq<byte>, rest: seq<byte>)
    requires ParseHexNumber(input) == Some(Parsed(n, t))
    requires |t| > 0 && t[0] == COLON && ParseHexData(t[1..]) == Some(Parsed(d, rest))
    ensures ParseTRegister(input) == Some(Parsed(Register(n, d), rest))
  {
  }

  predicate AllEncodable(rd: Variant, vs: seq<StopReplyValue>) {
    forall k :: 0 <= k < |vs| ==> Encodable(rd, vs[k])
  }

  /** `;` and the pair, for each pair. */
  function MorePairsWire(vs: seq<StopReplyValue>): seq<byte>
    decreases |vs|
  {
    if |vs| == 0 then [] else [SEMI] + PairWire(vs[0]) + MorePairsWire(vs[1..])
  }

  /** The pairs of a `T` packet as a stub writes them: separated by `;`. */
  function PairsWire(vs: seq<StopReplyValue>): seq<byte>
    requires |vs| > 0
  {
    PairWire(vs[0]) + MorePairsWire(vs[1..])
  }

  /** What may follow the last pair for the list to stop there: the end,
      or a `;` that no pair follows. */
  predicate EndsPairs(rd: Variant, rest: seq<byte>) {
    rest == [] || (rest[0] == SEMI && ParseAnyTPair(rd, rest[1..]).None?)
  }

  lemma MorePairsWireStart(rd: Variant, vs: seq<StopReplyValue>, rest: seq<byte>)
    requires AllEncodable(rd, vs) && EndsPairs(rd, rest)
    ensures EndsValue(MorePairsWire(vs) + rest)
  {
    if |vs| > 0 {
      assert (MorePairsWire(vs) + rest)[0] == SEMI;
    } else {
      assert MorePairsWire(vs) + rest == rest;
    }
  }

  /** One `;` and pair of the list loop. */
  lemma MorePairsStep(rd: Variant, input: seq<byte>, v: StopReplyValue, t: seq<byte>)
    requires |input| > 0 && input[0] == SEMI && ParseAnyTPair(rd, input[1..]) == Some(Parsed(v, t))
    ensures MorePairs(rd, input) == Parsed([v] + MorePairs(rd, t).value, MorePairs(rd, t).rest)
  {
  }

  lemma MorePairsSeam(vs: seq<StopReplyValue>, rest: seq<byte>)
    requires |vs| > 0
    ensures var w := MorePairsWire(vs) + rest;
      w[0] == SEMI && w[1..] == PairWire(vs[0]) + (MorePairsWire(vs[1..]) + rest)
  {
    SemiSeam(MorePairsWire(vs), PairWire(vs[0]), MorePairsWire(vs[1..]), rest);
  }

  lemma SemiSeam(w: seq<byte>, a: seq<byte>, b: seq<byte>, rest: seq<byte>)
    requires w == [SEMI] + a + b
    ensures (w + rest)[0] == SEMI && (w + rest)[1..] == a + (b + rest)
  {
  }

  /** The list loop reads back every further pair, and stops before a
      `;` that no pair follows. */
  lemma {:induction false} MorePairsRoundTrip(rd: Variant, vs: seq<StopReplyValue>, rest: seq<byte>)
    requires AllEncodable(rd, vs) && EndsPairs(rd, rest)
    ensures MorePairs(rd, MorePairsWire(vs) + rest) == Parsed(vs, rest)
    decreases |vs|
  {
    if |vs| == 0 {
      assert MorePairsWire(vs) + rest == rest;
    } else {
      var t := MorePairsWire(vs[1..]) + rest;
      MorePairsWireStart(rd, vs[1..], rest);
      PairRoundTrip(rd, vs[0], t);
      MorePairsSeam(vs, rest);
      MorePairsStep(rd, MorePairsWire(vs) + rest, vs[0], t);
      MorePairsRoundTrip(rd, vs[1..], rest);
      assert [vs[0]] + vs[1..] == vs;
    }
  }

  /** The first pair and the loop after it. */
  lemma TPairsStep(rd: Variant, input: seq<byte>, v: StopReplyValue, t: seq<byte>)
    requires ParseAnyTPair(rd, input) == Some(Parsed(v, t))
    ensures TPairs(rd, input) == Some(Parsed([v] + MorePairs(rd, t).value, MorePairs(rd, t).rest))
  {
  }

  lemma {:induction false} TPairsRoundTrip(rd: Variant, vs: seq<StopReplyValue>, rest: seq<byte>)
    requires |vs| > 0 && AllEncodable(rd, vs) && EndsPairs(rd, rest)
    ensures TPairs(rd, PairsWire(vs) + rest) == Some(Parsed(vs, rest))
  {
    var t := MorePairsWire(vs[1..]) + rest;
    Assoc(PairWire(vs[0]), MorePairsWire(vs[1..]), rest);
    MorePairsWireStart(rd, vs[1..], rest);
    PairRoundTrip(rd, vs[0], t);
    TPairsStep(rd, PairWire(vs[0]) + t, vs[0], t);
    MorePairsRoundTrip(rd, vs[1..], rest);
    assert [vs[0]] + vs[1..] == vs;
  }

  /** `T`, the signal and the pair list, then the end of input. */
  lemma StopSignalStep(rd: Variant, signo: byte, x: seq<byte>)
    ensures ParseStopSignalFull(rd, [LETTER_T] + Hex2(signo) + x) ==
      match TPairs(rd, x)
      case None => None
      case Some(ps) => if ps.rest == [] then Some(Parsed((signo, ps.value), [])) else None
  {
    var w := [LETTER_T] + Hex2(signo) + x;
    assert w[0] == LETTER_T && w[1..] == Hex2(signo) + x;
    Parse2HexHex2(signo, x);
  }

  /** A `T` packet is read back exactly when nothing follows its last
      pair; a `;` after it, or an unknown pair anywhere, fails the whole
      packet. */
  lemma {:induction false} StopSignalFullRoundTrip(rd: Variant, signo: byte, vs: seq<StopReplyValue>, rest: seq<byte>)
    requires |vs| > 0 && AllEncodable(rd, vs) && EndsPairs(rd, rest)
    ensures ParseStopSignalFull(rd, [LETTER_T] + Hex2(signo) + PairsWire(vs) + rest) ==
      if rest == [] then Some(Parsed((signo, vs), [])) else None
  {
    var x := PairsWire(vs) + rest;
    assert [LETTER_T] + Hex2(signo) + PairsWire(vs) + rest == [LETTER_T] + Hex2(signo) + x;
    TPairsRoundTrip(rd, vs, rest);
    StopSignalFrom(rd, signo, x, vs, rest);
  }

  /** A pair list read up to `rest` makes the packet exactly when `rest`
      is empty. */
  lemma StopSignalFrom(rd: Variant, signo: byte, x: seq<byte>, vs: seq<StopReplyValue>, rest: seq<byte>)
    requires TPairs(rd, x) == Some(Parsed(vs, rest))
    ensures ParseStopSignalFull(rd, [LETTER_T] + Hex2(signo) + x) ==
      if rest == [] then Some(Parsed((signo, vs), [])) else None
  {
    StopSignalStep(rd, signo, x);
  }

  /** The terminating `;` GDB stubs put after the last pair makes the
      packet unreadable: `T05swbreak:;` fails where `T05swbreak:` is
      read. */
  lemma TrailingSemicolonRejected(rd: Variant, signo: byte, vs: seq<StopReplyValue>)
    requires |vs| > 0 && AllEncodable(rd, vs)
    ensures ParseStopSignalFull(rd, [LETTER_T] + Hex2(signo) + PairsWire(vs) + [SEMI]).None?
    ensures ParseStopSignalFull(rd, [LETTER_T] + Hex2(signo) + PairsWire(vs)) == Some(Parsed((signo, vs), []))
  {
    assert [SEMI][1..] == [];
    StopSignalFullRoundTrip(rd, signo, vs, [SEMI]);
    StopSignalFullRoundTrip(rd, signo, vs, []);
    assert [LETTER_T] + Hex2(signo) + PairsWire(vs) + [] == [LETTER_T] + Hex2(signo) + PairsWire(vs);
  }

  /** A first pair that no helper reads fails the packet. */
  lemma UnknownFirstPairRejected(rd: Variant, signo: byte, x: seq<byte>)
    requires ParseAnyTPair(rd, x).None?
    ensures ParseStopSignalFull(rd, [LETTER_T] + Hex2(signo) + x).None?
  {
    StopSignalStep(rd, signo, x);
  }

  /** A later pair that no helper reads fails the packet too. */
  lemma UnknownLaterPairRejected(rd: Variant, signo: byte, vs: seq<StopReplyValue>, x: seq<byte>)
    requires |vs| > 0 && AllEncodable(rd, vs) && ParseAnyTPair(rd, x).None?
    ensures ParseStopSignalFull(rd, [LETTER_T] + Hex2(signo) + PairsWire(vs) + ([SEMI] + x)).None?
  {
    assert ([SEMI] + x)[1..] == x;
    StopSignalFullRoundTrip(rd, signo, vs, [SEMI] + x);
  }

  /** No helper reads a pair whose first byte starts no key and is not a
      hex digit. */
  lemma {:induction false} KeyedFromNone(rd: Variant, x: seq<byte>, j: nat)
    requires j <= KEY_COUNT && |x| > 0
    requires forall m :: 0 <= m < KEY_COUNT ==> Key(m)[0] != x[0]
    ensures KeyedFrom(rd, x, j).None?
    decreases KEY_COUNT - j
  {
    if j < KEY_COUNT {
      assert Key(j)[0] != x[0];
      KeyedFromNone(rd, x, j + 1);
    }
  }

  lemma UnknownKeyNotPair(rd: Variant, x: seq<byte>)
    requires |x| > 0 && !IsHexDigit(x[0])
    requires forall m :: 0 <= m < KEY_COUNT ==> Key(m)[0] != x[0]
    ensures ParseAnyTPair(rd, x).None?
  {
    KeyedFromNone(rd, x, 0);
  }

  /** A `T` packet with a key the grammar does not list, such as
      `T05kill:1`, fails; no `Unknown` pair is produced. */
  lemma UnknownKeyExample(rd: Variant, x: seq<byte>)
    requires |x| > 0 && x[0] == 0x6b  // 'k'
    ensures ParseStopSignalFull(rd, [LETTER_T] + Hex2(5) + x).None?
  {
    assert !IsHexDigit(0x6b);
    UnknownKeyNotPair(rd, x);
    UnknownFirstPairRejected(rd, 5, x);
  }

  lemma StopSignalRoundTrip(signo: byte)
    ensures ParseStopSignal([LETTER_S] + Hex2(signo)) == Some(Parsed(signo, []))
  {
    LetterCodeRoundTrip(LETTER_S, signo);
  }

  /** The optional `;process:<pid>` as a stub writes it. */
  function ProcessWire(pid: Option<nat>): seq<byte> {
    if pid.Some? then PROCESS + NumberWire(pid.value) else []
  }

  lemma ProcessSuffixRoundTrip(pid: Option<nat>)
    ensures ProcessSuffix(ProcessWire(pid)) == Parsed(pid, [])
    ensures Parse2Hex(ProcessWire(pid)).None?
  {
    if pid.Some? {
      var w := NumberWire(pid.value);
      TagThen(PROCESS, w, []);
      ParseHexNumberRoundTrip(pid.value, []);
      AppendNil(w);
      AppendNil(PROCESS + w);
      assert ProcessWire(pid)[0] == SEMI;
    }
  }

  /** `W` with and without a pid is read back. */
  lemma StopExitRoundTrip(code: byte, pid: Option<nat>)
    ensures ParseStopExit([LETTER_W] + Hex2(code) + ProcessWire(pid)) == Some(Parsed((code, pid), []))
  {
    var p := ProcessWire(pid);
    var w := [LETTER_W] + Hex2(code) + p;
    assert w[0] == LETTER_W && w[1..] == Hex2(code) + p;
    Parse2HexHex2(code, p);
    ProcessSuffixRoundTrip(pid);
  }

  /** `;process:` with no pid after it is not taken, and the unread
      suffix then fails the end-of-input test. */
  lemma StopExitIncompletePid(code: byte)
    ensures ParseStopExit([LETTER_W] + Hex2(code) + PROCESS).None?
  {
    var w := [LETTER_W] + Hex2(code) + PROCESS;
    assert w[0] == LETTER_W && w[1..] == Hex2(code) + PROCESS;
    Parse2HexHex2(code, PROCESS);
    TagOf(PROCESS, []);
    AppendNil(PROCESS);
  }

  /** `X` takes a hex number of any even length, then as `W`. */
  lemma StopExitSignalRoundTrip(sig: nat, pid: Option<nat>)
    ensures ParseStopExitSignal([LETTER_X] + NumberWire(sig) + ProcessWire(pid)) == Some(Parsed((sig, pid), []))
  {
    var p := ProcessWire(pid);
    var e := NumberWire(sig);
    LeadSeam(LETTER_X, e, p);
    ProcessSuffixRoundTrip(pid);
    ParseHexNumberRoundTrip(sig, p);
    ExitSignalStep([LETTER_X] + e + p, sig, pid, p);
  }

  lemma ExitSignalStep(input: seq<byte>, sig: nat, pid: Option<nat>, p: seq<byte>)
    requires |input| > 0 && input[0] == LETTER_X
    requires ParseHexNumber(input[1..]) == Some(Parsed(sig, p)) && ProcessSuffix(p) == Parsed(pid, [])
    ensures ParseStopExitSignal(input) == Some(Parsed((sig, pid), []))
  {
  }

  /** `w<status>;<pid>` is read back. */
  lemma {:induction false} StopThreadExitRoundTrip(status: nat, pid: nat)
    ensures ParseStopThreadExit([LOWER_W] + NumberWire(status) + [SEMI] + NumberWire(pid)) == Some(Parsed((status, pid), []))
  {
    var t := [SEMI] + NumberWire(pid);
    var w := [LOWER_W] + NumberWire(status) + [SEMI] + NumberWire(pid);
    assert w[0] == LOWER_W && w[1..] == NumberWire(status) + t;
    assert !IsHexDigit(SEMI);
    ParseHexNumberRoundTrip(status, t);
    assert t[1..] == NumberWire(pid) + [];
    ParseHexNumberRoundTrip(pid, []);
  }

  /** `O` and the output's bytes in hex are read back, whatever non-hex
      text follows. */
  lemma InferiorOutputRoundTrip(data: seq<byte>, rest: seq<byte>)
    requires |data| > 0 && Parse2Hex(rest).None?
    ensures ParseInferiorOutput([LETTER_O] + HexEncode(data) + rest) == Some(Parsed(data, rest))
  {
    var e := HexEncode(data);
    LeadSeam(LETTER_O, e, rest);
    ParseHexDataRoundTrip(data, rest);
    OutputStep([LETTER_O] + e + rest, data, rest);
  }

  lemma OutputStep(input: seq<byte>, data: seq<byte>, rest: seq<byte>)
    requires |input| > 0 && input[0] == LETTER_O && ParseHexData(input[1..]) == Some(Parsed(data, rest))
    ensures ParseInferiorOutput(input) == Some(Parsed(data, rest))
  {
  }

  lemma LeadSeam(b: byte, e: seq<byte>, rest: seq<byte>)
    ensures ([b] + e + rest)[0] == b && ([b] + e + rest)[1..] == e + rest
  {
  }
}

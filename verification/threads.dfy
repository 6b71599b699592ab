/** Thread-id replies (src/parse.rs): the elements `0`, `-1` and a hex
    number, the `p<pid>.<tid>` form, `qC` and thread lists. The parser as
    written reads numbers as hex pairs and insists on `.<tid>` after a
    pid; the corrected parser reads what `write_thread_id` writes. The
    `qC` and list parsers take a `Variant` saying which of the two they
    are built on. */
module ThreadParse {
  import opened Types
  import opened Bytes
  import opened Util
  import opened Fmt
  import opened Ids
  import opened Parse

  const LETTER_P: byte := 0x70                 // 'p'
  const LETTER_L: byte := 0x6c                 // 'l'
  const ZERO: byte := 0x30                     // '0'
  const ALL: seq<byte> := [MINUS, 0x31]        // "-1"
  const QC: seq<byte> := [0x51, 0x43]          // "QC"

  /** `parse_thread_id_element` as written: `0` is Any, `-1` is All,
      otherwise `parse_hex_number` truncated `as u32`. */
  function ParseThreadIdElement(input: seq<byte>): (r: Option<Parsed<Id>>)
    ensures r.Some? ==> |r.value.rest| < |input|
    ensures |input| > 0 && input[0] == ZERO ==> r == Some(Parsed(Any, input[1..]))
    ensures StartsWith(input, ALL) ==> r == Some(Parsed(All, input[2..]))
    ensures r.Some? && r.value.value.Id? ==>
      ParseHexNumber(input).Some? &&
      r.value.value.value == ParseHexNumber(input).value.value % U32_LIMIT &&
      r.value.rest == ParseHexNumber(input).value.rest
  {
    match TagByte(input, ZERO)
    case Some(s) => Some(Parsed(Any, s))
    case None =>
      match Tag(input, ALL)
      case Some(s) => Some(Parsed(All, s))
      case None =>
        match ParseHexNumber(input)
        case None => None
        case Some(n) => Some(Parsed(Id(n.value % U32_LIMIT), n.rest))
  }

  /** `parse_thread_id` as written: a bare element is a pid with thread
      Any; otherwise `p`, an element, `.` and an element. */
  function ParseThreadId(input: seq<byte>): (r: Option<Parsed<ProcessId>>)
    ensures ParseThreadIdElement(input).Some? ==>
      r == Some(Parsed(ProcessId(ParseThreadIdElement(input).value.value, Any), ParseThreadIdElement(input).value.rest))
    ensures ParseThreadIdElement(input).None? ==>
      r == (if |input| > 0 && input[0] == LETTER_P then Qualified(input[1..]) else None)
    ensures r.Some? ==> |r.value.rest| < |input|
  {
    match ParseThreadIdElement(input)
    case Some(e) => Some(Parsed(ProcessId(e.value, Any), e.rest))
    case None =>
      match TagByte(input, LETTER_P)
      case None => None
      case Some(s) => Qualified(s)
  }

  /** The part after `p` as written: pid, `.`, tid, none optional. */
  function Qualified(s: seq<byte>): (r: Option<Parsed<ProcessId>>)
    ensures r.Some? ==>
      ParseThreadIdElement(s).Some? &&
      r.value.value.pid == ParseThreadIdElement(s).value.value &&
      TagByte(ParseThreadIdElement(s).value.rest, DOT).Some?
    ensures r.Some? ==> |r.value.rest| < |s|
  {
    match ParseThreadIdElement(s)
    case None => None
    case Some(pid) =>
      match TagByte(pid.rest, DOT)
      case None => None
      case Some(s2) =>
        match ParseThreadIdElement(s2)
        case None => None
        case Some(tid) => Some(Parsed(ProcessId(pid.value, tid.value), tid.rest))
  }

  /** `write_thread_id` writes `p-1` for all processes and `p1.1` for
      process 1, thread 1; the parser as written reads neither: the first
      lacks the `.`, and a single hex digit is not a hex pair. */
  lemma ThreadIdNotReadBack()
    ensures ThreadIdWire(ProcessId(All, All)) == [LETTER_P, MINUS, 0x31]
    ensures ParseThreadId([LETTER_P, MINUS, 0x31]).None?
    ensures ThreadIdWire(ProcessId(Id(1), Id(1))) == [LETTER_P, 0x31, DOT, 0x31]
    ensures ParseThreadId([LETTER_P, 0x31, DOT, 0x31]).None?
  {
    AllWithoutDot();
    OneDotOne();
    assert HexNumber(1) == [0x31];
  }

  lemma AllWithoutDot()
    ensures ParseThreadId([LETTER_P, MINUS, 0x31]).None?
  {
    var a: seq<byte> := [LETTER_P, MINUS, 0x31];
    assert !StartsWith(a, ALL) by { assert a[0] != ALL[0]; }
    assert a[1..] == ALL;
    assert StartsWith(a[1..], ALL);
    assert ParseThreadIdElement(a[1..]) == Some(Parsed(All, []));
  }

  lemma OneDotOne()
    ensures ParseThreadId([LETTER_P, 0x31, DOT, 0x31]).None?
  {
    var b: seq<byte> := [LETTER_P, 0x31, DOT, 0x31];
    assert !StartsWith(b, ALL) by { assert b[0] != ALL[0]; }
    var s := b[1..];
    assert s == [0x31, DOT, 0x31];
    assert !StartsWith(s, ALL) by { assert s[0] != ALL[0]; }
    assert !IsHexDigit(DOT);
    assert Parse2Hex(s).None?;
  }

  /** The longest run of hex digits at the front of the input. */
  function HexDigits(input: seq<byte>): (r: Parsed<seq<byte>>)
    ensures AllHex(r.value) && input == r.value + r.rest
    ensures r.rest == [] || !IsHexDigit(r.rest[0])
    decreases |input|
  {
    if |input| > 0 && IsHexDigit(input[0]) then
      var t := HexDigits(input[1..]);
      Parsed([input[0]] + t.value, t.rest)
    else Parsed([], input)
  }

  /** Where a number ends: at the end of input or a byte that is not a
      hex digit. */
  predicate EndsNumber(rest: seq<byte>) {
    rest == [] || !IsHexDigit(rest[0])
  }

  /** The run is exactly the digits before the first non-digit. */
  lemma {:induction false} HexDigitsSplit(d: seq<byte>, rest: seq<byte>)
    requires AllHex(d) && EndsNumber(rest)
    ensures HexDigits(d + rest) == Parsed(d, rest)
    decreases |d|
  {
    if |d| == 0 {
      assert d + rest == rest;
    } else {
      assert (d + rest)[1..] == d[1..] + rest;
      HexDigitsSplit(d[1..], rest);
      assert [d[0]] + d[1..] == d;
    }
  }

  /** A hex number of any length, read with `decode_hex`. */
  function ParseHexDigits(input: seq<byte>): (r: Option<Parsed<nat>>)
    ensures r.Some? <==> |input| > 0 && IsHexDigit(input[0])
    ensures r.Some? ==> r.value == Parsed(HexValue(HexDigits(input).value), HexDigits(input).rest)
  {
    var h := HexDigits(input);
    if |h.value| == 0 then None else Some(Parsed(DecodeHex(h.value).value, h.rest))
  }

  /** The corrected element: as written, but the number may have any
      number of digits. */
  function ParseThreadIdElementFixed(input: seq<byte>): (r: Option<Parsed<Id>>)
    ensures |input| > 0 && input[0] == ZERO ==> r == Some(Parsed(Any, input[1..]))
    ensures StartsWith(input, ALL) ==> r == Some(Parsed(All, input[2..]))
    ensures r.Some? <==> |input| > 0 && (IsHexDigit(input[0]) || StartsWith(input, ALL))
  {
    match TagByte(input, ZERO)
    case Some(s) => Some(Parsed(Any, s))
    case None =>
      match Tag(input, ALL)
      case Some(s) => Some(Parsed(All, s))
      case None =>
        match ParseHexDigits(input)
        case None => None
        case Some(n) => Some(Parsed(Id(n.value % U32_LIMIT), n.rest))
  }

  /** Every element `write_thread_id` writes is read back. */
  lemma ElementRoundTrip(i: Id, rest: seq<byte>)
    requires ValidId(i) && EndsNumber(rest)
    ensures ParseThreadIdElementFixed(IdWire(i, BigEndian) + rest) == Some(Parsed(i, rest))
  {
    var w := IdWire(i, BigEndian);
    match i
    case Any =>
      assert (w + rest)[1..] == rest;
    case All =>
      assert (w + rest)[..2] == ALL && (w + rest)[2..] == rest;
    case Id(v) =>
      assert w == HexNumber(v);
      NumberRoundTrip(v, rest);
  }

  /** A concrete id, written in hex, is read back. */
  lemma NumberRoundTrip(v: nat, rest: seq<byte>)
    requires 0 < v < U32_LIMIT && EndsNumber(rest)
    ensures ParseThreadIdElementFixed(HexNumber(v) + rest) == Some(Parsed(Id(v), rest))
  {
    var h := HexNumber(v);
    DigitsRoundTrip(h, v, rest);
  }

  /** Hex digits not starting with `0` are read back as their value. */
  lemma DigitsRoundTrip(w: seq<byte>, v: nat, rest: seq<byte>)
    requires |w| >= 1 && AllHex(w) && w[0] != ZERO && HexValue(w) == v
    requires 0 < v < U32_LIMIT && EndsNumber(rest)
    ensures ParseThreadIdElementFixed(w + rest) == Some(Parsed(Id(v), rest))
  {
    HexDigitsSplit(w, rest);
    ElementFromDigits(w + rest, v, rest);
  }

  lemma ElementFromDigits(input: seq<byte>, v: nat, rest: seq<byte>)
    requires |input| > 0 && IsHexDigit(input[0]) && input[0] != ZERO && v < U32_LIMIT
    requires HexDigits(input).rest == rest && HexValue(HexDigits(input).value) == v
    ensures ParseThreadIdElementFixed(input) == Some(Parsed(Id(v), rest))
  {
    assert input[0] != MINUS;
    NotTagged(input);
    ElementFromHex(input, Parsed(v, rest));
  }

  lemma NotTagged(input: seq<byte>)
    requires |input| > 0 && input[0] != ZERO && input[0] != MINUS
    ensures TagByte(input, ZERO).None? && Tag(input, ALL).None?
  {
  }

  lemma ElementFromHex(input: seq<byte>, n: Parsed<nat>)
    requires TagByte(input, ZERO).None? && Tag(input, ALL).None?
    requires ParseHexDigits(input) == Some(n) && n.value < U32_LIMIT
    ensures ParseThreadIdElementFixed(input) == Some(Parsed(Id(n.value), n.rest))
  {
  }

  /** Where a thread id ends: no further digit and no `.`. */
  predicate EndsThreadId(rest: seq<byte>) {
    rest == [] || (!IsHexDigit(rest[0]) && rest[0] != DOT)
  }

  /** The corrected `parse_thread_id`: a bare element is a pid with
      thread Any; `p<pid>` may omit `.<tid>`, which then means all threads
      of the process, as the thread-id syntax in section E.2 ("Packets") of
      the GDB manual's Remote Serial Protocol appendix says. */
  function ParseThreadIdFixed(input: seq<byte>): (r: Option<Parsed<ProcessId>>)
    ensures ParseThreadIdElementFixed(input).Some? ==>
      r == Some(Parsed(ProcessId(ParseThreadIdElementFixed(input).value.value, Any), ParseThreadIdElementFixed(input).value.rest))
    ensures ParseThreadIdElementFixed(input).None? ==>
      r == (if |input| > 0 && input[0] == LETTER_P then QualifiedFixed(input[1..]) else None)
    ensures r.Some? ==> |r.value.rest| < |input|
  {
    match ParseThreadIdElementFixed(input)
    case Some(e) => Some(Parsed(ProcessId(e.value, Any), e.rest))
    case None =>
      match TagByte(input, LETTER_P)
      case None => None
      case Some(s) => QualifiedFixed(s)
  }

  /** The part after `p`, corrected: a pid and an optional `.<tid>`; with
      no tid, all threads of the process. */
  function QualifiedFixed(s: seq<byte>): (r: Option<Parsed<ProcessId>>)
    ensures r.Some? <==> ParseThreadIdElementFixed(s).Some?
    ensures r.Some? ==> r.value.value.pid == ParseThreadIdElementFixed(s).value.value
    ensures r.Some? && DotTid(ParseThreadIdElementFixed(s).value.rest).None? ==>
      r.value == Parsed(ProcessId(r.value.value.pid, All), ParseThreadIdElementFixed(s).value.rest)
    ensures r.Some? ==> |r.value.rest| < |s|
  {
    match ParseThreadIdElementFixed(s)
    case None => None
    case Some(pid) =>
      match DotTid(pid.rest)
      case Some(tid) => Some(Parsed(ProcessId(pid.value, tid.value), tid.rest))
      case None => Some(Parsed(ProcessId(pid.value, All), pid.rest))
  }

  /** `.` and a thread element, if both are there. */
  function DotTid(s: seq<byte>): (r: Option<Parsed<Id>>)
    ensures r.Some? ==> |s| > 0 && s[0] == DOT && r == ParseThreadIdElementFixed(s[1..])
    ensures |s| > 0 && s[0] == DOT ==> r == ParseThreadIdElementFixed(s[1..])
  {
    match TagByte(s, DOT)
    case None => None
    case Some(s2) => ParseThreadIdElementFixed(s2)
  }

  /** What `write_thread_id` writes the corrected parser reads back,
      except the thread of an All or Any pid, which the writer drops. */
  lemma ThreadIdRoundTrip(p: ProcessId, rest: seq<byte>)
    requires ValidProcessId(p) && (p.pid.Id? || p.tid == All)
    requires EndsThreadId(rest)
    ensures ParseThreadIdFixed(ThreadIdWire(p) + rest) == Some(Parsed(p, rest))
  {
    var pw := IdWire(p.pid, BigEndian);
    if p.pid.Id? {
      var tw := IdWire(p.tid, BigEndian);
      var t := [DOT] + tw + rest;
      ElementRoundTrip(p.tid, rest);
      ElementRoundTrip(p.pid, t);
      DotSeams(pw, tw, rest);
      QualifiedOf(pw + t, t, rest, p.pid, p.tid);
      AfterP(pw + [DOT] + tw + rest);
      WireQualified(p, rest);
    } else {
      ElementRoundTrip(p.pid, rest);
      AfterP(pw + rest);
      assert QualifiedFixed(pw + rest) == Some(Parsed(p, rest));
      WireBare(p, rest);
    }
  }

  lemma WireQualified(p: ProcessId, rest: seq<byte>)
    requires p.pid.Id?
    ensures ThreadIdWire(p) + rest == [LETTER_P] + (IdWire(p.pid, BigEndian) + [DOT] + IdWire(p.tid, BigEndian) + rest)
  {
  }

  lemma WireBare(p: ProcessId, rest: seq<byte>)
    requires !p.pid.Id?
    ensures ThreadIdWire(p) + rest == [LETTER_P] + (IdWire(p.pid, BigEndian) + rest)
  {
  }

  /** A leading `p` selects the qualified form. */
  lemma AfterP(s: seq<byte>)
    ensures ParseThreadIdFixed([LETTER_P] + s) == QualifiedFixed(s)
  {
    var w := [LETTER_P] + s;
    assert w[0] == LETTER_P && w[1..] == s;
    assert !StartsWith(w, ALL) by { assert w[0] != ALL[0]; }
  }

  /** pid, `.` and tid read as a qualified id. */
  lemma QualifiedOf(s: seq<byte>, t: seq<byte>, rest: seq<byte>, pid: Id, tid: Id)
    requires ParseThreadIdElementFixed(s) == Some(Parsed(pid, t))
    requires |t| > 0 && t[0] == DOT && ParseThreadIdElementFixed(t[1..]) == Some(Parsed(tid, rest))
    ensures QualifiedFixed(s) == Some(Parsed(ProcessId(pid, tid), rest))
  {
  }

  /** The seams of `pid.tid` on the wire. */
  lemma DotSeams(a: seq<byte>, b: seq<byte>, rest: seq<byte>)
    ensures a + [DOT] + b + rest == a + ([DOT] + b + rest)
    ensures ([DOT] + b + rest)[0] == DOT && ([DOT] + b + rest)[1..] == b + rest
  {
  }

  /** `parse_thread_id` in reading `v`. */
  function ReadThreadId(v: Variant, input: seq<byte>): (r: Option<Parsed<ProcessId>>)
    ensures r.Some? ==> |r.value.rest| < |input|
  {
    match v
    case AsWritten => ParseThreadId(input)
    case Corrected => ParseThreadIdFixed(input)
  }

  /** Ids the writer can express unambiguously. */
  predicate Writable(p: ProcessId) {
    ValidProcessId(p) && (p.pid.Id? || p.tid == All)
  }

  /** A concrete element whose hex spelling has an even number of digits:
      the only numbers the pair-reading parser as written takes whole. */
  predicate EvenDigits(i: Id) {
    i.Id? ==> |HexNumber(i.value)| % 2 == 0
  }

  /** The ids whose spelling the parser in reading `v` reads back: as
      written, only a concrete pid (the bare `p-1` and `p0` lack the `.`)
      with even-length numbers; corrected, every writable id. */
  predicate Readable(v: Variant, p: ProcessId) {
    match v
    case AsWritten => ValidProcessId(p) && p.pid.Id? && EvenDigits(p.pid) && EvenDigits(p.tid)
    case Corrected => Writable(p)
  }

  lemma ReadableWritable(v: Variant, p: ProcessId)
    requires Readable(v, p)
    ensures Writable(p)
  {
  }

  /** What `write_thread_id` writes is read back, in either reading, for
      the ids that reading can read. */
  lemma ThreadIdReadBack(v: Variant, p: ProcessId, rest: seq<byte>)
    requires Readable(v, p) && EndsThreadId(rest)
    ensures ReadThreadId(v, ThreadIdWire(p) + rest) == Some(Parsed(p, rest))
  {
    if v == AsWritten {
      AsWrittenReadBack(p, rest);
    } else {
      ThreadIdRoundTrip(p, rest);
    }
  }

  /** The bytes `write_thread_id` sends on a `host` read back as the id
      `OnWire(p, host)`: `p` itself on a big-endian host, the byte-swapped
      numbers on a little-endian one. */
  lemma HostThreadIdReadBack(v: Variant, p: ProcessId, host: Endian, rest: seq<byte>)
    requires Readable(v, OnWire(p, host)) && EndsThreadId(rest)
    ensures ReadThreadId(v, ThreadIdBytes(p, host) + rest) == Some(Parsed(OnWire(p, host), rest))
    ensures host == BigEndian ==> ReadThreadId(v, ThreadIdBytes(p, host) + rest) == Some(Parsed(p, rest))
  {
    ThreadIdBytesSpellsOnWire(p, host);
    ThreadIdReadBack(v, OnWire(p, host), rest);
  }

  /** On every host, distinct writable ids are sent as distinct bytes. */
  lemma ThreadIdBytesInjective(p: ProcessId, q: ProcessId, host: Endian)
    requires Writable(p) && Writable(q)
    ensures ThreadIdBytes(p, host) == ThreadIdBytes(q, host) ==> p == q
  {
    HostThreadIdReadBack(Corrected, p, host, []);
    HostThreadIdReadBack(Corrected, q, host, []);
    assert ThreadIdBytes(p, host) + [] == ThreadIdBytes(p, host);
    assert ThreadIdBytes(q, host) + [] == ThreadIdBytes(q, host);
    OnWireInjective(p, q, host);
  }

  /** The parser as written reads back exactly the ids with a concrete pid
      and even-length numbers: a bare `p-1` or `p0` has no `.`, and an
      odd-length number leaves its last digit unread. */
  lemma {:induction false} AsWrittenReadBack(p: ProcessId, rest: seq<byte>)
    requires ValidProcessId(p) && EndsThreadId(rest)
    ensures ParseThreadId(ThreadIdWire(p) + rest) == Some(Parsed(p, rest)) <==> Readable(AsWritten, p)
  {
    var pw := IdWire(p.pid, BigEndian);
    if p.pid.Id? {
      var tw := IdWire(p.tid, BigEndian);
      var t := [DOT] + tw + rest;
      AfterPAsWritten(pw + [DOT] + tw + rest);
      WireQualified(p, rest);
      DotSeams(pw, tw, rest);
      if EvenDigits(p.pid) {
        ElementAsWritten(p.pid, t);
        if EvenDigits(p.tid) {
          ElementAsWritten(p.tid, rest);
        } else {
          ElementOddDigits(p.tid.value, rest);
        }
      } else {
        ElementOddDigits(p.pid.value, t);
      }
    } else {
      ElementAsWritten(p.pid, rest);
      AfterPAsWritten(pw + rest);
      WireBare(p, rest);
    }
  }

  /** A leading `p` selects the qualified form in the parser as written
      too. */
  lemma AfterPAsWritten(s: seq<byte>)
    ensures ParseThreadId([LETTER_P] + s) == Qualified(s)
  {
    var w := [LETTER_P] + s;
    assert w[0] == LETTER_P && w[1..] == s;
    assert !StartsWith(w, ALL) by { assert w[0] != ALL[0]; }
    assert Parse2Hex(w).None?;
  }

  /** An element spelled with an even number of digits is read whole by
      the parser as written. */
  lemma ElementAsWritten(i: Id, rest: seq<byte>)
    requires ValidId(i) && EvenDigits(i) && EndsNumber(rest)
    ensures ParseThreadIdElement(IdWire(i, BigEndian) + rest) == Some(Parsed(i, rest))
  {
    var w := IdWire(i, BigEndian);
    match i
    case Any =>
      assert (w + rest)[1..] == rest;
    case All =>
      assert (w + rest)[..2] == ALL && (w + rest)[2..] == rest;
    case Id(v) =>
      NumberAsWritten(v, rest);
  }

  /** The `Id` case of `ElementAsWritten`. */
  lemma NumberAsWritten(v: u32, rest: seq<byte>)
    requires 0 < v && |HexNumber(v as nat)| % 2 == 0 && EndsNumber(rest)
    ensures ParseThreadIdElement(HexNumber(v as nat) + rest) == Some(Parsed(Id(v), rest))
  {
    var w := HexNumber(v as nat);
    var input := w + rest;
    assert input[0] == w[0];
    NotTagged(input);
    EvenNumberRead(w, rest);
    assert HexValue(w) == v as nat;
    ElementFromNumber(input, Parsed(v as nat, rest));
  }

  lemma ElementFromNumber(input: seq<byte>, n: Parsed<nat>)
    requires TagByte(input, ZERO).None? && Tag(input, ALL).None?
    requires ParseHexNumber(input) == Some(n) && n.value < U32_LIMIT
    ensures ParseThreadIdElement(input) == Some(Parsed(Id(n.value), n.rest))
  {
  }

  /** An odd-length number is read short by one digit, if at all. */
  lemma ElementOddDigits(v: nat, rest: seq<byte>)
    requires 0 < v && |HexNumber(v)| % 2 == 1 && EndsNumber(rest)
    ensures var w := HexNumber(v); var r := ParseThreadIdElement(w + rest);
      r.None? || r.value.rest == [w[|w| - 1]] + rest
  {
    var w := HexNumber(v);
    NotTagged(w + rest);
    HexPairsOdd(w, rest);
  }

  /** Hex pairs followed by no further pair are read as their value. */
  lemma EvenNumberRead(w: seq<byte>, rest: seq<byte>)
    requires |w| >= 2 && |w| % 2 == 0 && AllHex(w) && EndsNumber(rest)
    ensures ParseHexNumber(w + rest) == Some(Parsed(HexValue(w), rest))
  {
    var input := w + rest;
    HexPairsEven(w, rest);
    assert IsHexDigit(input[0]) && IsHexDigit(input[1]);
    ParseHexNumberValue(input);
    assert input[..|input| - |rest|] == w;
  }

  lemma {:induction false} HexPairsEven(w: seq<byte>, rest: seq<byte>)
    requires AllHex(w) && |w| % 2 == 0 && EndsNumber(rest)
    ensures HexPairs(w + rest).rest == rest
    decreases |w|
  {
    if |w| == 0 {
      assert w + rest == rest;
    } else {
      assert (w + rest)[2..] == w[2..] + rest;
      assert IsHexDigit((w + rest)[0]) && IsHexDigit((w + rest)[1]);
      HexPairsEven(w[2..], rest);
    }
  }

  lemma {:induction false} HexPairsOdd(w: seq<byte>, rest: seq<byte>)
    requires AllHex(w) && |w| % 2 == 1 && EndsNumber(rest)
    ensures HexPairs(w + rest).rest == [w[|w| - 1]] + rest
    decreases |w|
  {
    if |w| == 1 {
      assert w + rest == [w[0]] + rest;
    } else {
      assert (w + rest)[2..] == w[2..] + rest;
      assert IsHexDigit((w + rest)[0]) && IsHexDigit((w + rest)[1]);
      HexPairsOdd(w[2..], rest);
    }
  }

  /** `parse_qc_reply`: `QC` and a thread id. */
  function ParseQcReply(v: Variant, input: seq<byte>): (r: Option<Parsed<ProcessId>>)
    ensures r.Some? ==> StartsWith(input, QC) && ReadThreadId(v, input[2..]) == r
  {
    match Tag(input, QC)
    case None => None
    case Some(s) => ReadThreadId(v, s)
  }

  /** A `qC` reply for any id the reading `v` can read is read back. */
  lemma QcRoundTrip(v: Variant, p: ProcessId)
    requires Readable(v, p)
    ensures ParseQcReply(v, QC + ThreadIdWire(p)) == Some(Parsed(p, []))
  {
    var w := ThreadIdWire(p);
    assert (QC + w)[..2] == QC && (QC + w)[2..] == w + [];
    ThreadIdReadBack(v, p, []);
  }

  /** As written, `qC` reads back exactly the ids with a numeric pid and
      even-length numbers. */
  lemma QcAsWritten(p: ProcessId)
    requires ValidProcessId(p)
    ensures ParseQcReply(AsWritten, QC + ThreadIdWire(p)) == Some(Parsed(p, [])) <==> Readable(AsWritten, p)
  {
    var w := ThreadIdWire(p);
    assert (QC + w)[..2] == QC && (QC + w)[2..] == w + [];
    AsWrittenReadBack(p, []);
  }

  /** The `many0!` of `parse_thread_id_list`: `,` and a thread id, as
      often as both are there. */
  function MoreThreadIds(v: Variant, input: seq<byte>): (r: Parsed<seq<ProcessId>>)
    ensures |r.rest| <= |input|
    ensures |r.value| == 0 <==> r.rest == input
    decreases |input|
  {
    match TagByte(input, COMMA)
    case None => Parsed([], input)
    case Some(s) =>
      match ReadThreadId(v, s)
      case None => Parsed([], input)
      case Some(p) =>
        var t := MoreThreadIds(v, p.rest);
        Parsed([p.value] + t.value, t.rest)
  }

  /** `parse_thread_id_list`: the ids in input order, the first at
      index 0. */
  function ParseThreadIdList(v: Variant, input: seq<byte>): (r: Option<Parsed<seq<ProcessId>>>)
    ensures r.Some? <==> ReadThreadId(v, input).Some?
    ensures r.Some? ==> |r.value.value| >= 1 && r.value.value[0] == ReadThreadId(v, input).value.value
  {
    match ReadThreadId(v, input)
    case None => None
    case Some(first) =>
      var more := MoreThreadIds(v, first.rest);
      Some(Parsed([first.value] + more.value, more.rest))
  }

  /** As written, a one-id list reads back exactly the ids with a numeric
      pid and even-length numbers. */
  lemma ThreadListAsWritten(p: ProcessId)
    requires ValidProcessId(p)
    ensures ParseThreadIdList(AsWritten, ThreadIdWire(p)) == Some(Parsed([p], [])) <==> Readable(AsWritten, p)
  {
    var w := ThreadIdWire(p);
    assert w + [] == w;
    AsWrittenReadBack(p, []);
    assert ReadThreadId(AsWritten, w) == ParseThreadId(w);
    SingleList(AsWritten, w, p);
  }

  /** A list of one id is exactly an id that uses up the input. */
  lemma SingleList(v: Variant, input: seq<byte>, q: ProcessId)
    ensures ParseThreadIdList(v, input) == Some(Parsed([q], [])) <==> ReadThreadId(v, input) == Some(Parsed(q, []))
  {
    match ReadThreadId(v, input)
    case None =>
    case Some(first) =>
      var more := MoreThreadIds(v, first.rest);
      assert ParseThreadIdList(v, input) == Some(Parsed([first.value] + more.value, more.rest));
      if first.rest == [] {
        assert more == Parsed([], []);
        assert [first.value] + more.value == [first.value];
        if [first.value] == [q] {
          assert [first.value][0] == q;
        }
      } else if |more.value| == 0 {
        assert more.rest == first.rest;
      } else {
        assert |[first.value] + more.value| > 1;
      }
  }

  /** A list of thread ids as a stub sends it: comma-separated. */
  function ThreadListWire(ps: seq<ProcessId>): seq<byte>
    decreases |ps|
  {
    if |ps| == 0 then [] else ThreadIdWire(ps[0]) + MoreWire(ps[1..])
  }

  /** `,` and the id, for each id. */
  function MoreWire(ps: seq<ProcessId>): seq<byte>
    decreases |ps|
  {
    if |ps| == 0 then [] else [COMMA] + ThreadIdWire(ps[0]) + MoreWire(ps[1..])
  }

  lemma {:induction false} MoreThreadIdsRoundTrip(v: Variant, ps: seq<ProcessId>)
    requires forall k :: 0 <= k < |ps| ==> Readable(v, ps[k])
    ensures MoreThreadIds(v, MoreWire(ps)) == Parsed(ps, [])
    decreases |ps|
  {
    if |ps| > 0 {
      var t := MoreWire(ps[1..]);
      assert forall k :: 0 <= k < |ps[1..]| ==> Readable(v, ps[1..][k]);
      MoreThreadIdsRoundTrip(v, ps[1..]);
      MoreWireStart(ps[1..]);
      ThreadIdReadBack(v, ps[0], t);
      MoreWireSeam(ps);
      MoreClose(v, MoreWire(ps), ps, t);
    }
  }

  lemma MoreClose(v: Variant, input: seq<byte>, ps: seq<ProcessId>, t: seq<byte>)
    requires |ps| > 0 && |input| > 0 && input[0] == COMMA
    requires ReadThreadId(v, input[1..]) == Some(Parsed(ps[0], t))
    requires MoreThreadIds(v, t) == Parsed(ps[1..], [])
    ensures MoreThreadIds(v, input) == Parsed(ps, [])
  {
    MoreStep(v, input, ps[0], t);
    ConsTail(ps);
  }

  lemma ConsTail(ps: seq<ProcessId>)
    requires |ps| > 0
    ensures [ps[0]] + ps[1..] == ps
  {
  }

  lemma MoreWireSeam(ps: seq<ProcessId>)
    requires |ps| > 0
    ensures MoreWire(ps)[0] == COMMA && MoreWire(ps)[1..] == ThreadIdWire(ps[0]) + MoreWire(ps[1..])
  {
    var a := ThreadIdWire(ps[0]);
    var b := MoreWire(ps[1..]);
    assert MoreWire(ps) == [COMMA] + a + b;
    Assoc([COMMA], a, b);
  }

  /** One `,` and id of the `many0!`. */
  lemma MoreStep(v: Variant, input: seq<byte>, p: ProcessId, t: seq<byte>)
    requires |input| > 0 && input[0] == COMMA
    requires ReadThreadId(v, input[1..]) == Some(Parsed(p, t))
    ensures MoreThreadIds(v, input) == Parsed([p] + MoreThreadIds(v, t).value, MoreThreadIds(v, t).rest)
  {
  }

  /** The tail of a list on the wire is empty or starts with `,`. */
  lemma MoreWireStart(ps: seq<ProcessId>)
    ensures EndsThreadId(MoreWire(ps))
  {
  }

  /** The thread list reads back in order. */
  lemma ThreadListRoundTrip(v: Variant, ps: seq<ProcessId>)
    requires |ps| > 0
    requires forall k :: 0 <= k < |ps| ==> Readable(v, ps[k])
    ensures ParseThreadIdList(v, ThreadListWire(ps)) == Some(Parsed(ps, []))
  {
    var t := MoreWire(ps[1..]);
    assert ThreadListWire(ps) == ThreadIdWire(ps[0]) + t;
    assert forall k :: 0 <= k < |ps[1..]| ==> Readable(v, ps[1..][k]);
    MoreWireStart(ps[1..]);
    ThreadIdReadBack(v, ps[0], t);
    MoreThreadIdsRoundTrip(v, ps[1..]);
    ListClose(v, ThreadListWire(ps), ps, t);
  }

  lemma ListClose(v: Variant, input: seq<byte>, ps: seq<ProcessId>, t: seq<byte>)
    requires |ps| > 0
    requires ReadThreadId(v, input) == Some(Parsed(ps[0], t))
    requires MoreThreadIds(v, t) == Parsed(ps[1..], [])
    ensures ParseThreadIdList(v, input) == Some(Parsed(ps, []))
  {
    ListStep(v, input, ps[0], t);
    ConsTail(ps);
  }

  /** The first id and the `many0!` after it. */
  lemma ListStep(v: Variant, input: seq<byte>, p: ProcessId, t: seq<byte>)
    requires ReadThreadId(v, input) == Some(Parsed(p, t))
    ensures ParseThreadIdList(v, input) == Some(Parsed([p] + MoreThreadIds(v, t).value, MoreThreadIds(v, t).rest))
  {
  }

  /** `parse_thread_info_reply`: `l` ends the list (with anything after it
      left unread); otherwise a thread-id list. */
  function ParseThreadInfoReply(v: Variant, input: seq<byte>): (r: Option<Parsed<Option<seq<ProcessId>>>>)
    ensures |input| > 0 && input[0] == LETTER_L ==> r == Some(Parsed(None, input[1..]))
    ensures (|input| == 0 || input[0] != LETTER_L) ==>
      (r.Some? <==> ParseThreadIdList(v, input).Some?)
      && (r.Some? ==> r.value == Parsed(Some(ParseThreadIdList(v, input).value.value), ParseThreadIdList(v, input).value.rest))
  {
    match TagByte(input, LETTER_L)
    case Some(s) => Some(Parsed(None, s))
    case None =>
      match ParseThreadIdList(v, input)
      case None => None
      case Some(l) => Some(Parsed(Some(l.value), l.rest))
  }

  lemma ThreadInfoRoundTrip(v: Variant, ps: seq<ProcessId>)
    requires |ps| > 0
    requires forall k :: 0 <= k < |ps| ==> Readable(v, ps[k])
    ensures ParseThreadInfoReply(v, ThreadListWire(ps)) == Some(Parsed(Some(ps), []))
  {
    ThreadListRoundTrip(v, ps);
    assert ThreadListWire(ps)[0] == LETTER_P;
  }
}

/** `read_packet` (src/low.rs): the receiving half of `RspConnection`.
    It skips to a packet start, collects the payload up to `#` (expanding
    run-length encoding on the client side), reads the two checksum digits
    and, when acking, verifies the checksum and answers `+` or `-`.
    Internally the reader walks positions of the input; the unread rest
    is handed back as a suffix. */
module Reader {
  import opened Types
  import opened Bytes
  import opened Util
  import opened Fmt
  import opened Connection

  datatype PacketType = Normal | Notification

  /** What a successful read returns: the packet type and its contents. */
  type Packet = (PacketType, seq<byte>)

  predicate IsStart(b: byte) {
    b == DOLLAR || b == PERCENT
  }

  /** The start-of-packet scan as written: it stops only on a byte that is
      both `$` and `%`, so it never stops; only running out of input
      (an I/O error) ends it. */
  function ScanAsWritten(input: seq<byte>, i: nat): Option<nat>
    requires i <= |input|
    decreases |input| - i
  {
    if i == |input| then None
    else if input[i] == DOLLAR && input[i] == PERCENT then Some(i)
    else ScanAsWritten(input, i + 1)
  }

  lemma {:induction false} ScanAsWrittenNeverStops(input: seq<byte>, i: nat)
    requires i <= |input|
    ensures ScanAsWritten(input, i) == None
    decreases |input| - i
  {
    if i < |input| {
      ScanAsWrittenNeverStops(input, i + 1);
    }
  }

  /** The corrected scan: the position of the first `$` or `%` at or
      after `i`. */
  function Scan(input: seq<byte>, i: nat): (r: Option<nat>)
    requires i <= |input|
    ensures r.None? <==> forall l :: i <= l < |input| ==> !IsStart(input[l])
    ensures r.Some? ==> i <= r.value < |input| && IsStart(input[r.value])
    ensures r.Some? ==> forall l :: i <= l < r.value ==> !IsStart(input[l])
    decreases |input| - i
  {
    if i == |input| then None
    else if IsStart(input[i]) then Some(i)
    else Scan(input, i + 1)
  }

  /** The payload collected so far, its running checksum and the position
      just after the terminating `#`. */
  datatype Body = Body(contents: seq<byte>, checksum: byte, end: nat)

  /** The payload loop of `read_packet`, from position `i`. Every wire byte
      up to `#` is added into the checksum. On the client, `*` and the
      following count byte `k` instead append `k - 29` copies of the
      previous byte (u8 arithmetic, so a count byte below 29 wraps around)
      and reset the previous byte to `$`. `None` means the input ran out. */
  function CollectBody(isClient: bool, input: seq<byte>, i: nat, contents: seq<byte>, checksum: byte, prev: byte): (r: Option<Body>)
    requires i <= |input|
    ensures r.Some? ==> i < r.value.end <= |input| && input[r.value.end - 1] == HASH
    decreases |input| - i
  {
    if i == |input| then None
    else
      var ch := input[i];
      if ch == HASH then Some(Body(contents, checksum, i + 1))
      else if ch == STAR && isClient then
        if i + 1 == |input| then None
        else
          var k := input[i + 1];
          var repeat := (k as int - 29) % 0x100;
          var cs := WrappingAdd(WrappingAdd(checksum, STAR), k);
          CollectBody(isClient, input, i + 2, contents + Fill(prev, repeat), cs, DOLLAR)
      else
        CollectBody(isClient, input, i + 1, contents + [ch], WrappingAdd(checksum, ch), ch)
  }

  /** The checksum `CollectBody` returns is the running checksum plus every
      wire byte before the terminating `#`, count bytes included. */
  lemma {:induction false} CollectBodyChecksum(isClient: bool, input: seq<byte>, i: nat, contents: seq<byte>, checksum: byte, prev: byte)
    requires i <= |input|
    requires CollectBody(isClient, input, i, contents, checksum, prev).Some?
    ensures var r := CollectBody(isClient, input, i, contents, checksum, prev).value;
      r.checksum == (checksum + SumRange(input, i, r.end - 1)) % 0x100
    decreases |input| - i, 1
  {
    var ch := input[i];
    if ch == STAR && isClient {
      RunChecksum(input, i, contents, checksum, prev);
    } else if ch != HASH {
      LiteralChecksum(isClient, input, i, contents, checksum, prev);
    }
  }

  lemma {:induction false} RunChecksum(input: seq<byte>, i: nat, contents: seq<byte>, checksum: byte, prev: byte)
    requires i < |input| && input[i] == STAR
    requires CollectBody(true, input, i, contents, checksum, prev).Some?
    ensures var r := CollectBody(true, input, i, contents, checksum, prev).value;
      r.checksum == (checksum + SumRange(input, i, r.end - 1)) % 0x100
    decreases |input| - i, 0
  {
    var k := input[i + 1];
    var cs := WrappingAdd(WrappingAdd(checksum, STAR), k);
    var more := contents + Fill(prev, (k as int - 29) % 0x100);
    var r := CollectBody(true, input, i + 2, more, cs, DOLLAR).value;
    assert CollectBody(true, input, i, contents, checksum, prev).value == r;
    CollectBodyChecksum(true, input, i + 2, more, cs, DOLLAR);
    var tail := SumRange(input, i + 2, r.end - 1);
    SumRangeFront(input, i, r.end - 1);
    SumRangeFront(input, i + 1, r.end - 1);
    WrappingAddTwice(checksum, STAR, k, tail);
    SumStep(r.checksum, cs, tail, checksum, STAR + k, SumRange(input, i, r.end - 1));
  }

  lemma {:induction false} LiteralChecksum(isClient: bool, input: seq<byte>, i: nat, contents: seq<byte>, checksum: byte, prev: byte)
    requires i < |input| && input[i] != HASH && !(input[i] == STAR && isClient)
    requires CollectBody(isClient, input, i, contents, checksum, prev).Some?
    ensures var r := CollectBody(isClient, input, i, contents, checksum, prev).value;
      r.checksum == (checksum + SumRange(input, i, r.end - 1)) % 0x100
    decreases |input| - i, 0
  {
    var ch := input[i];
    var cs := WrappingAdd(checksum, ch);
    var r := CollectBody(isClient, input, i + 1, contents + [ch], cs, ch).value;
    assert CollectBody(isClient, input, i, contents, checksum, prev).value == r;
    CollectBodyChecksum(isClient, input, i + 1, contents + [ch], cs, ch);
    var tail := SumRange(input, i + 1, r.end - 1);
    SumRangeFront(input, i, r.end - 1);
    WrappingAddMod(checksum, ch, tail);
    SumStep(r.checksum, cs, tail, checksum, ch, SumRange(input, i, r.end - 1));
  }

  /** Rewrites the checksum after one step of the loop in terms of the
      checksum before it. */
  lemma SumStep(final: int, cs: byte, tail: nat, checksum: byte, head: nat, total: nat)
    requires final == (cs + tail) % 0x100
    requires (cs + tail) % 0x100 == (checksum + (head + tail)) % 0x100
    requires total == head + tail
    ensures final == (checksum + total) % 0x100
  {
  }

  /** A server takes every byte up to the first `#` literally, `*`
      included. */
  lemma {:induction false} ServerCollectsVerbatim(input: seq<byte>, i: nat, contents: seq<byte>, checksum: byte, prev: byte)
    requires i <= |input|
    requires CollectBody(false, input, i, contents, checksum, prev).Some?
    ensures var r := CollectBody(false, input, i, contents, checksum, prev).value;
      && r.contents == contents + input[i..r.end - 1]
      && forall l :: i <= l < r.end - 1 ==> input[l] != HASH
    decreases |input| - i
  {
    var r := CollectBody(false, input, i, contents, checksum, prev).value;
    var ch := input[i];
    if ch != HASH {
      ServerCollectsVerbatim(input, i + 1, contents + [ch], WrappingAdd(checksum, ch), ch);
      assert input[i..r.end - 1] == [ch] + input[i + 1..r.end - 1];
    }
  }

  /** A run of bytes with no `#` (and, on the client, no `*`) followed by
      `#` is collected verbatim. */
  lemma {:induction false} CollectLiteral(isClient: bool, input: seq<byte>, i: nat, j: nat, contents: seq<byte>, checksum: byte, prev: byte)
    requires i <= j < |input| && input[j] == HASH
    requires forall l :: i <= l < j ==> input[l] != HASH && (isClient ==> input[l] != STAR)
    ensures var r := CollectBody(isClient, input, i, contents, checksum, prev);
      r.Some? && r.value.contents == contents + input[i..j] && r.value.end == j + 1
    decreases j - i
  {
    if i < j {
      var ch := input[i];
      CollectLiteral(isClient, input, i + 1, j, contents + [ch], WrappingAdd(checksum, ch), ch);
      assert contents + [ch] + input[i + 1..j] == contents + input[i..j];
    }
  }

  /** On the client, `x*k` stands for `x` followed by `k - 29` further
      copies of `x` (modulo 256); the byte a later run would repeat is
      reset to `$`. */
  lemma CollectRun(input: seq<byte>, i: nat, contents: seq<byte>, checksum: byte, prev: byte)
    requires i + 3 <= |input|
    requires input[i] != HASH && input[i] != STAR && input[i + 1] == STAR
    ensures var x, k := input[i], input[i + 2];
      CollectBody(true, input, i, contents, checksum, prev)
      == CollectBody(true, input, i + 3, contents + [x] + Fill(x, (k as int - 29) % 0x100),
                     WrappingAdd(WrappingAdd(WrappingAdd(checksum, x), STAR), k), DOLLAR)
  {
  }

  /** The checksum comparison of `read_packet`: the digits decoded with
      `decode_hex`, or, when they do not decode, `!checksum`, which can
      never equal the checksum. */
  function ReceivedChecksum(n1: byte, n2: byte, checksum: byte): (n: byte)
    ensures DecodeHex([n1, n2]).Some? ==> n == DecodeHex([n1, n2]).value
    ensures DecodeHex([n1, n2]).None? ==> n != checksum
  {
    match DecodeHex([n1, n2])
    case Some(v) =>
      HexValueBound([n1, n2]);
      v
    case None => 0xff - checksum
  }

  /** The checksum digits `n1 n2` after `#` and what `read_packet` does
      with them: only normal packets are acknowledged, and only in acking
      mode is the checksum checked at all. */
  function Acknowledge(c: Conn, kind: PacketType, body: Body, n1: byte, n2: byte, rest: seq<byte>): (r: Step<Packet>)
    ensures r.conn == c && r.input == rest
    ensures r.result.Ok? ==> r.result.value == (kind, body.contents)
    ensures r.result.Err? ==> r.result.error == InvalidChecksum
    ensures r.result.Err? <==> r.output == [MINUS]
    ensures r.output == [] || r.output == [PLUS] || r.output == [MINUS]
    ensures r.output == [PLUS] ==> r.result.Ok?
    ensures (!c.acking || kind == Notification) ==> r.output == [] && r.result.Ok?
    ensures c.acking && kind == Normal ==>
      (r.result.Ok? <==> DecodeHex([n1, n2]) == Some(body.checksum))
  {
    if c.acking && kind == Normal then
      if ReceivedChecksum(n1, n2, body.checksum) == body.checksum then
        Step(Ok((kind, body.contents)), c, rest, [PLUS])
      else
        Step(Err(InvalidChecksum), c, rest, [MINUS])
    else
      Step(Ok((kind, body.contents)), c, rest, [])
  }

  /** Everything of `read_packet` after the start byte at `i - 1`: collect
      the body, then read and act on the two checksum digits. */
  function ReadBody(c: Conn, kind: PacketType, input: seq<byte>, i: nat): (r: Step<Packet>)
    requires i <= |input|
    ensures r.conn == c
    ensures r.result.Ok? ==> r.result.value.0 == kind
    ensures r.result.Err? ==> r.result.error == IOError || r.result.error == InvalidChecksum
    ensures r.result == Err(InvalidChecksum) <==> r.output == [MINUS]
    ensures r.output == [] || r.output == [PLUS] || r.output == [MINUS]
    ensures r.output == [PLUS] ==> r.result.Ok?
    ensures (!c.acking || kind == Notification) ==> r.output == [] && r.result != Err(InvalidChecksum)
    ensures r.result != Err(IOError) ==> |r.input| + 2 < |input| - i && r.input == input[|input| - |r.input|..]
  {
    match CollectBody(c.isClient, input, i, [], 0, DOLLAR)
    case None => Step(Err(IOError), c, [], [])
    case Some(b) =>
      if b.end + 2 > |input| then Step(Err(IOError), c, [], [])
      else Acknowledge(c, kind, b, input[b.end], input[b.end + 1], input[b.end + 2..])
  }

  function KindOf(start: byte): PacketType {
    if start == DOLLAR then Normal else Notification
  }

  /** `read_packet` as written: since the scan never stops, every call
      consumes all input and fails with an I/O error. */
  function ReadPacketAsWritten(c: Conn, input: seq<byte>): (r: Step<Packet>)
  {
    match ScanAsWritten(input, 0)
    case None => Step(Err(IOError), c, [], [])
    case Some(j) => if j < |input| then ReadBody(c, KindOf(input[j]), input, j + 1) else Step(Err(IOError), c, [], [])
  }

  lemma ReadPacketAsWrittenAlwaysFails(c: Conn, input: seq<byte>)
    ensures ReadPacketAsWritten(c, input) == Step(Err(IOError), c, [], [])
  {
    ScanAsWrittenNeverStops(input, 0);
  }

  /** `read_packet` in either reading: as written, where it never returns
      a packet, or corrected. Both leave the connection state alone and
      fail only with an I/O or checksum error. */
  function ReadPacketIn(v: Variant, c: Conn, input: seq<byte>): (r: Step<Packet>)
    ensures r.conn == c
    ensures r.result.Err? ==> r.result.error == IOError || r.result.error == InvalidChecksum
    ensures r.result == Err(InvalidChecksum) <==> r.output == [MINUS]
    ensures r.output == [] || r.output == [PLUS] || r.output == [MINUS]
    ensures !c.acking ==> r.output == [] && r.result != Err(InvalidChecksum)
    ensures r.result.Ok? && r.result.value.0 == Notification ==> r.output == []
    ensures r.result != Err(IOError) ==> |r.input| < |input| && r.input == input[|input| - |r.input|..]
    ensures v == AsWritten ==> r == Step(Err(IOError), c, [], [])
  {
    if v == AsWritten then
      ReadPacketAsWrittenAlwaysFails(c, input);
      ReadPacketAsWritten(c, input)
    else ReadPacket(c, input)
  }

  /** The corrected `read_packet`: the scan stops at `$` (normal packet)
      or `%` (notification). */
  function ReadPacket(c: Conn, input: seq<byte>): (r: Step<Packet>)
    ensures r.conn == c
    ensures r.result.Err? ==> r.result.error == IOError || r.result.error == InvalidChecksum
    ensures r.result == Err(InvalidChecksum) <==> r.output == [MINUS]
    ensures r.output == [] || r.output == [PLUS] || r.output == [MINUS]
    ensures !c.acking ==> r.output == [] && r.result != Err(InvalidChecksum)
    ensures r.result.Ok? && r.result.value.0 == Notification ==> r.output == []
    ensures r.result != Err(IOError) ==> |r.input| < |input| && r.input == input[|input| - |r.input|..]
  {
    match Scan(input, 0)
    case None => Step(Err(IOError), c, [], [])
    case Some(j) => ReadBody(c, KindOf(input[j]), input, j + 1)
  }

  /** Reading a literal packet: junk before the start byte is skipped, the
      payload comes back unchanged, and only a normal packet in acking mode
      is checked and answered. */
  lemma {:induction false} ReadLiteralPacket(c: Conn, junk: seq<byte>, kind: byte, payload: seq<byte>, n1: byte, n2: byte, rest: seq<byte>)
    requires forall l :: 0 <= l < |junk| ==> !IsStart(junk[l])
    requires IsStart(kind)
    requires Free(payload, HASH)
    requires c.isClient ==> Free(payload, STAR)
    ensures var r := ReadPacket(c, junk + [kind] + payload + [HASH, n1, n2] + rest);
      && r.conn == c && r.input == rest
      && (if c.acking && kind == DOLLAR && DecodeHex([n1, n2]) != Some(Checksum(payload))
          then r.result == Err(InvalidChecksum) && r.output == [MINUS]
          else (r.result == Ok((KindOf(kind), payload))
            && r.output == (if c.acking && kind == DOLLAR then [PLUS] else [])))
  {
    var input := junk + [kind] + payload + [HASH, n1, n2] + rest;
    LiteralLayout(junk, kind, payload, n1, n2, rest);
    ScanPastJunk(junk, kind, payload + [HASH, n1, n2] + rest);
    LiteralBody(c.isClient, junk + [kind], payload, [n1, n2] + rest);
    ReadLiteralAt(c, input, |junk|, payload, n1, n2, rest);
    AcknowledgeLiteral(c, kind, payload, |junk| + |payload| + 2, n1, n2, rest);
  }

  /** Where the pieces of a literal packet sit in its bytes. */
  lemma LiteralLayout(junk: seq<byte>, kind: byte, payload: seq<byte>, n1: byte, n2: byte, rest: seq<byte>)
    ensures var input := junk + [kind] + payload + [HASH, n1, n2] + rest;
      var e := |junk| + |payload| + 2;
      && input == junk + [kind] + (payload + [HASH, n1, n2] + rest)
      && input == junk + [kind] + payload + [HASH] + ([n1, n2] + rest)
      && e + 2 <= |input| && input[e] == n1 && input[e + 1] == n2 && input[e + 2..] == rest
      && input[|junk|] == kind
  {
    var input := junk + [kind] + payload + [HASH, n1, n2] + rest;
    var e := |junk| + |payload| + 2;
    assert input == junk + [kind] + (payload + [HASH, n1, n2] + rest);
    assert input == junk + [kind] + payload + [HASH] + ([n1, n2] + rest);
    assert input[e + 2..] == rest;
  }

  /** A packet found at `s` whose body is collected whole is acknowledged
      on the two bytes after its `#`. */
  lemma ReadLiteralAt(c: Conn, input: seq<byte>, s: nat, payload: seq<byte>, n1: byte, n2: byte, rest: seq<byte>)
    requires Scan(input, 0) == Some(s)
    requires CollectBody(c.isClient, input, s + 1, [], 0, DOLLAR)
      == Some(Body(payload, Checksum(payload), s + |payload| + 2))
    requires s + |payload| + 4 <= |input|
    requires input[s + |payload| + 2] == n1 && input[s + |payload| + 3] == n2
    requires input[s + |payload| + 4..] == rest
    ensures ReadPacket(c, input)
      == Acknowledge(c, KindOf(input[s]), Body(payload, Checksum(payload), s + |payload| + 2), n1, n2, rest)
  {
    ReadPacketFrom(c, input, s, Body(payload, Checksum(payload), s + |payload| + 2));
  }

  /** The acknowledgement of a collected literal payload. */
  lemma AcknowledgeLiteral(c: Conn, kind: byte, payload: seq<byte>, end: nat, n1: byte, n2: byte, rest: seq<byte>)
    requires IsStart(kind)
    ensures var r := Acknowledge(c, KindOf(kind), Body(payload, Checksum(payload), end), n1, n2, rest);
      && r.conn == c && r.input == rest
      && (if c.acking && kind == DOLLAR && DecodeHex([n1, n2]) != Some(Checksum(payload))
          then r.result == Err(InvalidChecksum) && r.output == [MINUS]
          else (r.result == Ok((KindOf(kind), payload))
            && r.output == (if c.acking && kind == DOLLAR then [PLUS] else [])))
  {
  }

  /** A literal payload after position `|before|` is collected whole, with
      its checksum. */
  lemma LiteralBody(isClient: bool, before: seq<byte>, payload: seq<byte>, after: seq<byte>)
    requires Free(payload, HASH)
    requires isClient ==> Free(payload, STAR)
    ensures var input := before + payload + [HASH] + after;
      CollectBody(isClient, input, |before|, [], 0, DOLLAR)
      == Some(Body(payload, Checksum(payload), |before| + |payload| + 1))
  {
    var input := before + payload + [HASH] + after;
    var i := |before|;
    var j := i + |payload|;
    LiteralPositions(isClient, before, payload, after);
    CollectLiteral(isClient, input, i, j, [], 0, DOLLAR);
    var r := CollectBody(isClient, input, i, [], 0, DOLLAR).value;
    assert r.contents == payload && r.end == j + 1;
    LiteralBodyChecksum(isClient, input, i, j, payload);
    assert r.checksum == Checksum(payload);
  }

  lemma LiteralBodyChecksum(isClient: bool, input: seq<byte>, i: nat, j: nat, payload: seq<byte>)
    requires i <= j < |input| && input[i..j] == payload
    requires CollectBody(isClient, input, i, [], 0, DOLLAR).Some?
    requires CollectBody(isClient, input, i, [], 0, DOLLAR).value.end == j + 1
    ensures CollectBody(isClient, input, i, [], 0, DOLLAR).value.checksum == Checksum(payload)
  {
    CollectBodyChecksum(isClient, input, i, [], 0, DOLLAR);
    SumRangeIsSum(input, i, j);
  }

  lemma LiteralPositions(isClient: bool, before: seq<byte>, payload: seq<byte>, after: seq<byte>)
    requires Free(payload, HASH)
    requires isClient ==> Free(payload, STAR)
    ensures var input := before + payload + [HASH] + after;
      var i, j := |before|, |before| + |payload|;
      && j < |input| && input[j] == HASH && input[i..j] == payload
      && forall l :: i <= l < j ==> input[l] != HASH && (isClient ==> input[l] != STAR)
  {
    var input := before + payload + [HASH] + after;
    var i, j := |before|, |before| + |payload|;
    assert input[i..j] == payload;
    forall l | i <= l < j ensures input[l] == payload[l - i] {
    }
  }

  lemma ScanPastJunk(junk: seq<byte>, kind: byte, tail: seq<byte>)
    requires forall l :: 0 <= l < |junk| ==> !IsStart(junk[l])
    requires IsStart(kind)
    ensures Scan(junk + [kind] + tail, 0) == Some(|junk|)
  {
    var input := junk + [kind] + tail;
    forall l | 0 <= l < |junk| ensures !IsStart(input[l]) {
      assert input[l] == junk[l];
    }
    ScanFinds(input, |junk|);
  }

  /** The scan stops at the first start byte. */
  lemma ScanFinds(input: seq<byte>, j: nat)
    requires j < |input| && IsStart(input[j])
    requires forall l :: 0 <= l < j ==> !IsStart(input[l])
    ensures Scan(input, 0) == Some(j)
  {
    var r := Scan(input, 0);
    assert r.Some?;
  }

  /** `read_packet` once the start byte at `j` and the body are known. */
  lemma ReadPacketFrom(c: Conn, input: seq<byte>, j: nat, b: Body)
    requires Scan(input, 0) == Some(j)
    requires CollectBody(c.isClient, input, j + 1, [], 0, DOLLAR) == Some(b)
    requires b.end + 2 <= |input|
    ensures ReadPacket(c, input)
      == Acknowledge(c, KindOf(input[j]), b, input[b.end], input[b.end + 1], input[b.end + 2..])
  {
    ReadPacketStart(c, input, j);
    ReadBodyFrom(c, KindOf(input[j]), input, j + 1, b);
  }

  lemma ReadPacketStart(c: Conn, input: seq<byte>, j: nat)
    requires Scan(input, 0) == Some(j)
    ensures ReadPacket(c, input) == ReadBody(c, KindOf(input[j]), input, j + 1)
  {
  }

  lemma ReadBodyFrom(c: Conn, kind: PacketType, input: seq<byte>, i: nat, b: Body)
    requires i <= |input|
    requires CollectBody(c.isClient, input, i, [], 0, DOLLAR) == Some(b)
    requires b.end + 2 <= |input|
    ensures ReadBody(c, kind, input, i) == Acknowledge(c, kind, b, input[b.end], input[b.end + 1], input[b.end + 2..])
  {
  }

  /** What a sender emits with `full_packet` is read back unchanged and
      acknowledged with `+` when acking. */
  lemma FrameRoundTrip(c: Conn, junk: seq<byte>, payload: seq<byte>, rest: seq<byte>)
    requires forall l :: 0 <= l < |junk| ==> !IsStart(junk[l])
    requires Free(payload, HASH)
    requires c.isClient ==> Free(payload, STAR)
    ensures ReadPacket(c, junk + Frame(DOLLAR, payload) + rest)
      == Step(Ok((Normal, payload)), c, rest, if c.acking then [PLUS] else [])
  {
    var t := Trailer(Checksum(payload));
    assert t == [HASH, t[1], t[2]];
    assert t[1..] == [t[1], t[2]];
    assert junk + Frame(DOLLAR, payload) + rest == junk + [DOLLAR] + payload + [HASH, t[1], t[2]] + rest;
    ReadLiteralPacket(c, junk, DOLLAR, payload, t[1], t[2], rest);
  }

  /** A notification is never acknowledged, whatever its checksum digits. */
  lemma NotificationNotAcknowledged(c: Conn, payload: seq<byte>, n1: byte, n2: byte, rest: seq<byte>)
    requires Free(payload, HASH)
    requires c.isClient ==> Free(payload, STAR)
    ensures ReadPacket(c, [PERCENT] + payload + [HASH, n1, n2] + rest)
      == Step(Ok((Notification, payload)), c, rest, [])
  {
    assert [PERCENT] + payload + [HASH, n1, n2] + rest == [] + [PERCENT] + payload + [HASH, n1, n2] + rest;
    ReadLiteralPacket(c, [], PERCENT, payload, n1, n2, rest);
  }

  /** A packet whose checksum digits do not match its payload is answered
      with `-` and reported as `InvalidChecksum` while acking. */
  lemma BadChecksumRejected(c: Conn, payload: seq<byte>, n1: byte, n2: byte, rest: seq<byte>)
    requires c.acking
    requires Free(payload, HASH)
    requires c.isClient ==> Free(payload, STAR)
    requires DecodeHex([n1, n2]) != Some(Checksum(payload))
    ensures ReadPacket(c, [DOLLAR] + payload + [HASH, n1, n2] + rest)
      == Step(Err(InvalidChecksum), c, rest, [MINUS])
  {
    assert [DOLLAR] + payload + [HASH, n1, n2] + rest == [] + [DOLLAR] + payload + [HASH, n1, n2] + rest;
    ReadLiteralPacket(c, [], DOLLAR, payload, n1, n2, rest);
  }

  /** On the client, `$x*k#..` reads as `x` followed by `k - 29` (modulo
      256) further copies of `x`. */
  lemma {:induction false} RunLengthExpands(c: Conn, x: byte, k: byte, n1: byte, n2: byte, rest: seq<byte>)
    requires c.isClient && !c.acking
    requires x != HASH && x != STAR
    ensures ReadPacket(c, [DOLLAR, x, STAR, k, HASH, n1, n2] + rest)
      == Step(Ok((Normal, [x] + Fill(x, (k as int - 29) % 0x100))), c, rest, [])
  {
    var input := [DOLLAR, x, STAR, k, HASH, n1, n2] + rest;
    ScanFinds(input, 0);
    CollectRun(input, 1, [], 0, DOLLAR);
    var cs := WrappingAdd(WrappingAdd(WrappingAdd(0, x), STAR), k);
    var contents := [] + [x] + Fill(x, (k as int - 29) % 0x100);
    assert CollectBody(true, input, 4, contents, cs, DOLLAR) == Some(Body(contents, cs, 5));
    assert input[7..] == rest;
    ReadPacketFrom(c, input, 0, Body(contents, cs, 5));
    assert contents == [x] + Fill(x, (k as int - 29) % 0x100);
    assert KindOf(input[0]) == Normal;
  }

  /** A count byte `k` below 29 underflows rather than being rejected:
      `x*k` yields `x` and then `k + 227` more copies of `x`, so a packet
      claiming fewer than 29 repeats expands to between 228 and 256
      bytes. */
  lemma RunLengthUnderflow(c: Conn, x: byte, k: byte, n1: byte, n2: byte)
    requires c.isClient && !c.acking
    requires x != HASH && x != STAR && k < 29
    ensures ReadPacket(c, [DOLLAR, x, STAR, k, HASH, n1, n2]).result
      == Ok((Normal, [x] + Fill(x, k as int + 227)))
  {
    RunLengthExpands(c, x, k, n1, n2, []);
    assert [DOLLAR, x, STAR, k, HASH, n1, n2] + [] == [DOLLAR, x, STAR, k, HASH, n1, n2];
    assert (k as int - 29) % 0x100 == k as int + 227;
  }

  /** A run-length marker with nothing before it repeats the start byte:
      `$` followed by `*` and a space (32) decodes to `$$$`. */
  lemma RunLengthAtStart(c: Conn, n1: byte, n2: byte)
    requires c.isClient && !c.acking
    ensures ReadPacket(c, [DOLLAR, STAR, 0x20, HASH, n1, n2]).result
      == Ok((Normal, Fill(DOLLAR, 3)))
  {
    var input: seq<byte> := [DOLLAR, STAR, 0x20, HASH, n1, n2];
    ScanFinds(input, 0);
    var cs := WrappingAdd(WrappingAdd(0, STAR), 0x20);
    assert (0x20 - 29) % 0x100 == 3;
    assert CollectBody(true, input, 1, [], 0, DOLLAR) == CollectBody(true, input, 3, [] + Fill(DOLLAR, 3), cs, DOLLAR);
    assert CollectBody(true, input, 3, [] + Fill(DOLLAR, 3), cs, DOLLAR) == Some(Body([] + Fill(DOLLAR, 3), cs, 4));
    ReadPacketFrom(c, input, 0, Body([] + Fill(DOLLAR, 3), cs, 4));
    assert [] + Fill(DOLLAR, 3) == Fill(DOLLAR, 3);
    assert KindOf(input[0]) == Normal;
  }
}

/** The sending half of `RspConnection` (src/low.rs): the checksumming
    writer, packet framing, the `+`/`-` acknowledgment loop with its retry
    bound, the one-way switch to no-ack mode, hex and thread-id output and
    the interrupt byte. The transport is explicit: bytes the peer sends are
    an input sequence that operations consume, and bytes written are
    returned as an output sequence. Running out of input is an I/O error. */
module Connection {
  import opened Types
  import opened Bytes
  import opened Util
  import opened Fmt
  import opened Ids

  /** `RspError`; the I/O error carries no payload here. */
  datatype RspError = IOError | InvalidChecksum | TooManyRetries

  /** The state of an `RspConnection`, without its channels. `inPacket`
      is 0 outside a packet and otherwise the packet's start byte. */
  datatype Conn = Conn(
    acking: bool,
    isClient: bool,
    inPacket: byte,
    checksum: byte,
    lastPacket: seq<byte>,
    maxRetries: Option<u16>)

  /** The bytes an output-only operation writes, and the new state. */
  datatype Emit = Emit(conn: Conn, out: seq<byte>)

  /** The outcome of an operation that may read: its result, the new
      state, the input it left unread and the bytes it wrote. */
  datatype Step<T> = Step(result: Result<T, RspError>, conn: Conn, input: seq<byte>, output: seq<byte>)

  /** `RspConnection::new`: acking on, no packet open, unbounded retries. */
  function NewConn(isClient: bool): (c: Conn)
    ensures c.acking && c.isClient == isClient
    ensures c.inPacket == 0 && c.lastPacket == [] && c.maxRetries.None?
  {
    Conn(true, isClient, 0, 0, [], None)
  }

  /** `set_maximum_retries`. */
  function SetMaximumRetries(c: Conn, max: Option<u16>): (r: Conn)
    ensures r.maxRetries == max
    ensures r.(maxRetries := c.maxRetries) == c
  {
    c.(maxRetries := max)
  }

  /** The per-byte `wrapping_add` loop of `Write::write`. */
  function AddAll(cs: byte, buf: seq<byte>): (r: byte)
    ensures r == (cs + Sum(buf)) % 0x100
    decreases |buf|
  {
    if |buf| == 0 then cs
    else
      var last := buf[|buf| - 1];
      var r := AddAll(WrappingAdd(cs, last), buf[..|buf| - 1]);
      ModAddLeft(cs + last, Sum(buf[..|buf| - 1]));
      r
  }

  /** The checksumming `Write::write` (with `write_all` around it): the
      bytes go out unchanged, are added into the running checksum, and are
      kept for retransmission while acking. */
  function Write(c: Conn, buf: seq<byte>): (e: Emit)
    ensures e.out == buf
    ensures e.conn.checksum == (c.checksum + Sum(buf)) % 0x100
    ensures e.conn.lastPacket == if c.acking then c.lastPacket + buf else c.lastPacket
    ensures e.conn.(checksum := c.checksum, lastPacket := c.lastPacket) == c
  {
    var cs := AddAll(c.checksum, buf);
    Emit(c.(checksum := cs, lastPacket := if c.acking then c.lastPacket + buf else c.lastPacket), buf)
  }

  /** Two writes in a row are one write of the concatenation. */
  lemma {:induction false} WriteConcat(c: Conn, a: seq<byte>, b: seq<byte>)
    ensures Write(Write(c, a).conn, b).conn == Write(c, a + b).conn
    ensures Write(c, a).out + Write(Write(c, a).conn, b).out == Write(c, a + b).out
  {
    var w1 := Write(c, a).conn;
    var w2 := Write(w1, b).conn;
    var w := Write(c, a + b).conn;
    SumAppend(a, b);
    ModAddLeft(c.checksum + Sum(a), Sum(b));
    assert w2.checksum == w.checksum;
    assert c.lastPacket + a + b == c.lastPacket + (a + b);
    assert w2.lastPacket == w.lastPacket;
  }

  /** `start_packet`: only outside a packet; resets the checksum, marks a
      normal packet open and writes `$` past the checksum. */
  function StartPacket(c: Conn): (e: Emit)
    requires c.inPacket == 0
    ensures e.conn.inPacket == DOLLAR && e.conn.checksum == 0
    ensures e.out == [DOLLAR]
    ensures e.conn.(inPacket := 0, checksum := c.checksum) == c
  {
    Emit(c.(checksum := 0, inPacket := DOLLAR), [DOLLAR])
  }

  /** `start_notification_packet`: as `StartPacket`, with `%`. */
  function StartNotificationPacket(c: Conn): (e: Emit)
    requires c.inPacket == 0
    ensures e.conn.inPacket == PERCENT && e.conn.checksum == 0
    ensures e.out == [PERCENT]
    ensures e.conn.(inPacket := 0, checksum := c.checksum) == c
  {
    Emit(c.(checksum := 0, inPacket := PERCENT), [PERCENT])
  }

  /** `#` and the checksum as two lower-case hex digits. */
  function Trailer(cs: byte): (r: seq<byte>)
    ensures |r| == 3 && r[0] == HASH
    ensures DecodeHex(r[1..]) == Some(cs)
  {
    [HASH] + Hex2(cs)
  }

  /** A complete frame as it should appear on the wire. */
  function Frame(kind: byte, payload: seq<byte>): seq<byte> {
    [kind] + payload + Trailer(Checksum(payload))
  }

  /** What `finish_packet` resends after a NAK: the start byte, the bytes
      written since the last acknowledged packet and the same checksum. */
  function Retransmission(kind: byte, c: Conn): seq<byte> {
    [kind] + c.lastPacket + Trailer(c.checksum)
  }

  /** The number of leading bytes of `input` that are not `+`. */
  function NakRun(input: seq<byte>): (k: nat)
    ensures k <= |input|
    ensures forall i :: 0 <= i < k ==> input[i] != PLUS
    ensures k < |input| ==> input[k] == PLUS
  {
    if |input| == 0 || input[0] == PLUS then 0 else 1 + NakRun(input[1..])
  }

  /** A retry bound the u16 counter of `finish_packet` can exceed. At the
      largest u16, 65535, `count + 1` wraps to 0 (as in a release build)
      before it can exceed the bound, so that bound never ends the loop. */
  predicate Enforced(max: Option<u16>) {
    max.Some? && max.value < 0xffff
  }

  /** `count = count + 1` on the u16 counter, wrapping at 2^16; the
      counter moves only when a bound is set. */
  function NextCount(c: Conn, count: nat): nat {
    if c.maxRetries.Some? then (count + 1) % 0x1_0000 else count
  }

  /** True when `n` more NAKs after `count` exceed the retry bound. */
  predicate Exhausts(c: Conn, count: nat, n: nat) {
    Enforced(c.maxRetries) && count + n > c.maxRetries.value
  }

  /** The acknowledgment loop of `finish_packet`: a `+` ends it; any other
      byte is a NAK that, while the bound allows, triggers one
      retransmission. `count` counts NAKs only when a bound is set. */
  function AckLoop(c: Conn, kind: byte, input: seq<byte>, count: nat): (r: Step<()>)
    requires c.maxRetries.Some? ==> count <= c.maxRetries.value
    ensures r.conn == c
    decreases |input|
  {
    if |input| == 0 then Step(Err(IOError), c, [], [])
    else if input[0] == PLUS then Step(Ok(()), c, input[1..], [])
    else
      var count' := NextCount(c, count);
      if c.maxRetries.Some? && count' > c.maxRetries.value then
        Step(Err(TooManyRetries), c, input[1..], [])
      else
        var r := AckLoop(c, kind, input[1..], count');
        r.(output := Retransmission(kind, c) + r.output)
  }

  /** How the acknowledgment loop ends, given the number `k` of leading
      NAKs: out of retries after the `m` retransmissions the bound still
      allowed, acknowledged after `k`, or out of input after `k`. */
  predicate AckOutcome(c: Conn, kind: byte, input: seq<byte>, count: nat, r: Step<()>)
    requires c.maxRetries.Some? ==> count <= c.maxRetries.value
  {
    var k := NakRun(input);
    if Exhausts(c, count, k) then
      var m := c.maxRetries.value - count;
      r.result == Err(TooManyRetries) && r.input == input[m + 1..]
      && r.output == Repeat(Retransmission(kind, c), m)
    else if k < |input| then
      r.result == Ok(()) && r.input == input[k + 1..]
      && r.output == Repeat(Retransmission(kind, c), k)
    else
      r.result == Err(IOError) && r.input == []
      && r.output == Repeat(Retransmission(kind, c), k)
  }

  lemma {:induction false} AckLoopOutcome(c: Conn, kind: byte, input: seq<byte>, count: nat)
    requires c.maxRetries.Some? ==> count <= c.maxRetries.value
    ensures AckOutcome(c, kind, input, count, AckLoop(c, kind, input, count))
    decreases |input|
  {
    if |input| > 0 && input[0] != PLUS {
      var count' := NextCount(c, count);
      if !(c.maxRetries.Some? && count' > c.maxRetries.value) {
        AckLoopOutcome(c, kind, input[1..], count');
        AckLoopNak(c, kind, input, count);
      }
    }
  }

  /** One NAK within the bound: a retransmission in front of whatever the
      rest of the loop does. */
  lemma AckLoopNak(c: Conn, kind: byte, input: seq<byte>, count: nat)
    requires |input| > 0 && input[0] != PLUS
    requires c.maxRetries.Some? ==> count <= c.maxRetries.value && NextCount(c, count) <= c.maxRetries.value
    requires AckOutcome(c, kind, input[1..], NextCount(c, count), AckLoop(c, kind, input[1..], NextCount(c, count)))
    ensures AckOutcome(c, kind, input, count, AckLoop(c, kind, input, count))
  {
    var count' := NextCount(c, count);
    assert Enforced(c.maxRetries) ==> count' == count + 1;
    var r := AckLoop(c, kind, input[1..], count');
    var retx := Retransmission(kind, c);
    assert AckLoop(c, kind, input, count) == r.(output := retx + r.output);
    var k := NakRun(input[1..]);
    assert NakRun(input) == k + 1;
    if Exhausts(c, count', k) {
      var m := c.maxRetries.value - count';
      assert input[1..][m + 1..] == input[m + 2..];
      assert retx + Repeat(retx, m) == Repeat(retx, m + 1);
    } else if k < |input[1..]| {
      assert input[1..][k + 1..] == input[k + 2..];
      assert retx + Repeat(retx, k) == Repeat(retx, k + 1);
    } else {
      assert retx + Repeat(retx, k) == Repeat(retx, k + 1);
    }
  }

  /** The three ways the acknowledgment phase of a packet can end, given
      the leading NAKs of the input: acknowledged after `k`
      retransmissions of `retx`, out of retries after `m`, or out of
      input. `prefix` is what was written before the phase began. */
  predicate AckPhase(max: Option<u16>, retx: seq<byte>, input: seq<byte>, r: Step<()>, prefix: seq<byte>) {
    var k := NakRun(input);
    if Enforced(max) && k > max.value then
      r.result == Err(TooManyRetries) && r.input == input[max.value + 1..]
      && r.output == prefix + Repeat(retx, max.value)
    else if k < |input| then
      r.result == Ok(()) && r.input == input[k + 1..]
      && r.output == prefix + Repeat(retx, k)
    else
      r.result == Err(IOError) && r.input == [] && r.output == prefix + Repeat(retx, k)
  }

  lemma AckPhasePrefix(max: Option<u16>, retx: seq<byte>, input: seq<byte>, r: Step<()>, p1: seq<byte>, p2: seq<byte>)
    requires AckPhase(max, retx, input, r, p2)
    ensures AckPhase(max, retx, input, r.(output := p1 + r.output), p1 + p2)
  {
    var k := NakRun(input);
    if Enforced(max) && k > max.value {
      assert p1 + (p2 + Repeat(retx, max.value)) == p1 + p2 + Repeat(retx, max.value);
    } else {
      assert p1 + (p2 + Repeat(retx, k)) == p1 + p2 + Repeat(retx, k);
    }
  }

  /** `finish_packet`: only inside a packet; closes it, writes `#` and the
      checksum, then, when acking, waits for `+`, resending after each NAK
      up to the retry bound. `lastPacket` is cleared only after a `+`. */
  function FinishPacket(c: Conn, input: seq<byte>): (r: Step<()>)
    requires c.inPacket != 0
    ensures r.conn.inPacket == 0
    ensures r.conn.lastPacket == if c.acking && r.result.Ok? then [] else c.lastPacket
    ensures r.conn.(inPacket := c.inPacket, lastPacket := c.lastPacket) == c
    ensures |r.output| >= 3 && r.output[..3] == Trailer(c.checksum)
    ensures !c.acking ==> r.result.Ok? && r.input == input && r.output == Trailer(c.checksum)
    ensures c.acking ==>
      AckPhase(c.maxRetries, Retransmission(c.inPacket, c), input, r, Trailer(c.checksum))
  {
    var kind := c.inPacket;
    var closed := c.(inPacket := 0);
    var head := Trailer(c.checksum);
    if !c.acking then Step(Ok(()), closed, input, head)
    else
      var a := AckLoop(closed, kind, input, 0);
      AckLoopOutcome(closed, kind, input, 0);
      assert Retransmission(kind, closed) == Retransmission(kind, c);
      var conn := if a.result.Ok? then closed.(lastPacket := []) else closed;
      Step(a.result, conn, a.input, head + a.output)
  }

  /** `full_packet`: `start_packet`, the contents through the checksumming
      writer, then `finish_packet`. */
  function FullPacket(c: Conn, contents: seq<byte>, input: seq<byte>): (r: Step<()>)
    requires c.inPacket == 0
    ensures r.conn.inPacket == 0 && r.conn.acking == c.acking
    ensures r.conn.isClient == c.isClient && r.conn.maxRetries == c.maxRetries
    ensures |r.output| >= |Frame(DOLLAR, contents)|
    ensures r.output[..|Frame(DOLLAR, contents)|] == Frame(DOLLAR, contents)
    ensures !c.acking ==> r.result.Ok? && r.input == input && r.output == Frame(DOLLAR, contents)
    ensures c.acking && c.lastPacket == [] ==>
      AckPhase(c.maxRetries, Frame(DOLLAR, contents), input, r, Frame(DOLLAR, contents))
    ensures c.acking && c.lastPacket == [] && r.result.Ok? ==> r.conn.lastPacket == []
  {
    var s := StartPacket(c);
    var w := Write(s.conn, contents);
    var f := FinishPacket(w.conn, input);
    FramePrefix(c, contents, input);
    f.(output := s.out + w.out + f.output)
  }

  lemma FramePrefix(c: Conn, contents: seq<byte>, input: seq<byte>)
    requires c.inPacket == 0
    ensures var s := StartPacket(c);
      var w := Write(s.conn, contents);
      var f := FinishPacket(w.conn, input);
      var frame := Frame(DOLLAR, contents);
      && |s.out + w.out + f.output| >= |frame|
      && (s.out + w.out + f.output)[..|frame|] == frame
      && (c.acking && c.lastPacket == [] ==>
            AckPhase(c.maxRetries, frame, input, f.(output := s.out + w.out + f.output), frame))
  {
    var s := StartPacket(c);
    var w := Write(s.conn, contents);
    var f := FinishPacket(w.conn, input);
    var frame := Frame(DOLLAR, contents);
    FrameHead(c, contents);
    PrefixExtends(s.out + w.out, Trailer(w.conn.checksum), f.output);
    if c.acking && c.lastPacket == [] {
      assert Retransmission(DOLLAR, w.conn) == frame;
      AckFrame(c.maxRetries, frame, input, f, s.out + w.out, Trailer(w.conn.checksum));
    }
  }

  /** The ack phase of a frame whose trailer completes the bytes before it. */
  lemma AckFrame(max: Option<u16>, frame: seq<byte>, input: seq<byte>, f: Step<()>, head: seq<byte>, trailer: seq<byte>)
    requires AckPhase(max, frame, input, f, trailer) && head + trailer == frame
    ensures AckPhase(max, frame, input, f.(output := head + f.output), frame)
  {
    AckPhasePrefix(max, frame, input, f, head, trailer);
  }

  /** The start byte, the contents and the trailer of the checksum the
      writer accumulated make up the frame. */
  lemma FrameHead(c: Conn, contents: seq<byte>)
    requires c.inPacket == 0
    ensures var s := StartPacket(c);
      var w := Write(s.conn, contents);
      s.out + w.out + Trailer(w.conn.checksum) == Frame(DOLLAR, contents)
      && w.conn.inPacket == DOLLAR
  {
  }

  lemma PrefixExtends(a: seq<byte>, t: seq<byte>, out: seq<byte>)
    requires |out| >= |t| && out[..|t|] == t
    ensures |a + out| >= |a + t| && (a + out)[..|a + t|] == a + t
  {
  }

  /** `disable_acking`: acking off for good and the retransmission buffer
      dropped. No operation of this module turns acking back on. */
  function DisableAcking(c: Conn): (r: Conn)
    ensures !r.acking && r.lastPacket == []
    ensures r.(acking := c.acking, lastPacket := c.lastPacket) == c
  {
    c.(acking := false, lastPacket := [])
  }

  /** The loop of `write_hex`: `{:02x}` of each byte through the
      checksumming writer. */
  function WriteHexLoop(c: Conn, data: seq<byte>): (e: Emit)
    ensures e == Write(c, HexEncode(data))
    decreases |data|
  {
    if |data| == 0 then
      assert Write(c, []).conn == c;
      Emit(c, [])
    else
      var h := Write(c, Hex2(data[0]));
      var t := WriteHexLoop(h.conn, data[1..]);
      WriteConcat(c, Hex2(data[0]), HexEncode(data[1..]));
      Emit(t.conn, h.out + t.out)
  }

  /** `write_hex`: only inside a packet; two lower-case hex digits per
      byte, covered by the checksum. */
  function WriteHex(c: Conn, data: seq<byte>): (e: Emit)
    requires c.inPacket != 0
    ensures |e.out| == 2 * |data| && AllLowerHex(e.out)
    ensures forall i :: 0 <= i < |data| ==> DecodeHex(e.out[2 * i..2 * i + 2]) == Some(data[i])
    ensures e.conn.checksum == (c.checksum + Sum(e.out)) % 0x100
    ensures e.conn.inPacket == c.inPacket
  {
    HexEncodeDigits(data);
    WriteHexLoop(c, data)
  }

  /** `write_thread_id` through the checksumming writer; the bytes depend
      on the host's byte order (see `Ids.ThreadIdBytes`). */
  function WriteThreadId(c: Conn, p: ProcessId, host: Endian): (e: Emit)
    ensures e.out == ThreadIdBytes(p, host)
    ensures e.conn.checksum == (c.checksum + Sum(e.out)) % 0x100
    ensures e.conn.inPacket == c.inPacket
  {
    Write(c, ThreadIdBytes(p, host))
  }

  /** `interrupt`: only on a client and outside a packet; the single byte
      0x03, unframed and outside the checksum. */
  function Interrupt(c: Conn): (e: Emit)
    requires c.inPacket == 0 && c.isClient
    ensures e.conn == c && e.out == [INTERRUPT]
  {
    Emit(c, [INTERRUPT])
  }

  lemma {:induction false} RepeatSucc(s: seq<byte>, n: nat)
    ensures s + Repeat(s, n) == Repeat(s, n + 1)
  {
  }

  /** With acking on and a bound of `m` retries, a peer that NAKs every
      time sees the frame once and then exactly `m` identical
      retransmissions; the (m+1)-th NAK ends the call with
      `TooManyRetries`, having consumed m+1 bytes. This holds for every
      bound below 65535; see `WidestBoundNeverReached` for that one. */
  lemma RetriesExhausted(c: Conn, contents: seq<byte>, input: seq<byte>)
    requires c.inPacket == 0 && c.acking && c.lastPacket == []
    requires Enforced(c.maxRetries) && NakRun(input) > c.maxRetries.value
    ensures var r := FullPacket(c, contents, input);
      && r.result == Err(TooManyRetries)
      && r.output == Repeat(Frame(DOLLAR, contents), c.maxRetries.value + 1)
      && r.input == input[c.maxRetries.value + 1..]
  {
    var r := FullPacket(c, contents, input);
    AckPhaseExhausted(c.maxRetries, Frame(DOLLAR, contents), input, r);
  }

  lemma AckPhaseExhausted(max: Option<u16>, frame: seq<byte>, input: seq<byte>, r: Step<()>)
    requires AckPhase(max, frame, input, r, frame)
    requires Enforced(max) && NakRun(input) > max.value
    ensures r.result == Err(TooManyRetries) && r.input == input[max.value + 1..]
    ensures r.output == Repeat(frame, max.value + 1)
  {
    RepeatSucc(frame, max.value);
  }

  /** Whatever the bound, a `+` after `k <= m` NAKs ends the exchange
      successfully after exactly `k` identical retransmissions; without a
      bound, or with the bound 65535 that the counter never exceeds, any
      number of NAKs is tolerated. */
  lemma AcknowledgedAfterRetries(c: Conn, contents: seq<byte>, input: seq<byte>)
    requires c.inPacket == 0 && c.acking && c.lastPacket == []
    requires NakRun(input) < |input|
    requires !Enforced(c.maxRetries) || NakRun(input) <= c.maxRetries.value
    ensures var r := FullPacket(c, contents, input);
      && r.result == Ok(())
      && r.output == Repeat(Frame(DOLLAR, contents), NakRun(input) + 1)
      && r.input == input[NakRun(input) + 1..]
      && r.conn.lastPacket == []
  {
    var r := FullPacket(c, contents, input);
    AckPhaseAcknowledged(c.maxRetries, Frame(DOLLAR, contents), input, r);
  }

  lemma AckPhaseAcknowledged(max: Option<u16>, frame: seq<byte>, input: seq<byte>, r: Step<()>)
    requires AckPhase(max, frame, input, r, frame)
    requires NakRun(input) < |input| && (!Enforced(max) || NakRun(input) <= max.value)
    ensures r.result == Ok(()) && r.input == input[NakRun(input) + 1..]
    ensures r.output == Repeat(frame, NakRun(input) + 1)
  {
    RepeatSucc(frame, NakRun(input));
  }

  /** With the bound 65535 the u16 counter wraps to 0 on the 65536th NAK
      instead of exceeding the bound, so a packet is never given up: it
      goes exactly as it would with no bound at all. */
  lemma {:induction false} WidestBoundNeverReached(c: Conn, contents: seq<byte>, input: seq<byte>)
    requires c.inPacket == 0 && c.acking && c.lastPacket == []
    requires c.maxRetries == Some(0xffff)
    ensures var r := FullPacket(c, contents, input);
      var u := FullPacket(c.(maxRetries := None), contents, input);
      && r.result != Err(TooManyRetries)
      && r.result == u.result && r.input == u.input && r.output == u.output
  {
  }

  /** The source's own test: a client in no-ack mode sends `qTfP`
      (0x71 0x54 0x66 0x50) as `$qTfP#7b`, reading nothing. */
  lemma NoAckFrameExample()
    ensures var c := DisableAcking(NewConn(true));
      var r := FullPacket(c, [0x71, 0x54, 0x66, 0x50], []);
      r.result.Ok? && r.output == [DOLLAR, 0x71, 0x54, 0x66, 0x50, HASH, 0x37, 0x62]
  {
    QTfPChecksum();
    assert Hex2(0x7b) == [0x37, 0x62];
  }

  lemma QTfPChecksum()
    ensures Checksum([0x71, 0x54, 0x66, 0x50]) == 0x7b
  {
    var contents: seq<byte> := [0x71, 0x54, 0x66, 0x50];
    assert contents[..1][..0] == [];
    assert Sum(contents[..1]) == 0x71;
    assert contents[..2][..1] == contents[..1];
    assert Sum(contents[..2]) == 0xc5;
    assert contents[..3][..2] == contents[..2];
    assert Sum(contents[..3]) == 0x12b;
    assert contents[..3] == contents[..|contents| - 1];
  }

  /** `lastPacket` is emptied only after a `+`: when a packet fails with
      `TooManyRetries`, its bytes stay buffered, and the next packet's
      retransmission repeats them in front of its own. */
  lemma StaleRetransmission()
    ensures var c := SetMaximumRetries(NewConn(true), Some(0));
      var a := FullPacket(c, [0x61], [MINUS]);
      var b := FullPacket(SetMaximumRetries(a.conn, None), [0x62], [MINUS, PLUS]);
      && a.result == Err(TooManyRetries)
      && a.conn.lastPacket == [0x61]
      && b.result == Ok(())
      && b.output == Frame(DOLLAR, [0x62]) + [DOLLAR, 0x61, 0x62] + Trailer(Checksum([0x62]))
  {
    var c := SetMaximumRetries(NewConn(true), Some(0));
    var a := FullPacket(c, [0x61], [MINUS]);
    AbandonedPacket(c);
    StalePacketResent(SetMaximumRetries(a.conn, None));
  }

  /** A packet given up after its single allowed retry stays buffered. */
  lemma AbandonedPacket(c: Conn)
    requires c == SetMaximumRetries(NewConn(true), Some(0))
    ensures var a := FullPacket(c, [0x61], [MINUS]);
      && a.result == Err(TooManyRetries)
      && a.conn.lastPacket == [0x61] && a.conn.inPacket == 0 && a.conn.acking
  {
    var s1 := StartPacket(c);
    var w1 := Write(s1.conn, [0x61]);
    var f1 := FinishPacket(w1.conn, [MINUS]);
    assert NakRun([MINUS]) == 1;
    assert f1.result == Err(TooManyRetries);
  }

  /** A packet sent over a stale buffer is retransmitted with the stale
      bytes in front of its own. */
  lemma {:induction false} StalePacketResent(c: Conn)
    requires c.acking && c.inPacket == 0 && c.maxRetries.None? && c.lastPacket == [0x61]
    ensures var b := FullPacket(c, [0x62], [MINUS, PLUS]);
      && b.result == Ok(())
      && b.output == Frame(DOLLAR, [0x62]) + [DOLLAR, 0x61, 0x62] + Trailer(Checksum([0x62]))
  {
    var s2 := StartPacket(c);
    var w2 := Write(s2.conn, [0x62]);
    var f2 := FinishPacket(w2.conn, [MINUS, PLUS]);
    assert w2.conn.lastPacket == [0x61, 0x62];
    assert w2.conn.checksum == Checksum([0x62]);
    assert NakRun([MINUS, PLUS]) == 1 by { assert [MINUS, PLUS][1..] == [PLUS]; }
    var retx := Retransmission(DOLLAR, w2.conn);
    assert f2.output == Trailer(Checksum([0x62])) + retx by { RepeatSucc(retx, 0); }
    assert retx == [DOLLAR, 0x61, 0x62] + Trailer(Checksum([0x62]));
  }
}

/** `write_binary` (src/low.rs): 8-bit data written into an open packet
    with `}` escaping, as the code stands and as it is meant to work. */
module Binary {
  import opened Types
  import opened Bytes
  import opened Connection

  /** The bytes `write_binary` escapes: `$`, `#`, `}` and `*`. */
  predicate IsSpecial(b: byte) {
    b == DOLLAR || b == HASH || b == BRACE || b == STAR
  }

  /** `b ^ 0x20`: flips bit 5. */
  function Xor20(b: byte): byte {
    if (b / 0x20) % 2 == 1 then b - 0x20 else b + 0x20
  }

  lemma Xor20Involution(b: byte)
    ensures Xor20(Xor20(b)) == b
  {
  }

  /** The escape of one byte: `}` and `b ^ 0x20` for a special byte, the
      byte itself otherwise. */
  function EscapeByte(b: byte): (r: seq<byte>)
    ensures IsSpecial(b) ==> r == [BRACE, Xor20(b)]
    ensures !IsSpecial(b) ==> r == [b]
  {
    if IsSpecial(b) then [BRACE, Xor20(b)] else [b]
  }

  /** The intended wire form of binary data: every special byte escaped,
      every other byte copied. */
  function Escape(buf: seq<byte>): (r: seq<byte>)
    ensures |r| >= |buf|
    ensures Free(r, DOLLAR) && Free(r, HASH) && Free(r, STAR)
  {
    if |buf| == 0 then [] else EscapeByte(buf[0]) + Escape(buf[1..])
  }

  /** The receiving side's reading of escaped data, as section E.1 of the
      GDB manual's Remote Serial Protocol appendix describes it: `}`
      followed by `x` stands for `x ^ 0x20`; a `}` with nothing after it
      is malformed. */
  function Unescape(wire: seq<byte>): (r: Option<seq<byte>>)
    decreases |wire|
  {
    if |wire| == 0 then Some([])
    else if wire[0] == BRACE then
      if |wire| < 2 then None
      else
        var t := Unescape(wire[2..]);
        if t.Some? then Some([Xor20(wire[1])] + t.value) else None
    else
      var t := Unescape(wire[1..]);
      if t.Some? then Some([wire[0]] + t.value) else None
  }

  /** Escaping is undone exactly by the receiver's unescaping. */
  lemma {:induction false} UnescapeEscape(buf: seq<byte>)
    ensures Unescape(Escape(buf)) == Some(buf)
  {
    if |buf| > 0 {
      UnescapeEscape(buf[1..]);
      UnescapeCons(buf[0], Escape(buf[1..]), buf[1..]);
      assert [buf[0]] + buf[1..] == buf;
    }
  }

  /** One escaped byte in front of readable wire bytes is read back. */
  lemma UnescapeCons(b: byte, w: seq<byte>, t: seq<byte>)
    requires Unescape(w) == Some(t)
    ensures Unescape(EscapeByte(b) + w) == Some([b] + t)
  {
    Xor20Involution(b);
    var e := EscapeByte(b) + w;
    if IsSpecial(b) {
      assert e[0] == BRACE && e[1] == Xor20(b) && e[2..] == w;
    } else {
      assert e[0] == b && e[1..] == w;
    }
  }

  /** The loop of `write_binary` as written, from index `i` with the
      current `last_index`: the bytes it sends, including the final
      `buf[last_index..]`. A special byte at `i == last_index` is escaped,
      but `last_index` is not moved past it, so the raw byte is sent again
      later. */
  function BinaryLoop(buf: seq<byte>, i: nat, last: nat): seq<byte>
    requires last <= i <= |buf|
    decreases |buf| - i
  {
    if i == |buf| then
      if |buf| >= last then buf[last..] else []
    else if IsSpecial(buf[i]) then
      if i > last then buf[last..i] + [BRACE, Xor20(buf[i])] + BinaryLoop(buf, i + 1, i + 1)
      else [BRACE, Xor20(buf[i])] + BinaryLoop(buf, i + 1, last)
    else BinaryLoop(buf, i + 1, last)
  }

  /** No special byte at index 0 and no two special bytes side by side:
      the inputs on which `last_index` never lags. */
  predicate Separated(buf: seq<byte>) {
    && (|buf| > 0 ==> !IsSpecial(buf[0]))
    && forall j :: 0 < j < |buf| && IsSpecial(buf[j]) ==> !IsSpecial(buf[j - 1])
  }

  /** `Escape(buf[i..])`, indexed from `i` rather than sliced. */
  function EscapeFrom(buf: seq<byte>, i: nat): seq<byte>
    requires i <= |buf|
    decreases |buf| - i
  {
    if i == |buf| then [] else EscapeByte(buf[i]) + EscapeFrom(buf, i + 1)
  }

  lemma {:induction false} EscapeFromIsEscape(buf: seq<byte>, i: nat)
    requires i <= |buf|
    ensures EscapeFrom(buf, i) == Escape(buf[i..])
    decreases |buf| - i
  {
    if i < |buf| {
      EscapeFromIsEscape(buf, i + 1);
      assert buf[i..][1..] == buf[i + 1..];
    }
  }

  /** One special byte after plain ones: `last_index` catches up. */
  lemma BinaryLoopSpecial(buf: seq<byte>, i: nat, last: nat)
    requires last < i < |buf| && IsSpecial(buf[i])
    requires BinaryLoop(buf, i + 1, i + 1) == EscapeFrom(buf, i + 1)
    ensures BinaryLoop(buf, i, last) == buf[last..i] + EscapeFrom(buf, i)
  {
    var esc := [BRACE, Xor20(buf[i])];
    var tail := EscapeFrom(buf, i + 1);
    assert BinaryLoop(buf, i, last) == buf[last..i] + esc + tail;
    assert EscapeFrom(buf, i) == esc + tail;
  }

  /** One plain byte: it joins the pending run. */
  lemma BinaryLoopPlain(buf: seq<byte>, i: nat, last: nat)
    requires last <= i < |buf| && !IsSpecial(buf[i])
    requires BinaryLoop(buf, i + 1, last) == buf[last..i + 1] + EscapeFrom(buf, i + 1)
    ensures BinaryLoop(buf, i, last) == buf[last..i] + EscapeFrom(buf, i)
  {
    assert EscapeFrom(buf, i) == [buf[i]] + EscapeFrom(buf, i + 1);
    assert buf[last..i + 1] == buf[last..i] + [buf[i]];
  }

  lemma {:induction false} BinaryLoopEscapes(buf: seq<byte>, i: nat, last: nat)
    requires last <= i <= |buf|
    requires Separated(buf)
    requires forall j :: last <= j < i ==> !IsSpecial(buf[j])
    requires last == i && i > 0 ==> IsSpecial(buf[i - 1])
    ensures BinaryLoop(buf, i, last) == buf[last..i] + EscapeFrom(buf, i)
    decreases |buf| - i
  {
    if i == |buf| {
      assert buf[last..] == buf[last..i];
    } else if IsSpecial(buf[i]) {
      assert last < i;
      BinaryLoopEscapes(buf, i + 1, i + 1);
      assert buf[i + 1..i + 1] == [];
      BinaryLoopSpecial(buf, i, last);
    } else {
      BinaryLoopEscapes(buf, i + 1, last);
      BinaryLoopPlain(buf, i, last);
    }
  }

  /** On separated data the loop as written sends exactly the escaped form. */
  lemma WriteBinaryEscapes(buf: seq<byte>)
    requires Separated(buf)
    ensures BinaryLoop(buf, 0, 0) == Escape(buf)
  {
    BinaryLoopEscapes(buf, 0, 0);
    EscapeFromIsEscape(buf, 0);
    assert buf[0..] == buf;
  }

  /** `write_binary` as written: only inside a packet. */
  function WriteBinary(c: Conn, buf: seq<byte>): (e: Emit)
    requires c.inPacket != 0
    ensures Separated(buf) ==> e.out == Escape(buf)
    ensures e.conn.inPacket == c.inPacket
    ensures e.conn.checksum == (c.checksum + Sum(e.out)) % 0x100
  {
    var out := BinaryLoop(buf, 0, 0);
    if Separated(buf) then WriteBinaryEscapes(buf); Write(c, out) else Write(c, out)
  }

  /** `"$a"`: the escaped `$` is followed by the raw `$` again, so a bare
      packet-start byte reaches the wire. */
  lemma WriteBinaryCounterexample()
    ensures BinaryLoop([DOLLAR, 0x61], 0, 0) == [BRACE, 0x04, DOLLAR, 0x61]
    ensures Escape([DOLLAR, 0x61]) == [BRACE, 0x04, 0x61]
    ensures Unescape(BinaryLoop([DOLLAR, 0x61], 0, 0)) != Some([DOLLAR, 0x61])
  {
    var buf: seq<byte> := [DOLLAR, 0x61];
    assert buf[0..] == buf;
    assert BinaryLoop(buf, 2, 0) == buf;
    assert BinaryLoop(buf, 1, 0) == buf;
    assert Xor20(DOLLAR) == 0x04;
    assert BinaryLoop(buf, 0, 0) == [BRACE, 0x04] + buf;
    var w := [BRACE, 0x04, DOLLAR, 0x61];
    assert w[2..] == [DOLLAR, 0x61];
    assert [DOLLAR, 0x61][1..] == [0x61];
    assert [0x61][1..] == [];
  }

  /** The corrected `write_binary`: the pending plain bytes are flushed
      and `last_index` moved past every special byte. It writes exactly
      the escaped form, which the receiver unescapes back to `buf`. */
  function WriteBinaryFixed(c: Conn, buf: seq<byte>): (e: Emit)
    requires c.inPacket != 0
    ensures Unescape(e.out) == Some(buf)
    ensures Free(e.out, DOLLAR) && Free(e.out, HASH) && Free(e.out, STAR)
    ensures e.conn.inPacket == c.inPacket
    ensures e.conn.checksum == (c.checksum + Sum(e.out)) % 0x100
  {
    UnescapeEscape(buf);
    Write(c, Escape(buf))
  }
}

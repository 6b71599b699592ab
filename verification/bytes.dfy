/** Bytes, fixed-width integers, ASCII literals and the arithmetic the
    protocol performs on byte strings. */
module Bytes {

  type byte = b: int | 0 <= b < 0x100
  type u16 = n: int | 0 <= n < 0x1_0000
  type u32 = n: int | 0 <= n < 0x1_0000_0000
  type u64 = n: int | 0 <= n < 0x1_0000_0000_0000_0000

  const U32_LIMIT: nat := 0x1_0000_0000

  // The bytes the framing layer gives a meaning to.
  const INTERRUPT: byte := 0x03
  const DOLLAR: byte := 0x24   // '$', start of a normal packet
  const PERCENT: byte := 0x25  // '%', start of a notification packet
  const HASH: byte := 0x23     // '#', end of the payload
  const STAR: byte := 0x2a     // '*', run-length marker
  const BRACE: byte := 0x7d    // '}', escape prefix
  const PLUS: byte := 0x2b     // '+', positive acknowledgment
  const MINUS: byte := 0x2d    // '-', negative acknowledgment
  const COMMA: byte := 0x2c
  const COLON: byte := 0x3a
  const SEMI: byte := 0x3b
  const DOT: byte := 0x2e

  predicate IsAscii(s: string) {
    forall i :: 0 <= i < |s| ==> s[i] as int < 0x80
  }

  /** The bytes of an ASCII string literal, as Rust's `b"..."` gives them. */
  function Ascii(s: string): (r: seq<byte>)
    requires IsAscii(s)
    ensures |r| == |s|
    ensures forall i :: 0 <= i < |s| ==> r[i] == s[i] as int
  {
    seq(|s|, i requires 0 <= i < |s| => s[i] as int)
  }

  /** `b` raised to the power `e`. */
  function Pow(b: nat, e: nat): (r: nat)
    ensures b > 0 ==> r > 0
  {
    if e == 0 then 1 else b * Pow(b, e - 1)
  }

  /** u8 `wrapping_add`. */
  function WrappingAdd(a: byte, b: byte): byte {
    (a + b) % 0x100
  }

  /** The plain sum of a byte string. */
  function Sum(s: seq<byte>): nat {
    if |s| == 0 then 0 else Sum(s[..|s| - 1]) + s[|s| - 1]
  }

  /** The RSP checksum of a payload: the sum of its bytes modulo 256. */
  function Checksum(s: seq<byte>): byte {
    Sum(s) % 0x100
  }

  lemma {:induction false} SumAppend(a: seq<byte>, b: seq<byte>)
    ensures Sum(a + b) == Sum(a) + Sum(b)
    decreases |b|
  {
    if |b| == 0 {
      assert a + b == a;
    } else {
      assert (a + b)[..|a + b| - 1] == a + b[..|b| - 1];
      SumAppend(a, b[..|b| - 1]);
    }
  }

  /** `n` copies of the byte `b`. */
  function Fill(b: byte, n: nat): (r: seq<byte>)
    ensures |r| == n
    ensures forall i :: 0 <= i < n ==> r[i] == b
  {
    seq(n, _ => b)
  }

  lemma Assoc(a: seq<byte>, b: seq<byte>, c: seq<byte>)
    ensures a + b + c == a + (b + c)
  {
  }

  lemma AppendNil(s: seq<byte>)
    ensures s + [] == s
  {
  }

  /** `s` written `n` times in a row. */
  function Repeat(s: seq<byte>, n: nat): seq<byte> {
    if n == 0 then [] else s + Repeat(s, n - 1)
  }

  /** True when `b` does not occur in `s`. */
  predicate Free(s: seq<byte>, b: byte) {
    forall i :: 0 <= i < |s| ==> s[i] != b
  }

  /** The fields of `s` between occurrences of `sep`; the server-side
      reading of a comma- or semicolon-separated argument list. */
  function SplitOn(s: seq<byte>, sep: byte): (r: seq<seq<byte>>)
    ensures |r| >= 1
    ensures forall i :: 0 <= i < |r| ==> Free(r[i], sep)
    decreases |s|
  {
    if |s| == 0 then [[]]
    else if s[0] == sep then [[]] + SplitOn(s[1..], sep)
    else
      var t := SplitOn(s[1..], sep);
      [[s[0]] + t[0]] + t[1..]
  }

  lemma {:induction false} SplitOnFree(s: seq<byte>, sep: byte)
    requires Free(s, sep)
    ensures SplitOn(s, sep) == [s]
    decreases |s|
  {
    if |s| > 0 {
      SplitOnFree(s[1..], sep);
      assert [s[0]] + s[1..] == s;
    }
  }

  lemma {:induction false} SplitOnJoin(a: seq<byte>, sep: byte, b: seq<byte>)
    requires Free(a, sep)
    ensures SplitOn(a + [sep] + b, sep) == [a] + SplitOn(b, sep)
    decreases |a|
  {
    if |a| == 0 {
      assert a + [sep] + b == [sep] + b;
      assert ([sep] + b)[1..] == b;
    } else {
      assert (a + [sep] + b)[1..] == a[1..] + [sep] + b;
      SplitOnJoin(a[1..], sep, b);
      assert [a[0]] + a[1..] == a;
    }
  }

  /** Three separator-free fields joined by the separator split back. */
  lemma {:induction false} SplitThree(a: seq<byte>, b: seq<byte>, c: seq<byte>, sep: byte)
    requires Free(a, sep) && Free(b, sep) && Free(c, sep)
    ensures SplitOn(a + [sep] + b + [sep] + c, sep) == [a, b, c]
  {
    var bc := b + [sep] + c;
    assert a + [sep] + b + [sep] + c == a + [sep] + bc;
    SplitOnJoin(a, sep, bc);
    SplitOnJoin(b, sep, c);
    SplitOnFree(c, sep);
    assert SplitOn(bc, sep) == [b, c];
  }

  /** Reducing modulo 256 early does not change a later reduction. */
  lemma ModAddLeft(x: nat, y: nat)
    ensures (x % 0x100 + y) % 0x100 == (x + y) % 0x100
  {
    var q := x / 0x100;
    assert x == q * 0x100 + x % 0x100;
    ModMultiple(q, x % 0x100 + y);
  }

  lemma ModMultiple(q: nat, y: nat)
    ensures (q * 0x100 + y) % 0x100 == y % 0x100
  {
  }

  lemma WrappingAddMod(a: byte, b: byte, tail: nat)
    ensures (WrappingAdd(a, b) + tail) % 0x100 == (a + b + tail) % 0x100
  {
    ModAddLeft(a + b, tail);
  }

  lemma SumSingle(b: byte)
    ensures Sum([b]) == b
  {
    assert [b][..0] == [];
  }

  lemma WrappingAddTwice(a: byte, b: byte, c: byte, tail: nat)
    ensures (WrappingAdd(WrappingAdd(a, b), c) + tail) % 0x100 == (a + (b + c + tail)) % 0x100
  {
    WrappingAddMod(WrappingAdd(a, b), c, tail);
    WrappingAddMod(a, b, c + tail);
  }

  /** The sum of `s[i..j]`, computed on positions. */
  function SumRange(s: seq<byte>, i: nat, j: nat): nat
    requires i <= j <= |s|
    decreases j - i
  {
    if i == j then 0 else SumRange(s, i, j - 1) + s[j - 1]
  }

  lemma {:induction false} SumRangeFront(s: seq<byte>, i: nat, j: nat)
    requires i < j <= |s|
    ensures SumRange(s, i, j) == s[i] + SumRange(s, i + 1, j)
    decreases j - i
  {
    if i + 1 < j {
      SumRangeFront(s, i, j - 1);
    }
  }

  lemma {:induction false} SumRangeIsSum(s: seq<byte>, i: nat, j: nat)
    requires i <= j <= |s|
    ensures SumRange(s, i, j) == Sum(s[i..j])
    decreases j - i
  {
    if i < j {
      SumRangeIsSum(s, i, j - 1);
      assert s[i..j][..j - i - 1] == s[i..j - 1];
    }
  }
}

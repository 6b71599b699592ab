/** The integer formatting the source performs with `write!`: `{:x}`,
    `{:02x}` and `{}` (Rust's lower-case hex, zero-padded byte hex and
    decimal). */
module Fmt {
  import opened Types
  import opened Bytes
  import opened Util

  /** `0-9` or `a-f`: what Rust's `{:x}` produces. */
  predicate IsLowerHexDigit(b: byte) {
    (0x30 <= b <= 0x39) || (0x61 <= b <= 0x66)
  }

  predicate AllLowerHex(s: seq<byte>) {
    forall i :: 0 <= i < |s| ==> IsLowerHexDigit(s[i])
  }

  /** The lower-case digit for a value below 16. */
  function HexDigitChar(d: nat): (b: byte)
    requires d < 16
    ensures IsLowerHexDigit(b) && IsHexDigit(b)
    ensures DigitValue(b) == d
  {
    if d < 10 then 0x30 + d else 0x61 + (d - 10)
  }

  /** `{:02x}` of a byte: exactly two lower-case digits that decode back
      to the byte. */
  function Hex2(b: byte): (r: seq<byte>)
    ensures |r| == 2
    ensures AllLowerHex(r)
    ensures DecodeHex(r) == Some(b)
  {
    var r := [HexDigitChar(b / 16), HexDigitChar(b % 16)];
    assert HexValue(r[1..]) == b % 16;
    r
  }

  /** `{:x}`: lower-case hex without leading zeros (`0` for zero). */
  function HexNumber(n: nat): (r: seq<byte>)
    ensures |r| >= 1
    ensures AllLowerHex(r) && AllHex(r)
    ensures DecodeHex(r) == Some(n)
    ensures n > 0 ==> r[0] != 0x30
    decreases n
  {
    if n < 16 then
      var r := [HexDigitChar(n)];
      assert HexValue(r[1..]) == 0;
      r
    else
      var p := HexNumber(n / 16);
      var d := HexDigitChar(n % 16);
      DecodeHexAppend(p, d);
      assert (p + [d])[0] == p[0];
      p + [d]
  }

  /** Hex digits are never one of the protocol's separators. */
  lemma HexDigitsAreNotSeparators(s: seq<byte>)
    requires AllHex(s)
    ensures Free(s, COMMA) && Free(s, SEMI) && Free(s, COLON) && Free(s, DOT)
    ensures Free(s, HASH) && Free(s, STAR) && Free(s, DOLLAR)
  {
  }

  predicate IsDecimalDigit(b: byte) {
    0x30 <= b <= 0x39
  }

  predicate AllDecimal(s: seq<byte>) {
    forall i :: 0 <= i < |s| ==> IsDecimalDigit(s[i])
  }

  /** The base-10 reading of a digit string. */
  function DecimalValue(s: seq<byte>): nat
    requires AllDecimal(s)
  {
    if |s| == 0 then 0 else DecimalValue(s[..|s| - 1]) * 10 + (s[|s| - 1] - 0x30)
  }

  /** `{}` of an unsigned integer: decimal digits without leading zeros. */
  function Decimal(n: nat): (r: seq<byte>)
    ensures |r| >= 1
    ensures AllDecimal(r)
    ensures DecimalValue(r) == n
    ensures n > 0 ==> r[0] != 0x30
    decreases n
  {
    if n < 10 then
      var r := [0x30 + n];
      assert r[..0] == [];
      r
    else
      var p := Decimal(n / 10);
      var r := p + [0x30 + n % 10];
      assert r[..|r| - 1] == p;
      r
  }

  /** `{:02x}` of every byte in turn: the body `write_hex` emits. */
  function HexEncode(data: seq<byte>): (r: seq<byte>)
    ensures |r| == 2 * |data|
  {
    if |data| == 0 then [] else Hex2(data[0]) + HexEncode(data[1..])
  }

  /** Every byte becomes two lower-case digits that decode back to it. */
  lemma {:induction false} HexEncodeDigits(data: seq<byte>)
    ensures var r := HexEncode(data);
      AllLowerHex(r) && AllHex(r)
      && forall i :: 0 <= i < |data| ==> DecodeHex(r[2 * i..2 * i + 2]) == Some(data[i])
    decreases |data|
  {
    if |data| > 0 {
      var h := Hex2(data[0]);
      var t := HexEncode(data[1..]);
      HexEncodeDigits(data[1..]);
      var r := h + t;
      assert r[..2] == h;
      forall i | 1 <= i < |data|
        ensures r[2 * i..2 * i + 2] == t[2 * (i - 1)..2 * (i - 1) + 2]
      {
      }
    }
  }
}

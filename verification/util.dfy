/** The hex decoding helper every parser and the checksum check rely on
    (`decode_hex` in src/util.rs). */
module Util {
  import opened Types
  import opened Bytes

  /** `0-9`, `a-f` or `A-F`. */
  predicate IsHexDigit(b: byte) {
    (0x30 <= b <= 0x39) || (0x61 <= b <= 0x66) || (0x41 <= b <= 0x46)
  }

  predicate AllHex(s: seq<byte>) {
    forall i :: 0 <= i < |s| ==> IsHexDigit(s[i])
  }

  /** The value of one hex digit; upper- and lower-case letters agree. */
  function DigitValue(b: byte): (d: nat)
    requires IsHexDigit(b)
    ensures d < 16
  {
    if b <= 0x39 then b - 0x30
    else if b >= 0x61 then b - 0x61 + 10
    else b - 0x41 + 10
  }

  /** The big-endian base-16 reading of a digit string: the first digit
      is the most significant. Reference definition for `DecodeHex`. */
  function HexValue(s: seq<byte>): nat
    requires AllHex(s)
  {
    if |s| == 0 then 0 else DigitValue(s[0]) * Pow(16, |s| - 1) + HexValue(s[1..])
  }

  /** The loop of `decode_hex`: `acc` is the running `result`, each digit
      gives `result * 16 + digit`, and the first non-hex byte gives `None`. */
  function DecodeFrom(s: seq<byte>, acc: nat): (r: Option<nat>)
    ensures r.Some? <==> AllHex(s)
    decreases |s|
  {
    if |s| == 0 then Some(acc)
    else if !IsHexDigit(s[0]) then None
    else
      assert AllHex(s) <==> AllHex(s[1..]);
      DecodeFrom(s[1..], acc * 16 + DigitValue(s[0]))
  }

  /** Each step of the loop keeps `acc * 16^|s| + value(s)` fixed. */
  lemma {:induction false} DecodeFromValue(s: seq<byte>, acc: nat)
    requires AllHex(s)
    ensures DecodeFrom(s, acc) == Some(acc * Pow(16, |s|) + HexValue(s))
    decreases |s|
  {
    if |s| > 0 {
      var d := DigitValue(s[0]);
      var p := Pow(16, |s| - 1);
      var h := HexValue(s[1..]);
      DecodeFromValue(s[1..], acc * 16 + d);
      PowStep(|s|);
      Horner(acc, d, p, h, Pow(16, |s|), HexValue(s));
    }
  }

  lemma Horner(acc: nat, d: nat, p: nat, h: nat, q: nat, v: nat)
    requires q == 16 * p && v == d * p + h
    ensures (acc * 16 + d) * p + h == acc * q + v
  {
  }

  lemma PowStep(n: nat)
    requires n > 0
    ensures Pow(16, n) == 16 * Pow(16, n - 1)
  {
  }

  /** `decode_hex`: `Some` exactly when every byte is a hex digit, and
      then the big-endian base-16 value of the digits. */
  function DecodeHex(s: seq<byte>): (r: Option<nat>)
    ensures r.Some? <==> AllHex(s)
    ensures r.Some? ==> r.value == HexValue(s)
  {
    if AllHex(s) then DecodeFromValue(s, 0); DecodeFrom(s, 0) else DecodeFrom(s, 0)
  }

  /** A string of `n` hex digits is below 16^n, so at most sixteen
      digits fit the u64 the source accumulates into. */
  lemma {:induction false} HexValueBound(s: seq<byte>)
    requires AllHex(s)
    ensures HexValue(s) < Pow(16, |s|)
  {
    if |s| > 0 {
      var d := DigitValue(s[0]);
      var p := Pow(16, |s| - 1);
      var h := HexValue(s[1..]);
      HexValueBound(s[1..]);
      PowStep(|s|);
      DigitBound(HexValue(s), Pow(16, |s|), d, p, h);
    }
  }

  lemma DigitBound(v: nat, q: nat, d: nat, p: nat, h: nat)
    requires v == d * p + h && q == 16 * p
    requires d < 16 && h < p
    ensures v < q
  {
    assert d * p <= 15 * p;
  }

  /** Appending a digit multiplies the value so far by 16 and adds it. */
  lemma {:induction false} DecodeHexAppend(s: seq<byte>, b: byte)
    requires DecodeHex(s).Some? && IsHexDigit(b)
    ensures DecodeHex(s + [b]) == Some(DecodeHex(s).value * 16 + DigitValue(b))
  {
    assert AllHex(s + [b]);
    HexValueAppend(s, b);
  }

  lemma {:induction false} HexValueAppend(s: seq<byte>, b: byte)
    requires AllHex(s) && IsHexDigit(b)
    ensures AllHex(s + [b])
    ensures HexValue(s + [b]) == HexValue(s) * 16 + DigitValue(b)
    decreases |s|
  {
    assert AllHex(s + [b]);
    if |s| == 0 {
      assert s + [b] == [b];
    } else {
      var t := s + [b];
      assert t[1..] == s[1..] + [b];
      assert t[0] == s[0];
      HexValueAppend(s[1..], b);
      var d := DigitValue(s[0]);
      var p := Pow(16, |s| - 1);
      PowStep(|s|);
      assert HexValue(t) == d * Pow(16, |s|) + HexValue(s[1..]) * 16 + DigitValue(b);
      Distribute(d, p, HexValue(s[1..]));
    }
  }

  lemma Distribute(d: nat, p: nat, h: nat)
    ensures d * (16 * p) + h * 16 == (d * p + h) * 16
  {
  }

  /** ASCII lower-casing of one byte. */
  function Lower(b: byte): byte {
    if 0x41 <= b <= 0x5a then b + 0x20 else b
  }

  function LowerAll(s: seq<byte>): (r: seq<byte>)
    ensures |r| == |s|
  {
    seq(|s|, i requires 0 <= i < |s| => Lower(s[i]))
  }

  /** Case does not matter to `decode_hex`: `A-F` read as `a-f`. */
  lemma {:induction false} DecodeHexIgnoresCase(s: seq<byte>)
    ensures DecodeHex(LowerAll(s)) == DecodeHex(s)
  {
    forall i | 0 <= i < |s|
      ensures IsHexDigit(LowerAll(s)[i]) <==> IsHexDigit(s[i])
    {
    }
    if AllHex(s) {
      HexValueIgnoresCase(s);
    }
  }

  lemma {:induction false} HexValueIgnoresCase(s: seq<byte>)
    requires AllHex(s)
    ensures AllHex(LowerAll(s))
    ensures HexValue(LowerAll(s)) == HexValue(s)
    decreases |s|
  {
    assert AllHex(LowerAll(s));
    if |s| > 0 {
      assert LowerAll(s)[1..] == LowerAll(s[1..]);
      HexValueIgnoresCase(s[1..]);
    }
  }

  /** The three cases the source's own unit test checks. */
  lemma DecodeHexExamples()
    ensures DecodeHex([0x30, 0x30, 0x30, 0x61]) == Some(10)  // "000a"
    ensures DecodeHex([0x66, 0x30, 0x31]) == Some(3841)      // "f01"
    ensures DecodeHex([0x68, 0x69]) == None                  // "hi"
    ensures DecodeHex([]) == Some(0)
  {
    assert !IsHexDigit(0x68);
  }
}

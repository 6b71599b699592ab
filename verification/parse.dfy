/** The reply grammar of src/parse.rs that does not involve thread ids or
    stop replies: hex pairs and numbers, `OK`, `Exx`, the empty reply,
    memory contents and `qSymbol`. Every parser reads a complete packet
    body and returns either nothing (nom's `Error`; its `Incomplete` is
    read the same way) or the value and the unread rest of the input. */
module Parse {
  import opened Types
  import opened Bytes
  import opened Util
  import opened Fmt
  import Connection

  /** nom's `Done(rest, value)`. */
  datatype Parsed<+T> = Parsed(value: T, rest: seq<byte>)

  /** `ClientError`: a transport error, an `Exx` reply, the empty
      "unsupported" reply, or a reply the client could not parse. */
  datatype ClientError =
    | RspFailure(error: Connection.RspError)
    | ErrorPacket(code: byte)
    | Unsupported
    | Unrecognized

  /** `ClientResult<T>`. */
  type Reply<T> = Result<T, ClientError>

  const OK: seq<byte> := [0x4f, 0x4b]                                      // "OK"
  const LETTER_E: byte := 0x45                                             // 'E'
  const QSYMBOL: seq<byte> := [0x71, 0x53, 0x79, 0x6d, 0x62, 0x6f, 0x6c, 0x3a]  // "qSymbol:"

  predicate StartsWith(input: seq<byte>, t: seq<byte>) {
    |t| <= |input| && input[..|t|] == t
  }

  /** `tag!(t)`: the input after `t`, when it begins with `t`. */
  function Tag(input: seq<byte>, t: seq<byte>): (r: Option<seq<byte>>)
    ensures r.Some? <==> StartsWith(input, t)
    ensures r.Some? ==> input == t + r.value
  {
    if StartsWith(input, t) then
      assert input == input[..|t|] + input[|t|..];
      Some(input[|t|..])
    else None
  }

  /** `tag!` of a one-byte literal. */
  function TagByte(input: seq<byte>, b: byte): (r: Option<seq<byte>>)
    ensures r.Some? <==> |input| > 0 && input[0] == b
    ensures r.Some? ==> input == [b] + r.value
  {
    if |input| > 0 && input[0] == b then
      assert input == [b] + input[1..];
      Some(input[1..])
    else None
  }

  /** Two hex digits read big-endian. */
  lemma PairValue(a: byte, b: byte)
    requires IsHexDigit(a) && IsHexDigit(b)
    ensures AllHex([a, b])
    ensures HexValue([a, b]) == DigitValue(a) * 16 + DigitValue(b)
  {
    assert [a, b][1..] == [b];
    assert [b][1..] == [];
    assert Pow(16, 1) == 16 && Pow(16, 0) == 1;
    assert HexValue([b]) == DigitValue(b) * 1 + HexValue([]);
    assert HexValue([a, b]) == DigitValue(a) * 16 + HexValue([b]);
  }

  /** `parse_2_hex`: `take!(2)` and `decode_hex` of those two bytes,
      truncated `as u8`. */
  function Parse2Hex(input: seq<byte>): (r: Option<Parsed<byte>>)
    ensures r.Some? <==> |input| >= 2 && IsHexDigit(input[0]) && IsHexDigit(input[1])
    ensures r.Some? ==> r.value.rest == input[2..]
    ensures r.Some? ==> r.value.value == DigitValue(input[0]) * 16 + DigitValue(input[1])
  {
    if |input| < 2 then None
    else
      var pair := input[..2];
      assert pair == [input[0], input[1]];
      match DecodeHex(pair)
      case None => None
      case Some(v) =>
        PairValue(input[0], input[1]);
        Some(Parsed(v % 0x100, input[2..]))
  }

  /** `{:02x}` is read back by `parse_2_hex`, whatever follows. */
  lemma Parse2HexHex2(b: byte, rest: seq<byte>)
    ensures Parse2Hex(Hex2(b) + rest) == Some(Parsed(b, rest))
  {
    var h := Hex2(b);
    var s := h + rest;
    assert s[0] == h[0] && s[1] == h[1] && s[2..] == rest;
    assert h == [h[0], h[1]];
    PairValue(h[0], h[1]);
  }

  /** The longest run of hex pairs at the front of the input, read as
      bytes: the repetition inside `many1!(parse_2_hex)` and
      `fold_many1!(parse_2_hex, ..)`, which stops where `parse_2_hex`
      first fails. */
  function HexPairs(input: seq<byte>): (r: Parsed<seq<byte>>)
    ensures |input| == 2 * |r.value| + |r.rest|
    ensures Parse2Hex(r.rest).None?
    decreases |input|
  {
    match Parse2Hex(input)
    case None => Parsed([], input)
    case Some(p) =>
      var t := HexPairs(p.rest);
      Parsed([p.value] + t.value, t.rest)
  }

  /** The run leaves a suffix of the input unread. */
  lemma {:induction false} HexPairsRest(input: seq<byte>)
    ensures HexPairs(input).rest == input[|input| - |HexPairs(input).rest|..]
    decreases |input|
  {
    if Parse2Hex(input).Some? {
      var t := input[2..];
      HexPairsRest(t);
      var n := |HexPairs(t).rest|;
      assert t[|t| - n..] == input[|input| - n..];
    }
  }

  /** Byte `i` of the run is the value of digits `2i` and `2i+1`. */
  predicate PairAt(input: seq<byte>, i: nat, v: byte) {
    2 * i + 1 < |input| && IsHexDigit(input[2 * i]) && IsHexDigit(input[2 * i + 1])
    && v == DigitValue(input[2 * i]) * 16 + DigitValue(input[2 * i + 1])
  }

  /** Each byte of the run is read from its two digits, big-endian. */
  lemma {:induction false} HexPairsDecode(input: seq<byte>)
    ensures var r := HexPairs(input);
      forall i :: 0 <= i < |r.value| ==> PairAt(input, i, r.value[i])
    decreases |input|
  {
    var r := HexPairs(input);
    if |r.value| > 0 {
      var tail := input[2..];
      HexPairsDecode(tail);
      forall i | 0 <= i < |r.value|
        ensures PairAt(input, i, r.value[i])
      {
        HexPairsDecodeAt(input, tail, HexPairs(tail).value, i);
      }
    }
  }

  /** One position of `HexPairsDecode`, given the claim for the tail. */
  lemma HexPairsDecodeAt(input: seq<byte>, tail: seq<byte>, tv: seq<byte>, i: nat)
    requires Parse2Hex(input).Some? && tail == input[2..] && tv == HexPairs(tail).value
    requires forall j :: 0 <= j < |tv| ==> PairAt(tail, j, tv[j])
    requires i < |HexPairs(input).value|
    ensures PairAt(input, i, HexPairs(input).value[i])
  {
    var p := Parse2Hex(input).value;
    var r := HexPairs(input);
    assert r.value == [p.value] + tv;
    if i > 0 {
      assert PairAt(tail, i - 1, tv[i - 1]);
    }
  }

  /** `parse_hex_data`: at least one hex pair. */
  function ParseHexData(input: seq<byte>): (r: Option<Parsed<seq<byte>>>)
    ensures r.Some? <==> Parse2Hex(input).Some?
    ensures r.Some? ==> r.value == HexPairs(input) && |r.value.value| > 0
  {
    var h := HexPairs(input);
    if |h.value| == 0 then None else Some(h)
  }

  /** The data `write_hex` sends is read back by `parse_hex_data`,
      provided no further hex pair follows it. */
  lemma {:induction false} HexPairsHexEncode(data: seq<byte>, rest: seq<byte>)
    requires Parse2Hex(rest).None?
    ensures HexPairs(HexEncode(data) + rest) == Parsed(data, rest)
    decreases |data|
  {
    if |data| == 0 {
      assert HexEncode(data) + rest == rest;
    } else {
      var h := Hex2(data[0]);
      var e := HexEncode(data[1..]);
      assert HexEncode(data) + rest == h + (e + rest);
      Parse2HexHex2(data[0], e + rest);
      HexPairsHexEncode(data[1..], rest);
      assert [data[0]] + data[1..] == data;
    }
  }

  lemma ParseHexDataRoundTrip(data: seq<byte>, rest: seq<byte>)
    requires |data| > 0 && Parse2Hex(rest).None?
    ensures ParseHexData(HexEncode(data) + rest) == Some(Parsed(data, rest))
  {
    HexPairsHexEncode(data, rest);
  }

  /** A whole packet body written by `write_hex` is read back by
      `parse_hex_data` with nothing left over. */
  lemma ParseHexDataOfEncoding(data: seq<byte>)
    requires |data| > 0
    ensures ParseHexData(HexEncode(data)) == Some(Parsed(data, []))
  {
    HexPairsHexEncode(data, []);
    AppendNil(HexEncode(data));
  }

  /** The fold of `parse_hex_number` after its first pair: `acc * 256 +
      item` for every further pair. */
  function FoldPairs(input: seq<byte>, acc: nat): (r: Parsed<nat>)
    ensures r.rest == HexPairs(input).rest
    decreases |input|
  {
    match Parse2Hex(input)
    case None => Parsed(acc, input)
    case Some(p) => FoldPairs(p.rest, acc * 256 + p.value)
  }

  /** `parse_hex_number`: one or more hex pairs folded into a number. The
      source accumulates in a u64; more than eight pairs overflow it, and
      that case is not modelled (see `ParseHexNumberBound`). */
  function ParseHexNumber(input: seq<byte>): (r: Option<Parsed<nat>>)
    ensures r.Some? <==> Parse2Hex(input).Some?
    ensures r.Some? ==> r.value.rest == HexPairs(input).rest && |r.value.rest| < |input|
  {
    if Parse2Hex(input).None? then None else Some(FoldPairs(input, 0))
  }

  /** The fold reads the consumed digits as one big-endian base-16
      number; `pre` are digits already folded into `acc`. */
  lemma {:induction false} FoldPairsValue(pre: seq<byte>, acc: nat, input: seq<byte>)
    requires AllHex(pre) && acc == HexValue(pre)
    ensures var r := FoldPairs(input, acc);
      var used := input[..|input| - |r.rest|];
      AllHex(pre + used) && r.value == HexValue(pre + used)
    decreases |input|, 1
  {
    if Parse2Hex(input).None? {
      var r := FoldPairs(input, acc);
      assert pre + input[..|input| - |r.rest|] == pre;
    } else {
      FoldPairsValueStep(pre, acc, input);
    }
  }

  /** The fold after one more pair. */
  lemma {:induction false} FoldPairsValueStep(pre: seq<byte>, acc: nat, input: seq<byte>)
    requires AllHex(pre) && acc == HexValue(pre) && Parse2Hex(input).Some?
    ensures var r := FoldPairs(input, acc);
      var used := input[..|input| - |r.rest|];
      AllHex(pre + used) && r.value == HexValue(pre + used)
    decreases |input|, 0
  {
    var p := Parse2Hex(input).value;
    var acc' := acc * 0x100 + p.value as nat;
    var pre' := pre + [input[0], input[1]];
    PairPrefix(pre, acc, input, p, pre', acc');
    FoldPairsValue(pre', acc', p.rest);
    FoldUsed(pre, input, acc, p, pre', acc', FoldPairs(p.rest, acc'));
  }

  /** The digits folded so far, after one more pair. */
  lemma PairPrefix(pre: seq<byte>, acc: nat, input: seq<byte>, p: Parsed<byte>, pre': seq<byte>, acc': nat)
    requires AllHex(pre) && acc == HexValue(pre) && Parse2Hex(input) == Some(p)
    requires pre' == pre + [input[0], input[1]] && acc' == acc * 0x100 + p.value as nat
    ensures AllHex(pre') && acc' == HexValue(pre')
  {
    AppendPair(pre, input[0], input[1]);
  }

  /** The digits the fold consumes after the first pair, seen from
      before that pair. */
  lemma FoldUsed(pre: seq<byte>, input: seq<byte>, acc: nat, p: Parsed<byte>, pre': seq<byte>, acc': nat, r: Parsed<nat>)
    requires Parse2Hex(input) == Some(p) && pre' == pre + [input[0], input[1]]
    requires acc' == acc * 0x100 + p.value as nat && r == FoldPairs(p.rest, acc')
    requires |r.rest| <= |p.rest|
    requires var used' := p.rest[..|p.rest| - |r.rest|];
      AllHex(pre' + used') && r.value == HexValue(pre' + used')
    ensures var r := FoldPairs(input, acc);
      var used := input[..|input| - |r.rest|];
      AllHex(pre + used) && r.value == HexValue(pre + used)
  {
    FoldOne(input, p.value, p.rest, acc);
    UsedAfterPair(pre, input, |input| - |r.rest|);
  }

  lemma AppendPair(pre: seq<byte>, a: byte, b: byte)
    requires AllHex(pre) && IsHexDigit(a) && IsHexDigit(b)
    ensures AllHex(pre + [a, b])
    ensures HexValue(pre + [a, b]) == HexValue(pre) * 256 + (DigitValue(a) * 16 + DigitValue(b))
  {
    HexValueAppend(pre, a);
    HexValueAppend(pre + [a], b);
    assert pre + [a] + [b] == pre + [a, b];
  }

  lemma UsedAfterPair(pre: seq<byte>, input: seq<byte>, n: nat)
    requires 2 <= n <= |input|
    ensures pre + [input[0], input[1]] + input[2..][..n - 2] == pre + input[..n]
  {
    assert input[..n] == [input[0], input[1]] + input[2..][..n - 2];
  }

  /** `parse_hex_number` reads its pairs as one big-endian base-16
      number, so its value is `decode_hex` of the digits it consumed. */
  lemma {:induction false} ParseHexNumberValue(input: seq<byte>)
    requires ParseHexNumber(input).Some?
    ensures var r := ParseHexNumber(input).value;
      DecodeHex(input[..|input| - |r.rest|]) == Some(r.value)
  {
    var r := ParseHexNumber(input).value;
    var used := input[..|input| - |r.rest|];
    assert HexValue([]) == 0;
    FoldPairsValue([], 0, input);
    DecodeUsed(used, r.value);
  }

  lemma DecodeUsed(used: seq<byte>, v: nat)
    requires AllHex([] + used) && v == HexValue([] + used)
    ensures DecodeHex(used) == Some(v)
  {
    assert [] + used == used;
  }

  /** `k` hex pairs give a value below 256^k: at most eight pairs fit the
      u64 the source folds into. */
  lemma ParseHexNumberBound(input: seq<byte>)
    requires ParseHexNumber(input).Some?
    ensures var r := ParseHexNumber(input).value;
      r.value < Pow(16, |input| - |r.rest|)
  {
    ParseHexNumberValue(input);
    var r := ParseHexNumber(input).value;
    HexValueBound(input[..|input| - |r.rest|]);
  }

  /** The bytes of a number, big-endian, without leading zero bytes. */
  function BigEndianBytes(n: nat): (r: seq<byte>)
    ensures |r| > 0
    decreases n
  {
    if n < 0x100 then [n as byte] else BigEndianBytes(n / 0x100) + [(n % 0x100) as byte]
  }

  /** A number as a stub writes it for `parse_hex_number`: an even
      number of digits. */
  function NumberWire(n: nat): seq<byte> {
    HexEncode(BigEndianBytes(n))
  }

  /** Bytes read big-endian onto `acc`. */
  function FoldBytes(d: seq<byte>, acc: nat): nat
    decreases |d|
  {
    if |d| == 0 then acc else FoldBytes(d[1..], acc * 0x100 + d[0] as nat)
  }

  lemma {:induction false} FoldBytesAppend(d: seq<byte>, b: byte, acc: nat)
    ensures FoldBytes(d + [b], acc) == FoldBytes(d, acc) * 0x100 + b as nat
    decreases |d|
  {
    if |d| == 0 {
      assert d + [b] == [b];
      assert [b][1..] == [];
    } else {
      assert (d + [b])[1..] == d[1..] + [b];
      FoldBytesAppend(d[1..], b, acc * 0x100 + d[0] as nat);
    }
  }

  lemma {:induction false} FoldBytesBigEndian(n: nat)
    ensures FoldBytes(BigEndianBytes(n), 0) == n
    decreases n
  {
    if n < 0x100 {
      assert FoldBytes([n as byte], 0) == FoldBytes([], n);
    } else {
      FoldBytesBigEndian(n / 0x100);
      FoldBytesAppend(BigEndianBytes(n / 0x100), (n % 0x100) as byte, 0);
    }
  }

  /** The fold of `parse_hex_number` over encoded bytes. */
  lemma {:induction false} FoldPairsHexEncode(d: seq<byte>, acc: nat, rest: seq<byte>)
    requires Parse2Hex(rest).None?
    ensures FoldPairs(HexEncode(d) + rest, acc) == Parsed(FoldBytes(d, acc), rest)
    decreases |d|
  {
    if |d| == 0 {
      assert HexEncode(d) + rest == rest;
    } else {
      var e := HexEncode(d[1..]);
      var x := HexEncode(d) + rest;
      EncodeCons(d, rest);
      Parse2HexHex2(d[0], e + rest);
      FoldOne(x, d[0], e + rest, acc);
      FoldPairsHexEncode(d[1..], acc * 0x100 + d[0] as nat, rest);
    }
  }

  lemma EncodeCons(d: seq<byte>, rest: seq<byte>)
    requires |d| > 0
    ensures HexEncode(d) + rest == Hex2(d[0]) + (HexEncode(d[1..]) + rest)
  {
    assert HexEncode(d) == Hex2(d[0]) + HexEncode(d[1..]);
    Assoc(Hex2(d[0]), HexEncode(d[1..]), rest);
  }

  lemma FoldOne(x: seq<byte>, b: byte, tail: seq<byte>, acc: nat)
    requires Parse2Hex(x) == Some(Parsed(b, tail))
    ensures FoldPairs(x, acc) == FoldPairs(tail, acc * 0x100 + b as nat)
  {
  }

  /** `parse_hex_number` reads back a number written as hex pairs,
      provided no further hex pair follows. */
  lemma ParseHexNumberRoundTrip(n: nat, rest: seq<byte>)
    requires Parse2Hex(rest).None?
    ensures ParseHexNumber(NumberWire(n) + rest) == Some(Parsed(n, rest))
  {
    var d := BigEndianBytes(n);
    EncodeCons(d, rest);
    Parse2HexHex2(d[0], HexEncode(d[1..]) + rest);
    FoldPairsHexEncode(d, 0, rest);
    FoldBytesBigEndian(n);
  }

  /** `eof`. */
  predicate AtEnd(input: seq<byte>) {
    |input| == 0
  }

  /** A one-letter reply carrying two hex digits and nothing after them:
      `parse_error` (`Exx`) and `parse_stop_signal` (`Sxx`). */
  function LetterCode(letter: byte, input: seq<byte>): (r: Option<Parsed<byte>>)
    ensures r.Some? <==>
      |input| == 3 && input[0] == letter && IsHexDigit(input[1]) && IsHexDigit(input[2])
    ensures r.Some? ==>
      r.value.rest == [] && r.value.value == DigitValue(input[1]) * 16 + DigitValue(input[2])
  {
    match TagByte(input, letter)
    case None => None
    case Some(s) =>
      match Parse2Hex(s)
      case None => None
      case Some(p) => if AtEnd(p.rest) then Some(p) else None
  }

  lemma LetterCodeRoundTrip(letter: byte, code: byte)
    ensures LetterCode(letter, [letter] + Hex2(code)) == Some(Parsed(code, []))
  {
    Parse2HexHex2(code, []);
    assert Hex2(code) + [] == Hex2(code);
  }

  /** `parse_error`. */
  function ParseError(input: seq<byte>): (r: Option<Parsed<byte>>)
    ensures r.Some? <==> IsErrorReply(input)
    ensures r.Some? ==> r.value == Parsed(ErrorCode(input), [])
  {
    LetterCode(LETTER_E, input)
  }

  /** `E` and exactly two hex digits. */
  predicate IsErrorReply(input: seq<byte>) {
    |input| == 3 && input[0] == LETTER_E && IsHexDigit(input[1]) && IsHexDigit(input[2])
  }

  function ErrorCode(input: seq<byte>): byte
    requires IsErrorReply(input)
  {
    DigitValue(input[1]) * 16 + DigitValue(input[2])
  }

  /** `parse_ok`: exactly `OK`. */
  function ParseOk(input: seq<byte>): (r: Option<Parsed<()>>)
    ensures r.Some? <==> input == OK
    ensures r.Some? ==> r.value.rest == []
  {
    match Tag(input, OK)
    case None => None
    case Some(s) => if AtEnd(s) then Some(Parsed((), s)) else None
  }

  /** `parse_simple_reply`: `OK`, then `Exx`, then the empty packet. */
  function ParseSimpleReply(input: seq<byte>): (r: Option<Parsed<Reply<()>>>)
    ensures input == OK ==> r == Some(Parsed(Ok(()), []))
    ensures IsErrorReply(input) ==> r == Some(Parsed(Err(ErrorPacket(ErrorCode(input))), []))
    ensures input == [] ==> r == Some(Parsed(Err(Unsupported), []))
    ensures r.Some? <==> input == OK || IsErrorReply(input) || input == []
  {
    if ParseOk(input).Some? then Some(Parsed(Ok(()), []))
    else if ParseError(input).Some? then Some(Parsed(Err(ErrorPacket(ParseError(input).value.value)), []))
    else if AtEnd(input) then Some(Parsed(Err(Unsupported), input))
    else None
  }

  /** `parse_memory`: `Exx`, then hex data (with whatever follows it
      left unread), then the empty packet. */
  function ParseMemory(input: seq<byte>): (r: Option<Parsed<Reply<seq<byte>>>>)
    ensures IsErrorReply(input) ==> r == Some(Parsed(Err(ErrorPacket(ErrorCode(input))), []))
    ensures !IsErrorReply(input) && Parse2Hex(input).Some? ==>
      r == Some(Parsed(Ok(HexPairs(input).value), HexPairs(input).rest))
    ensures input == [] ==> r == Some(Parsed(Err(Unsupported), []))
    ensures r.Some? <==> IsErrorReply(input) || Parse2Hex(input).Some? || input == []
  {
    if ParseError(input).Some? then Some(Parsed(Err(ErrorPacket(ParseError(input).value.value)), []))
    else if ParseHexData(input).Some? then
      var d := ParseHexData(input).value;
      Some(Parsed(Ok(d.value), d.rest))
    else if AtEnd(input) then Some(Parsed(Err(Unsupported), input))
    else None
  }

  /** Memory sent with `write_hex` comes back as the same bytes. */
  lemma ParseMemoryRoundTrip(data: seq<byte>)
    requires |data| > 0 && !IsErrorReply(HexEncode(data))
    ensures ParseMemory(HexEncode(data)) == Some(Parsed(Ok(data), []))
  {
    ParseHexDataOfEncoding(data);
    ParseMemoryData(HexEncode(data), data);
  }

  lemma ParseMemoryData(input: seq<byte>, data: seq<byte>)
    requires !IsErrorReply(input) && ParseHexData(input) == Some(Parsed(data, []))
    ensures ParseMemory(input) == Some(Parsed(Ok(data), []))
  {
  }

  /** `E` is itself a hex digit, so an error lookalike with one digit too
      few or too many is read as memory contents. */
  lemma {:induction false} ErrorLookalikeIsData()
    ensures ParseMemory([0x45, 0x30]) == Some(Parsed(Ok([0xe0]), []))            // "E0"
    ensures ParseMemory([0x45, 0x30, 0x31, 0x32]) == Some(Parsed(Ok([0xe0, 0x12]), []))  // "E012"
  {
    var a: seq<byte> := [0x45, 0x30];
    assert Parse2Hex(a) == Some(Parsed(0xe0, []));
    HexPairsOne(a, []);
    var b: seq<byte> := [0x45, 0x30, 0x31, 0x32];
    var b2: seq<byte> := [0x31, 0x32];
    assert Parse2Hex(b2) == Some(Parsed(0x12, []));
    HexPairsOne(b2, []);
    assert Parse2Hex(b) == Some(Parsed(0xe0, b2));
    assert HexPairs(b) == Parsed([0xe0] + [0x12], []);
    assert [0xe0] + [0x12] == [0xe0, 0x12];
  }

  /** A run of one pair before a non-pair. */
  lemma HexPairsOne(input: seq<byte>, rest: seq<byte>)
    requires Parse2Hex(input).Some? && Parse2Hex(input).value.rest == rest
    requires Parse2Hex(rest).None?
    ensures HexPairs(input) == Parsed([Parse2Hex(input).value.value], rest)
  {
    var v := Parse2Hex(input).value.value;
    assert HexPairs(rest) == Parsed([], rest);
    assert [v] + [] == [v];
  }

  /** `parse_qsymbol`: `OK` (no more symbols wanted; anything after it is
      left unread), or `qSymbol:` and the hex-encoded name of the next
      symbol the stub wants. */
  function ParseQSymbol(input: seq<byte>): (r: Option<Parsed<Option<seq<byte>>>>)
    ensures StartsWith(input, OK) ==> r == Some(Parsed(None, input[2..]))
    ensures !StartsWith(input, OK) && StartsWith(input, QSYMBOL) ==>
      (r.Some? <==> Parse2Hex(input[8..]).Some?)
      && (r.Some? ==> r.value == Parsed(Some(HexPairs(input[8..]).value), HexPairs(input[8..]).rest))
    ensures !StartsWith(input, OK) && !StartsWith(input, QSYMBOL) ==> r.None?
  {
    match Tag(input, OK)
    case Some(s) => Some(Parsed(None, s))
    case None =>
      match Tag(input, QSYMBOL)
      case None => None
      case Some(s) =>
        match ParseHexData(s)
        case None => None
        case Some(d) => Some(Parsed(Some(d.value), d.rest))
  }

  lemma ParseQSymbolRoundTrip(name: seq<byte>)
    requires |name| > 0
    ensures ParseQSymbol(QSYMBOL + HexEncode(name)) == Some(Parsed(Some(name), []))
  {
    ParseHexDataOfEncoding(name);
    ParseQSymbolData(HexEncode(name), name);
  }

  lemma ParseQSymbolData(e: seq<byte>, name: seq<byte>)
    requires ParseHexData(e) == Some(Parsed(name, []))
    ensures ParseQSymbol(QSYMBOL + e) == Some(Parsed(Some(name), []))
  {
    var s := QSYMBOL + e;
    assert s[..8] == QSYMBOL && s[8..] == e;
    assert s[0] != OK[0];
  }
}

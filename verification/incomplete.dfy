/** Where the model and the source part ways on a complete packet. nom
    tells Incomplete (it wants more input) apart from Error; the model
    reads a sub-parser's Incomplete as that sub-parser's failure, so an
    optional or repeated part stops where its input runs out. Where no
    `eof` follows, a hex run ending in a lone digit and a `W`/`X` reply
    with nothing after the status are read here, where the source's
    `opt!`, `many1!` and `fold_many1!` pass the Incomplete on. These
    lemmas pin the inputs down. */
module IncompleteInput {
  import opened Types
  import opened Bytes
  import opened Util
  import opened Fmt
  import opened Ids
  import opened Parse
  import opened ThreadParse
  import opened StopReply
  import opened Client

  /** A lone digit at the very end of a hex run is left unread: `0a0`
      reads as the byte 0x0a with `0` left over, as data, as a number and
      as a memory reply. */
  lemma {:induction false} LoneTrailingDigitLeft()
    ensures ParseHexData([0x30, 0x61, 0x30]) == Some(Parsed([0x0a], [0x30]))      // "0a0"
    ensures ParseHexNumber([0x30, 0x61, 0x30]) == Some(Parsed(0x0a, [0x30]))
    ensures ParseMemory([0x30, 0x61, 0x30]) == Some(Parsed(Ok([0x0a]), [0x30]))
  {
    var a: seq<byte> := [0x30, 0x61, 0x30];
    var z: seq<byte> := [0x30];
    assert a[2..] == z;
    assert Parse2Hex(a) == Some(Parsed(0x0a, z));
    assert Parse2Hex(z).None?;
    HexPairsOne(a, z);
    assert FoldPairs(z, 0x0a) == Parsed(0x0a, z);
    assert !IsErrorReply(a);
  }

  /** A reply whose hex run ends in a lone digit is still understood:
      `0a0` to `m` gives the byte 0x0a, and `qSymbol:0a0` asks for the
      one-byte name 0x0a. */
  lemma {:induction false} LoneTrailingDigitReplies()
    ensures MemoryReply([0x30, 0x61, 0x30]) == Ok([0x0a])
    ensures QSymbolReply(QSYMBOL + [0x30, 0x61, 0x30]) == Ok(Some([0x0a]))
  {
    LoneTrailingDigitLeft();
    var q := QSYMBOL + [0x30, 0x61, 0x30];
    assert q[8..] == [0x30, 0x61, 0x30];
    assert q[0] == 0x71 && q[..2] != OK;
    assert q[..8] == QSYMBOL;
    assert HexPairs(q[8..]).value == [0x0a];
    QSymbolReplyOf(q);
  }

  /** With nothing after the status, `W05` and `X05` are read with no
      process, and `O0a0` reads the byte 0x0a with `0` left over. */
  lemma {:induction false} BareExitAndOddOutput()
    ensures ParseStopExit([LETTER_W, 0x30, 0x35]) == Some(Parsed((0x05, None), []))         // "W05"
    ensures ParseStopExitSignal([LETTER_X, 0x30, 0x35]) == Some(Parsed((0x05, None), []))   // "X05"
    ensures ParseInferiorOutput([LETTER_O, 0x30, 0x61, 0x30]) == Some(Parsed([0x0a], [0x30]))  // "O0a0"
  {
    var c: seq<byte> := [0x30, 0x35];
    assert Parse2Hex(c) == Some(Parsed(0x05, []));
    assert HexPairs(c[2..]) == Parsed([], []);
    assert FoldPairs([], 0x05) == Parsed(0x05, []);
    assert ProcessSuffix([]) == Parsed(None, []);
    assert [LETTER_W, 0x30, 0x35][1..] == c && [LETTER_X, 0x30, 0x35][1..] == c;
    LoneTrailingDigitLeft();
    assert [LETTER_O, 0x30, 0x61, 0x30][1..] == [0x30, 0x61, 0x30];
  }

  /** A three-digit number at the very end is read short: as written,
      `QC123` is the id 0x12 with `3` left over. */
  lemma {:induction false} LoneTrailingDigitQc()
    ensures ParseQcReply(AsWritten, QC + [0x31, 0x32, 0x33]) == Some(Parsed(ProcessId(Id(0x12), Any), [0x33]))
  {
    var d: seq<byte> := [0x31, 0x32];
    var z: seq<byte> := [0x33];
    ShortRead(d, z, 0x12);
    QcOf(AsWritten, d + z);
    assert QC + [0x31, 0x32, 0x33] == QC + (d + z);
  }

  /** The same in a list: as written, `123` is the one id 0x12 with `3`
      left over. */
  lemma {:induction false} LoneTrailingDigitList()
    ensures ParseThreadIdList(AsWritten, [0x31, 0x32, 0x33]) == Some(Parsed([ProcessId(Id(0x12), Any)], [0x33]))
  {
    var d: seq<byte> := [0x31, 0x32];
    var z: seq<byte> := [0x33];
    ShortRead(d, z, 0x12);
    assert MoreThreadIds(AsWritten, z) == Parsed([], z);
    ListOf(AsWritten, d + z, ProcessId(Id(0x12), Any), z, [], z);
    assert d + z == [0x31, 0x32, 0x33];
    assert [ProcessId(Id(0x12), Any)] + [] == [ProcessId(Id(0x12), Any)];
  }

  /** A list is its first id and the `,id` tail after it. */
  lemma ListOf(v: Variant, input: seq<byte>, p: ProcessId, tail: seq<byte>, ps: seq<ProcessId>, z: seq<byte>)
    requires ReadThreadId(v, input) == Some(Parsed(p, tail)) && MoreThreadIds(v, tail) == Parsed(ps, z)
    ensures ParseThreadIdList(v, input) == Some(Parsed([p] + ps, z))
  {
  }

  /** `qC` reads whatever the thread-id parser reads after `QC`. */
  lemma QcOf(v: Variant, x: seq<byte>)
    ensures ParseQcReply(v, QC + x) == ReadThreadId(v, x)
  {
    assert (QC + x)[..2] == QC && (QC + x)[2..] == x;
  }

  /** Two digits that are neither `0` nor `-1`, followed by bytes that
      start no further pair, read as a bare pid. */
  lemma ShortRead(d: seq<byte>, rest: seq<byte>, v: byte)
    requires |d| == 2 && d[0] != ZERO && d[0] != MINUS && Parse2Hex(d) == Some(Parsed(v, []))
    requires Parse2Hex(rest).None?
    ensures ParseThreadId(d + rest) == Some(Parsed(ProcessId(Id(v as u32), Any), rest))
  {
    var input := d + rest;
    assert input[..2] == d && input[2..] == rest;
    assert Parse2Hex(input) == Some(Parsed(v, rest));
    assert FoldPairs(rest, v as nat) == Parsed(v as nat, rest);
    assert ParseHexNumber(input) == Some(Parsed(v as nat, rest));
    ElementFromNumber(input, Parsed(v as nat, rest));
  }
}

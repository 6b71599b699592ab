/** Process and thread identifiers (`Id`, `ProcessId` in src/low.rs) and
    the bytes `write_thread_id` puts on the wire for them. */
module Ids {
  import opened Types
  import opened Bytes
  import opened Fmt
  import Util

  /** Part of a process id: a concrete number, or the special forms
      "all" (`-1`) and "any" (`0`). */
  datatype Id = Id(value: u32) | All | Any

  datatype ProcessId = ProcessId(pid: Id, tid: Id)

  /** A concrete id may not be 0: on the wire that spelling means Any. */
  predicate ValidId(i: Id) {
    i.Id? ==> i.value != 0
  }

  predicate ValidProcessId(p: ProcessId) {
    ValidId(p.pid) && ValidId(p.tid)
  }

  const I32_LIMIT: int := 0x8000_0000

  /** `ProcessId::new`: the pid must be positive, as must the tid when one
      is given; without a tid the thread part is Any. */
  function NewProcessId(pid: int, tid: Option<int>): (r: ProcessId)
    requires 0 < pid < I32_LIMIT
    requires tid.Some? ==> 0 < tid.value < I32_LIMIT
    ensures ValidProcessId(r)
    ensures r.pid.Id? && r.pid.value == pid
    ensures r.tid.Any? <==> tid.None?
    ensures tid.Some? ==> r.tid.Id? && r.tid.value == tid.value
  {
    ProcessId(Id(pid), if tid.Some? then Id(tid.value) else Any)
  }

  /** Byte order of the host the source is compiled for. */
  datatype Endian = BigEndian | LittleEndian

  /** Byte `k` (0 = least significant) of a u32. */
  function ByteOf(v: u32, k: nat): byte
    requires k < 4
  {
    if k == 0 then v % 0x100
    else if k == 1 then (v / 0x100) % 0x100
    else if k == 2 then (v / 0x1_0000) % 0x100
    else v / 0x100_0000
  }

  /** Reverses the four bytes of a u32. */
  function ByteSwap32(v: u32): (r: u32)
    ensures forall k :: 0 <= k < 4 ==> ByteOf(r, k) == ByteOf(v, 3 - k)
  {
    var r := ByteOf(v, 0) * 0x100_0000 + ByteOf(v, 1) * 0x1_0000 + ByteOf(v, 2) * 0x100 + ByteOf(v, 3);
    Assemble(ByteOf(v, 0), ByteOf(v, 1), ByteOf(v, 2), ByteOf(v, 3));
    r
  }

  lemma Assemble(b3: byte, b2: byte, b1: byte, b0: byte)
    ensures var x := b3 * 0x100_0000 + b2 * 0x1_0000 + b1 * 0x100 + b0;
      x < 0x1_0000_0000 && ByteOf(x, 0) == b0 && ByteOf(x, 1) == b1
      && ByteOf(x, 2) == b2 && ByteOf(x, 3) == b3
  {
    var x := b3 * 0x100_0000 + b2 * 0x1_0000 + b1 * 0x100 + b0;
    Split8(x, b3 * 0x1_0000 + b2 * 0x100 + b1, b0);
    Split8(b3 * 0x1_0000 + b2 * 0x100 + b1, b3 * 0x100 + b2, b1);
    Split16(x, b3 * 0x100 + b2, b1 * 0x100 + b0);
    Split8(b3 * 0x100 + b2, b3, b2);
    Split24(x, b3, b2 * 0x1_0000 + b1 * 0x100 + b0);
  }

  /** Division with remainder by the constant byte weights. */
  lemma Split8(x: int, q: int, r: int)
    requires 0 <= r < 0x100 && x == q * 0x100 + r
    ensures x / 0x100 == q && x % 0x100 == r
  {
  }

  lemma Split16(x: int, q: int, r: int)
    requires 0 <= r < 0x1_0000 && x == q * 0x1_0000 + r
    ensures x / 0x1_0000 == q
  {
  }

  lemma Split24(x: int, q: int, r: int)
    requires 0 <= r < 0x100_0000 && x == q * 0x100_0000 + r
    ensures x / 0x100_0000 == q
  {
  }

  /** `u32::to_be`: the identity on a big-endian host; on a little-endian
      host the bytes come out in reverse order. */
  function ToBe(v: u32, host: Endian): (r: u32)
    ensures host == BigEndian ==> r == v
    ensures host == LittleEndian ==> forall k :: 0 <= k < 4 ==> ByteOf(r, k) == ByteOf(v, 3 - k)
  {
    if host == BigEndian then v else ByteSwap32(v)
  }

  /** `to_be` undoes itself on either host. */
  lemma ToBeInvolution(v: u32, host: Endian)
    ensures ToBe(ToBe(v, host), host) == v
  {
    if host == LittleEndian {
      var r := ToBe(ToBe(v, host), host);
      assert forall k :: 0 <= k < 4 ==> ByteOf(r, k) == ByteOf(v, k);
      Disassemble(r);
      Disassemble(v);
    }
  }

  /** Hence distinct numbers stay distinct after `to_be`, and only 0 maps
      to 0. */
  lemma ToBeInjective(v: u32, w: u32, host: Endian)
    ensures ToBe(v, host) == ToBe(w, host) ==> v == w
    ensures ToBe(v, host) == 0 <==> v == 0
  {
    ToBeInvolution(v, host);
    ToBeInvolution(w, host);
    ToBeInvolution(0, host);
    assert ToBe(0, host) == 0 by {
      if host == LittleEndian {
        Disassemble(ToBe(0, host));
      }
    }
  }

  /** The spelling of one id element: hex, `-1` or `0`. */
  function IdWire(i: Id, host: Endian): seq<byte> {
    match i
    case Id(v) => HexNumber(ToBe(v, host))
    case All => [MINUS, 0x31]
    case Any => [0x30]
  }

  /** The bytes `write_thread_id` writes, as the code stands: `p`, then
      for a concrete pid its hex (after `to_be`) and `.` and the thread
      element; for an All or Any pid only `-1` or `0`, dropping the tid.
      What the bytes say is stated by `ThreadIdBytesSpellsOnWire` and, read
      back, by `ThreadParse.HostThreadIdReadBack`. */
  function ThreadIdBytes(p: ProcessId, host: Endian): (r: seq<byte>)
    ensures |r| >= 2 && r[0] == 0x70
    ensures Free(r, DOT) <==> !p.pid.Id?
    ensures !p.pid.Id? ==> |r| <= 3
  {
    match p.pid
    case Id(_) =>
      var r := [0x70] + IdWire(p.pid, host) + [DOT] + IdWire(p.tid, host);
      assert r[1 + |IdWire(p.pid, host)|] == DOT;
      r
    case All => [0x70, MINUS, 0x31]
    case Any => [0x70, 0x30]
  }

  /** The corrected writer: the id values are formatted as they are,
      with no host-dependent byte swap. */
  function ThreadIdWire(p: ProcessId): seq<byte> {
    ThreadIdBytes(p, BigEndian)
  }

  /** The id whose plain spelling `write_thread_id` emits for `p`: each
      concrete number as it stands after `to_be`. */
  function OnWireElement(i: Id, host: Endian): (r: Id)
    ensures ValidId(r) <==> ValidId(i)
    ensures r.Id? <==> i.Id?
    ensures host == BigEndian ==> r == i
  {
    match i
    case Id(v) =>
      ToBeInjective(v, 0, host);
      Id(ToBe(v, host))
    case All => All
    case Any => Any
  }

  function OnWire(p: ProcessId, host: Endian): (r: ProcessId)
    ensures ValidProcessId(r) <==> ValidProcessId(p)
    ensures (r.pid.Id? <==> p.pid.Id?) && (r.tid == All <==> p.tid == All)
    ensures host == BigEndian ==> r == p
  {
    ProcessId(OnWireElement(p.pid, host), OnWireElement(p.tid, host))
  }

  /** Neither `to_be` nor `OnWire` loses information: different ids
      stay different. */
  lemma OnWireElementInjective(i: Id, j: Id, host: Endian)
    ensures OnWireElement(i, host) == OnWireElement(j, host) ==> i == j
  {
    if i.Id? && j.Id? {
      ToBeInjective(i.value, j.value, host);
    }
  }

  lemma OnWireInjective(p: ProcessId, q: ProcessId, host: Endian)
    ensures OnWire(p, host) == OnWire(q, host) ==> p == q
  {
    OnWireElementInjective(p.pid, q.pid, host);
    OnWireElementInjective(p.tid, q.tid, host);
  }

  /** On any host, `write_thread_id` spells the id `OnWire(p, host)` in
      the corrected, swap-free form; on a big-endian host that id is `p`
      itself. */
  lemma ThreadIdBytesSpellsOnWire(p: ProcessId, host: Endian)
    ensures ThreadIdBytes(p, host) == ThreadIdWire(OnWire(p, host))
  {
    assert IdWire(p.pid, host) == IdWire(OnWireElement(p.pid, host), BigEndian);
    assert IdWire(p.tid, host) == IdWire(OnWireElement(p.tid, host), BigEndian);
  }

  /** A u32 is the sum of its four bytes at their weights. */
  lemma Disassemble(v: u32)
    ensures v == ByteOf(v, 3) * 0x100_0000 + ByteOf(v, 2) * 0x1_0000 + ByteOf(v, 1) * 0x100 + ByteOf(v, 0)
  {
    var q1 := v / 0x100;
    var q2 := q1 / 0x100;
    var q3 := q2 / 0x100;
    Split16(v, q2, (q1 % 0x100) * 0x100 + v % 0x100);
    Split24(v, q3, (q2 % 0x100) * 0x1_0000 + (q1 % 0x100) * 0x100 + v % 0x100);
  }

  lemma SwapOf1234()
    ensures ToBe(0x1234, LittleEndian) == 0x3412_0000
  {
    var x := ToBe(0x1234, LittleEndian);
    assert ByteOf(0x1234, 0) == 0x34 && ByteOf(0x1234, 1) == 0x12;
    assert ByteOf(0x1234, 2) == 0 && ByteOf(0x1234, 3) == 0;
    assert ByteOf(x, 0) == 0 && ByteOf(x, 1) == 0 && ByteOf(x, 2) == 0x12 && ByteOf(x, 3) == 0x34;
    Disassemble(x);
  }

  /** On a little-endian host `to_be` swaps the bytes first, so pid 0x1234
      goes out as `p34120000`: a different process. */
  lemma LittleEndianThreadIdCounterexample()
    ensures ToBe(0x1234, LittleEndian) == 0x3412_0000
    ensures ThreadIdBytes(ProcessId(Id(0x1234), Any), LittleEndian)
         != ThreadIdWire(ProcessId(Id(0x1234), Any))
  {
    SwapOf1234();
    SwappedIdDiffers(0x1234, ToBe(0x1234, LittleEndian));
  }

  /** Two different pids written with an Any thread on a big-endian host
      have different spellings. */
  lemma SwappedIdDiffers(v: u32, w: u32)
    requires v != w
    ensures ThreadIdBytes(ProcessId(Id(w), Any), BigEndian)
         != ThreadIdBytes(ProcessId(Id(v), Any), BigEndian)
  {
    var a := ThreadIdBytes(ProcessId(Id(w), Any), BigEndian);
    var b := ThreadIdBytes(ProcessId(Id(v), Any), BigEndian);
    assert a[1..|a| - 2] == HexNumber(w);
    assert b[1..|b| - 2] == HexNumber(v);
    assert Util.DecodeHex(HexNumber(w)) != Util.DecodeHex(HexNumber(v));
  }
}

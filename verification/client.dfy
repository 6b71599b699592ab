/** The client of src/client.rs: how a reply packet is read (skipping
    corrupt packets and handing notifications on), the payload each request
    writes, and the client state a reply updates. Each request is one
    packet sent with the connection's acknowledgment discipline, followed
    by one reply packet. */
module Client {
  import opened Types
  import opened Bytes
  import opened Util
  import opened Fmt
  import opened Ids
  import opened Connection
  import opened Reader
  import opened Parse
  import ThreadParse

  /** What the source leaves open and the model makes a parameter: the
      byte order of the host (`to_be` in `write_thread_id` depends on it)
      and the reading of `read_packet` the client runs, as written or
      corrected. */
  datatype Build = Build(host: Endian, reading: Variant)

  /** `GdbRspClient`, without its channels and the `queries` list. */
  datatype Client = Client(conn: Conn, nonStop: bool, requireAcks: bool, currentThread: ProcessId, build: Build)

  /** The end of one request: its answer, the new client, the input left
      unread and every byte written. */
  datatype Outcome<T> = Outcome(result: Reply<T>, client: Client, input: seq<byte>, output: seq<byte>)

  /** `dispatch_notification`, which the source calls but does not define:
      here a function of the notification's contents. */
  type Dispatch = seq<byte> -> Result<(), RspError>

  /** Between requests no packet is open and the connection is a client's. */
  predicate Ready(cl: Client) {
    cl.conn.inPacket == 0 && cl.conn.isClient
  }

  /** Only the connection differs between `a` and `b`. */
  predicate OnlyConnChanged(a: Client, b: Client) {
    && b.nonStop == a.nonStop && b.requireAcks == a.requireAcks && b.currentThread == a.currentThread
    && b.build == a.build
  }

  /** The output begins with `payload`, framed as a normal packet. */
  predicate Sent(out: seq<byte>, payload: seq<byte>) {
    |Frame(DOLLAR, payload)| <= |out| && out[..|Frame(DOLLAR, payload)|] == Frame(DOLLAR, payload)
  }

  lemma SentExtends(out: seq<byte>, more: seq<byte>, payload: seq<byte>)
    requires Sent(out, payload)
    ensures Sent(out + more, payload)
  {
    assert (out + more)[..|Frame(DOLLAR, payload)|] == out[..|Frame(DOLLAR, payload)|];
  }

  /** `GdbRspClient::new`: a client connection with acking on, all-stop
      mode, and no current thread. */
  function NewClient(build: Build): (cl: Client)
    ensures Ready(cl) && cl.conn.acking && cl.conn.lastPacket == [] && cl.conn.maxRetries.None?
    ensures !cl.nonStop && !cl.requireAcks
    ensures cl.currentThread == ProcessId(Any, Any) && cl.build == build
  {
    Client(NewConn(true), false, false, ProcessId(Any, Any), build)
  }

  // ---------------------------------------------------------------------
  // Reading a reply

  /** Every byte is an acknowledgment. */
  predicate Acks(out: seq<byte>) {
    forall i :: 0 <= i < |out| ==> out[i] == PLUS || out[i] == MINUS
  }

  /** `s` is what is left of `t` after reading some of it. */
  predicate Suffix(s: seq<byte>, t: seq<byte>) {
    |s| <= |t| && s == t[|t| - |s|..]
  }

  lemma SuffixTrans(a: seq<byte>, b: seq<byte>, c: seq<byte>)
    requires Suffix(a, b) && Suffix(b, c)
    ensures Suffix(a, c)
  {
    assert c[|c| - |b|..][|b| - |a|..] == c[|c| - |a|..];
  }

  lemma AcksAppend(a: seq<byte>, b: seq<byte>)
    requires Acks(a) && Acks(b)
    ensures Acks(a + b)
  {
  }

  /** One `read_packet` leaves a suffix of its input, writes at most an
      acknowledgment, and consumes input unless it ran out. */
  lemma ReadPacketShape(rd: Variant, c: Conn, input: seq<byte>)
    ensures var p := ReadPacketIn(rd, c, input);
      && Suffix(p.input, input) && Acks(p.output) && (!c.acking ==> p.output == [])
      && (p.result != Err(IOError) ==> |p.input| < |input|)
  {
  }

  /** `read_packet_with_retries`: read packets until a normal one arrives;
      a packet with a bad checksum is skipped (it has been NAKed), a
      notification is handed to `dispatch`, whose error ends the read, and
      any other error is returned. With `read_packet` as written the
      first read already fails, so no reply is ever returned. */
  function ReadPacketWithRetries(c: Conn, rd: Variant, dispatch: Dispatch, input: seq<byte>): (r: Step<seq<byte>>)
    ensures r.conn == c
    ensures Suffix(r.input, input)
    ensures Acks(r.output)
    ensures !c.acking ==> r.output == []
    ensures rd == AsWritten ==> r == Step(Err(IOError), c, [], [])
    decreases |input|
  {
    var p := ReadPacketIn(rd, c, input);
    ReadPacketShape(rd, c, input);
    if p.result.Ok? && p.result.value.0 == Normal then
      Step(Ok(p.result.value.1), c, p.input, p.output)
    else if p.result.Ok? && dispatch(p.result.value.1).Err? then
      Step(Err(dispatch(p.result.value.1).error), c, p.input, p.output)
    else if p.result.Ok? || p.result.error == InvalidChecksum then
      var t := ReadPacketWithRetries(c, rd, dispatch, p.input);
      SuffixTrans(t.input, p.input, input);
      AcksAppend(p.output, t.output);
      Step(t.result, c, t.input, p.output + t.output)
    else
      Step(Err(p.result.error), c, p.input, p.output)
  }

  /** A packet the client reads past on its way to the reply: a normal
      packet whose checksum digits are wrong, or a notification. */
  datatype Noise = Corrupt(payload: seq<byte>, n1: byte, n2: byte) | Note(payload: seq<byte>)

  function NoiseFrame(n: Noise): seq<byte> {
    match n
    case Corrupt(p, n1, n2) => [DOLLAR] + p + [HASH, n1, n2]
    case Note(p) => Frame(PERCENT, p)
  }

  function NoiseWire(ns: seq<Noise>): seq<byte> {
    if |ns| == 0 then [] else NoiseFrame(ns[0]) + NoiseWire(ns[1..])
  }

  /** The client NAKs each corrupt packet and says nothing to a notification. */
  function NoiseAcks(ns: seq<Noise>): seq<byte> {
    if |ns| == 0 then [] else (if ns[0].Corrupt? then [MINUS] else []) + NoiseAcks(ns[1..])
  }

  /** A packet that a client reads whole and then passes over. */
  predicate Skippable(dispatch: Dispatch, n: Noise) {
    && Free(n.payload, HASH) && Free(n.payload, STAR)
    && match n
       case Corrupt(p, n1, n2) => DecodeHex([n1, n2]) != Some(Checksum(p))
       case Note(p) => dispatch(p).Ok?
  }

  /** While acking, the reply is the first normal packet with a good
      checksum: corrupt packets before it are NAKed and skipped,
      notifications are dispatched, and the reply itself is acknowledged. */
  lemma {:induction false} RetriesReachReply(c: Conn, dispatch: Dispatch, ns: seq<Noise>, reply: seq<byte>, rest: seq<byte>)
    requires c.acking && c.isClient
    requires forall i :: 0 <= i < |ns| ==> Skippable(dispatch, ns[i])
    requires Free(reply, HASH) && Free(reply, STAR)
    ensures ReadPacketWithRetries(c, Corrected, dispatch, NoiseWire(ns) + (Frame(DOLLAR, reply) + rest))
      == Step(Ok(reply), c, rest, NoiseAcks(ns) + [PLUS])
    decreases |ns|
  {
    if |ns| == 0 {
      assert NoiseWire(ns) + (Frame(DOLLAR, reply) + rest) == Frame(DOLLAR, reply) + rest;
      RetriesAtReply(c, dispatch, reply, rest);
      assert NoiseAcks(ns) + [PLUS] == [PLUS];
    } else {
      var suffix := Frame(DOLLAR, reply) + rest;
      RetriesReachReply(c, dispatch, ns[1..], reply, rest);
      SkipOne(c, dispatch, ns[0], NoiseWire(ns[1..]) + suffix);
      NoiseCons(ns, suffix);
    }
  }

  lemma NoiseCons(ns: seq<Noise>, suffix: seq<byte>)
    requires |ns| > 0
    ensures NoiseWire(ns) + suffix == NoiseFrame(ns[0]) + (NoiseWire(ns[1..]) + suffix)
    ensures NoiseAcks(ns) + [PLUS] == NoiseAcks([ns[0]]) + (NoiseAcks(ns[1..]) + [PLUS])
  {
    var w := NoiseWire(ns);
    assert w == NoiseFrame(ns[0]) + NoiseWire(ns[1..]);
    Assoc(NoiseFrame(ns[0]), NoiseWire(ns[1..]), suffix);
    AcksCons(ns);
  }

  lemma AcksCons(ns: seq<Noise>)
    requires |ns| > 0
    ensures NoiseAcks(ns) + [PLUS] == NoiseAcks([ns[0]]) + (NoiseAcks(ns[1..]) + [PLUS])
  {
    assert [ns[0]][1..] == [];
    var h := if ns[0].Corrupt? then [MINUS] else [];
    assert NoiseAcks([ns[0]]) == h;
    assert NoiseAcks(ns) == h + NoiseAcks(ns[1..]);
  }

  /** A good reply straight away is returned, and acknowledged while acking. */
  lemma RetriesAtReply(c: Conn, dispatch: Dispatch, reply: seq<byte>, rest: seq<byte>)
    requires c.isClient
    requires Free(reply, HASH) && Free(reply, STAR)
    ensures ReadPacketWithRetries(c, Corrected, dispatch, Frame(DOLLAR, reply) + rest)
      == Step(Ok(reply), c, rest, if c.acking then [PLUS] else [])
  {
    var input := [] + Frame(DOLLAR, reply) + rest;
    assert Frame(DOLLAR, reply) + rest == input;
    FrameRoundTrip(c, [], reply, rest);
    RetriesAtNormal(c, dispatch, input);
  }

  /** Reading past one skippable packet. */
  lemma SkipOne(c: Conn, dispatch: Dispatch, n: Noise, tail: seq<byte>)
    requires c.acking && c.isClient && Skippable(dispatch, n)
    ensures var t := ReadPacketWithRetries(c, Corrected, dispatch, tail);
      ReadPacketWithRetries(c, Corrected, dispatch, NoiseFrame(n) + tail)
      == Step(t.result, c, t.input, NoiseAcks([n]) + t.output)
  {
    match n
    case Corrupt(p, n1, n2) =>
      assert [n][1..] == [];
      assert NoiseAcks([n]) == [MINUS];
      BadChecksumRejected(c, p, n1, n2, tail);
      RetriesAfterSkip(c, dispatch, NoiseFrame(n) + tail);
    case Note(p) =>
      var t := Trailer(Checksum(p));
      assert NoiseFrame(n) + tail == [PERCENT] + p + [HASH, t[1], t[2]] + tail;
      assert [n][1..] == [];
      assert NoiseAcks([n]) == [];
      NotificationNotAcknowledged(c, p, t[1], t[2], tail);
      RetriesAfterSkip(c, dispatch, NoiseFrame(n) + tail);
  }

  /** One turn of the loop that goes round again. */
  lemma RetriesAfterSkip(c: Conn, dispatch: Dispatch, input: seq<byte>)
    requires var p := ReadPacket(c, input);
      p.result == Err(InvalidChecksum)
      || (p.result.Ok? && p.result.value.0 == Notification && dispatch(p.result.value.1).Ok?)
    ensures var p := ReadPacket(c, input);
      var t := ReadPacketWithRetries(c, Corrected, dispatch, p.input);
      ReadPacketWithRetries(c, Corrected, dispatch, input) == Step(t.result, c, t.input, p.output + t.output)
  {
  }

  /** The turn of the loop that returns a normal packet. */
  lemma RetriesAtNormal(c: Conn, dispatch: Dispatch, input: seq<byte>)
    requires var p := ReadPacket(c, input); p.result.Ok? && p.result.value.0 == Normal
    ensures var p := ReadPacket(c, input);
      ReadPacketWithRetries(c, Corrected, dispatch, input) == Step(Ok(p.result.value.1), c, p.input, p.output)
  {
  }

  /** A notification whose dispatch fails ends the read with that error,
      leaving the packets after it unread. */
  lemma NotificationErrorEnds(c: Conn, dispatch: Dispatch, note: seq<byte>, rest: seq<byte>)
    requires c.isClient && Free(note, HASH) && Free(note, STAR)
    requires dispatch(note).Err?
    ensures ReadPacketWithRetries(c, Corrected, dispatch, Frame(PERCENT, note) + rest)
      == Step(Err(dispatch(note).error), c, rest, [])
  {
    var t := Trailer(Checksum(note));
    assert Frame(PERCENT, note) + rest == [PERCENT] + note + [HASH, t[1], t[2]] + rest;
    NotificationNotAcknowledged(c, note, t[1], t[2], rest);
    RetriesAtNotification(c, dispatch, Frame(PERCENT, note) + rest);
  }

  lemma RetriesAtNotification(c: Conn, dispatch: Dispatch, input: seq<byte>)
    requires var p := ReadPacket(c, input);
      p.result.Ok? && p.result.value.0 == Notification && dispatch(p.result.value.1).Err?
    ensures var p := ReadPacket(c, input);
      ReadPacketWithRetries(c, Corrected, dispatch, input) == Step(Err(dispatch(p.result.value.1).error), c, p.input, p.output)
  {
  }

  // ---------------------------------------------------------------------
  // Reading the reply's meaning

  /** The parsing half of `read_simple_reply`: `OK` succeeds, `Exx` is the
      stub's error number, the empty packet means unsupported, and any
      other reply is unrecognized. */
  function SimpleReply(contents: seq<byte>): (r: Reply<()>)
    ensures r.Ok? <==> contents == OK
    ensures r == Err(Unsupported) <==> contents == []
    ensures IsErrorReply(contents) ==> r == Err(ErrorPacket(ErrorCode(contents)))
    ensures r.Err? && r.error.ErrorPacket? ==> IsErrorReply(contents)
    ensures r == Err(Unrecognized) <==> contents != OK && contents != [] && !IsErrorReply(contents)
  {
    match ParseSimpleReply(contents)
    case Some(p) => p.value
    case None => Err(Unrecognized)
  }

  /** The parsing half of `read_memory`: `Exx`, the bytes of a hex-pair
      string (anything after the last whole pair is ignored), or the empty
      packet; anything else is unrecognized. */
  function MemoryReply(contents: seq<byte>): (r: Reply<seq<byte>>)
    ensures IsErrorReply(contents) ==> r == Err(ErrorPacket(ErrorCode(contents)))
    ensures contents == [] ==> r == Err(Unsupported)
    ensures r.Ok? <==> !IsErrorReply(contents) && Parse2Hex(contents).Some?
    ensures r.Ok? ==> r.value == HexPairs(contents).value && |r.value| > 0
    ensures r == Err(Unrecognized) <==>
      contents != [] && !IsErrorReply(contents) && Parse2Hex(contents).None?
  {
    match ParseMemory(contents)
    case Some(p) => p.value
    case None => Err(Unrecognized)
  }

  /** Memory a stub sends hex-encoded reads back as the same bytes. */
  lemma MemoryReplyRoundTrip(data: seq<byte>)
    requires |data| > 0 && !IsErrorReply(HexEncode(data))
    ensures MemoryReply(HexEncode(data)) == Ok(data)
  {
    ParseMemoryRoundTrip(data);
  }

  /** The parsing half of `send_qsymbol`: `OK` when no more symbols are
      wanted, or the name of the next symbol the stub asks for. */
  function QSymbolReply(contents: seq<byte>): (r: Reply<Option<seq<byte>>>)
    ensures StartsWith(contents, OK) ==> r == Ok(None)
    ensures r.Err? ==> r == Err(Unrecognized)
    ensures r.Ok? && r.value.Some? ==> StartsWith(contents, QSYMBOL) && r.value.value == HexPairs(contents[8..]).value
    ensures !StartsWith(contents, OK) && !StartsWith(contents, QSYMBOL) ==> r == Err(Unrecognized)
  {
    match ParseQSymbol(contents)
    case Some(p) => Ok(p.value)
    case None => Err(Unrecognized)
  }

  /** A stub asking for `name` is understood. */
  lemma QSymbolReplyRoundTrip(name: seq<byte>)
    requires |name| > 0
    ensures QSymbolReply(QSYMBOL + HexEncode(name)) == Ok(Some(name))
    ensures QSymbolReply(OK) == Ok(None)
  {
    ParseQSymbolRoundTrip(name);
    QSymbolReplyOf(QSYMBOL + HexEncode(name));
    assert StartsWith(OK, OK);
  }

  lemma QSymbolReplyOf(contents: seq<byte>)
    requires ParseQSymbol(contents).Some?
    ensures QSymbolReply(contents) == Ok(ParseQSymbol(contents).value.value)
  {
  }

  // ---------------------------------------------------------------------
  // One request and its reply

  /** Writes `payload` as one packet and reads the reply packet. A
      transport error on the way out (no `+` before the input ends, or
      too many NAKs) ends the request before anything is read. */
  function Exchange(cl: Client, payload: seq<byte>, dispatch: Dispatch, input: seq<byte>): (r: Outcome<seq<byte>>)
    requires Ready(cl)
    ensures Settled(cl, r.client)
    ensures Sent(r.output, payload)
    ensures r.result.Err? ==> r.result.error.RspFailure?
    ensures Suffix(r.input, input)
    ensures cl.build.reading == AsWritten ==> r.result.Err?
  {
    var s := FullPacket(cl.conn, payload, input);
    if s.result.Err? then
      Outcome(Err(RspFailure(s.result.error)), cl.(conn := s.conn), s.input, s.output)
    else
      var p := ReadPacketWithRetries(s.conn, cl.build.reading, dispatch, s.input);
      SentExtends(s.output, p.output, payload);
      FullPacketSuffix(cl.conn, payload, input);
      SuffixTrans(p.input, s.input, input);
      Outcome(if p.result.Ok? then Ok(p.result.value) else Err(RspFailure(p.result.error)),
              cl.(conn := s.conn), p.input, s.output + p.output)
  }

  /** After a request the client is ready for the next one, only its
      connection has changed, and acking is as it was. */
  predicate Settled(before: Client, after: Client) {
    Ready(after) && OnlyConnChanged(before, after) && after.conn.acking == before.conn.acking
  }

  lemma FullPacketSuffix(c: Conn, payload: seq<byte>, input: seq<byte>)
    requires c.inPacket == 0
    ensures Suffix(FullPacket(c, payload, input).input, input)
  {
    var s := StartPacket(c);
    var w := Write(s.conn, payload);
    FinishPacketSuffix(w.conn, input);
  }

  lemma FinishPacketSuffix(c: Conn, input: seq<byte>)
    requires c.inPacket != 0
    ensures Suffix(FinishPacket(c, input).input, input)
  {
    if c.acking {
      var closed := c.(inPacket := 0);
      AckLoopSuffix(closed, c.inPacket, input, 0);
    }
  }

  lemma {:induction false} AckLoopSuffix(c: Conn, kind: byte, input: seq<byte>, count: nat)
    requires c.maxRetries.Some? ==> count <= c.maxRetries.value
    ensures Suffix(AckLoop(c, kind, input, count).input, input)
    decreases |input|
  {
    if |input| > 0 && input[0] != PLUS {
      var count' := NextCount(c, count);
      if !(c.maxRetries.Some? && count' > c.maxRetries.value) {
        AckLoopSuffix(c, kind, input[1..], count');
        SuffixTrans(AckLoop(c, kind, input[1..], count').input, input[1..], input);
      }
    }
  }

  /** What a stub sends back for a request: `+` for it while acking,
      then the reply frame. */
  function StubAnswer(acking: bool, reply: seq<byte>): seq<byte> {
    (if acking then [PLUS] else []) + Frame(DOLLAR, reply)
  }

  /** A stub that acknowledges the request and answers `reply` gets the
      request framed once, an acknowledgment of its reply when acking, and
      `reply` comes back; the input after the reply is left unread. */
  lemma {:induction false} ExchangeAnswered(cl: Client, payload: seq<byte>, dispatch: Dispatch, reply: seq<byte>, rest: seq<byte>)
    requires Ready(cl) && cl.build.reading == Corrected && (cl.conn.acking ==> cl.conn.lastPacket == [])
    requires Free(reply, HASH) && Free(reply, STAR)
    ensures var r := Exchange(cl, payload, dispatch, StubAnswer(cl.conn.acking, reply) + rest);
      && r.result == Ok(reply) && r.input == rest
      && r.output == Frame(DOLLAR, payload) + (if cl.conn.acking then [PLUS] else [])
  {
    var c := cl.conn;
    var s := FullPacket(c, payload, StubAnswer(c.acking, reply) + rest);
    RequestAcknowledged(c, payload, reply, rest);
    RetriesAtReply(s.conn, dispatch, reply, rest);
  }

  /** With `read_packet` as written no reply is ever read: once the
      request is out, the client reads all remaining input looking for a
      packet start and the request fails with an I/O error; a failed send
      fails as it would with either reading. */
  lemma ExchangeAsWritten(cl: Client, payload: seq<byte>, dispatch: Dispatch, input: seq<byte>)
    requires Ready(cl) && cl.build.reading == AsWritten
    ensures var r := Exchange(cl, payload, dispatch, input);
      var s := FullPacket(cl.conn, payload, input);
      && r.result.Err? && r.client == cl.(conn := s.conn)
      && (s.result.Err? ==> r.result == Err(RspFailure(s.result.error)))
      && (s.result.Ok? ==> r.result == Err(RspFailure(IOError)) && r.input == [] && r.output == s.output)
  {
  }

  /** The request is framed once and, while acking, the stub's `+` is
      consumed. */
  lemma RequestAcknowledged(c: Conn, payload: seq<byte>, reply: seq<byte>, rest: seq<byte>)
    requires c.inPacket == 0 && (c.acking ==> c.lastPacket == [])
    ensures var s := FullPacket(c, payload, StubAnswer(c.acking, reply) + rest);
      s.result.Ok? && s.input == Frame(DOLLAR, reply) + rest && s.output == Frame(DOLLAR, payload)
  {
    var tail := Frame(DOLLAR, reply) + rest;
    var input := StubAnswer(c.acking, reply) + rest;
    if c.acking {
      assert input == [PLUS] + tail;
      PlusFirst(c, payload, tail);
    } else {
      assert input == tail;
    }
  }

  lemma PlusFirst(c: Conn, payload: seq<byte>, tail: seq<byte>)
    requires c.inPacket == 0 && c.acking && c.lastPacket == []
    ensures var s := FullPacket(c, payload, [PLUS] + tail);
      s.result.Ok? && s.input == tail && s.output == Frame(DOLLAR, payload)
  {
    var input := [PLUS] + tail;
    assert NakRun(input) == 0;
    AcknowledgedAfterRetries(c, payload, input);
    assert Repeat(Frame(DOLLAR, payload), 1) == Frame(DOLLAR, payload);
    assert input[1..] == tail;
  }

  // ---------------------------------------------------------------------
  // Request payloads

  const QSTART_NO_ACK_MODE: seq<byte> :=
    [0x51, 0x53, 0x74, 0x61, 0x72, 0x74, 0x4e, 0x6f, 0x41, 0x63, 0x6b, 0x4d, 0x6f, 0x64, 0x65]  // "QStartNoAckMode"
  const EXTENDED_MODE: seq<byte> := [0x21]                                  // "!"
  const STOP_REASON: seq<byte> := [0x3f]                                    // "?"
  const DETACH: byte := 0x44                                                // 'D'
  const READ_MEMORY: byte := 0x6d                                           // 'm'
  const READ_REGISTER: byte := 0x70                                         // 'p'
  const WRITE_REGISTER: byte := 0x50                                        // 'P'
  const PING: seq<byte> := [0x54]                                           // "T"
  const EQUALS: byte := 0x3d                                                // '='
  const VATTACH: seq<byte> := [0x76, 0x41, 0x74, 0x74, 0x61, 0x63, 0x68, 0x3b]  // "vAttach;"
  const VKILL: seq<byte> := [0x76, 0x4b, 0x69, 0x6c, 0x6c, 0x3b]            // "vKill;"
  const QDISABLE_RANDOMIZATION: seq<byte> :=
    [0x51, 0x44, 0x69, 0x73, 0x61, 0x62, 0x6c, 0x65, 0x52, 0x61, 0x6e,
     0x64, 0x6f, 0x6d, 0x69, 0x7a, 0x61, 0x74, 0x69, 0x6f, 0x6e]            // "QDisableRandomization"
  const QNONSTOP: seq<byte> := [0x51, 0x4e, 0x6f, 0x6e, 0x53, 0x74, 0x6f, 0x70]  // "QNonStop"
  const QTHREAD_EVENTS: seq<byte> :=
    [0x51, 0x54, 0x68, 0x72, 0x65, 0x61, 0x64, 0x45, 0x76, 0x65, 0x6e, 0x74, 0x73]  // "QThreadEvents"
  const QPASS_SIGNALS: seq<byte> :=
    [0x51, 0x50, 0x61, 0x73, 0x73, 0x53, 0x69, 0x67, 0x6e, 0x61, 0x6c, 0x73]  // "QPassSignals"
  const QPROGRAM_SIGNALS: seq<byte> :=
    [0x51, 0x50, 0x72, 0x6f, 0x67, 0x72, 0x61, 0x6d, 0x53, 0x69, 0x67, 0x6e, 0x61, 0x6c, 0x73]  // "QProgramSignals"
  const QCATCH_SYSCALLS: seq<byte> :=
    [0x51, 0x43, 0x61, 0x74, 0x63, 0x68, 0x53, 0x79, 0x73, 0x63, 0x61, 0x6c, 0x6c, 0x73]  // "QCatchSyscalls"

  /** A command followed by a thread-id as `write_thread_id` writes it on
      `host`: `D;`, `T`, `vAttach;` and `vKill;` all send one. What the
      thread-id part says is `ThreadPayloadReadBack`. */
  function ThreadPayload(command: seq<byte>, p: ProcessId, host: Endian): (r: seq<byte>)
    ensures |r| > |command| + 1 && r[..|command|] == command && r[|command|] == ThreadParse.LETTER_P
  {
    command + ThreadIdBytes(p, host)
  }

  /** After the command, a parser in reading `rd` reads the id
      `OnWire(p, host)`: `p` itself on a big-endian host, its byte-swapped
      numbers on a little-endian one. An Any pid is spelled `p0`, which the
      corrected parser reads with an All thread. */
  lemma ThreadPayloadReadBack(rd: Variant, command: seq<byte>, p: ProcessId, host: Endian)
    requires ThreadParse.Readable(rd, OnWire(p, host))
    ensures ThreadParse.ReadThreadId(rd, ThreadPayload(command, p, host)[|command|..]) == Some(Parsed(OnWire(p, host), []))
    ensures host == BigEndian ==> ThreadParse.ReadThreadId(rd, ThreadPayload(command, p, host)[|command|..]) == Some(Parsed(p, []))
  {
    ThreadParse.HostThreadIdReadBack(rd, p, host, []);
    assert ThreadPayload(command, p, host)[|command|..] == ThreadIdBytes(p, host) + [];
  }

  /** `detach`: `D` alone, or `D;` and the process. */
  function DetachPayload(pid: Option<ProcessId>, host: Endian): (r: seq<byte>)
    ensures |r| >= 1 && r[0] == DETACH
    ensures pid.None? <==> |r| == 1
    ensures pid.Some? ==> r == ThreadPayload([DETACH, SEMI], pid.value, host)
  {
    match pid
    case None => [DETACH]
    case Some(p) => ThreadPayload([DETACH, SEMI], p, host)
  }

  /** `read_memory`: `m`, the address and the length, both in hex. */
  function MemoryPayload(addr: u64, length: u64): (r: seq<byte>)
    ensures |r| > 0 && r[0] == READ_MEMORY
    ensures var f := SplitOn(r[1..], COMMA);
      |f| == 2 && DecodeHex(f[0]) == Some(addr) && DecodeHex(f[1]) == Some(length)
  {
    var a := HexNumber(addr);
    var l := HexNumber(length);
    var r := [READ_MEMORY] + a + [COMMA] + l;
    assert r[1..] == a + [COMMA] + l;
    HexDigitsAreNotSeparators(a);
    HexDigitsAreNotSeparators(l);
    SplitOnJoin(a, COMMA, l);
    SplitOnFree(l, COMMA);
    r
  }

  /** `p{:x}=` and `P{:x}=` followed by the value's bytes as they are. */
  function RegisterPayload(letter: byte, register: u64, value: seq<byte>): (r: seq<byte>)
    ensures |r| > 0 && r[0] == letter
    ensures var f := SplitOn(r[1..], EQUALS);
      DecodeHex(f[0]) == Some(register) && (Free(value, EQUALS) ==> f == [f[0], value])
    ensures |value| < |r| && r[|r| - |value|..] == value
  {
    var n := HexNumber(register);
    var r := [letter] + n + [EQUALS] + value;
    assert r[1..] == n + [EQUALS] + value;
    SplitOnJoin(n, EQUALS, value);
    if Free(value, EQUALS) then
      SplitOnFree(value, EQUALS);
      r
    else
      r
  }

  /** The wire name of a breakpoint kind: its digit in `Z<t>`/`z<t>`. */
  datatype BreakpointType = Software | Hardware | WriteWatch | ReadWatch | AccessWatch

  function TypeNumber(t: BreakpointType): nat {
    match t
    case Software => 0
    case Hardware => 1
    case WriteWatch => 2
    case ReadWatch => 3
    case AccessWatch => 4
  }

  /** The commands of the ten wrappers: `Z0`..`Z4` insert and `z0`..`z4`
      remove a software breakpoint, hardware breakpoint, write, read or
      access watchpoint. */
  function BreakpointCommand(insert: bool, t: BreakpointType): (r: seq<byte>)
    ensures |r| == 2 && r[0] == (if insert then 0x5a else 0x7a)
    ensures IsDecimalDigit(r[1]) && DecimalValue([r[1]]) == TypeNumber(t)
  {
    var r := [if insert then 0x5a else 0x7a, 0x30 + TypeNumber(t)];
    assert [r[1]][..0] == [];
    r
  }

  /** Different wrappers send different commands. */
  lemma BreakpointCommandsDistinct(i1: bool, t1: BreakpointType, i2: bool, t2: BreakpointType)
    requires BreakpointCommand(i1, t1) == BreakpointCommand(i2, t2)
    ensures i1 == i2 && t1 == t2
  {
    var a := BreakpointCommand(i1, t1);
    assert DecimalValue([a[1]]) == TypeNumber(t1) == TypeNumber(t2);
  }

  /** `set_or_clear_breakpoint`: the command, the address in hex and the
      size in decimal (0 when no kind is given), separated by commas. */
  function BreakpointPayload(insert: bool, t: BreakpointType, addr: u64, kind: Option<byte>): (r: seq<byte>)
    ensures var f := SplitOn(r, COMMA);
      && |f| == 3 && f[0] == BreakpointCommand(insert, t) && DecodeHex(f[1]) == Some(addr)
      && AllDecimal(f[2]) && DecimalValue(f[2]) == (if kind.Some? then kind.value else 0)
  {
    var cmd := BreakpointCommand(insert, t);
    var a := HexNumber(addr);
    var d := Decimal(if kind.Some? then kind.value else 0);
    HexDigitsAreNotSeparators(a);
    assert Free(d, COMMA);
    SplitThree(cmd, a, d, COMMA);
    cmd + [COMMA] + a + [COMMA] + d
  }

  /** `name:1` or `name:0`, the form of the boolean `Q` settings. */
  function FlagPayload(name: seq<byte>, state: bool): (r: seq<byte>)
    requires Free(name, COLON)
    ensures var f := SplitOn(r, COLON);
      |f| == 2 && f[0] == name && (f[1] == [0x31] <==> state) && (f[1] == [0x30] <==> !state)
  {
    var d: seq<byte> := [if state then 0x31 else 0x30];
    SplitOnJoin(name, COLON, d);
    SplitOnFree(d, COLON);
    name + [COLON] + d
  }

  predicate Sorted(s: seq<byte>) {
    forall i, j :: 0 <= i < j < |s| ==> s[i] <= s[j]
  }

  /** `x` put into its place in a sorted sequence. */
  function Insert(x: byte, s: seq<byte>): (r: seq<byte>)
    requires Sorted(s)
    ensures Sorted(r) && multiset(r) == multiset(s) + multiset{x}
    decreases |s|
  {
    if |s| == 0 || x <= s[0] then [x] + s
    else
      var t := Insert(x, s[1..]);
      InsertStep(x, s, t);
      [s[0]] + t
  }

  lemma InsertStep(x: byte, s: seq<byte>, t: seq<byte>)
    requires Sorted(s) && |s| > 0 && s[0] < x
    requires Sorted(t) && multiset(t) == multiset(s[1..]) + multiset{x}
    ensures Sorted([s[0]] + t) && multiset([s[0]] + t) == multiset(s) + multiset{x}
  {
    assert s == [s[0]] + s[1..];
    LowerBound(s[0], t, s[1..], x);
    ConsSorted(s[0], t);
  }

  lemma ConsSorted(b: byte, t: seq<byte>)
    requires Sorted(t) && forall k :: 0 <= k < |t| ==> b <= t[k]
    ensures Sorted([b] + t)
  {
    var r := [b] + t;
    forall i, j | 0 <= i < j < |r|
      ensures r[i] <= r[j]
    {
      assert r[j] == t[j - 1];
      if i > 0 {
        assert r[i] == t[i - 1];
      }
    }
  }

  lemma LowerBound(b: byte, t: seq<byte>, s: seq<byte>, x: byte)
    requires multiset(t) == multiset(s) + multiset{x}
    requires b <= x && forall k :: 0 <= k < |s| ==> b <= s[k]
    ensures forall k :: 0 <= k < |t| ==> b <= t[k]
  {
    forall k | 0 <= k < |t|
      ensures b <= t[k]
    {
      assert t[k] in multiset(t);
      assert t[k] in multiset(s) || t[k] == x;
    }
  }

  /** `sort` of the signal numbers: ascending, and the same numbers. */
  function Sort(s: seq<byte>): (r: seq<byte>)
    ensures Sorted(r) && multiset(r) == multiset(s)
    decreases |s|
  {
    if |s| == 0 then []
    else
      assert s == [s[0]] + s[1..];
      Insert(s[0], Sort(s[1..]))
  }

  /** The loop of `signal_op` and `catch_syscalls`: each number in hex,
      `sep` before the first and `;` before every later one. */
  function Separated(xs: seq<byte>, sep: byte): (r: seq<byte>)
    ensures |r| == 0 <==> |xs| == 0
    decreases |xs|
  {
    if |xs| == 0 then [] else [sep] + HexNumber(xs[0]) + Separated(xs[1..], SEMI)
  }

  /** A server splitting a separated list at `;` gets the numbers back, in
      order. */
  lemma {:induction false} SeparatedFields(xs: seq<byte>, sep: byte)
    requires |xs| > 0
    ensures var s := Separated(xs, sep);
      && s[0] == sep
      && |SplitOn(s[1..], SEMI)| == |xs|
      && forall i :: 0 <= i < |xs| ==> DecodeHex(SplitOn(s[1..], SEMI)[i]) == Some(xs[i] as nat)
    decreases |xs|
  {
    var s := Separated(xs, sep);
    var h := HexNumber(xs[0]);
    var t := Separated(xs[1..], SEMI);
    assert s[1..] == h + t;
    HexDigitsAreNotSeparators(h);
    if |xs| == 1 {
      assert t == [];
      assert h + t == h;
      SplitOnFree(h, SEMI);
    } else {
      SeparatedFields(xs[1..], SEMI);
      assert h + t == h + [SEMI] + t[1..];
      SplitOnJoin(h, SEMI, t[1..]);
      var f := SplitOn(s[1..], SEMI);
      assert f == [h] + SplitOn(t[1..], SEMI);
      forall i | 0 <= i < |xs|
        ensures DecodeHex(f[i]) == Some(xs[i] as nat)
      {
        if i > 0 {
          assert f[i] == SplitOn(t[1..], SEMI)[i - 1];
        }
      }
    }
  }

  /** `signal_op`: the command, then the signals in ascending order, each
      in hex, `:` before the first and `;` before the rest. */
  function SignalPayload(command: seq<byte>, signals: seq<byte>): (r: seq<byte>)
    ensures |r| >= |command| && r[..|command|] == command
    ensures |signals| == 0 <==> r == command
    ensures |signals| > 0 ==>
      && r[|command|] == COLON
      && |SplitOn(r[|command| + 1..], SEMI)| == |signals|
      && forall i :: 0 <= i < |signals| ==>
           DecodeHex(SplitOn(r[|command| + 1..], SEMI)[i]) == Some(Sort(signals)[i] as nat)
  {
    var sorted := Sort(signals);
    assert |sorted| == |signals| by {
      assert |multiset(sorted)| == |multiset(signals)|;
    }
    var tail := Separated(sorted, COLON);
    if |signals| > 0 then
      SeparatedFields(sorted, COLON);
      assert (command + tail)[|command| + 1..] == tail[1..];
      command + tail
    else
      command + tail
  }

  /** `catch_syscalls`: `QCatchSyscalls:0` to stop catching, or
      `QCatchSyscalls:1` and `;<hex>` for each call, in the order given. */
  function CatchSyscallsPayload(calls: Option<seq<byte>>): (r: seq<byte>)
    ensures calls.None? ==> r == FlagPayload(QCATCH_SYSCALLS, false)
    ensures calls.Some? ==>
      var head := FlagPayload(QCATCH_SYSCALLS, true);
      && |r| >= |head| && r[..|head|] == head
      && (|calls.value| == 0 ==> r == head)
      && (|calls.value| > 0 ==>
            && |r| > |head| && r[|head|] == SEMI
            && |SplitOn(r[|head| + 1..], SEMI)| == |calls.value|
            && forall i :: 0 <= i < |calls.value| ==>
                 DecodeHex(SplitOn(r[|head| + 1..], SEMI)[i]) == Some(calls.value[i] as nat))
  {
    match calls
    case None => FlagPayload(QCATCH_SYSCALLS, false)
    case Some(l) =>
      var head := FlagPayload(QCATCH_SYSCALLS, true);
      var tail := Separated(l, SEMI);
      if |l| > 0 then
        SeparatedFields(l, SEMI);
        assert (head + tail)[|head| + 1..] == tail[1..];
        head + tail
      else
        head + tail
  }

  /** `send_qsymbol`: `qSymbol::` when offering no symbol, otherwise
      `qSymbol:`, the symbol's value in hex, `:` and the name as it is. */
  function QSymbolPayload(symbol: Option<(seq<byte>, u64)>): (r: seq<byte>)
    ensures |r| > 8 && r[..8] == QSYMBOL
    ensures symbol.None? ==> SplitOn(r[8..], COLON) == [[], []]
    ensures symbol.Some? ==>
      var f := SplitOn(r[8..], COLON);
      DecodeHex(f[0]) == Some(symbol.value.1) && (Free(symbol.value.0, COLON) ==> f == [f[0], symbol.value.0])
  {
    match symbol
    case None =>
      SplitOnJoin([], COLON, []);
      assert [] + [COLON] + [] == [COLON];
      QSYMBOL + [COLON]
    case Some((name, addr)) =>
      var a := HexNumber(addr);
      HexDigitsAreNotSeparators(a);
      SplitOnJoin(a, COLON, name);
      assert (QSYMBOL + (a + [COLON] + name))[8..] == a + [COLON] + name;
      if Free(name, COLON) then
        SplitOnFree(name, COLON);
        QSYMBOL + (a + [COLON] + name)
      else
        QSYMBOL + (a + [COLON] + name)
  }

  // ---------------------------------------------------------------------
  // Requests

  /** A request answered by `read_simple_reply`. */
  function SimpleRequest(cl: Client, payload: seq<byte>, dispatch: Dispatch, input: seq<byte>): (r: Outcome<()>)
    requires Ready(cl)
    ensures Settled(cl, r.client) && Sent(r.output, payload)
    ensures var e := Exchange(cl, payload, dispatch, input);
      && r.client == e.client && r.input == e.input && r.output == e.output
      && (e.result.Ok? ==> r.result == SimpleReply(e.result.value))
      && (e.result.Err? ==> r.result == Err(e.result.error))
    ensures cl.build.reading == AsWritten ==> r.result.Err? && r.result.error.RspFailure?
  {
    var e := Exchange(cl, payload, dispatch, input);
    match e.result
    case Ok(contents) => Outcome(SimpleReply(contents), e.client, e.input, e.output)
    case Err(err) => Outcome(Err(err), e.client, e.input, e.output)
  }

  /** Against a stub that acknowledges the request and answers `reply`,
      a simple request means what the reply says. */
  lemma {:induction false} SimpleRequestAnswered(cl: Client, payload: seq<byte>, dispatch: Dispatch, reply: seq<byte>, rest: seq<byte>)
    requires Ready(cl) && cl.build.reading == Corrected && (cl.conn.acking ==> cl.conn.lastPacket == [])
    requires Free(reply, HASH) && Free(reply, STAR)
    ensures var r := SimpleRequest(cl, payload, dispatch, StubAnswer(cl.conn.acking, reply) + rest);
      r.result == SimpleReply(reply) && r.input == rest
  {
    ExchangeAnswered(cl, payload, dispatch, reply, rest);
  }

  /** `disable_acking`: sends `QStartNoAckMode`, ignoring whether that
      packet was acknowledged, and turns acking off only when the reply
      is `OK`. */
  function RequestNoAckMode(cl: Client, dispatch: Dispatch, input: seq<byte>): (r: Outcome<()>)
    requires Ready(cl)
    ensures Ready(r.client) && OnlyConnChanged(cl, r.client) && Sent(r.output, QSTART_NO_ACK_MODE)
    ensures r.client.conn.acking <==> cl.conn.acking && !r.result.Ok?
    ensures r.result.Ok? ==> r.client.conn.lastPacket == []
    ensures cl.build.reading == AsWritten ==> r.result == Err(RspFailure(IOError))
  {
    var s := FullPacket(cl.conn, QSTART_NO_ACK_MODE, input);
    var p := ReadPacketWithRetries(s.conn, cl.build.reading, dispatch, s.input);
    var result := if p.result.Ok? then SimpleReply(p.result.value) else Err(RspFailure(p.result.error));
    SentExtends(s.output, p.output, QSTART_NO_ACK_MODE);
    var conn := if result.Ok? then Connection.DisableAcking(s.conn) else s.conn;
    Outcome(result, cl.(conn := conn), p.input, s.output + p.output)
  }

  /** A stub that answers `OK` to `QStartNoAckMode` switches acking off;
      any other answer leaves it on. */
  lemma {:induction false} NoAckModeAnswered(cl: Client, dispatch: Dispatch, reply: seq<byte>, rest: seq<byte>)
    requires Ready(cl) && cl.build.reading == Corrected && cl.conn.acking && cl.conn.lastPacket == []
    requires Free(reply, HASH) && Free(reply, STAR)
    ensures var r := RequestNoAckMode(cl, dispatch, StubAnswer(true, reply) + rest);
      && r.result == SimpleReply(reply) && r.input == rest
      && (!r.client.conn.acking <==> reply == OK)
  {
    var s := FullPacket(cl.conn, QSTART_NO_ACK_MODE, StubAnswer(true, reply) + rest);
    RequestAcknowledged(cl.conn, QSTART_NO_ACK_MODE, reply, rest);
    RetriesAtReply(s.conn, dispatch, reply, rest);
  }

  /** `extended_mode`: `!`. */
  function EnterExtendedMode(cl: Client, dispatch: Dispatch, input: seq<byte>): (r: Outcome<()>)
    requires Ready(cl)
    ensures Settled(cl, r.client) && Sent(r.output, EXTENDED_MODE)
    ensures cl.build.reading == AsWritten ==> r.result.Err? && r.result.error.RspFailure?
  {
    SimpleRequest(cl, EXTENDED_MODE, dispatch, input)
  }

  function Detach(cl: Client, pid: Option<ProcessId>, dispatch: Dispatch, input: seq<byte>): (r: Outcome<()>)
    requires Ready(cl)
    ensures Settled(cl, r.client) && Sent(r.output, DetachPayload(pid, cl.build.host))
    ensures cl.build.reading == AsWritten ==> r.result.Err? && r.result.error.RspFailure?
  {
    SimpleRequest(cl, DetachPayload(pid, cl.build.host), dispatch, input)
  }

  /** `read_memory`: the reply is memory contents, an error number, or
      the empty "unsupported" packet. */
  function ReadMemory(cl: Client, addr: u64, length: u64, dispatch: Dispatch, input: seq<byte>): (r: Outcome<seq<byte>>)
    requires Ready(cl)
    ensures Settled(cl, r.client) && Sent(r.output, MemoryPayload(addr, length))
    ensures var e := Exchange(cl, MemoryPayload(addr, length), dispatch, input);
      && (e.result.Ok? ==> r.result == MemoryReply(e.result.value))
      && (e.result.Err? ==> r.result == Err(e.result.error))
  {
    var e := Exchange(cl, MemoryPayload(addr, length), dispatch, input);
    match e.result
    case Ok(contents) => Outcome(MemoryReply(contents), e.client, e.input, e.output)
    case Err(err) => Outcome(Err(err), e.client, e.input, e.output)
  }

  /** Memory a stub sends hex-encoded is what `read_memory` returns. */
  lemma {:induction false} ReadMemoryAnswered(cl: Client, addr: u64, length: u64, dispatch: Dispatch, data: seq<byte>, rest: seq<byte>)
    requires Ready(cl) && cl.build.reading == Corrected && (cl.conn.acking ==> cl.conn.lastPacket == [])
    requires |data| > 0 && !IsErrorReply(HexEncode(data))
    ensures var r := ReadMemory(cl, addr, length, dispatch, StubAnswer(cl.conn.acking, HexEncode(data)) + rest);
      r.result == Ok(data) && r.input == rest
  {
    HexEncodeDigits(data);
    HexDigitsAreNotSeparators(HexEncode(data));
    ExchangeAnswered(cl, MemoryPayload(addr, length), dispatch, HexEncode(data), rest);
    MemoryReplyRoundTrip(data);
  }

  /** `write_register`: `P`, the register number in hex, `=` and the value. */
  function WriteRegister(cl: Client, register: u64, value: seq<byte>, dispatch: Dispatch, input: seq<byte>): (r: Outcome<()>)
    requires Ready(cl)
    ensures Settled(cl, r.client) && Sent(r.output, RegisterPayload(WRITE_REGISTER, register, value))
    ensures cl.build.reading == AsWritten ==> r.result.Err? && r.result.error.RspFailure?
  {
    SimpleRequest(cl, RegisterPayload(WRITE_REGISTER, register, value), dispatch, input)
  }

  /** `ping_thread`: `T` and the thread. */
  function PingThread(cl: Client, thread: ProcessId, dispatch: Dispatch, input: seq<byte>): (r: Outcome<()>)
    requires Ready(cl)
    ensures Settled(cl, r.client) && Sent(r.output, ThreadPayload(PING, thread, cl.build.host))
    ensures cl.build.reading == AsWritten ==> r.result.Err? && r.result.error.RspFailure?
  {
    SimpleRequest(cl, ThreadPayload(PING, thread, cl.build.host), dispatch, input)
  }

  function SetOrClearBreakpoint(cl: Client, insert: bool, t: BreakpointType, addr: u64, kind: Option<byte>,
                                dispatch: Dispatch, input: seq<byte>): (r: Outcome<()>)
    requires Ready(cl)
    ensures Settled(cl, r.client) && Sent(r.output, BreakpointPayload(insert, t, addr, kind))
    ensures cl.build.reading == AsWritten ==> r.result.Err? && r.result.error.RspFailure?
  {
    SimpleRequest(cl, BreakpointPayload(insert, t, addr, kind), dispatch, input)
  }

  function SetRandomization(cl: Client, state: bool, dispatch: Dispatch, input: seq<byte>): (r: Outcome<()>)
    requires Ready(cl)
    ensures Settled(cl, r.client) && Sent(r.output, FlagPayload(QDISABLE_RANDOMIZATION, state))
    ensures cl.build.reading == AsWritten ==> r.result.Err? && r.result.error.RspFailure?
  {
    SimpleRequest(cl, FlagPayload(QDISABLE_RANDOMIZATION, state), dispatch, input)
  }

  /** `set_nonstop`: the client's mode follows the request only when the
      stub answers `OK`. */
  function SetNonStop(cl: Client, state: bool, dispatch: Dispatch, input: seq<byte>): (r: Outcome<()>)
    requires Ready(cl)
    ensures Sent(r.output, FlagPayload(QNONSTOP, state))
    ensures Ready(r.client) && r.client.conn.acking == cl.conn.acking
    ensures r.client.nonStop == if r.result.Ok? then state else cl.nonStop
    ensures r.client.requireAcks == cl.requireAcks && r.client.currentThread == cl.currentThread
    ensures r.client.build == cl.build
    ensures cl.build.reading == AsWritten ==> r.result.Err? && r.result.error.RspFailure?
  {
    var o := SimpleRequest(cl, FlagPayload(QNONSTOP, state), dispatch, input);
    if o.result.Ok? then o.(client := o.client.(nonStop := state)) else o
  }

  /** Against a stub answering `reply`, non-stop mode changes exactly
      when the reply is `OK`. */
  lemma {:induction false} SetNonStopAnswered(cl: Client, state: bool, dispatch: Dispatch, reply: seq<byte>, rest: seq<byte>)
    requires Ready(cl) && cl.build.reading == Corrected && (cl.conn.acking ==> cl.conn.lastPacket == [])
    requires Free(reply, HASH) && Free(reply, STAR)
    ensures var r := SetNonStop(cl, state, dispatch, StubAnswer(cl.conn.acking, reply) + rest);
      && r.result == SimpleReply(reply)
      && r.client.nonStop == (if reply == OK then state else cl.nonStop)
  {
    SimpleRequestAnswered(cl, FlagPayload(QNONSTOP, state), dispatch, reply, rest);
  }

  function SetThreadEvents(cl: Client, state: bool, dispatch: Dispatch, input: seq<byte>): (r: Outcome<()>)
    requires Ready(cl)
    ensures Settled(cl, r.client) && Sent(r.output, FlagPayload(QTHREAD_EVENTS, state))
    ensures cl.build.reading == AsWritten ==> r.result.Err? && r.result.error.RspFailure?
  {
    SimpleRequest(cl, FlagPayload(QTHREAD_EVENTS, state), dispatch, input)
  }

  /** `signal_op`, behind `set_pass_signals` and `set_program_signals`. */
  function SignalOp(cl: Client, command: seq<byte>, signals: seq<byte>, dispatch: Dispatch, input: seq<byte>): (r: Outcome<()>)
    requires Ready(cl)
    ensures Settled(cl, r.client) && Sent(r.output, SignalPayload(command, signals))
    ensures cl.build.reading == AsWritten ==> r.result.Err? && r.result.error.RspFailure?
  {
    SimpleRequest(cl, SignalPayload(command, signals), dispatch, input)
  }

  function CatchSyscalls(cl: Client, calls: Option<seq<byte>>, dispatch: Dispatch, input: seq<byte>): (r: Outcome<()>)
    requires Ready(cl)
    ensures Settled(cl, r.client) && Sent(r.output, CatchSyscallsPayload(calls))
    ensures cl.build.reading == AsWritten ==> r.result.Err? && r.result.error.RspFailure?
  {
    SimpleRequest(cl, CatchSyscallsPayload(calls), dispatch, input)
  }

  /** `send_qsymbol`: the reply is the next symbol the stub wants, or none. */
  function SendQSymbol(cl: Client, symbol: Option<(seq<byte>, u64)>, dispatch: Dispatch, input: seq<byte>): (r: Outcome<Option<seq<byte>>>)
    requires Ready(cl)
    ensures Settled(cl, r.client) && Sent(r.output, QSymbolPayload(symbol))
    ensures var e := Exchange(cl, QSymbolPayload(symbol), dispatch, input);
      && (e.result.Ok? ==> r.result == QSymbolReply(e.result.value))
      && (e.result.Err? ==> r.result == Err(e.result.error))
  {
    var e := Exchange(cl, QSymbolPayload(symbol), dispatch, input);
    match e.result
    case Ok(contents) => Outcome(QSymbolReply(contents), e.client, e.input, e.output)
    case Err(err) => Outcome(Err(err), e.client, e.input, e.output)
  }

  /** A stub asking for `name` next is heard. */
  lemma {:induction false} SendQSymbolAnswered(cl: Client, symbol: Option<(seq<byte>, u64)>, dispatch: Dispatch, name: seq<byte>, rest: seq<byte>)
    requires Ready(cl) && cl.build.reading == Corrected && (cl.conn.acking ==> cl.conn.lastPacket == [])
    requires |name| > 0
    ensures var r := SendQSymbol(cl, symbol, dispatch, StubAnswer(cl.conn.acking, QSYMBOL + HexEncode(name)) + rest);
      r.result == Ok(Some(name)) && r.input == rest
  {
    var reply := QSYMBOL + HexEncode(name);
    SymbolRequestFree(name);
    ExchangeAnswered(cl, QSymbolPayload(symbol), dispatch, reply, rest);
    QSymbolReplyRoundTrip(name);
  }

  lemma SymbolRequestFree(name: seq<byte>)
    ensures Free(QSYMBOL + HexEncode(name), HASH) && Free(QSYMBOL + HexEncode(name), STAR)
  {
    HexEncodeDigits(name);
    HexDigitsAreNotSeparators(HexEncode(name));
  }

  // ---------------------------------------------------------------------
  // Writing a request in pieces

  function Flatten(pieces: seq<seq<byte>>): seq<byte> {
    if |pieces| == 0 then [] else pieces[0] + Flatten(pieces[1..])
  }

  /** Several `write_all` calls in a row through the checksumming writer
      are one write of their concatenation. */
  function WriteAll(c: Conn, pieces: seq<seq<byte>>): (e: Emit)
    ensures e == Write(c, Flatten(pieces))
    decreases |pieces|
  {
    if |pieces| == 0 then
      assert Write(c, []).conn == c;
      Emit(c, [])
    else
      var h := Write(c, pieces[0]);
      var t := WriteAll(h.conn, pieces[1..]);
      WriteConcat(c, pieces[0], Flatten(pieces[1..]));
      Emit(t.conn, h.out + t.out)
  }

  /** `start_packet`, the writes of a request and `finish_packet` send the
      same bytes, with the same outcome, as `full_packet` of the
      concatenated payload; so `detach`, `ping_thread`, `signal_op` and the
      other requests written piece by piece are modelled by their payload. */
  function SendPieces(c: Conn, pieces: seq<seq<byte>>, input: seq<byte>): (r: Step<()>)
    requires c.inPacket == 0
    ensures r == FullPacket(c, Flatten(pieces), input)
  {
    var s := StartPacket(c);
    var w := WriteAll(s.conn, pieces);
    var f := FinishPacket(w.conn, input);
    f.(output := s.out + w.out + f.output)
  }

  /** `detach(Some(p))` writes `D;` and the thread-id as two pieces. */
  lemma DetachPieces(c: Conn, p: ProcessId, host: Endian, input: seq<byte>)
    requires c.inPacket == 0
    ensures SendPieces(c, [[DETACH, SEMI], ThreadIdBytes(p, host)], input) == FullPacket(c, DetachPayload(Some(p), host), input)
  {
    var pieces: seq<seq<byte>> := [[DETACH, SEMI], ThreadIdBytes(p, host)];
    assert pieces[1..][1..] == [];
    assert Flatten(pieces[1..]) == ThreadIdBytes(p, host) + Flatten([]);
    assert Flatten(pieces) == [DETACH, SEMI] + ThreadIdBytes(p, host);
  }

  // ---------------------------------------------------------------------
  // A session

  /** The requests a client makes. */
  datatype Command =
    | StartNoAck
    | Extended
    | DetachFrom(pid: Option<ProcessId>)
    | MemoryRead(addr: u64, length: u64)
    | RegisterWrite(register: u64, value: seq<byte>)
    | ThreadPing(thread: ProcessId)
    | BreakpointChange(insert: bool, kind: BreakpointType, addr: u64, size: Option<byte>)
    | Randomization(state: bool)
    | NonStop(state: bool)
    | ThreadEvents(state: bool)
    | PassSignals(signals: seq<byte>)
    | ProgramSignals(signals: seq<byte>)
    | Syscalls(calls: Option<seq<byte>>)
    | SymbolLookup(symbol: Option<(seq<byte>, u64)>)

  /** What a request answers besides success. */
  datatype Answer = Done | Memory(data: seq<byte>) | NextSymbol(name: Option<seq<byte>>)

  function AsDone(r: Reply<()>): Reply<Answer> {
    match r
    case Ok(_) => Ok(Done)
    case Err(e) => Err(e)
  }

  function Answered(o: Outcome<()>): (r: Outcome<Answer>)
    ensures r.client == o.client && r.input == o.input && r.output == o.output
    ensures r.result.Err? <==> o.result.Err?
    ensures r.result.Err? ==> r.result.error == o.result.error
  {
    Outcome(AsDone(o.result), o.client, o.input, o.output)
  }

  /** One request of any kind. Only `QStartNoAckMode` answered `OK`
      changes acking (to off), and only `QNonStop` answered `OK` changes
      the client's mode. */
  function Perform(cl: Client, cmd: Command, dispatch: Dispatch, input: seq<byte>): (r: Outcome<Answer>)
    requires Ready(cl)
    ensures Ready(r.client)
    ensures r.client.conn.acking <==> cl.conn.acking && !(cmd.StartNoAck? && r.result.Ok?)
    ensures r.client.nonStop == if cmd.NonStop? && r.result.Ok? then cmd.state else cl.nonStop
    ensures r.client.requireAcks == cl.requireAcks && r.client.currentThread == cl.currentThread
    ensures r.client.build == cl.build
    ensures cl.build.reading == AsWritten ==> r.result.Err? && r.result.error.RspFailure?
  {
    if cmd.StartNoAck? || cmd.NonStop? then PerformMode(cl, cmd, dispatch, input)
    else if cmd.MemoryRead? || cmd.SymbolLookup? then PerformQuery(cl, cmd, dispatch, input)
    else PerformSimple(cl, cmd, dispatch, input)
  }

  /** The two requests that change the client's state. */
  function PerformMode(cl: Client, cmd: Command, dispatch: Dispatch, input: seq<byte>): (r: Outcome<Answer>)
    requires Ready(cl) && (cmd.StartNoAck? || cmd.NonStop?)
    ensures Ready(r.client)
    ensures r.client.conn.acking <==> cl.conn.acking && !(cmd.StartNoAck? && r.result.Ok?)
    ensures r.client.nonStop == if cmd.NonStop? && r.result.Ok? then cmd.state else cl.nonStop
    ensures r.client.requireAcks == cl.requireAcks && r.client.currentThread == cl.currentThread
    ensures r.client.build == cl.build
    ensures cl.build.reading == AsWritten ==> r.result.Err? && r.result.error.RspFailure?
  {
    if cmd.StartNoAck? then Answered(RequestNoAckMode(cl, dispatch, input))
    else Answered(SetNonStop(cl, cmd.state, dispatch, input))
  }

  /** The requests whose answer carries data. */
  function PerformQuery(cl: Client, cmd: Command, dispatch: Dispatch, input: seq<byte>): (r: Outcome<Answer>)
    requires Ready(cl) && (cmd.MemoryRead? || cmd.SymbolLookup?)
    ensures Settled(cl, r.client)
    ensures cl.build.reading == AsWritten ==> r.result.Err? && r.result.error.RspFailure?
  {
    if cmd.MemoryRead? then
      var o := ReadMemory(cl, cmd.addr, cmd.length, dispatch, input);
      Outcome(if o.result.Ok? then Ok(Memory(o.result.value)) else Err(o.result.error), o.client, o.input, o.output)
    else
      var o := SendQSymbol(cl, cmd.symbol, dispatch, input);
      Outcome(if o.result.Ok? then Ok(NextSymbol(o.result.value)) else Err(o.result.error), o.client, o.input, o.output)
  }

  /** The requests answered `OK` or an error, which change nothing but
      the connection. */
  predicate Simple(cmd: Command) {
    !cmd.StartNoAck? && !cmd.NonStop? && !cmd.MemoryRead? && !cmd.SymbolLookup?
  }

  function PerformSimple(cl: Client, cmd: Command, dispatch: Dispatch, input: seq<byte>): (r: Outcome<Answer>)
    requires Ready(cl) && Simple(cmd)
    ensures Settled(cl, r.client)
    ensures cl.build.reading == AsWritten ==> r.result.Err? && r.result.error.RspFailure?
  {
    match cmd
    case Extended => Answered(EnterExtendedMode(cl, dispatch, input))
    case DetachFrom(pid) => Answered(Detach(cl, pid, dispatch, input))
    case RegisterWrite(register, value) => Answered(WriteRegister(cl, register, value, dispatch, input))
    case ThreadPing(thread) => Answered(PingThread(cl, thread, dispatch, input))
    case BreakpointChange(insert, kind, addr, size) => Answered(SetOrClearBreakpoint(cl, insert, kind, addr, size, dispatch, input))
    case Randomization(state) => Answered(SetRandomization(cl, state, dispatch, input))
    case ThreadEvents(state) => Answered(SetThreadEvents(cl, state, dispatch, input))
    case PassSignals(signals) => Answered(SignalOp(cl, QPASS_SIGNALS, signals, dispatch, input))
    case ProgramSignals(signals) => Answered(SignalOp(cl, QPROGRAM_SIGNALS, signals, dispatch, input))
    case Syscalls(calls) => Answered(CatchSyscalls(cl, calls, dispatch, input))
  }

  /** The requests of a session, one after another on the same input. */
  function Session(cl: Client, cmds: seq<Command>, dispatch: Dispatch, input: seq<byte>): (r: Client)
    requires Ready(cl)
    ensures Ready(r)
    decreases |cmds|
  {
    if |cmds| == 0 then cl
    else
      var o := Perform(cl, cmds[0], dispatch, input);
      Session(o.client, cmds[1..], dispatch, o.input)
  }

  /** Once acking is off, no sequence of requests turns it back on. */
  lemma {:induction false} AckingStaysOff(cl: Client, cmds: seq<Command>, dispatch: Dispatch, input: seq<byte>)
    requires Ready(cl) && !cl.conn.acking
    ensures !Session(cl, cmds, dispatch, input).conn.acking
    decreases |cmds|
  {
    if |cmds| > 0 {
      var o := Perform(cl, cmds[0], dispatch, input);
      AckingStaysOff(o.client, cmds[1..], dispatch, o.input);
    }
  }

  /** A session without `QStartNoAckMode` keeps acking as it was. */
  lemma {:induction false} SessionKeepsAcking(cl: Client, cmds: seq<Command>, dispatch: Dispatch, input: seq<byte>)
    requires Ready(cl)
    requires forall i :: 0 <= i < |cmds| ==> !cmds[i].StartNoAck?
    ensures Session(cl, cmds, dispatch, input).conn.acking == cl.conn.acking
    decreases |cmds|
  {
    if |cmds| > 0 {
      var o := Perform(cl, cmds[0], dispatch, input);
      assert forall i :: 0 <= i < |cmds[1..]| ==> cmds[1..][i] == cmds[i + 1];
      SessionKeepsAcking(o.client, cmds[1..], dispatch, o.input);
    }
  }

  /** A session without `QNonStop` keeps the client's mode. */
  lemma {:induction false} SessionKeepsMode(cl: Client, cmds: seq<Command>, dispatch: Dispatch, input: seq<byte>)
    requires Ready(cl)
    requires forall i :: 0 <= i < |cmds| ==> !cmds[i].NonStop?
    ensures Session(cl, cmds, dispatch, input).nonStop == cl.nonStop
    decreases |cmds|
  {
    if |cmds| > 0 {
      var o := Perform(cl, cmds[0], dispatch, input);
      assert forall i :: 0 <= i < |cmds[1..]| ==> cmds[1..][i] == cmds[i + 1];
      SessionKeepsMode(o.client, cmds[1..], dispatch, o.input);
    }
  }

  /** A whole session with `read_packet` as written leaves acking and
      the client's mode as they were: every request fails unanswered. */
  lemma {:induction false} SessionAsWritten(cl: Client, cmds: seq<Command>, dispatch: Dispatch, input: seq<byte>)
    requires Ready(cl) && cl.build.reading == AsWritten
    ensures var r := Session(cl, cmds, dispatch, input);
      r.conn.acking == cl.conn.acking && r.nonStop == cl.nonStop
    decreases |cmds|
  {
    if |cmds| > 0 {
      var o := Perform(cl, cmds[0], dispatch, input);
      SessionAsWritten(o.client, cmds[1..], dispatch, o.input);
    }
  }
}

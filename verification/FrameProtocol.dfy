/** The framed byte protocol between the two processors (src/protocol.cpp) and the receive buffer in
    front of its parser (src/uart_transport.cpp). */
module FrameProtocol {
  import opened Common
  import Checksums

  type Byte = x: int | 0 <= x < 256
  type Bytes = seq<Byte>

  const SYNC: Byte := 0x5A
  const MAX_PAYLOAD: nat := 1024
  const FRAME_TIMEOUT_MS: nat := 500
  const RX_CHUNK_SIZE: nat := 256
  const MILLIS: nat := 0x1_0000_0000

  datatype State = WaitSync | Command | LengthLow | LengthHigh | Data | Check

  datatype Packet = Packet(command: Byte, data: Bytes)

  /** The fields of FrameParser; the payload buffer is never cleared. */
  datatype Parser = Parser(
    state: State, command: Byte, length: nat, position: nat, checksum: Byte, lastByteMs: nat,
    badChecksums: nat, resyncs: nat, payload: Bytes)

  // ----- The frame -----

  /** The exclusive or of two bytes. */
  function Mix(a: Byte, b: Byte): Byte { NumberOf(Either(BitsOf(a), BitsOf(b))) }

  function BitsOf(a: Byte): bv8 { a as bv8 }

  function NumberOf(x: bv8): Byte { x as int }

  function Either(x: bv8, y: bv8): bv8 { x ^ y }

  function Le16(n: nat): (r: Bytes)
    requires n <= MAX_PAYLOAD
    ensures |r| == 2
  {
    [n % 256, n / 256]
  }

  function Xor(data: Bytes): Byte {
    if data == [] then 0 else Mix(Xor(data[..|data| - 1]), data[|data| - 1])
  }

  function Header(command: Byte, length: nat): Byte
    requires length <= MAX_PAYLOAD
  {
    Mix(Mix(command, Le16(length)[0]), Le16(length)[1])
  }

  function Checksum(command: Byte, data: Bytes): Byte
    requires |data| <= MAX_PAYLOAD
  {
    Mix(Header(command, |data|), Xor(data))
  }

  function FrameWith(command: Byte, data: Bytes, checksum: Byte): Bytes
    requires |data| <= MAX_PAYLOAD
  {
    [SYNC, command] + Le16(|data|) + data + [checksum]
  }

  function Frame(p: Packet): Bytes
    requires |p.data| <= MAX_PAYLOAD
  {
    FrameWith(p.command, p.data, Checksum(p.command, p.data))
  }

  ghost predicate Sendable(packets: seq<Packet>) {
    forall i :: 0 <= i < |packets| ==> |packets[i].data| <= MAX_PAYLOAD
  }

  function Frames(packets: seq<Packet>): Bytes
    requires Sendable(packets)
  {
    if packets == [] then [] else Frames(packets[..|packets| - 1]) + Frame(packets[|packets| - 1])
  }

  // ----- The parser -----

  function Reset(p: Parser): Parser {
    p.(state := WaitSync, length := 0, position := 0, checksum := 0)
  }

  function OnLengthHigh(p: Parser, b: Byte): Parser {
    var length := p.length + 256 * b;
    if length > MAX_PAYLOAD then Reset(p.(resyncs := p.resyncs + 1))
    else
      p.(length := length, checksum := Mix(p.checksum, b), position := 0, state := if length != 0 then Data else Check)
  }

  function OnData(p: Parser, b: Byte): Parser {
    if p.position >= |p.payload| then p
    else
      p.(payload := p.payload[p.position := b], position := p.position + 1, checksum := Mix(p.checksum, b),
         state := if p.position + 1 == p.length then Check else Data)
  }

  function OnCheck(p: Parser, b: Byte): (Parser, Option<Packet>) {
    if b != p.checksum || p.length > |p.payload| then (Reset(p.(badChecksums := p.badChecksums + 1)), None)
    else (Reset(p), Some(Packet(p.command, p.payload[..p.length])))
  }

  function Feed(parser: Parser, b: Byte, now: nat): (Parser, Option<Packet>) {
    var p := parser.(lastByteMs := now);
    match p.state
    case WaitSync => (if b == SYNC then p.(state := Command) else p, None)
    case Command => (p.(command := b, checksum := b, state := LengthLow), None)
    case LengthLow => (p.(length := b, checksum := Mix(p.checksum, b), state := LengthHigh), None)
    case LengthHigh => (OnLengthHigh(p, b), None)
    case Data => (OnData(p, b), None)
    case Check => OnCheck(p, b)
  }

  /** Milliseconds since the last byte, in 32-bit arithmetic. */
  function Elapsed(p: Parser, now: nat): int {
    (now - p.lastByteMs) % MILLIS
  }

  function CheckTimeout(p: Parser, now: nat): Parser {
    if p.state == WaitSync || Elapsed(p, now) < FRAME_TIMEOUT_MS then p
    else Reset(p.(resyncs := p.resyncs + 1))
  }

  /** A frame that was begun is given up exactly when its last byte is at least half a second old, by a
      32-bit clock that may wrap: the parser waits for the next frame, and counts it. */
  lemma TimeoutMeans(p: Parser, now: nat)
    ensures CheckTimeout(p, now)
         == if p.state == WaitSync || (now - p.lastByteMs) % 0x1_0000_0000 < 500 then p
            else p.(state := WaitSync, length := 0, position := 0, checksum := 0, resyncs := p.resyncs + 1)
  {
  }

  /** What a byte does to the counters: a wrong checksum is counted as such, an announced length of more
      than 1024 bytes as lost synchronisation. In both cases, and behind a delivered packet, the
      parser starts from nothing; every byte restarts its clock. */
  lemma FeedCounts(p: Parser, b: Byte, now: nat)
    requires Inv(p)
    ensures var (q, packet) := Feed(p, b, now);
      var bad := p.state == Check && b != p.checksum;
      var long := p.state == LengthHigh && p.length + 256 * b > 1024;
      && q.lastByteMs == now
      && q.badChecksums == p.badChecksums + (if bad then 1 else 0)
      && q.resyncs == p.resyncs + (if long then 1 else 0)
      && (packet.Some? <==> p.state == Check && !bad)
      && (bad || long || packet.Some? ==> q.state == WaitSync && q.length == 0 && q.position == 0 && q.checksum == 0)
  {
    hide Mix;
  }

  /** Reachable parser states: the payload index is in bounds in every one of them. */
  ghost predicate Inv(p: Parser) {
    && |p.payload| == MAX_PAYLOAD && p.length <= MAX_PAYLOAD
    && (p.state == LengthHigh ==> p.length < 256)
    && (p.state == Data ==> p.position < p.length)
  }

  lemma LengthHighKeepsInv(p: Parser, b: Byte)
    requires Inv(p) && p.state == LengthHigh
    ensures Inv(OnLengthHigh(p, b))
  {
    hide Mix;
  }

  lemma DataKeepsInv(p: Parser, b: Byte)
    requires Inv(p) && p.state == Data
    ensures Inv(OnData(p, b)) && p.position < |p.payload|
  {
    hide Mix;
  }

  /** In particular the two out-of-range branches above are never taken. */
  lemma FeedKeepsInv(p: Parser, b: Byte, now: nat)
    requires Inv(p)
    ensures Inv(Feed(p, b, now).0)
    ensures p.state == Data ==> p.position < |p.payload|
    ensures Feed(p, b, now).1.Some? ==> p.state == Check && |Feed(p, b, now).1.value.data| == p.length <= MAX_PAYLOAD
  {
    hide Mix, OnLengthHigh, OnData;
    var q := p.(lastByteMs := now);
    if p.state == LengthHigh { LengthHighKeepsInv(q, b); }
    if p.state == Data { DataKeepsInv(q, b); }
  }

  // ----- Runs of bytes and idle checks -----

  datatype Event = Arrive(b: Byte, now: nat) | Idle(now: nat)

  datatype Run = Run(parser: Parser, packets: seq<Packet>)

  function Step(r: Run, e: Event): Run {
    match e
    case Arrive(b, now) =>
      var (p, packet) := Feed(r.parser, b, now);
      Run(p, if packet.Some? then r.packets + [packet.value] else r.packets)
    case Idle(now) => r.(parser := CheckTimeout(r.parser, now))
  }

  function Events(p: Parser, events: seq<Event>): Run {
    if events == [] then Run(p, []) else Step(Events(p, events[..|events| - 1]), events[|events| - 1])
  }

  function BytesOf(events: seq<Event>): Bytes {
    if events == [] then []
    else
      var before, last := BytesOf(events[..|events| - 1]), events[|events| - 1];
      if last.Arrive? then before + [last.b] else before
  }

  /** The same bytes without clocks. */
  function FeedAll(p: Parser, bytes: Bytes): Run {
    if bytes == [] then Run(p, [])
    else Step(FeedAll(p, bytes[..|bytes| - 1]), Arrive(bytes[|bytes| - 1], 0))
  }

  lemma {:induction false} FeedAllConcat(p: Parser, a: Bytes, b: Bytes)
    ensures var first := FeedAll(p, a);
      var second := FeedAll(first.parser, b);
      FeedAll(p, a + b) == Run(second.parser, first.packets + second.packets)
    decreases |b|
  {
    hide Feed;
    var ab := a + b;
    if b == [] {
      assert ab == a;
    } else {
      assert ab[..|ab| - 1] == a + b[..|b| - 1];
      FeedAllConcat(p, a, b[..|b| - 1]);
    }
  }

  lemma FeedOne(p: Parser, b: Byte)
    ensures FeedAll(p, [b]) == Step(Run(p, []), Arrive(b, 0))
  {
    assert [b][..0] == [];
  }

  /** What the next byte does after those before it. */
  lemma FeedAllSnoc(p: Parser, a: Bytes, b: Byte)
    ensures FeedAll(p, a + [b]) == Step(FeedAll(p, a), Arrive(b, 0))
  {
    assert (a + [b])[..|a|] == a;
  }

  lemma {:induction false} FeedAllKeepsInv(p: Parser, bytes: Bytes)
    requires Inv(p)
    ensures Inv(FeedAll(p, bytes).parser)
    decreases |bytes|
  {
    hide Feed, Inv;
    if bytes == [] {
    } else {
      FeedAllKeepsInv(p, bytes[..|bytes| - 1]);
      FeedKeepsInv(FeedAll(p, bytes[..|bytes| - 1]).parser, bytes[|bytes| - 1], 0);
    }
  }

  /** A prefix without the sync byte is ignored. */
  lemma {:induction false} GarbageIsIgnored(p: Parser, garbage: Bytes)
    requires p.state == WaitSync && SYNC !in garbage
    ensures FeedAll(p, garbage).packets == [] && FeedAll(p, garbage).parser.state == WaitSync
    decreases |garbage|
  {
    if garbage == [] {
    } else {
      var front := garbage[..|garbage| - 1];
      assert garbage == front + [garbage[|garbage| - 1]];
      GarbageIsIgnored(p, front);
    }
  }

  lemma HeaderParses(p: Parser, command: Byte, length: nat)
    requires Inv(p) && p.state == WaitSync && length <= MAX_PAYLOAD
    ensures var r := FeedAll(p, [SYNC, command] + Le16(length));
      && r.packets == [] && Inv(r.parser) && r.parser.command == command && r.parser.length == length
      && r.parser.position == 0 && r.parser.checksum == Header(command, length)
      && r.parser.state == if length != 0 then Data else Check
  {
    hide Le16, Mix, OnData, OnCheck;
    var low, high := Le16(length)[0], Le16(length)[1];
    LengthOfBytes(length);
    FeedOne(p, SYNC);
    FeedAllSnoc(p, [SYNC], command);
    FeedAllSnoc(p, [SYNC] + [command], low);
    FeedAllSnoc(p, [SYNC] + [command] + [low], high);
    assert [SYNC, command] + Le16(length) == [SYNC] + [command] + [low] + [high];
  }

  lemma LengthOfBytes(length: nat)
    requires length <= MAX_PAYLOAD
    ensures (Le16(length)[0] as int) + 256 * (Le16(length)[1] as int) == length
  {
  }

  lemma XorSnoc(data: Bytes, b: Byte)
    ensures Xor(data + [b]) == Mix(Xor(data), b)
  {
    assert (data + [b])[..|data|] == data;
  }

  lemma BitsOfNumber(x: bv8)
    ensures BitsOf(NumberOf(x)) == x
  {
    Checksums.ByteOfInt(x);
  }

  lemma EitherIsAssociative(x: bv8, y: bv8, z: bv8)
    ensures Either(Either(x, y), z) == Either(x, Either(y, z))
  {
  }

  lemma XorIsAssociative(a: Byte, b: Byte, c: Byte)
    ensures Mix(Mix(a, b), c) == Mix(a, Mix(b, c))
  {
    hide BitsOf, NumberOf, Either;
    BitsOfNumber(Either(BitsOf(a), BitsOf(b)));
    BitsOfNumber(Either(BitsOf(b), BitsOf(c)));
    EitherIsAssociative(BitsOf(a), BitsOf(b), BitsOf(c));
  }

  /** The payload lands in the buffer byte by byte while the checksum follows. */
  lemma {:induction false} PayloadParses(p: Parser, data: Bytes, n: nat)
    requires Inv(p) && p.state == Data && p.position == 0 && p.length == |data| && n <= |data|
    ensures var r := FeedAll(p, data[..n]);
      && r.packets == [] && Inv(r.parser) && r.parser.command == p.command && r.parser.length == p.length
      && r.parser.position == n && r.parser.checksum == Mix(p.checksum, Xor(data[..n]))
      && r.parser.payload[..n] == data[..n]
      && r.parser.state == if n < |data| then Data else Check
    decreases n
  {
    hide Mix, OnLengthHigh, OnCheck, OnData, FeedAll, Inv, Xor;
    InvBasics(p);
    if n == 0 {
      assert data[..0] == [] && p.payload[..0] == [];
      FeedNothing(p);
      XorOfNothing();
      XorZero(p.checksum);
    } else {
      PayloadParses(p, data, n - 1);
      var b := data[n - 1];
      assert data[..n] == data[..n - 1] + [b];
      FeedAllSnoc(p, data[..n - 1], b);
      XorSnoc(data[..n - 1], b);
      XorIsAssociative(p.checksum, Xor(data[..n - 1]), b);
      InvBasics(FeedAll(p, data[..n - 1]).parser);
      OnDataStores(FeedAll(p, data[..n - 1]).parser.(lastByteMs := 0), data, n - 1);
    }
  }

  lemma InvBasics(p: Parser)
    requires Inv(p)
    ensures p.state == Data ==> p.position < p.length
    ensures |p.payload| == MAX_PAYLOAD && Inv(p.(lastByteMs := 0))
  {
  }

  lemma OnDataStores(q: Parser, data: Bytes, n: nat)
    requires Inv(q) && q.state == Data && q.position == n < |data| == q.length && q.payload[..n] == data[..n]
    ensures var r := OnData(q, data[n]);
      && Inv(r) && r.command == q.command && r.length == q.length && r.position == n + 1
      && r.checksum == Mix(q.checksum, data[n]) && r.payload[..n + 1] == data[..n + 1]
      && r.state == if n + 1 < |data| then Data else Check
  {
    hide Mix;
    assert q.payload[n := data[n]][..n + 1] == q.payload[..n] + [data[n]];
  }

  lemma XorZero(a: Byte)
    ensures Mix(a, 0) == a
  {
    Checksums.IntOfByte(a);
  }

  /** A frame of any checksum byte, from the waiting state back to it: delivered exactly when the
      checksum is right. */
  lemma FrameParses(p: Parser, command: Byte, data: Bytes, checksum: Byte)
    requires Inv(p) && p.state == WaitSync && |data| <= MAX_PAYLOAD
    ensures var r := FeedAll(p, FrameWith(command, data, checksum));
      && r.parser.state == WaitSync && Inv(r.parser)
      && r.packets == if checksum == Checksum(command, data) then [Packet(command, data)] else []
  {
    hide FeedAll, Le16, Xor, Mix, OnLengthHigh, OnData, Header;
    var header := [SYNC, command] + Le16(|data|);
    HeaderParses(p, command, |data|);
    BodyParses(FeedAll(p, header).parser, command, data);
    FeedAllConcat(p, header, data);
    var s := FeedAll(p, header + data).parser;
    FeedAllConcat(p, header + data, [checksum]);
    FeedOne(s, checksum);
    CheckDecides(s, command, data, checksum);
  }

  lemma BodyParses(q: Parser, command: Byte, data: Bytes)
    requires Inv(q) && q.command == command && q.length == |data| <= MAX_PAYLOAD && q.position == 0
    requires q.checksum == Header(command, |data|) && q.state == if |data| != 0 then Data else Check
    ensures var r := FeedAll(q, data);
      && r.packets == [] && Inv(r.parser) && r.parser.state == Check && r.parser.command == command
      && r.parser.length == |data| && r.parser.payload[..|data|] == data
      && r.parser.checksum == Checksum(command, data)
  {
    hide FeedAll, Xor, Mix, Header;
    if data == [] {
      FeedNothing(q);
      XorOfNothing();
      XorZero(q.checksum);
    } else {
      PayloadParses(q, data, |data|);
      assert data[..|data|] == data;
    }
  }

  lemma CheckDecides(s: Parser, command: Byte, data: Bytes, checksum: Byte)
    requires Inv(s) && s.state == Check && s.command == command && s.length == |data| <= MAX_PAYLOAD
    requires s.payload[..|data|] == data
    ensures var r := Step(Run(s, []), Arrive(checksum, 0));
      && Inv(r.parser) && r.parser.state == WaitSync
      && r.packets == if checksum == s.checksum then [Packet(command, data)] else []
  {
    hide Mix, OnLengthHigh, OnData;
  }

  lemma FeedNothing(p: Parser)
    ensures FeedAll(p, []) == Run(p, [])
  {
  }

  lemma XorOfNothing()
    ensures Xor([]) == 0
  {
  }

  /** Parsing undoes printing: after any garbage without a sync byte, the concatenation of the frames
      of any packets delivers exactly those packets, in order. */
  lemma {:induction false} FramesParseBack(p: Parser, garbage: Bytes, packets: seq<Packet>)
    requires Inv(p) && p.state == WaitSync && SYNC !in garbage && Sendable(packets)
    ensures var r := FeedAll(p, garbage + Frames(packets));
      r.packets == packets && r.parser.state == WaitSync && Inv(r.parser)
    decreases |packets|
  {
    hide FeedAll, Inv, FrameWith, Checksum;
    if packets == [] {
      assert garbage + Frames(packets) == garbage;
      GarbageIsIgnored(p, garbage);
      FeedAllKeepsInv(p, garbage);
    } else {
      var front, last := packets[..|packets| - 1], packets[|packets| - 1];
      FramesParseBack(p, garbage, front);
      var q := FeedAll(p, garbage + Frames(front)).parser;
      assert garbage + Frames(packets) == garbage + Frames(front) + Frame(last);
      FeedAllConcat(p, garbage + Frames(front), Frame(last));
      FrameParses(q, last.command, last.data, Checksum(last.command, last.data));
      assert packets == front + [last];
    }
  }

  lemma {:induction false} XorReplaced(data: Bytes, k: nat, b: Byte)
    requires k < |data| && data[k] != b
    ensures Xor(data[k := b]) != Xor(data)
    decreases |data|
  {
    hide Mix;
    var n := |data| - 1;
    var other := data[k := b];
    if k == n {
      assert other[..n] == data[..n];
      MixRight(Xor(data[..n]), data[n], b);
    } else {
      assert other[..n] == data[..n][k := b];
      XorReplaced(data[..n], k, b);
      MixLeft(Xor(data[..n]), Xor(other[..n]), data[n]);
    }
  }

  lemma CastsDiffer(a: Byte, b: Byte)
    requires a != b
    ensures BitsOf(a) != BitsOf(b)
  {
    Checksums.IntOfByte(a);
    Checksums.IntOfByte(b);
  }

  lemma EitherDiffers(a: bv8, b: bv8, x: bv8)
    requires a != b
    ensures Either(a, x) != Either(b, x) && Either(x, a) != Either(x, b)
  {
  }

  lemma NumbersDiffer(a: bv8, b: bv8)
    requires a != b
    ensures NumberOf(a) != NumberOf(b)
  {
    hide BitsOf, NumberOf;
    BitsOfNumber(a);
    BitsOfNumber(b);
  }

  lemma MixLeft(a: Byte, b: Byte, x: Byte)
    requires a != b
    ensures Mix(a, x) != Mix(b, x)
  {
    hide BitsOf, NumberOf, Either;
    CastsDiffer(a, b);
    EitherDiffers(BitsOf(a), BitsOf(b), BitsOf(x));
    NumbersDiffer(Either(BitsOf(a), BitsOf(x)), Either(BitsOf(b), BitsOf(x)));
  }

  lemma MixRight(a: Byte, x: Byte, y: Byte)
    requires x != y
    ensures Mix(a, x) != Mix(a, y)
  {
    hide BitsOf, NumberOf, Either;
    CastsDiffer(x, y);
    EitherDiffers(BitsOf(x), BitsOf(y), BitsOf(a));
    NumbersDiffer(Either(BitsOf(a), BitsOf(x)), Either(BitsOf(a), BitsOf(y)));
  }

  lemma CommandMatters(a: Byte, b: Byte, length: nat)
    requires a != b && length <= MAX_PAYLOAD
    ensures Header(a, length) != Header(b, length)
  {
    hide Mix;
    MixLeft(a, b, Le16(length)[0]);
    MixLeft(Mix(a, Le16(length)[0]), Mix(b, Le16(length)[0]), Le16(length)[1]);
  }

  lemma AlteredFrame(p: Packet, k: nat, b: Byte)
    requires |p.data| <= MAX_PAYLOAD && k < |Frame(p)| && (k == 1 || 4 <= k)
    ensures var sum := Checksum(p.command, p.data);
      Frame(p)[k := b] == if k == 1 then FrameWith(b, p.data, sum)
        else if k < 4 + |p.data| then FrameWith(p.command, p.data[k - 4 := b], sum)
        else FrameWith(p.command, p.data, b)
  {
    hide Checksum, Le16;
  }

  /** A frame with exactly one altered command, payload or checksum byte is never delivered, and the
      parser waits for the next frame after it. */
  lemma OneAlteredByteIsRefused(q: Parser, p: Packet, k: nat, b: Byte)
    requires Inv(q) && q.state == WaitSync && |p.data| <= MAX_PAYLOAD
    requires k < |Frame(p)| && (k == 1 || 4 <= k) && Frame(p)[k] != b
    ensures var r := FeedAll(q, Frame(p)[k := b]); r.packets == [] && r.parser.state == WaitSync && Inv(r.parser)
  {
    hide FeedAll, Inv, Le16, Xor, Mix, Header;
    AlteredFrame(p, k, b);
    var sum, header, xor := Checksum(p.command, p.data), Header(p.command, |p.data|), Xor(p.data);
    if k == 1 {
      FrameParses(q, b, p.data, sum);
      CommandMatters(p.command, b, |p.data|);
      MixLeft(header, Header(b, |p.data|), xor);
    } else if k < 4 + |p.data| {
      FrameParses(q, p.command, p.data[k - 4 := b], sum);
      XorReplaced(p.data, k - 4, b);
      MixRight(header, xor, Xor(p.data[k - 4 := b]));
    } else {
      FrameParses(q, p.command, p.data, b);
    }
  }

  // ----- Time and chunking do not matter -----

  /** No idle check falls into a frame that has waited too long. */
  ghost predicate Quiet(p: Parser, events: seq<Event>) {
    events == []
    || (&& Quiet(p, events[..|events| - 1])
        && (events[|events| - 1].Idle? ==>
            CheckTimeout(Events(p, events[..|events| - 1]).parser, events[|events| - 1].now)
            == Events(p, events[..|events| - 1]).parser))
  }

  predicate SameButClock(a: Parser, b: Parser) {
    a.(lastByteMs := 0) == b.(lastByteMs := 0)
  }

  lemma ClockPassesThrough(p: Parser, b: Byte, t: nat)
    ensures OnLengthHigh(p.(lastByteMs := t), b) == OnLengthHigh(p, b).(lastByteMs := t)
    ensures OnCheck(p.(lastByteMs := t), b) == (OnCheck(p, b).0.(lastByteMs := t), OnCheck(p, b).1)
  {
    hide Mix;
  }

  lemma ClockPassesData(p: Parser, b: Byte, t: nat)
    ensures OnData(p.(lastByteMs := t), b) == OnData(p, b).(lastByteMs := t)
  {
    hide Mix;
  }

  lemma FeedClock(p: Parser, byte: Byte, now: nat)
    ensures Feed(p, byte, now) == (Feed(p.(lastByteMs := 0), byte, 0).0.(lastByteMs := now), Feed(p.(lastByteMs := 0), byte, 0).1)
  {
    hide Mix, OnLengthHigh, OnData, OnCheck;
    ClockPassesThrough(p.(lastByteMs := 0), byte, now);
    ClockPassesData(p.(lastByteMs := 0), byte, now);
  }

  lemma FeedIgnoresClock(a: Parser, b: Parser, byte: Byte, now: nat, later: nat)
    requires SameButClock(a, b)
    ensures SameButClock(Feed(a, byte, now).0, Feed(b, byte, later).0) && Feed(a, byte, now).1 == Feed(b, byte, later).1
  {
    hide Feed;
    FeedClock(a, byte, now);
    FeedClock(b, byte, later);
  }

  /** The packets of a quiet run depend on its bytes alone. */
  lemma {:induction false} QuietRunIsItsBytes(p: Parser, events: seq<Event>)
    requires Quiet(p, events)
    ensures Events(p, events).packets == FeedAll(p, BytesOf(events)).packets
    ensures SameButClock(Events(p, events).parser, FeedAll(p, BytesOf(events)).parser)
    decreases |events|
  {
    hide Feed, CheckTimeout;
    if events == [] {
    } else {
      var before, last := events[..|events| - 1], events[|events| - 1];
      QuietRunIsItsBytes(p, before);
      if last.Arrive? {
        FeedAllSnoc(p, BytesOf(before), last.b);
        FeedIgnoresClock(Events(p, before).parser, FeedAll(p, BytesOf(before)).parser, last.b, last.now, 0);
      }
    }
  }

  /** A line that was silent for half a second inside a frame starts over: whatever state the parser
      was in, the frames after the silence are all delivered. */
  lemma SilenceResynchronises(p: Parser, now: nat, garbage: Bytes, packets: seq<Packet>)
    requires Inv(p) && Elapsed(p, now) >= FRAME_TIMEOUT_MS && SYNC !in garbage && Sendable(packets)
    ensures FeedAll(Step(Run(p, []), Idle(now)).parser, garbage + Frames(packets)).packets == packets
  {
    hide FeedAll;
    FramesParseBack(CheckTimeout(p, now), garbage, packets);
  }

  // ----- The parser object -----

  class FrameParser {
    var state: State
    var command: Byte
    var length: nat
    var position: nat
    var checksum: Byte
    var lastByteMs: nat
    var badChecksumCount: nat
    var resyncCount: nat
    const payload: array<Byte>

    function View(): Parser
      reads this, payload
    {
      Parser(state, command, length, position, checksum, lastByteMs, badChecksumCount, resyncCount, payload[..])
    }

    constructor ()
      ensures Inv(View()) && View().state == WaitSync && fresh(payload)
    {
      state, command, length, position, checksum := WaitSync, 0, 0, 0, 0;
      lastByteMs, badChecksumCount, resyncCount := 0, 0, 0;
      payload := new Byte[MAX_PAYLOAD](_ => 0);
    }

    method ResetFields()
      modifies this
      ensures View() == Reset(old(View()))
    {
      state := WaitSync;
      length := 0;
      position := 0;
      checksum := 0;
    }

    method FeedLengthHigh(b: Byte)
      requires Inv(View()) && state == LengthHigh
      modifies this
      ensures View() == OnLengthHigh(old(View()), b)
    {
      hide Mix;
      length := length + 256 * b;
      checksum := Mix(checksum, b);
      position := 0;
      if length > MAX_PAYLOAD {
        resyncCount := resyncCount + 1;
        ResetFields();
        return;
      }
      state := if length != 0 then Data else Check;
    }

    method FeedData(b: Byte)
      requires Inv(View()) && state == Data
      modifies this, payload
      ensures View() == OnData(old(View()), b)
    {
      hide Mix;
      ghost var before := payload[..];
      payload[position] := b;
      assert payload[..] == before[position := b];
      position := position + 1;
      checksum := Mix(checksum, b);
      if position == length {
        state := Check;
      }
    }

    method FeedCheck(b: Byte) returns (packet: Option<Packet>)
      requires Inv(View()) && state == Check
      modifies this
      ensures (View(), packet) == OnCheck(old(View()), b)
    {
      if b != checksum {
        badChecksumCount := badChecksumCount + 1;
        ResetFields();
        return None;
      }
      packet := Some(Packet(command, payload[..length]));
      ResetFields();
    }

    method FeedByte(b: Byte, now: nat) returns (packet: Option<Packet>)
      requires Inv(View())
      modifies this, payload
      ensures (View(), packet) == Feed(old(View()), b, now) && Inv(View())
    {
      hide Mix, OnLengthHigh, OnData, OnCheck;
      FeedKeepsInv(View(), b, now);
      lastByteMs := now;
      packet := None;
      match state {
        case WaitSync =>
          if b == SYNC {
            state := Command;
          }
        case Command =>
          command := b;
          checksum := b;
          state := LengthLow;
        case LengthLow =>
          length := b;
          checksum := Mix(checksum, b);
          state := LengthHigh;
        case LengthHigh => FeedLengthHigh(b);
        case Data => FeedData(b);
        case Check => packet := FeedCheck(b);
      }
    }

    method CheckIdle(now: nat)
      requires Inv(View())
      modifies this
      ensures View() == CheckTimeout(old(View()), now) && Inv(View())
    {
      if state == WaitSync || (now - lastByteMs) % MILLIS < FRAME_TIMEOUT_MS {
        return;
      }
      resyncCount := resyncCount + 1;
      ResetFields();
    }
  }

  // ----- Writing a frame -----

  /** The wire, and how each of the three writes of a frame ends. */
  class Wire {
    var sent: Bytes

    constructor ()
      ensures sent == []
    {
      sent := [];
    }

    method Write(data: Bytes, ok: bool, partial: nat)
      modifies this
      ensures sent == old(sent) + (if ok || partial > |data| then data else data[..partial])
    {
      sent := sent + (if ok || partial > |data| then data else data[..partial]);
    }
  }

  lemma XorStep(data: Bytes, i: nat, sum: Byte)
    requires i < |data|
    ensures Mix(Mix(sum, Xor(data[..i])), data[i]) == Mix(sum, Xor(data[..i + 1]))
  {
    hide Xor, Mix;
    assert data[..i + 1] == data[..i] + [data[i]];
    XorSnoc(data[..i], data[i]);
    XorIsAssociative(sum, Xor(data[..i]), data[i]);
  }

  /** writeFrame: true only when the whole frame went out. */
  method WriteFrame(wire: Wire, command: Byte, data: array<Byte>, length: nat, header: bool, body: bool, last: bool,
                    partial: nat) returns (ok: bool)
    requires length <= data.Length
    modifies wire
    ensures length > MAX_PAYLOAD ==> !ok && wire.sent == old(wire.sent)
    ensures length <= MAX_PAYLOAD ==> ok == (header && (length == 0 || body) && last)
    ensures ok ==> wire.sent == old(wire.sent) + Frame(Packet(command, data[..length]))
  {
    hide Le16, Xor, Mix;
    if length > MAX_PAYLOAD {
      return false;
    }
    var lengthBytes := Le16(length);
    var checksum := Mix(Mix(command, lengthBytes[0]), lengthBytes[1]);
    ghost var start := checksum;
    var text := data[..length];
    assert Xor(text[..0]) == 0 by { XorOfNothing(); }
    XorZero(start);
    var i := 0;
    while i < length
      invariant 0 <= i <= length && wire.sent == old(wire.sent) && checksum == Mix(start, Xor(text[..i]))
    {
      XorStep(text, i, start);
      checksum := Mix(checksum, data[i]);
      i := i + 1;
    }
    assert text[..i] == text;
    wire.Write([SYNC, command] + lengthBytes, header, partial);
    if !header {
      return false;
    }
    if length != 0 {
      wire.Write(text, body, partial);
      if !body {
        return false;
      }
    }
    ghost var head := [SYNC, command] + lengthBytes;
    assert wire.sent == old(wire.sent) + head + text;
    wire.Write([checksum], last, partial);
    assert Frame(Packet(command, text)) == [SYNC, command] + lengthBytes + text + [checksum];
    assert last ==> wire.sent == (old(wire.sent) + head) + text + [checksum];
    assert (old(wire.sent) + head) + text + [checksum] == old(wire.sent) + (head + text + [checksum]);
    return last;
  }

  // ----- The receive buffer of the UART -----

  /** One refill: how many bytes the driver hands over, and the clock. */
  datatype Refill = Refill(count: nat, now: nat)

  class UartTransport {
    const parser: FrameParser
    const rxChunk: array<Byte>
    var rxChunkOffset: nat
    var rxChunkLength: nat
    /** The bytes the line has still to bring. */
    var line: Bytes
    ghost var history: seq<Event>
    ghost var delivered: seq<Packet>
    ghost const start: Parser

    ghost predicate Valid()
      reads this, parser, parser.payload, rxChunk
    {
      && rxChunk != parser.payload && rxChunk.Length == RX_CHUNK_SIZE
      && rxChunkOffset <= rxChunkLength <= RX_CHUNK_SIZE
      && Inv(start) && start.state == WaitSync && Inv(parser.View())
      && Events(start, history) == Run(parser.View(), delivered)
    }

    /** What has been received and not yet parsed, and what is still to come. */
    function Unread(): Bytes
      requires rxChunkOffset <= rxChunkLength <= rxChunk.Length
      reads this, rxChunk
    {
      rxChunk[..][rxChunkOffset..rxChunkLength] + line
    }

    constructor (line: Bytes)
      ensures Valid() && Unread() == line && history == [] && delivered == []
    {
      var p := new FrameParser();
      parser := p;
      rxChunk := new Byte[RX_CHUNK_SIZE](_ => 0);
      rxChunkOffset, rxChunkLength := 0, 0;
      this.line := line;
      history, delivered := [], [];
      start := p.View();
    }

    /** serial.read() into the empty chunk. */
    method RefillChunk(count: nat)
      requires count <= |line| && count <= rxChunk.Length
      modifies this`rxChunkOffset, this`rxChunkLength, this`line, rxChunk
      ensures rxChunkOffset == 0 && rxChunkLength == count
      ensures rxChunk[..count] == old(line[..count]) && line == old(line[count..])
    {
      forall i | 0 <= i < count {
        rxChunk[i] := line[i];
      }
      rxChunkOffset := 0;
      rxChunkLength := count;
      line := line[count..];
    }

    /** The inner loop: feeds the chunk until a packet is complete or the chunk is empty. */
    method FeedChunk(now: nat) returns (packet: Option<Packet>)
      requires Valid()
      modifies this`rxChunkOffset, this`history, this`delivered, parser, parser.payload
      ensures Valid() && BytesOf(history) + Unread() == old(BytesOf(history) + Unread())
      ensures packet.None? ==> rxChunkOffset == rxChunkLength
      ensures delivered == old(delivered) + if packet.Some? then [packet.value] else []
    {
      hide Feed, Inv, Events, BytesOf;
      while rxChunkOffset < rxChunkLength
        invariant Valid() && delivered == old(delivered)
        invariant BytesOf(history) + Unread() == old(BytesOf(history) + Unread())
      {
        var value := rxChunk[rxChunkOffset];
        ghost var rest, fed := Unread(), BytesOf(history);
        rxChunkOffset := rxChunkOffset + 1;
        TakeOne(rxChunk[..], rxChunkOffset - 1, rxChunkLength, line, fed);
        assert fed + rest == (fed + [value]) + Unread();
        packet := parser.FeedByte(value, now);
        EventsSnoc(start, history, Arrive(value, now));
        history := history + [Arrive(value, now)];
        if packet.Some? {
          delivered := delivered + [packet.value];
          return;
        }
      }
      return None;
    }

    /** poll(): however the driver cuts the stream into refills, every byte is fed once and in order,
        and the packets handed out are those of the parser. No packet means that the chunk is empty
        and, unless some refill brought nothing, that the whole line has been read. */
    method Poll(refills: seq<Refill>) returns (packet: Option<Packet>)
      requires Valid()
      modifies this, parser, parser.payload, rxChunk
      ensures Valid() && BytesOf(history) + Unread() == old(BytesOf(history) + Unread())
      ensures delivered == old(delivered) + if packet.Some? then [packet.value] else []
      ensures packet.None? ==> refills == [] || rxChunkOffset == rxChunkLength
      ensures packet.None? && |old(Unread())| < |refills| && (forall r :: r in refills ==> 0 < r.count) ==> Unread() == []
    {
      hide Feed, Inv, CheckTimeout, Events, BytesOf;
      var next := 0;
      ghost var full := forall r :: r in refills ==> 0 < r.count;
      while true
        invariant Valid() && delivered == old(delivered) && 0 <= next <= |refills|
        invariant 0 < next ==> rxChunkOffset == rxChunkLength
        invariant full ==> |Unread()| + next <= |old(Unread())|
        invariant BytesOf(history) + Unread() == old(BytesOf(history) + Unread())
        decreases |refills| - next
      {
        if next == |refills| {
          return None;
        }
        var refill := refills[next];
        next := next + 1;
        if rxChunkOffset == rxChunkLength {
          var available := if refill.count < |line| then refill.count else |line|;
          var wanted := if available < RX_CHUNK_SIZE then available else RX_CHUNK_SIZE;
          if wanted == 0 {
            rxChunkOffset, rxChunkLength := 0, 0;
            parser.CheckIdle(refill.now);
            EventsSnoc(start, history, Idle(refill.now));
            history := history + [Idle(refill.now)];
            return None;
          }
          ghost var rest := Unread();
          RefillChunk(wanted);
          assert rest == Unread();
        }
        packet := FeedChunk(refill.now);
        if packet.Some? {
          return;
        }
      }
    }
  }

  lemma TakeOne(chunk: Bytes, offset: nat, length: nat, line: Bytes, fed: Bytes)
    requires offset < length <= |chunk|
    ensures fed + (chunk[offset..length] + line) == (fed + [chunk[offset]]) + (chunk[offset + 1..length] + line)
  {
  }

  lemma EventsSnoc(p: Parser, events: seq<Event>, e: Event)
    ensures Events(p, events + [e]) == Step(Events(p, events), e)
    ensures BytesOf(events + [e]) == BytesOf(events) + if e.Arrive? then [e.b] else []
  {
    assert (events + [e])[..|events|] == events;
  }

  /** For any chunking: once the whole line has been read without a timeout inside a frame, exactly
      the packets that were sent have been handed out, in order. */
  lemma ChunkingDoesNotMatter(start: Parser, history: seq<Event>, garbage: Bytes, packets: seq<Packet>)
    requires Inv(start) && start.state == WaitSync && Quiet(start, history)
    requires SYNC !in garbage && Sendable(packets) && BytesOf(history) == garbage + Frames(packets)
    ensures Events(start, history).packets == packets
  {
    hide Events, FeedAll, Frames;
    QuietRunIsItsBytes(start, history);
    FramesParseBack(start, garbage, packets);
  }
}

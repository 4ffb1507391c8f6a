/** The single-producer single-consumer byte ring shared by the two cores
    (src/spsc_ring.cpp). The positions are wrapping 32-bit counters; the writer and
    the reader run concurrently, so every atomic load, every byte moved by memcpy and
    every atomic store is a step of its own. */
module SpscRing {
  import opened Modulus

  type Byte = bv8

  const WORD := 0x1_0000_0000
  const MAX_CAPACITY: bv32 := 0x7FFF_FFFF

  type Counter = c: int | 0 <= c < WORD

  function Minimum(left: nat, right: nat): nat {
    if left < right then left else right
  }

  /** Unsigned 32-bit difference of two positions. */
  function Used(written: Counter, read: Counter): Counter {
    (written - read) % WORD
  }

  function Advance(position: Counter, count: nat): Counter {
    (position + count) % WORD
  }

  /** The slot memcpy touches for byte number i of a run starting at a position. */
  function SlotOf(capacity: nat, position: Counter, i: nat): (slot: nat)
    requires i < capacity
    ensures slot < capacity
  {
    var index := position % capacity;
    if i < capacity - index then index + i else i - (capacity - index)
  }

  /** The slot of byte number j of the whole stream, by wrapping round the ring. */
  function Slot(capacity: nat, j: nat): (slot: nat)
    requires 0 < capacity
    ensures slot < capacity
    decreases j
  {
    if j < capacity then j else Slot(capacity, j - capacity)
  }

  lemma {:induction false} SlotIsRemainder(capacity: nat, j: nat)
    requires 0 < capacity
    ensures Slot(capacity, j) == j % capacity
    decreases j
  {
    if j < capacity {
      DivModUnique(j, capacity, 0, j);
    } else {
      SlotIsRemainder(capacity, j - capacity);
      var q := (j - capacity) / capacity;
      assert capacity * (q + 1) == capacity * q + capacity;
      DivModUnique(j, capacity, q + 1, (j - capacity) % capacity);
    }
  }

  lemma SlotsDistinct(capacity: nat, j: nat, k: nat)
    requires 0 < capacity && j < k < j + capacity
    ensures Slot(capacity, j) != Slot(capacity, k)
  {
    SlotIsRemainder(capacity, j);
    SlotIsRemainder(capacity, k);
    ModDistinct(j, k, capacity);
  }

  // ----- attach(): why the capacity must be a power of two -----

  predicate PassesPowerOfTwoCheck(capacity: bv32) {
    capacity & (capacity - 1) == 0
  }

  lemma PowerOfTwoCheckDividesWord(capacity: bv32)
    requires capacity != 0 && PassesPowerOfTwoCheck(capacity)
    ensures WORD % (capacity as int) == 0
  {
    assert capacity == 0x1 || capacity == 0x2 || capacity == 0x4 || capacity == 0x8
        || capacity == 0x10 || capacity == 0x20 || capacity == 0x40 || capacity == 0x80
        || capacity == 0x100 || capacity == 0x200 || capacity == 0x400 || capacity == 0x800
        || capacity == 0x1000 || capacity == 0x2000 || capacity == 0x4000 || capacity == 0x8000
        || capacity == 0x10000 || capacity == 0x20000 || capacity == 0x40000 || capacity == 0x80000
        || capacity == 0x100000 || capacity == 0x200000 || capacity == 0x400000 || capacity == 0x800000
        || capacity == 0x1000000 || capacity == 0x2000000 || capacity == 0x4000000 || capacity == 0x8000000
        || capacity == 0x10000000 || capacity == 0x20000000 || capacity == 0x40000000 || capacity == 0x80000000;
  }

  /** The counter may wrap anywhere in a run exactly when the capacity divides 2^32:
      otherwise the byte after position 0xFFFFFFFF lands in the wrong slot. */
  lemma WrapKeepsSlotsIffDivides(capacity: nat)
    requires 0 < capacity
    ensures (forall total: nat, i: nat :: i < capacity ==>
               SlotOf(capacity, total % WORD, i) == Slot(capacity, total + i))
        <==> WORD % capacity == 0
  {
    if WORD % capacity == 0 {
      forall total: nat, i: nat | i < capacity
        ensures SlotOf(capacity, total % WORD, i) == Slot(capacity, total + i)
      {
        SlotOfTotal(capacity, total, i);
      }
    } else {
      SlotIsRemainder(capacity, WORD);
      assert SlotOf(capacity, WORD % WORD, 0) != Slot(capacity, WORD + 0);
    }
  }

  /** In a ring whose capacity divides 2^32 the slot only depends on the running total. */
  lemma SlotOfTotal(capacity: nat, total: nat, i: nat)
    requires i < capacity && WORD % capacity == 0
    ensures SlotOf(capacity, total % WORD, i) == Slot(capacity, total + i)
  {
    ModOfMod(total, WORD, capacity);
    ModShift(total, i, capacity);
    SlotIsRemainder(capacity, total + i);
  }

  // ----- The two-thread step system -----

  /** Where the writer is inside write(). */
  datatype Writer =
    | WriterIdle
    | WriteLoadOwn(data: seq<Byte>)
    | WriteLoadRead(data: seq<Byte>, written: Counter)
    | WriteCopy(data: seq<Byte>, written: Counter, count: nat, copied: nat)

  /** Where the reader is: read() is a peek at offset 0 whose count is then discarded. */
  datatype Reader =
    | ReaderIdle
    | PeekLoadOwn(offset: nat, wanted: nat, consume: bool)
    | PeekLoadWritten(offset: nat, wanted: nat, consume: bool, read: Counter)
    | PeekCopy(offset: nat, consume: bool, read: Counter, count: nat, output: seq<Byte>)
    | PeekDone(offset: nat, output: seq<Byte>)
    | DiscardLoadOwn(length: nat, output: seq<Byte>)
    | DiscardLoadWritten(length: nat, output: seq<Byte>, read: Counter)
    | DiscardStore(output: seq<Byte>, read: Counter, count: nat)

  /** What the two cores share, with two history variables: the bytes write() accepted
      and the number of bytes the reader gave back. */
  datatype Memory = Memory(
    capacity: nat, storage: seq<Byte>, writePosition: Counter, readPosition: Counter,
    accepted: seq<Byte>, consumed: nat)
  {
    predicate Ready() {
      0 < capacity == |storage|
    }
  }

  /** The shared memory, both threads' registers, and what read() has returned so far. */
  datatype Ring = Ring(mem: Memory, writer: Writer, reader: Reader, obtained: seq<Byte>, onlyReads: bool)

  datatype Step =
    | CallWrite(data: seq<Byte>)
    | CallRead(wanted: nat)
    | CallPeekAt(offset: nat, wanted: nat)
    | CallDiscard(length: nat)
    | WriterStep
    | ReaderStep

  function Attached(capacity: nat, storage: seq<Byte>): Ring {
    Ring(Memory(capacity, storage, 0, 0, [], 0), WriterIdle, ReaderIdle, [], true)
  }

  function NextWriter(s: Ring): Ring
    requires s.mem.Ready()
  {
    var m := s.mem;
    match s.writer
    case WriterIdle => s
    case WriteLoadOwn(data) => s.(writer := WriteLoadRead(data, m.writePosition))
    case WriteLoadRead(data, written) =>
      var used := Used(written, m.readPosition);
      if used >= m.capacity then s.(writer := WriterIdle)
      else s.(writer := WriteCopy(data, written, Minimum(|data|, m.capacity - used), 0))
    case WriteCopy(data, written, count, copied) =>
      if copied < count && copied < |data| && copied < m.capacity then
        s.(mem := m.(storage := m.storage[SlotOf(m.capacity, written, copied) := data[copied]]),
           writer := WriteCopy(data, written, count, copied + 1))
      else
        s.(mem := m.(writePosition := Advance(written, count),
                     accepted := m.accepted + data[..Minimum(count, |data|)]),
           writer := WriterIdle)
  }

  function SafeUsed(m: Memory, read: Counter): nat {
    Minimum(Used(m.writePosition, read), m.capacity)
  }

  function AfterPeek(offset: nat, consume: bool, output: seq<Byte>): Reader {
    if consume then DiscardLoadOwn(|output|, output) else PeekDone(offset, output)
  }

  function NextReader(s: Ring): Ring
    requires s.mem.Ready()
  {
    var m := s.mem;
    match s.reader
    case ReaderIdle => s
    case PeekLoadOwn(offset, wanted, consume) =>
      s.(reader := PeekLoadWritten(offset, wanted, consume, m.readPosition))
    case PeekLoadWritten(offset, wanted, consume, read) =>
      var safeUsed := SafeUsed(m, read);
      if offset >= safeUsed then s.(reader := AfterPeek(offset, consume, []))
      else s.(reader := PeekCopy(offset, consume, read, Minimum(wanted, safeUsed - offset), []))
    case PeekCopy(offset, consume, read, count, output) =>
      if |output| < count && |output| < m.capacity then
        var slot := SlotOf(m.capacity, Advance(read, offset), |output|);
        s.(reader := PeekCopy(offset, consume, read, count, output + [m.storage[slot]]))
      else s.(reader := AfterPeek(offset, consume, output))
    case PeekDone(offset, output) => s.(reader := ReaderIdle)
    case DiscardLoadOwn(length, output) =>
      if length == 0 then s.(reader := ReaderIdle)
      else s.(reader := DiscardLoadWritten(length, output, m.readPosition))
    case DiscardLoadWritten(length, output, read) =>
      s.(reader := DiscardStore(output, read, Minimum(length, SafeUsed(m, read))))
    case DiscardStore(output, read, count) =>
      s.(mem := m.(readPosition := Advance(read, count), consumed := m.consumed + count),
         reader := ReaderIdle, obtained := s.obtained + output)
  }

  /** A call is taken only by an idle thread and only with a non-empty length, as the
      early returns of the source require. */
  function Next(s: Ring, step: Step): Ring
    requires s.mem.Ready()
  {
    match step
    case CallWrite(data) =>
      if s.writer.WriterIdle? && data != [] then s.(writer := WriteLoadOwn(data)) else s
    case CallRead(wanted) =>
      if s.reader.ReaderIdle? && wanted != 0 then s.(reader := PeekLoadOwn(0, wanted, true)) else s
    case CallPeekAt(offset, wanted) =>
      if s.reader.ReaderIdle? && wanted != 0 then s.(reader := PeekLoadOwn(offset, wanted, false)) else s
    case CallDiscard(length) =>
      if s.reader.ReaderIdle? then s.(reader := DiscardLoadOwn(length, []), onlyReads := false) else s
    case WriterStep => NextWriter(s)
    case ReaderStep => NextReader(s)
  }

  function Run(s: Ring, steps: seq<Step>): (r: Ring)
    requires s.mem.Ready()
    ensures r.mem.Ready() && r.mem.capacity == s.mem.capacity
    decreases |steps|
  {
    if steps == [] then s else Run(Next(s, steps[0]), steps[1..])
  }

  /** How a call begins: with its first load, if its thread is idle and there is something to do. */
  lemma CallsBegin(s: Ring, data: seq<Byte>, offset: nat, wanted: nat)
    requires s.mem.Ready()
    ensures Next(s, CallWrite(data)) == if s.writer == WriterIdle && |data| > 0 then s.(writer := WriteLoadOwn(data)) else s
    ensures Next(s, CallRead(wanted))
         == if s.reader == ReaderIdle && wanted > 0 then s.(reader := PeekLoadOwn(0, wanted, true)) else s
    ensures Next(s, CallPeekAt(offset, wanted))
         == if s.reader == ReaderIdle && wanted > 0 then s.(reader := PeekLoadOwn(offset, wanted, false)) else s
    ensures Next(s, CallDiscard(wanted))
         == if s.reader == ReaderIdle then s.(reader := DiscardLoadOwn(wanted, []), onlyReads := false) else s
  {
  }

  // ----- The invariant -----

  function Slice(s: seq<Byte>, at: nat, count: nat): (r: seq<Byte>)
    requires at + count <= |s|
  {
    s[at..at + count]
  }

  ghost predicate MemoryMatches(m: Memory) {
    && m.Ready()
    && m.capacity < WORD && WORD % m.capacity == 0
    && m.writePosition == |m.accepted| % WORD
    && m.readPosition == m.consumed % WORD
    && m.consumed <= |m.accepted| <= m.consumed + m.capacity
    && forall j :: m.consumed <= j < |m.accepted| ==> m.storage[Slot(m.capacity, j)] == m.accepted[j]
  }

  ghost predicate WriterMatches(m: Memory, w: Writer)
    requires m.Ready()
  {
    match w
    case WriterIdle => true
    case WriteLoadOwn(data) => true
    case WriteLoadRead(data, written) => written == m.writePosition
    case WriteCopy(data, written, count, copied) =>
      && written == m.writePosition
      && copied <= count <= |data|
      && |m.accepted| + count <= m.consumed + m.capacity
      && forall i :: 0 <= i < copied ==> m.storage[Slot(m.capacity, |m.accepted| + i)] == data[i]
  }

  ghost predicate ReaderMatches(m: Memory, r: Reader, onlyReads: bool) {
    match r
    case ReaderIdle => true
    case PeekLoadOwn(offset, wanted, consume) => consume ==> offset == 0
    case PeekLoadWritten(offset, wanted, consume, read) => read == m.readPosition && (consume ==> offset == 0)
    case PeekCopy(offset, consume, read, count, output) =>
      && read == m.readPosition && (consume ==> offset == 0)
      && |output| <= count && m.consumed + offset + count <= |m.accepted|
      && Holds(m, offset, output)
    case PeekDone(offset, output) => output != [] ==> Holds(m, offset, output)
    case DiscardLoadOwn(length, output) => Pending(m, onlyReads, length, output)
    case DiscardLoadWritten(length, output, read) =>
      read == m.readPosition && Pending(m, onlyReads, length, output)
    case DiscardStore(output, read, count) =>
      && read == m.readPosition && m.consumed + count <= |m.accepted|
      && Pending(m, onlyReads, count, output)
  }

  /** The output holds exactly the accepted bytes at that distance from the read position. */
  ghost predicate Holds(m: Memory, offset: nat, output: seq<Byte>) {
    && m.consumed + offset + |output| <= |m.accepted|
    && output == Slice(m.accepted, m.consumed + offset, |output|)
  }

  /** Either a bare discard (nothing to hand out) or the tail of read(): length bytes peeked. */
  ghost predicate Pending(m: Memory, onlyReads: bool, length: nat, output: seq<Byte>) {
    if output == [] then length == 0 || !onlyReads
    else length == |output| && Holds(m, 0, output)
  }

  ghost predicate HistoryMatches(m: Memory, onlyReads: bool, obtained: seq<Byte>)
    requires m.consumed <= |m.accepted|
  {
    onlyReads ==> obtained == m.accepted[..m.consumed]
  }

  ghost predicate Inv(s: Ring) {
    && MemoryMatches(s.mem) && WriterMatches(s.mem, s.writer)
    && ReaderMatches(s.mem, s.reader, s.onlyReads)
    && HistoryMatches(s.mem, s.onlyReads, s.obtained)
  }

  lemma UsedIsDistance(m: Memory)
    requires MemoryMatches(m)
    ensures Used(m.writePosition, m.readPosition) == |m.accepted| - m.consumed
  {
    var w, r := |m.accepted|, m.consumed;
    DivModUnique(m.writePosition - m.readPosition, WORD, r / WORD - w / WORD, w - r);
  }

  lemma AdvanceIsTotal(total: nat, count: nat)
    ensures Advance(total % WORD, count) == (total + count) % WORD
  {
    DivModUnique(total % WORD + count, WORD, (total + count) / WORD - total / WORD, (total + count) % WORD);
  }

  /** A byte copied past the published end overwrites no slot before it. */
  lemma CopyKeepsOthers(m: Memory, k: nat, value: Byte, j: nat)
    requires m.Ready() && j < k < j + m.capacity
    ensures m.storage[Slot(m.capacity, k) := value][Slot(m.capacity, j)] == m.storage[Slot(m.capacity, j)]
  {
    SlotsDistinct(m.capacity, j, k);
  }

  lemma WriterCopyKeepsInv(s: Ring)
    requires Inv(s) && s.writer.WriteCopy? && s.writer.copied < s.writer.count
    ensures Inv(NextWriter(s))
  {
    hide Slot, SlotOf, ReaderMatches;
    var m, copied, value := s.mem, s.writer.copied, s.writer.data[s.writer.copied];
    var w := |m.accepted|;
    SlotOfTotal(m.capacity, w, copied);
    var t := NextWriter(s).mem;
    assert t == m.(storage := m.storage[Slot(m.capacity, w + copied) := value]);
    forall j | m.consumed <= j < w + copied
      ensures t.storage[Slot(m.capacity, j)] == m.storage[Slot(m.capacity, j)]
    {
      CopyKeepsOthers(m, w + copied, value, j);
    }
    ReaderKeptByGrowth(m, t, s.reader, s.onlyReads);
  }

  lemma PublishKeepsMemory(m: Memory, t: Memory, data: seq<Byte>)
    requires MemoryMatches(m) && |m.accepted| + |data| <= m.consumed + m.capacity
    requires forall i :: 0 <= i < |data| ==> m.storage[Slot(m.capacity, |m.accepted| + i)] == data[i]
    requires t == m.(writePosition := Advance(m.writePosition, |data|), accepted := m.accepted + data)
    ensures MemoryMatches(t)
  {
    hide Slot, Advance;
    var w := |m.accepted|;
    AdvanceIsTotal(w, |data|);
    forall j | t.consumed <= j < |t.accepted|
      ensures t.storage[Slot(t.capacity, j)] == t.accepted[j]
    {
      if j >= w {
        assert j == w + (j - w);
      }
    }
  }

  lemma WriterStoreKeepsInv(s: Ring)
    requires Inv(s) && s.writer.WriteCopy? && s.writer.copied == s.writer.count
    ensures Inv(NextWriter(s))
  {
    hide Slot, SlotOf, ReaderMatches, Advance;
    var t := NextWriter(s).mem;
    PublishKeepsMemory(s.mem, t, s.writer.data[..s.writer.count]);
    assert s.mem.accepted[..s.mem.consumed] == t.accepted[..t.consumed];
    ReaderKeptByGrowth(s.mem, t, s.reader, s.onlyReads);
  }

  lemma HoldsAfterGrowth(m: Memory, t: Memory, offset: nat, output: seq<Byte>)
    requires Holds(m, offset, output) && t.consumed == m.consumed && m.accepted <= t.accepted
    ensures Holds(t, offset, output)
  {
  }

  lemma ReaderKeptByGrowth(m: Memory, t: Memory, r: Reader, onlyReads: bool)
    requires ReaderMatches(m, r, onlyReads)
    requires t.consumed == m.consumed && t.readPosition == m.readPosition && m.accepted <= t.accepted
    ensures ReaderMatches(t, r, onlyReads)
  {
    if (r.PeekCopy? || r.PeekDone?) && Holds(m, r.offset, r.output) {
      HoldsAfterGrowth(m, t, r.offset, r.output);
    }
    if (r.DiscardLoadOwn? || r.DiscardLoadWritten? || r.DiscardStore?) && Holds(m, 0, r.output) {
      HoldsAfterGrowth(m, t, 0, r.output);
    }
  }

  lemma WriterKeepsInv(s: Ring)
    requires Inv(s)
    ensures Inv(NextWriter(s))
  {
    if s.writer.WriteCopy? {
      if s.writer.copied < s.writer.count {
        WriterCopyKeepsInv(s);
      } else {
        WriterStoreKeepsInv(s);
      }
    } else {
      UsedIsDistance(s.mem);
    }
  }

  lemma ReaderCopiesAcceptedByte(s: Ring)
    requires Inv(s) && s.reader.PeekCopy? && |s.reader.output| < s.reader.count
    ensures var m, at, n := s.mem, s.mem.consumed + s.reader.offset, |s.reader.output|;
            n < m.capacity && m.storage[SlotOf(m.capacity, Advance(s.reader.read, s.reader.offset), n)] == m.accepted[at + n]
  {
    AdvanceIsTotal(s.mem.consumed, s.reader.offset);
    SlotOfTotal(s.mem.capacity, s.mem.consumed + s.reader.offset, |s.reader.output|);
  }

  lemma SliceGrows(s: seq<Byte>, at: nat, n: nat)
    requires at + n < |s|
    ensures Slice(s, at, n + 1) == Slice(s, at, n) + [s[at + n]]
  {
  }

  lemma ReaderStoreKeepsInv(s: Ring)
    requires Inv(s) && s.reader.DiscardStore?
    ensures Inv(NextReader(s))
  {
    hide Slot, Advance;
    var m, count, output := s.mem, s.reader.count, s.reader.output;
    AdvanceIsTotal(m.consumed, count);
    if s.onlyReads {
      assert m.accepted[..m.consumed] + output == m.accepted[..m.consumed + count];
    }
  }

  lemma ReaderCopyKeepsInv(s: Ring)
    requires Inv(s) && s.reader.PeekCopy?
    ensures Inv(NextReader(s))
  {
    if |s.reader.output| < s.reader.count {
      ReaderCopiesAcceptedByte(s);
      SliceGrows(s.mem.accepted, s.mem.consumed + s.reader.offset, |s.reader.output|);
    }
  }

  lemma ReaderLoadKeepsInv(s: Ring)
    requires Inv(s) && (s.reader.PeekLoadWritten? || s.reader.DiscardLoadWritten?)
    ensures Inv(NextReader(s))
  {
    UsedIsDistance(s.mem);
    var t := NextReader(s);
    assert t.mem == s.mem && t.onlyReads == s.onlyReads && t.obtained == s.obtained;
  }

  lemma ReaderKeepsInv(s: Ring)
    requires Inv(s)
    ensures Inv(NextReader(s))
  {
    match s.reader
    case PeekCopy(_, _, _, _, _) => ReaderCopyKeepsInv(s);
    case DiscardStore(_, _, _) => ReaderStoreKeepsInv(s);
    case PeekLoadWritten(_, _, _, _) => ReaderLoadKeepsInv(s);
    case DiscardLoadWritten(_, _, _) => ReaderLoadKeepsInv(s);
    case _ =>
  }

  lemma StepKeepsInv(s: Ring, step: Step)
    requires Inv(s)
    ensures Inv(Next(s, step))
  {
    match step
    case WriterStep => WriterKeepsInv(s);
    case ReaderStep => ReaderKeepsInv(s);
    case _ =>
  }

  lemma {:induction false} RunKeepsInv(s: Ring, steps: seq<Step>)
    requires Inv(s)
    ensures Inv(Run(s, steps))
    decreases |steps|
  {
    if steps == [] {
    } else {
      StepKeepsInv(s, steps[0]);
      RunKeepsInv(Next(s, steps[0]), steps[1..]);
    }
  }

  // ----- The theorems over every interleaving -----

  lemma {:induction false} ReadsOnlyStaysSo(s: Ring, steps: seq<Step>)
    requires s.mem.Ready()
    requires s.onlyReads && forall step :: step in steps ==> !step.CallDiscard?
    ensures Run(s, steps).onlyReads
    decreases |steps|
  {
    if steps == [] {
    } else {
      assert steps[0] in steps;
      ReadsOnlyStaysSo(Next(s, steps[0]), steps[1..]);
    }
  }

  lemma RunFacts(s: Ring, steps: seq<Step>)
    requires Inv(s) && s.onlyReads
    ensures var r := Run(s, steps);
      && r.mem.consumed <= |r.mem.accepted| <= r.mem.consumed + r.mem.capacity
      && Used(r.mem.writePosition, r.mem.readPosition) == |r.mem.accepted| - r.mem.consumed
      && ((forall step :: step in steps ==> !step.CallDiscard?) ==> r.obtained == r.mem.accepted[..r.mem.consumed])
      && (r.reader.PeekDone? && r.reader.output != [] ==> Holds(r.mem, r.reader.offset, r.reader.output))
  {
    RunKeepsInv(s, steps);
    UsedIsDistance(Run(s, steps).mem);
    if forall step :: step in steps ==> !step.CallDiscard? {
      ReadsOnlyStaysSo(s, steps);
    }
  }

  /** Whatever order the two threads' steps come in, and however often the counters wrap:
      read() has returned exactly a prefix of what write() accepted, the unread bytes never
      exceed the capacity, available() is their exact number, and a completed peek shows the
      accepted bytes at its place. */
  lemma ReaderObtainsPrefix(capacity: bv32, storage: seq<Byte>, steps: seq<Step>)
    requires 2 <= capacity <= MAX_CAPACITY && PassesPowerOfTwoCheck(capacity)
    requires |storage| == capacity as int
    ensures var r := Run(Attached(capacity as int, storage), steps);
      && r.mem.consumed <= |r.mem.accepted| <= r.mem.consumed + r.mem.capacity
      && Used(r.mem.writePosition, r.mem.readPosition) == |r.mem.accepted| - r.mem.consumed
      && ((forall step :: step in steps ==> !step.CallDiscard?) ==> r.obtained == r.mem.accepted[..r.mem.consumed])
      && (r.reader.PeekDone? && r.reader.output != [] ==> Holds(r.mem, r.reader.offset, r.reader.output))
  {
    AttachedInv(capacity, storage);
    RunFacts(Attached(capacity as int, storage), steps);
  }

  lemma AttachedInv(capacity: bv32, storage: seq<Byte>)
    requires 2 <= capacity <= MAX_CAPACITY && PassesPowerOfTwoCheck(capacity)
    requires |storage| == capacity as int
    ensures Inv(Attached(capacity as int, storage))
  {
    PowerOfTwoCheckDividesWord(capacity);
    assert (capacity as int) <= (MAX_CAPACITY as int);
  }

  // ----- A call that runs with the other core silent -----

  function WriterLeft(w: Writer): nat {
    match w
    case WriterIdle => 0
    case WriteLoadOwn(data) => |data| + 3
    case WriteLoadRead(data, written) => |data| + 2
    case WriteCopy(data, written, count, copied) => if copied < |data| then |data| - copied + 1 else 1
  }

  function FinishWriter(s: Ring): (t: Ring)
    requires s.mem.Ready()
    ensures t.writer.WriterIdle?
    decreases WriterLeft(s.writer)
  {
    if s.writer.WriterIdle? then s else FinishWriter(NextWriter(s))
  }

  lemma FinishWriterStep(s: Ring)
    requires s.mem.Ready()
    ensures s.writer.WriterIdle? ==> FinishWriter(s) == s
    ensures !s.writer.WriterIdle? ==>
              && NextWriter(s).mem.Ready() && FinishWriter(s) == FinishWriter(NextWriter(s))
              && WriterLeft(NextWriter(s).writer) < WriterLeft(s.writer)
  {
  }

  function ReaderLeft(r: Reader, capacity: nat): nat {
    match r
    case ReaderIdle => 0
    case PeekLoadOwn(offset, wanted, consume) => capacity + 6
    case PeekLoadWritten(offset, wanted, consume, read) => capacity + 5
    case PeekCopy(offset, consume, read, count, output) =>
      4 + if |output| < capacity then capacity - |output| else 0
    case PeekDone(offset, output) => 1
    case DiscardLoadOwn(length, output) => 3
    case DiscardLoadWritten(length, output, read) => 2
    case DiscardStore(output, read, count) => 1
  }

  function FinishReader(s: Ring): (t: Ring)
    requires s.mem.Ready()
    ensures t.reader.ReaderIdle?
    decreases ReaderLeft(s.reader, s.mem.capacity)
  {
    if s.reader.ReaderIdle? then s else FinishReader(NextReader(s))
  }

  function WriteCount(s: Ring): nat
    requires MemoryMatches(s.mem) && s.writer.WriteLoadOwn?
  {
    Minimum(|s.writer.data|, s.mem.capacity - (|s.mem.accepted| - s.mem.consumed))
  }

  lemma {:induction false} FinishCopy(s: Ring)
    requires Inv(s) && s.writer.WriteCopy?
    ensures var t := FinishWriter(s);
      && Inv(t)
      && t == s.(writer := WriterIdle, mem := t.mem)
      && t.mem.accepted == s.mem.accepted + s.writer.data[..s.writer.count]
      && t.mem.consumed == s.mem.consumed
    decreases s.writer.count - s.writer.copied
  {
    WriterKeepsInv(s);
    if s.writer.copied < s.writer.count {
      FinishCopy(NextWriter(s));
    }
  }

  /** write() undisturbed: exactly as many bytes as there was room for, in order, nothing else. */
  lemma WriteAppends(s: Ring)
    requires Inv(s) && s.writer.WriteLoadOwn?
    ensures var t := FinishWriter(s);
      && Inv(t)
      && t == s.(writer := WriterIdle, mem := t.mem)
      && t.mem.accepted == s.mem.accepted + s.writer.data[..WriteCount(s)]
      && t.mem.consumed == s.mem.consumed
    ensures var w := NextWriter(NextWriter(s)).writer;
      if w.WriterIdle? then WriteCount(s) == 0 else w == WriteCopy(s.writer.data, s.mem.writePosition, WriteCount(s), 0)
  {
    WriterKeepsInv(s);
    var u := NextWriter(s);
    WriterKeepsInv(u);
    UsedIsDistance(u.mem);
    var v := NextWriter(u);
    if v.writer.WriteCopy? {
      FinishCopy(v);
    }
    assert FinishWriter(s) == FinishWriter(u) == FinishWriter(v);
  }

  function ReadCount(s: Ring): nat
    requires MemoryMatches(s.mem) && s.reader.PeekLoadOwn?
  {
    Minimum(s.reader.wanted, |s.mem.accepted| - s.mem.consumed)
  }

  lemma FinishDiscard(s: Ring)
    requires Inv(s) && s.reader.DiscardLoadOwn? && s.reader.output != []
    ensures var t := FinishReader(s);
      && Inv(t)
      && t == s.(reader := ReaderIdle, mem := t.mem, obtained := s.obtained + s.reader.output)
      && t.mem.accepted == s.mem.accepted
      && t.mem.consumed == s.mem.consumed + s.reader.length
  {
    UsedIsDistance(s.mem);
    ReaderKeepsInv(s);
    var u := NextReader(s);
    ReaderKeepsInv(u);
    var v := NextReader(u);
    ReaderKeepsInv(v);
    assert FinishReader(s) == FinishReader(u) == FinishReader(v) == FinishReader(NextReader(v));
  }

  lemma {:induction false} FinishPeek(s: Ring)
    requires Inv(s) && s.reader.PeekCopy? && s.reader.consume && 0 < s.reader.count
    ensures var t := FinishReader(s);
      && Inv(t)
      && t == s.(reader := ReaderIdle, mem := t.mem,
                 obtained := s.obtained + Slice(s.mem.accepted, s.mem.consumed, s.reader.count))
      && t.mem.accepted == s.mem.accepted
      && t.mem.consumed == s.mem.consumed + s.reader.count
    decreases s.reader.count - |s.reader.output|
  {
    ReaderKeepsInv(s);
    if |s.reader.output| < s.reader.count {
      FinishPeek(NextReader(s));
    } else {
      FinishDiscard(NextReader(s));
    }
  }

  lemma FinishedReader(s: Ring)
    requires s.mem.Ready() && s.reader.ReaderIdle?
    ensures FinishReader(s) == s
  {
  }

  lemma FinishReaderStep(s: Ring)
    requires s.mem.Ready() && !s.reader.ReaderIdle?
    ensures NextReader(s).mem.Ready() && FinishReader(s) == FinishReader(NextReader(s))
  {
  }

  /** The two loads of a peek: the copy starts exactly when there is something to read. */
  lemma PeekLoads(s: Ring)
    requires Inv(s) && s.reader.PeekLoadOwn? && s.reader.consume && 0 < s.reader.wanted && s.reader.offset == 0
    ensures var v := NextReader(NextReader(s));
      && Inv(NextReader(s)) && Inv(v) && v == s.(reader := v.reader) && NextReader(s).reader.PeekLoadWritten?
      && (if ReadCount(s) == 0 then v.reader == DiscardLoadOwn(0, [])
          else v.reader == PeekCopy(0, true, s.mem.readPosition, ReadCount(s), []))
  {
    hide Slot, SlotOf, Used;
    ReaderKeepsInv(s);
    UsedIsDistance(s.mem);
    ReaderKeepsInv(NextReader(s));
  }

  /** read() undisturbed: the oldest unread bytes, in order, each handed out once. */
  lemma ReadTakesOldest(s: Ring)
    requires Inv(s) && s.reader.PeekLoadOwn? && s.reader.consume && 0 < s.reader.wanted
    ensures var t := FinishReader(s);
      && Inv(t)
      && t == s.(reader := ReaderIdle, mem := t.mem,
                 obtained := s.obtained + Slice(s.mem.accepted, s.mem.consumed, ReadCount(s)))
      && t.mem.accepted == s.mem.accepted
      && t.mem.consumed == s.mem.consumed + ReadCount(s)
  {
    hide FinishReader;
    PeekLoads(s);
    var u := NextReader(s);
    var v := NextReader(u);
    FinishReaderStep(s);
    FinishReaderStep(u);
    if ReadCount(s) != 0 {
      FinishPeek(v);
    } else {
      ReaderKeepsInv(v);
      FinishReaderStep(v);
      FinishedReader(NextReader(v));
    }
  }

  // ----- The ring as a queue, while the other core keeps writing -----

  /** The bytes written and not given back yet, oldest first. */
  function Unread(m: Memory): seq<Byte>
    requires m.consumed <= |m.accepted|
  {
    m.accepted[m.consumed..]
  }

  /** One call of the reader goes on, and the writer does what it likes. */
  predicate OneCall(steps: seq<Step>) {
    forall step :: step in steps ==> step.ReaderStep? || step.WriterStep? || step.CallWrite?
  }

  /** As many bytes as wanted, if there were so many from the offset on when the call began. */
  predicate Enough(start: Memory, offset: nat, wanted: nat, n: nat) {
    n <= wanted && (offset + wanted <= |start.accepted| - start.consumed ==> n == wanted)
  }

  ghost predicate Peeking(s: Ring, start: Memory, offset: nat, wanted: nat) {
    && s.mem.consumed == start.consumed && start.accepted <= s.mem.accepted
    && match s.reader
       case ReaderIdle => true
       case PeekLoadOwn(o, w, consume) => o == offset && w == wanted && !consume
       case PeekLoadWritten(o, w, consume, _) => o == offset && w == wanted && !consume
       case PeekCopy(o, consume, _, count, _) => o == offset && !consume && Enough(start, offset, wanted, count)
       case PeekDone(o, output) => o == offset && Enough(start, offset, wanted, |output|)
       case _ => false
  }

  lemma PeekingGoesOn(s: Ring, start: Memory, offset: nat, wanted: nat, step: Step)
    requires Inv(s) && Peeking(s, start, offset, wanted) && OneCall([step])
    ensures Peeking(Next(s, step), start, offset, wanted)
  {
    hide Slot, SlotOf, Used, Advance;
    assert step in [step];
    UsedIsDistance(s.mem);
  }

  lemma {:induction false} PeekingRuns(s: Ring, start: Memory, offset: nat, wanted: nat, steps: seq<Step>)
    requires Inv(s) && Peeking(s, start, offset, wanted) && OneCall(steps)
    ensures Inv(Run(s, steps)) && Peeking(Run(s, steps), start, offset, wanted)
    decreases |steps|
  {
    hide Inv, Next, Peeking;
    InvReady(s);
    if steps == [] {
    } else {
      assert steps[0] in steps;
      StepKeepsInv(s, steps[0]);
      PeekingGoesOn(s, start, offset, wanted, steps[0]);
      PeekingRuns(Next(s, steps[0]), start, offset, wanted, steps[1..]);
    }
  }

  lemma InvReady(s: Ring)
    requires Inv(s)
    ensures s.mem.Ready() && s.mem.consumed <= |s.mem.accepted|
  {
  }

  /** peekAt() reads the queue of unread bytes at its offset and removes none of them, however much
      the other core writes meanwhile. */
  lemma PeekReadsTheQueue(s: Ring, offset: nat, wanted: nat, steps: seq<Step>)
    requires Inv(s) && s.reader == PeekLoadOwn(offset, wanted, false) && OneCall(steps)
    ensures var t := Run(s, steps);
      && Inv(t) && Unread(s.mem) <= Unread(t.mem)
      && (t.reader.PeekDone? && t.reader.output != [] ==>
            && |t.reader.output| <= wanted && offset + |t.reader.output| <= |Unread(t.mem)|
            && t.reader.output == Unread(t.mem)[offset..offset + |t.reader.output|])
      && (t.reader.PeekDone? && offset + wanted <= |Unread(s.mem)| ==>
            t.reader.output == Unread(s.mem)[offset..offset + wanted])
  {
    hide Run, WriterMatches;
    PeekingRuns(s, s.mem, offset, wanted, steps);
    var t := Run(s, steps);
    if t.reader.PeekDone? && t.reader.output != [] {
      assert Holds(t.mem, offset, t.reader.output);
    }
  }

  ghost predicate Discarding(s: Ring, start: Memory, length: nat) {
    && start.accepted <= s.mem.accepted
    && match s.reader
       case ReaderIdle => start.consumed <= s.mem.consumed && Enough(start, 0, length, s.mem.consumed - start.consumed)
       case DiscardLoadOwn(n, output) => s.mem.consumed == start.consumed && n == length
       case DiscardLoadWritten(n, output, _) => s.mem.consumed == start.consumed && n == length
       case DiscardStore(output, _, count) => s.mem.consumed == start.consumed && Enough(start, 0, length, count)
       case _ => false
  }

  lemma DiscardingGoesOn(s: Ring, start: Memory, length: nat, step: Step)
    requires Inv(s) && Discarding(s, start, length) && OneCall([step])
    ensures Discarding(Next(s, step), start, length)
  {
    hide Slot, SlotOf, Used, Advance;
    assert step in [step];
    UsedIsDistance(s.mem);
  }

  lemma {:induction false} DiscardingRuns(s: Ring, start: Memory, length: nat, steps: seq<Step>)
    requires Inv(s) && Discarding(s, start, length) && OneCall(steps)
    ensures Inv(Run(s, steps)) && Discarding(Run(s, steps), start, length)
    decreases |steps|
  {
    hide Inv, Next, Discarding;
    InvReady(s);
    if steps == [] {
    } else {
      assert steps[0] in steps;
      StepKeepsInv(s, steps[0]);
      DiscardingGoesOn(s, start, length, steps[0]);
      DiscardingRuns(Next(s, steps[0]), start, length, steps[1..]);
    }
  }

  /** discard() removes the oldest bytes of that queue and nothing else, all of those asked for if
      they were there when it was called. */
  lemma DiscardDropsTheOldest(s: Ring, length: nat, steps: seq<Step>)
    requires Inv(s) && s.reader == DiscardLoadOwn(length, []) && OneCall(steps)
    ensures var t := Run(s, steps);
      && Inv(t) && s.mem.accepted <= t.mem.accepted
      && (t.reader.ReaderIdle? ==>
            && s.mem.consumed <= t.mem.consumed <= s.mem.consumed + length
            && (length <= |Unread(s.mem)| ==>
                  t.mem.consumed == s.mem.consumed + length && Unread(s.mem)[length..] <= Unread(t.mem)))
  {
    hide Run, WriterMatches;
    DiscardingRuns(s, s.mem, length, steps);
  }

  // ----- The ring in memory -----

  class SpscByteRing {
    var storage: array<Byte>
    var capacity: nat
    var writePosition: Counter
    var readPosition: Counter
    var writer: Writer
    var reader: Reader
    ghost var accepted: seq<Byte>
    ghost var consumed: nat
    ghost var obtained: seq<Byte>
    ghost var onlyReads: bool

    ghost function View(): Ring
      reads this, storage
    {
      Ring(Memory(capacity, storage[..], writePosition, readPosition, accepted, consumed),
           writer, reader, obtained, onlyReads)
    }

    ghost predicate Valid()
      reads this, storage
    {
      capacity == storage.Length && (0 < capacity ==> Inv(View()))
    }

    constructor ()
      ensures Valid() && capacity == 0
    {
      storage := new Byte[0];
      capacity, writePosition, readPosition := 0, 0, 0;
      writer, reader := WriterIdle, ReaderIdle;
      accepted, consumed, obtained, onlyReads := [], 0, [], true;
    }

    method Attach(memory: array?<Byte>, size: bv32) returns (ok: bool)
      requires memory != null ==> memory.Length == size as int
      modifies this
      ensures ok <==> memory != null && 2 <= size <= MAX_CAPACITY && PassesPowerOfTwoCheck(size)
      ensures ok ==> Valid() && storage == memory && View() == Attached(size as int, old(memory[..]))
      ensures !ok ==> unchanged(this)
    {
      hide Inv;
      if memory == null || size < 2 || size > MAX_CAPACITY {
        return false;
      }
      if size & (size - 1) != 0 {
        return false;
      }
      storage := memory;
      capacity := size as int;
      writePosition, readPosition := 0, 0;
      writer, reader := WriterIdle, ReaderIdle;
      accepted, consumed, obtained, onlyReads := [], 0, [], true;
      AttachedInv(size, storage[..]);
      return true;
    }

    /** available(): exact even when a position has wrapped. */
    method Available() returns (used: nat)
      requires Valid()
      ensures used == if capacity == 0 then 0 else |accepted| - consumed
    {
      if capacity == 0 {
        return 0;
      }
      UsedIsDistance(View().mem);
      used := Minimum(Used(writePosition, readPosition), capacity);
    }

    method FreeSpace() returns (free: nat)
      requires Valid()
      ensures free == if capacity == 0 then 0 else capacity - (|accepted| - consumed)
    {
      var used := Available();
      free := if capacity == 0 then 0 else capacity - used;
    }

    /** One atomic step of the writing core. */
    method WriterAction()
      requires 0 < capacity == storage.Length
      modifies this, storage
      ensures storage == old(storage) && capacity == old(capacity)
      ensures View() == NextWriter(old(View()))
    {
      match writer
      case WriterIdle =>
      case WriteLoadOwn(data) =>
        writer := WriteLoadRead(data, writePosition);
      case WriteLoadRead(data, written) =>
        var used := Used(written, readPosition);
        if used >= capacity {
          writer := WriterIdle;
        } else {
          writer := WriteCopy(data, written, Minimum(|data|, capacity - used), 0);
        }
      case WriteCopy(data, written, count, copied) =>
        if copied < count && copied < |data| && copied < capacity {
          storage[SlotOf(capacity, written, copied)] := data[copied];
          writer := WriteCopy(data, written, count, copied + 1);
        } else {
          writePosition := Advance(written, count);
          writer := WriterIdle;
          accepted := accepted + data[..Minimum(count, |data|)];
        }
    }

    /** One atomic step of the reading core. */
    method ReaderAction()
      requires 0 < capacity == storage.Length
      modifies this
      ensures storage == old(storage) && capacity == old(capacity)
      ensures View() == NextReader(old(View()))
    {
      match reader
      case ReaderIdle =>
      case PeekLoadOwn(offset, wanted, consume) =>
        reader := PeekLoadWritten(offset, wanted, consume, readPosition);
      case PeekLoadWritten(offset, wanted, consume, read) =>
        var safeUsed := Minimum(Used(writePosition, read), capacity);
        if offset >= safeUsed {
          reader := if consume then DiscardLoadOwn(0, []) else PeekDone(offset, []);
        } else {
          reader := PeekCopy(offset, consume, read, Minimum(wanted, safeUsed - offset), []);
        }
      case PeekCopy(offset, consume, read, count, output) =>
        if |output| < count && |output| < capacity {
          var slot := SlotOf(capacity, Advance(read, offset), |output|);
          reader := PeekCopy(offset, consume, read, count, output + [storage[slot]]);
        } else {
          reader := if consume then DiscardLoadOwn(|output|, output) else PeekDone(offset, output);
        }
      case PeekDone(offset, output) =>
        reader := ReaderIdle;
      case DiscardLoadOwn(length, output) =>
        reader := if length == 0 then ReaderIdle else DiscardLoadWritten(length, output, readPosition);
      case DiscardLoadWritten(length, output, read) =>
        reader := DiscardStore(output, read, Minimum(length, Minimum(Used(writePosition, read), capacity)));
      case DiscardStore(output, read, count) =>
        readPosition := Advance(read, count);
        reader := ReaderIdle;
        consumed := consumed + count;
        obtained := obtained + output;
    }

    /** Lets the writing core run until it has returned; the count is fixed by its two loads. */
    method RunWriter() returns (count: nat)
      requires 0 < capacity == storage.Length && writer.WriteLoadOwn?
      modifies this, storage
      ensures storage == old(storage) && capacity == old(capacity)
      ensures View() == FinishWriter(old(View()))
      ensures var w := NextWriter(NextWriter(old(View()))).writer; count == if w.WriteCopy? then w.count else 0
    {
      assert !NextWriter(View()).writer.WriterIdle?;
      hide FinishWriter, NextWriter, WriterLeft;
      ghost var end := FinishWriter(View());
      FinishWriterStep(View());
      WriterAction();
      FinishWriterStep(View());
      WriterAction();
      count := if writer.WriteCopy? then writer.count else 0;
      while !writer.WriterIdle?
        invariant storage == old(storage) && capacity == old(capacity) == storage.Length
        invariant FinishWriter(View()) == end
        decreases WriterLeft(writer)
      {
        FinishWriterStep(View());
        WriterAction();
      }
      FinishWriterStep(View());
    }

    /** write() with the reading core silent: as much of the data as fits is accepted. */
    method Write(data: seq<Byte>) returns (count: nat)
      requires Valid() && writer.WriterIdle?
      modifies this, storage
      ensures Valid() && writer.WriterIdle? && storage == old(storage)
      ensures capacity == old(capacity) && (capacity == 0 ==> count == 0)
      ensures 0 < capacity ==> count == Minimum(|data|, capacity - (|old(accepted)| - old(consumed)))
      ensures 0 < capacity ==> accepted == old(accepted) + data[..count]
      ensures consumed == old(consumed) && obtained == old(obtained) && reader == old(reader)
    {
      if capacity == 0 || data == [] {
        return 0;
      }
      ghost var before := View().(writer := WriteLoadOwn(data));
      WriteAppends(before);
      writer := WriteLoadOwn(data);
      count := RunWriter();
      assert View() == FinishWriter(before);
    }
  }
}

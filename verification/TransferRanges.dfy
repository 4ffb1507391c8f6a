/** Transfer progress of one SMB handle (src/smb_server.cpp:3792-3906): the blocks a client has
    read or written so far, kept as a sorted array of merged half-open ranges. */
module TransferRanges {
  import opened Modulus
  import opened Common

  const UINT32_MAX: nat := 0xFFFF_FFFF
  const SIZE_MAX: nat := 0xFFFF_FFFF
  const RANGE_BYTES: nat := 8

  type Uint32 = x: int | 0 <= x <= 0xFFFF_FFFF

  datatype Range = Range(start: Uint32, end: Uint32)
  datatype Mode = NoTransfer | ReadTransfer | WriteTransfer

  // ----- What a list of ranges denotes -----

  predicate Covered(s: seq<Range>, b: int) {
    exists i :: 0 <= i < |s| && s[i].start <= b < s[i].end
  }

  ghost function Positions(s: seq<Range>): set<int> {
    set b: int | 0 <= b < UINT32_MAX && Covered(s, b)
  }

  predicate Within(b: int, start: int, end: int) {
    start <= b < end
  }

  ghost function Interval(start: int, end: int): set<int> {
    set b: int | start <= b < end && Within(b, start, end)
  }

  /** Sorted, non-empty, disjoint and non-touching. */
  ghost predicate Canonical(s: seq<Range>) {
    && (forall i :: 0 <= i < |s| ==> s[i].start < s[i].end)
    && (forall i, j :: 0 <= i < j < |s| ==> s[i].end < s[j].start)
  }

  function Total(s: seq<Range>): nat {
    if s == [] then 0 else Total(s[..|s| - 1]) + RangeLength(s[|s| - 1])
  }

  function RangeLength(r: Range): nat {
    if r.start <= r.end then r.end - r.start else 0
  }

  lemma {:induction false} IntervalSize(start: int, end: int)
    requires start <= end
    ensures |Interval(start, end)| == end - start
    decreases end - start
  {
    if start < end {
      IntervalSize(start, end - 1);
      assert Interval(start, end) == Interval(start, end - 1) + {end - 1};
    } else {
      assert Interval(start, end) == {};
    }
  }

  lemma CoveredByLast(s: seq<Range>, b: int)
    requires s != []
    ensures Covered(s, b) <==> Covered(s[..|s| - 1], b) || s[|s| - 1].start <= b < s[|s| - 1].end
  {
    var front := s[..|s| - 1];
    if Covered(front, b) {
      var i :| 0 <= i < |front| && front[i].start <= b < front[i].end;
      assert s[i] == front[i];
    }
    if Covered(s, b) {
      var i :| 0 <= i < |s| && s[i].start <= b < s[i].end;
      assert i < |front| ==> front[i] == s[i];
    }
  }

  /** The byte counter of a canonical list is the cardinality of what it denotes, and it never
      needs more than 32 bits. */
  lemma {:induction false} TotalIsCardinality(s: seq<Range>)
    requires Canonical(s)
    ensures Total(s) == |Positions(s)|
    ensures s != [] ==> Total(s) <= s[|s| - 1].end
    decreases |s|
  {
    hide Positions, Interval, Canonical;
    if s == [] {
      EmptyPositions();
    } else {
      var front, last := s[..|s| - 1], s[|s| - 1];
      CanonicalPart(s, 0, |s| - 1);
      assert s[0..|s| - 1] == front;
      TotalIsCardinality(front);
      PositionsSnoc(s);
      LastIsApart(s);
      IntervalSize(last.start, last.end);
    }
  }

  lemma LastIsApart(s: seq<Range>)
    requires Canonical(s) && s != []
    ensures s[|s| - 1].start < s[|s| - 1].end
    ensures |s| > 1 ==> s[..|s| - 1][|s| - 2].end < s[|s| - 1].start
  {
  }

  lemma PositionsSnoc(s: seq<Range>)
    requires Canonical(s) && s != []
    ensures var front, last := Positions(s[..|s| - 1]), Interval(s[|s| - 1].start, s[|s| - 1].end);
      Positions(s) == front + last && front !! last
  {
    var front, last := s[..|s| - 1], s[|s| - 1];
    forall b: int ensures Covered(s, b) <==> Covered(front, b) || Within(b, last.start, last.end) { CoveredByLast(s, b); }
    forall b: int | Covered(front, b) ensures b < last.start {
      var i :| 0 <= i < |front| && front[i].start <= b < front[i].end;
      assert s[i].end < last.start;
    }
  }

  lemma StartIsLeast(s: seq<Range>, b: int)
    requires Canonical(s) && s != []
    ensures Covered(s, s[0].start) && !Covered(s, s[0].end)
    ensures Covered(s, b) ==> s[0].start <= b
  {
  }

  lemma FirstCovers(s: seq<Range>)
    requires s != []
    ensures forall b: int :: s[0].start <= b < s[0].end ==> Covered(s, b)
  {
  }

  lemma CoveredByTail(s: seq<Range>, b: int)
    requires Canonical(s) && s != []
    ensures Covered(s[1..], b) <==> Covered(s, b) && s[0].end <= b
  {
    var tail := s[1..];
    if Covered(s, b) && s[0].end <= b {
      var i :| 0 <= i < |s| && s[i].start <= b < s[i].end;
      assert tail[i - 1] == s[i];
    }
    if Covered(tail, b) {
      var i :| 0 <= i < |tail| && tail[i].start <= b < tail[i].end;
      assert s[i + 1] == tail[i];
    }
  }

  /** A set of byte positions has one canonical list only. */
  lemma {:induction false} CanonicalIsUnique(s: seq<Range>, t: seq<Range>)
    requires Canonical(s) && Canonical(t)
    requires forall b: int :: Covered(s, b) <==> Covered(t, b)
    ensures s == t
    decreases |s|
  {
    if s == [] || t == [] {
      if s != [] { StartIsLeast(s, 0); }
      if t != [] { StartIsLeast(t, 0); }
    } else {
      StartIsLeast(s, t[0].start);
      StartIsLeast(t, s[0].start);
      assert s[0].start == t[0].start;
      FirstCovers(s);
      FirstCovers(t);
      assert s[0] == t[0];
      forall b: int ensures Covered(s[1..], b) <==> Covered(t[1..], b) {
        CoveredByTail(s, b);
        CoveredByTail(t, b);
      }
      CanonicalIsUnique(s[1..], t[1..]);
      assert s == [s[0]] + s[1..] && t == [t[0]] + t[1..];
    }
  }

  // ----- Merging one block into the list -----

  /** How many leading ranges end before the block and do not touch it. */
  function Before(s: seq<Range>, offset: int): (n: nat)
    ensures n <= |s| && (forall i :: 0 <= i < n ==> s[i].end < offset)
    ensures n < |s| ==> s[n].end >= offset
  {
    if s == [] || s[0].end >= offset then 0 else 1 + Before(s[1..], offset)
  }

  /** How many leading ranges start at or before the end of the block. */
  function Reaching(s: seq<Range>, end: int): (n: nat)
    ensures n <= |s| && (forall i :: 0 <= i < n ==> s[i].start <= end)
    ensures n < |s| ==> s[n].start > end
  {
    if s == [] || s[0].start > end then 0 else 1 + Reaching(s[1..], end)
  }

  function Min(a: Uint32, b: Uint32): Uint32 { if a <= b then a else b }
  function Max(a: Uint32, b: Uint32): Uint32 { if a >= b then a else b }

  /** The block with every range it touches swallowed. */
  function Merged(s: seq<Range>, offset: Uint32, end: Uint32): Range {
    var first, after := Before(s, offset), Reaching(s, end);
    if first < after then Range(Min(offset, s[first].start), Max(end, s[after - 1].end)) else Range(offset, end)
  }

  function Insert(s: seq<Range>, offset: Uint32, end: Uint32): seq<Range> {
    s[..Before(s, offset)] + [Merged(s, offset, end)] + s[Reaching(s, end)..]
  }

  lemma BeforeReaching(s: seq<Range>, offset: Uint32, end: Uint32)
    requires Canonical(s) && offset < end
    ensures Before(s, offset) <= Reaching(s, end)
  {
    hide Before, Reaching;
  }

  lemma CanonicalJoin(a: seq<Range>, m: Range, b: seq<Range>)
    requires Canonical(a) && Canonical(b) && m.start < m.end
    requires forall i :: 0 <= i < |a| ==> a[i].end < m.start
    requires forall i :: 0 <= i < |b| ==> m.end < b[i].start
    ensures Canonical(a + [m] + b)
  {
    var r := a + [m] + b;
    forall i | 0 <= i < |r| ensures r[i].start < r[i].end {
    }
    forall i, j | 0 <= i < j < |r| ensures r[i].end < r[j].start {
      if i < |a| && |a| < j { assert a[i].end < m.start < m.end < b[j - |a| - 1].start; }
      if |a| < i { assert b[i - |a| - 1].end < b[j - |a| - 1].start; }
    }
  }

  lemma CanonicalPart(s: seq<Range>, lo: nat, hi: nat)
    requires Canonical(s) && lo <= hi <= |s|
    ensures Canonical(s[lo..hi])
  {
  }

  /** The merged range clears its neighbours on both sides. */
  lemma MergedIsApart(s: seq<Range>, offset: Uint32, end: Uint32)
    requires Canonical(s) && offset < end
    ensures Before(s, offset) <= Reaching(s, end)
    ensures var m := Merged(s, offset, end);
      && m.start <= offset && end <= m.end
      && (forall i :: 0 <= i < Before(s, offset) ==> s[i].end < m.start)
      && (forall i :: Reaching(s, end) <= i < |s| ==> m.end < s[i].start)
  {
    hide Before, Reaching;
    BeforeReaching(s, offset, end);
    var first, after := Before(s, offset), Reaching(s, end);
    var m := Merged(s, offset, end);
    forall i | 0 <= i < first ensures s[i].end < m.start {
      assert first < after ==> s[i].end < s[first].start;
    }
    forall i | after <= i < |s| ensures m.end < s[i].start {
      assert s[after].start > end;
      assert after < i ==> s[after].end < s[i].start;
      assert first < after ==> s[after - 1].end < s[i].start;
    }
  }

  lemma InsertIsCanonical(s: seq<Range>, offset: Uint32, end: Uint32)
    requires Canonical(s) && offset < end
    ensures Canonical(Insert(s, offset, end))
  {
    hide Canonical, Before, Reaching, Merged;
    MergedIsApart(s, offset, end);
    var first, after := Before(s, offset), Reaching(s, end);
    CanonicalPart(s, 0, first);
    CanonicalPart(s, after, |s|);
    assert s[0..first] == s[..first] && s[after..|s|] == s[after..];
    forall i | 0 <= i < |s| - after ensures Merged(s, offset, end).end < s[after..][i].start {
      assert s[after..][i] == s[after + i];
    }
    CanonicalJoin(s[..first], Merged(s, offset, end), s[after..]);
  }

  lemma CoveredConcat(a: seq<Range>, c: seq<Range>, b: int)
    ensures Covered(a + c, b) <==> Covered(a, b) || Covered(c, b)
  {
    var r := a + c;
    if Covered(a, b) {
      var i :| 0 <= i < |a| && a[i].start <= b < a[i].end;
      assert r[i] == a[i];
    }
    if Covered(c, b) {
      var i :| 0 <= i < |c| && c[i].start <= b < c[i].end;
      assert r[|a| + i] == c[i];
    }
    if Covered(r, b) {
      var i :| 0 <= i < |r| && r[i].start <= b < r[i].end;
      assert if i < |a| then r[i] == a[i] else r[i] == c[i - |a|];
    }
  }

  lemma MergedCovers(s: seq<Range>, offset: Uint32, end: Uint32, b: int)
    requires Canonical(s) && offset < end
    ensures Before(s, offset) <= Reaching(s, end)
    ensures var m := Merged(s, offset, end);
      m.start <= b < m.end <==> Within(b, offset, end) || Covered(s[Before(s, offset)..Reaching(s, end)], b)
  {
    hide Before, Reaching;
    MergedIsApart(s, offset, end);
    var first, after := Before(s, offset), Reaching(s, end);
    var m, middle := Merged(s, offset, end), s[first..after];
    if Covered(middle, b) {
      var i :| 0 <= i < |middle| && middle[i].start <= b < middle[i].end;
      assert middle[i] == s[first + i];
      assert 0 < i ==> s[first].end < s[first + i].start;
      assert first + i < after - 1 ==> s[first + i].end < s[after - 1].start;
      assert s[first].start < s[first].end && s[after - 1].start < s[after - 1].end;
    }
    if m.start <= b < m.end && !Within(b, offset, end) {
      assert middle[0] == s[first] && middle[after - first - 1] == s[after - 1];
    }
  }

  lemma InsertCovers(s: seq<Range>, offset: Uint32, end: Uint32, b: int)
    requires Canonical(s) && offset < end
    ensures Covered(Insert(s, offset, end), b) <==> Covered(s, b) || Within(b, offset, end)
  {
    hide Canonical, Covered, Before, Reaching, Merged, Within;
    MergedCovers(s, offset, end, b);
    var first, after, m := Before(s, offset), Reaching(s, end), Merged(s, offset, end);
    CoveredConcat(s[..first] + [m], s[after..], b);
    CoveredConcat(s[..first], [m], b);
    CoveredConcat(s[..first] + s[first..after], s[after..], b);
    CoveredConcat(s[..first], s[first..after], b);
    assert s == s[..first] + s[first..after] + s[after..];
    CoveredSingle(m, b);
  }

  lemma CoveredSingle(m: Range, b: int)
    ensures Covered([m], b) <==> m.start <= b < m.end
  {
    if m.start <= b < m.end { assert [m][0] == m; }
  }

  lemma {:induction false} TotalOfConcat(a: seq<Range>, b: seq<Range>)
    ensures Total(a + b) == Total(a) + Total(b)
    decreases |b|
  {
    if b == [] {
      assert a + b == a;
    } else {
      var ab := a + b;
      assert ab[..|ab| - 1] == a + b[..|b| - 1];
      TotalOfConcat(a, b[..|b| - 1]);
    }
  }

  /** The counter update of the code: add the merged range, subtract the ranges it replaces. */
  lemma InsertTotal(s: seq<Range>, offset: Uint32, end: Uint32)
    requires Canonical(s) && offset < end
    ensures Before(s, offset) <= Reaching(s, end)
    ensures Total(Insert(s, offset, end))
      == Total(s) - Total(s[Before(s, offset)..Reaching(s, end)]) + RangeLength(Merged(s, offset, end))
    ensures Total(s[Before(s, offset)..Reaching(s, end)]) <= Total(s)
    ensures Total(Insert(s, offset, end)) <= UINT32_MAX
  {
    hide Canonical, Before, Reaching, Merged, Total, RangeLength;
    BeforeReaching(s, offset, end);
    var first, after := Before(s, offset), Reaching(s, end);
    var m := Merged(s, offset, end);
    TotalOfConcat(s[..first] + [m], s[after..]);
    TotalOfConcat(s[..first], [m]);
    TotalOfOne(m);
    TotalOfConcat(s[..first] + s[first..after], s[after..]);
    TotalOfConcat(s[..first], s[first..after]);
    assert s == s[..first] + s[first..after] + s[after..];
    InsertIsCanonical(s, offset, end);
    TotalFits(Insert(s, offset, end));
  }

  lemma TotalOfOne(m: Range)
    ensures Total([m]) == RangeLength(m)
  {
    assert [m][..0] == [];
  }

  lemma TotalFits(s: seq<Range>)
    requires Canonical(s)
    ensures Total(s) == |Positions(s)| <= UINT32_MAX
  {
    TotalIsCardinality(s);
  }

  // ----- Clipping to a new file size -----

  function Clipped(s: seq<Range>, size: Uint32): seq<Range> {
    if s == [] || s[0].start >= size then []
    else [Range(s[0].start, Min(s[0].end, size))] + Clipped(s[1..], size)
  }

  lemma {:induction false} ClippedAt(s: seq<Range>, size: Uint32)
    requires Canonical(s)
    ensures var c := Clipped(s, size);
      && |c| <= |s| && (|c| < |s| ==> s[|c|].start >= size)
      && (forall i :: 0 <= i < |c| ==> s[i].start < size && c[i] == Range(s[i].start, Min(s[i].end, size)))
    decreases |s|
  {
    hide Canonical;
    if s != [] && s[0].start < size {
      CanonicalPart(s, 1, |s|);
      assert s[1..|s|] == s[1..];
      ClippedAt(s[1..], size);
      var c, d := Clipped(s, size), Clipped(s[1..], size);
      assert c[1..] == d;
      forall i | 0 <= i < |c| ensures s[i].start < size && c[i] == Range(s[i].start, Min(s[i].end, size)) {
        assert 0 < i ==> c[i] == d[i - 1] && s[i] == s[1..][i - 1];
      }
    }
  }

  lemma ClippedIsCanonical(s: seq<Range>, size: Uint32)
    requires Canonical(s)
    ensures Canonical(Clipped(s, size))
  {
    hide Clipped;
    ClippedAt(s, size);
  }

  lemma ClippedCovers(s: seq<Range>, size: Uint32, b: int)
    requires Canonical(s)
    ensures Covered(Clipped(s, size), b) <==> Covered(s, b) && b < size
  {
    hide Clipped;
    ClippedAt(s, size);
    var c := Clipped(s, size);
    if Covered(c, b) {
      var i :| 0 <= i < |c| && c[i].start <= b < c[i].end;
      assert s[i].start <= b < s[i].end;
    }
    if Covered(s, b) && b < size {
      var i :| 0 <= i < |s| && s[i].start <= b < s[i].end;
      assert c[i].start <= b < c[i].end;
    }
  }

  // ----- The whole record of a handle -----

  datatype Progress = Progress(mode: Mode, ranges: seq<Range>, bytes: nat, capacity: nat)

  /** What the environment asks of one handle; memory says whether an allocation would succeed. */
  datatype Operation =
    | Note(mode: Mode, offset: Uint32, length: Uint32, memory: bool)
    | Clip(size: Uint32)
    | Clear(releaseMemory: bool)

  /** while (capacity < required && capacity <= SIZE_MAX / 2) capacity *= 2 */
  function Doubled(capacity: nat, required: nat): nat
    requires 0 < capacity
    decreases required - capacity
  {
    if capacity < required && capacity <= SIZE_MAX / 2 then Doubled(2 * capacity, required) else capacity
  }

  function NewCapacity(capacity: nat, required: nat): nat {
    if required <= capacity then capacity else Doubled(if capacity == 0 then 8 else capacity, required)
  }

  /** The capacity that doubling ends with: enough, unless doubling once more would not fit the word, and
      not twice as much as needed. */
  lemma {:induction false} DoubledIs(capacity: nat, required: nat)
    requires 0 < capacity
    ensures var r := Doubled(capacity, required);
      && capacity <= r && r % capacity == 0 && (required <= r || SIZE_MAX / 2 < r)
      && (r == capacity || r / 2 < required)
    decreases required - capacity
  {
    if capacity < required && capacity <= SIZE_MAX / 2 {
      DoubledIs(2 * capacity, required);
      var r := Doubled(2 * capacity, required);
      HalfMultiple(r, capacity);
    } else {
      HalfMultiple(capacity, capacity);
    }
  }

  lemma HalfMultiple(r: nat, capacity: nat)
    requires 0 < capacity && (r == capacity || r % (2 * capacity) == 0)
    ensures r % capacity == 0
  {
    if r == capacity {
      assert r == capacity * 1 + 0;
    } else {
      var q := r / (2 * capacity);
      assert r == (2 * capacity) * q;
      assert r == capacity * (2 * q) + 0;
    }
    DivModUnique(r, capacity, if r == capacity then 1 else 2 * (r / (2 * capacity)), 0);
  }

  /** Memory grows from eight ranges by doubling, and only when more are needed. */
  lemma NewCapacityIs(capacity: nat, required: nat)
    ensures required <= capacity ==> NewCapacity(capacity, required) == capacity
    ensures capacity < required ==>
      var r, first := NewCapacity(capacity, required), if capacity == 0 then 8 else capacity;
      && first <= r && r % first == 0 && (required <= r || SIZE_MAX / 2 < r) && (r == first || r / 2 < required)
  {
    if capacity < required {
      DoubledIs(if capacity == 0 then 8 else capacity, required);
    }
  }

  predicate RoomFor(capacity: nat, required: nat, memory: bool) {
    required <= capacity
    || (required <= NewCapacity(capacity, required) <= SIZE_MAX / RANGE_BYTES && memory)
  }

  function Cleared(p: Progress, releaseMemory: bool): Progress {
    Progress(NoTransfer, [], 0, if releaseMemory then 0 else p.capacity)
  }

  predicate NothingToNote(mode: Mode, offset: Uint32, length: Uint32) {
    length == 0 || mode == NoTransfer || offset > UINT32_MAX - length
  }

  function InMode(p: Progress, mode: Mode): Progress {
    if p.mode != mode then Cleared(p, false).(mode := mode) else p
  }

  function Saturated(covered: nat): nat {
    if covered > UINT32_MAX then UINT32_MAX else covered
  }

  /** noteTransferProgress: the new record and the answer. */
  function Noted(p: Progress, mode: Mode, offset: Uint32, length: Uint32, memory: bool): (Progress, bool)
  {
    if NothingToNote(mode, offset, length) then (p, length == 0)
    else
      var q := InMode(p, mode);
      var r := Insert(q.ranges, offset, offset + length);
      if !RoomFor(q.capacity, |r|, memory) then (q, false)
      else (Progress(mode, r, Total(r), NewCapacity(q.capacity, |r|)), true)
  }

  function Resized(p: Progress, size: Uint32): Progress {
    p.(ranges := Clipped(p.ranges, size), bytes := Total(Clipped(p.ranges, size)))
  }

  function Apply(p: Progress, op: Operation): Progress {
    match op
    case Note(mode, offset, length, memory) => Noted(p, mode, offset, length, memory).0
    case Clip(size) => Resized(p, size)
    case Clear(releaseMemory) => Cleared(p, releaseMemory)
  }

  function Run(p: Progress, ops: seq<Operation>): Progress {
    if ops == [] then p else Apply(Run(p, ops[..|ops| - 1]), ops[|ops| - 1])
  }

  /** What every operation keeps; the counter is the size of the set, so it never saturates. */
  ghost predicate Valid(p: Progress) {
    Canonical(p.ranges) && |p.ranges| <= p.capacity && p.bytes == |Positions(p.ranges)| <= UINT32_MAX
  }

  /** When a block is noted, and the memory the record has then. An empty block is answered with success
      and one without a mode or beyond 32 bits with failure, both without effect. Any other starts the
      record over if the mode is new, and is noted if its list fits the capacity or memory for it is
      granted; otherwise it is refused. Clearing keeps the memory unless it is to be released. */
  lemma NoteAnswers(p: Progress, mode: Mode, offset: Uint32, length: Uint32, memory: bool, releaseMemory: bool)
    ensures var (q, ok) := Noted(p, mode, offset, length, memory);
      var start := if p.mode == mode then p else Progress(mode, [], 0, p.capacity);
      var list := if offset + length <= 0xFFFF_FFFF then Insert(start.ranges, offset, offset + length) else [];
      var grown := NewCapacity(p.capacity, |list|);
      if length == 0 then (q, ok) == (p, true)
      else if mode == NoTransfer || offset + length > 0xFFFF_FFFF then (q, ok) == (p, false)
      else
        && (ok <==> |list| <= p.capacity || (memory && |list| <= grown && grown <= 0x1FFF_FFFF))
        && (!ok ==> q == start)
        && (ok ==> q.mode == mode && q.ranges == list && q.bytes == Total(list)
                   && q.capacity == if |list| <= p.capacity then p.capacity else grown)
    ensures Cleared(p, releaseMemory) == Progress(NoTransfer, [], 0, if releaseMemory then 0 else p.capacity)
  {
    hide Insert, Total, Doubled;
  }

  lemma SaturatedIs(covered: nat)
    ensures Saturated(covered) == if covered <= 0xFFFF_FFFF then covered else 0xFFFF_FFFF
  {
  }

  // ----- The reference: a mode and a plain set of byte positions -----

  datatype Reference = Reference(mode: Mode, positions: set<int>)

  ghost function ReferenceStep(r: Reference, op: Operation, accepted: bool): Reference {
    match op
    case Note(mode, offset, length, _) =>
      if NothingToNote(mode, offset, length) then r
      else
        var kept := if r.mode != mode then {} else r.positions;
        Reference(mode, if accepted then kept + Interval(offset, offset + length) else kept)
    case Clip(size) => r.(positions := r.positions * Interval(0, size))
    case Clear(_) => Reference(NoTransfer, {})
  }

  ghost predicate Accepted(p: Progress, op: Operation) {
    op.Note? ==> Noted(p, op.mode, op.offset, op.length, op.memory).1
  }

  ghost function ReferenceRun(p: Progress, ops: seq<Operation>): Reference {
    if ops == [] then Reference(p.mode, Positions(p.ranges))
    else
      var before := ops[..|ops| - 1];
      ReferenceStep(ReferenceRun(p, before), ops[|ops| - 1], Accepted(Run(p, before), ops[|ops| - 1]))
  }

  lemma InsertPositions(s: seq<Range>, offset: Uint32, end: Uint32)
    requires Canonical(s) && offset < end
    ensures Positions(Insert(s, offset, end)) == Positions(s) + Interval(offset, end)
  {
    forall b: int ensures Covered(Insert(s, offset, end), b) <==> Covered(s, b) || Within(b, offset, end) {
      InsertCovers(s, offset, end, b);
    }
  }

  lemma ClippedPositions(s: seq<Range>, size: Uint32)
    requires Canonical(s)
    ensures Positions(Clipped(s, size)) == Positions(s) * Interval(0, size)
  {
    forall b: int ensures Covered(Clipped(s, size), b) <==> Covered(s, b) && b < size { ClippedCovers(s, size, b); }
  }

  lemma ClippedTotal(s: seq<Range>, size: Uint32)
    requires Canonical(s)
    ensures Total(Clipped(s, size)) == |Positions(Clipped(s, size))| <= UINT32_MAX
  {
    ClippedIsCanonical(s, size);
    TotalIsCardinality(Clipped(s, size));
  }

  lemma EmptyPositions()
    ensures Positions([]) == {} && Total([]) == 0
  {
  }

  lemma InModeIsValid(p: Progress, mode: Mode)
    requires Valid(p)
    ensures Valid(InMode(p, mode)) && InMode(p, mode).mode == mode
    ensures Positions(InMode(p, mode).ranges) == if p.mode != mode then {} else Positions(p.ranges)
  {
    hide Canonical, Positions;
    EmptyPositions();
    EmptyIsCanonical();
  }

  lemma RoomIsEnough(capacity: nat, required: nat, memory: bool)
    requires RoomFor(capacity, required, memory)
    ensures required <= NewCapacity(capacity, required)
  {
  }

  lemma NoteRefinesReference(p: Progress, mode: Mode, offset: Uint32, length: Uint32, memory: bool)
    requires Valid(p)
    ensures var (q, ok) := Noted(p, mode, offset, length, memory);
      && Valid(q)
      && Reference(q.mode, Positions(q.ranges))
         == ReferenceStep(Reference(p.mode, Positions(p.ranges)), Note(mode, offset, length, memory), ok)
  {
    hide Canonical, Positions, Covered, Insert, Total, Interval, RoomFor, NewCapacity, InMode;
    if !NothingToNote(mode, offset, length) {
      var q := InMode(p, mode);
      InModeIsValid(p, mode);
      var r := Insert(q.ranges, offset, offset + length);
      InsertIsCanonical(q.ranges, offset, offset + length);
      InsertPositions(q.ranges, offset, offset + length);
      TotalFits(r);
      if RoomFor(q.capacity, |r|, memory) { RoomIsEnough(q.capacity, |r|, memory); }
    }
  }

  /** Every operation refines its effect on the plain set, and keeps the record valid. */
  lemma ApplyRefinesReference(p: Progress, op: Operation)
    requires Valid(p)
    ensures Valid(Apply(p, op))
    ensures Reference(Apply(p, op).mode, Positions(Apply(p, op).ranges))
      == ReferenceStep(Reference(p.mode, Positions(p.ranges)), op, Accepted(p, op))
  {
    hide Canonical, Positions, Covered, Insert, Clipped, Total, Interval, Noted;
    EmptyPositions();
    EmptyIsCanonical();
    match op
    case Note(mode, offset, length, memory) =>
      NoteRefinesReference(p, mode, offset, length, memory);
    case Clip(size) =>
      ClippedIsCanonical(p.ranges, size);
      ClippedPositions(p.ranges, size);
      ClippedTotal(p.ranges, size);
      ClippedAt(p.ranges, size);
    case Clear(_) =>
  }

  lemma EmptyIsCanonical()
    ensures Canonical([])
  {
  }

  /** Over whole runs the ranges denote exactly the union of the accepted blocks since the last
      change of mode, cut by the later clips, and the counter is that set's size. */
  lemma {:induction false} RunDenotesReference(p: Progress, ops: seq<Operation>)
    requires Valid(p)
    ensures Valid(Run(p, ops))
    ensures Reference(Run(p, ops).mode, Positions(Run(p, ops).ranges)) == ReferenceRun(p, ops)
    decreases |ops|
  {
    hide Valid, Apply, ReferenceStep, Positions, Accepted;
    if ops == [] {
    } else {
      RunDenotesReference(p, ops[..|ops| - 1]);
      ApplyRefinesReference(Run(p, ops[..|ops| - 1]), ops[|ops| - 1]);
    }
  }

  lemma PositionsDecideCover(s: seq<Range>, b: int)
    ensures Covered(s, b) <==> b in Positions(s)
  {
  }

  /** Equal denotations have equal records, whatever runs produced them. */
  lemma SameSetSameRanges(s: seq<Range>, t: seq<Range>)
    requires Canonical(s) && Canonical(t) && Positions(s) == Positions(t)
    ensures s == t
  {
    forall b: int ensures Covered(s, b) <==> Covered(t, b) {
      PositionsDecideCover(s, b);
      PositionsDecideCover(t, b);
    }
    CanonicalIsUnique(s, t);
  }

  datatype Block = Block(offset: Uint32, length: Uint32)

  function Notes(mode: Mode, blocks: seq<Block>): (ops: seq<Operation>)
    ensures |ops| == |blocks|
  {
    if blocks == [] then []
    else Notes(mode, blocks[..|blocks| - 1])
         + [Note(mode, blocks[|blocks| - 1].offset, blocks[|blocks| - 1].length, true)]
  }

  ghost predicate AllAccepted(p: Progress, mode: Mode, blocks: seq<Block>) {
    blocks == []
    || (&& AllAccepted(p, mode, blocks[..|blocks| - 1])
        && Noted(Run(p, Notes(mode, blocks[..|blocks| - 1])), mode, blocks[|blocks| - 1].offset,
                 blocks[|blocks| - 1].length, true).1)
  }

  predicate InBlock(blocks: seq<Block>, b: int) {
    exists k :: k in blocks && k.offset <= b < k.offset + k.length
  }

  lemma {:induction false} NotesDenoteTheirBlocks(p: Progress, mode: Mode, blocks: seq<Block>, b: int)
    requires Valid(p) && p.mode == mode && mode != NoTransfer && AllAccepted(p, mode, blocks)
    ensures var q := Run(p, Notes(mode, blocks));
      && Valid(q) && q.mode == mode
      && (b in Positions(q.ranges) <==> b in Positions(p.ranges) || InBlock(blocks, b))
    decreases |blocks|
  {
    hide Valid, Positions, Noted, Canonical, NewCapacity, RoomFor;
    if blocks == [] {
    } else {
      var front, last := blocks[..|blocks| - 1], blocks[|blocks| - 1];
      NotesDenoteTheirBlocks(p, mode, front, b);
      var op := Note(mode, last.offset, last.length, true);
      assert Notes(mode, blocks)[..|blocks| - 1] == Notes(mode, front);
      ApplyRefinesReference(Run(p, Notes(mode, front)), op);
      assert Run(p, Notes(mode, blocks)) == Apply(Run(p, Notes(mode, front)), op);
      AcceptedFits(Run(p, Notes(mode, front)), mode, last);
      assert InBlock(blocks, b) <==> InBlock(front, b) || last.offset <= b < last.offset + last.length by {
        assert blocks == front + [last];
      }
    }
  }

  lemma AcceptedFits(p: Progress, mode: Mode, block: Block)
    requires mode != NoTransfer && Noted(p, mode, block.offset, block.length, true).1
    ensures block.length > 0 ==> !NothingToNote(mode, block.offset, block.length)
  {
  }

  lemma MoreBlocksMorePositions(p: Progress, mode: Mode, a: seq<Block>, b: seq<Block>)
    requires Valid(p) && p.mode == mode && mode != NoTransfer
    requires AllAccepted(p, mode, a) && AllAccepted(p, mode, b)
    requires forall k :: k in a ==> k in b
    ensures Positions(Run(p, Notes(mode, a)).ranges) <= Positions(Run(p, Notes(mode, b)).ranges)
  {
    hide Run, Notes, Positions, AllAccepted, Canonical;
    forall i | i in Positions(Run(p, Notes(mode, a)).ranges) ensures i in Positions(Run(p, Notes(mode, b)).ranges) {
      NotesDenoteTheirBlocks(p, mode, a, i);
      NotesDenoteTheirBlocks(p, mode, b, i);
    }
  }

  /** The order of the blocks and how often each one is noted change nothing, and noting more
      never makes the count smaller. */
  lemma OrderAndRepetitionDoNotMatter(p: Progress, mode: Mode, a: seq<Block>, b: seq<Block>)
    requires Valid(p) && p.mode == mode && mode != NoTransfer
    requires AllAccepted(p, mode, a) && AllAccepted(p, mode, b)
    ensures (forall k :: k in a ==> k in b) ==> Run(p, Notes(mode, a)).bytes <= Run(p, Notes(mode, b)).bytes
    ensures (forall k :: k in a <==> k in b) ==> Run(p, Notes(mode, a)).ranges == Run(p, Notes(mode, b)).ranges
  {
    hide Run, Positions, AllAccepted, Canonical;
    var x, y := Run(p, Notes(mode, a)), Run(p, Notes(mode, b));
    NotesDenoteTheirBlocks(p, mode, a, 0);
    NotesDenoteTheirBlocks(p, mode, b, 0);
    if forall k :: k in a ==> k in b {
      MoreBlocksMorePositions(p, mode, a, b);
      SubsetSize(Positions(x.ranges), Positions(y.ranges));
    }
    if forall k :: k in a <==> k in b {
      MoreBlocksMorePositions(p, mode, a, b);
      MoreBlocksMorePositions(p, mode, b, a);
      SameSetSameRanges(x.ranges, y.ranges);
    }
  }

  // ----- The progress fields of a handle -----

  class Handle {
    var progressMode: Mode
    var progressBytes: nat
    var progressRanges: array<Range>
    var progressRangeCount: nat

    ghost predicate Bounded()
      reads this
    {
      progressRangeCount <= progressRanges.Length
    }

    function View(): Progress
      requires Bounded()
      reads this, progressRanges
    {
      Progress(progressMode, progressRanges[..progressRangeCount], progressBytes, progressRanges.Length)
    }

    constructor ()
      ensures Bounded() && View() == Progress(NoTransfer, [], 0, 0) && fresh(progressRanges)
    {
      progressMode, progressBytes, progressRangeCount := NoTransfer, 0, 0;
      progressRanges := new Range[0];
    }

    method ClearTransferProgress(releaseMemory: bool)
      requires Bounded()
      modifies this
      ensures Bounded() && View() == Cleared(old(View()), releaseMemory)
      ensures progressRanges == old(progressRanges) || fresh(progressRanges)
    {
      progressMode := NoTransfer;
      progressBytes := 0;
      progressRangeCount := 0;
      if releaseMemory {
        progressRanges := new Range[0];
      }
    }

    /** The two scanning loops. */
    method FindMerged(offset: Uint32, end: Uint32) returns (first: nat, after: nat, merged: Range, removed: nat)
      requires Bounded() && Valid(View()) && offset < end
      ensures var s := View().ranges;
        && first == Before(s, offset) <= after == Reaching(s, end)
        && merged == Merged(s, offset, end) && removed == Total(s[first..after])
    {
      hide Valid, Total, Canonical, Before, Reaching;
      ghost var s := View().ranges;
      assert Canonical(s) by { ValidMeans(View()); }
      first := 0;
      while first < progressRangeCount && progressRanges[first].end < offset
        invariant first <= progressRangeCount
        invariant forall i :: 0 <= i < first ==> s[i].end < offset
      {
        first := first + 1;
      }
      BeforeIs(s, offset, first);
      BeforeReaching(s, offset, end);
      merged, removed, after := Range(offset, end), 0, first;
      assert s[first..first] == [] && Total([]) == 0 by { EmptyPositions(); }
      while after < progressRangeCount && progressRanges[after].start <= merged.end
        invariant first <= after <= Reaching(s, end)
        invariant merged == if first < after then Range(Min(offset, s[first].start), Max(end, s[after - 1].end))
                            else Range(offset, end)
        invariant removed == Total(s[first..after])
      {
        var current := progressRanges[after];
        assert current == s[after];
        MergeStep(s, first, after, offset, end);
        if current.start < merged.start {
          merged := merged.(start := current.start);
        }
        if current.end > merged.end {
          merged := merged.(end := current.end);
        }
        removed := removed + (current.end - current.start);
        after := after + 1;
      }
      MergeStop(s, first, after, offset, end);
    }

    /** Doubling the capacity and moving to the larger block. */
    method Reserve(required: nat, memory: bool) returns (ok: bool)
      requires Bounded() && progressRangeCount < required + progressRanges.Length
      modifies this`progressRanges
      ensures Bounded() && (progressRanges == old(progressRanges) || fresh(progressRanges))
      ensures ok == RoomFor(old(View()).capacity, required, memory)
      ensures View() == old(View()).(capacity := if ok then NewCapacity(old(View()).capacity, required) else old(View()).capacity)
      ensures ok ==> required <= progressRanges.Length
    {
      if required <= progressRanges.Length {
        return true;
      }
      var capacity := if progressRanges.Length == 0 then 8 else progressRanges.Length;
      while capacity < required && capacity <= SIZE_MAX / 2
        invariant 0 < capacity && progressRanges.Length <= capacity
        invariant Doubled(capacity, required) == NewCapacity(progressRanges.Length, required)
        decreases required - capacity
      {
        capacity := capacity * 2;
      }
      if capacity < required || capacity > SIZE_MAX / RANGE_BYTES {
        return false;
      }
      if !memory {
        return false;
      }
      var ranges := new Range[capacity](_ => Range(0, 0));
      forall i | 0 <= i < progressRangeCount {
        ranges[i] := progressRanges[i];
      }
      assert ranges[..progressRangeCount] == progressRanges[..progressRangeCount];
      progressRanges := ranges;
      return true;
    }

    method NoteTransferProgress(mode: Mode, offset: Uint32, length: Uint32, memory: bool) returns (ok: bool)
      requires Bounded() && Valid(View())
      modifies this, progressRanges
      ensures Bounded() && (progressRanges == old(progressRanges) || fresh(progressRanges))
      ensures (View(), ok) == Noted(old(View()), mode, offset, length, memory)
    {
      hide Canonical, Positions, Total, Insert, RoomFor, NewCapacity, Valid;
      if length == 0 || mode == NoTransfer || offset > UINT32_MAX - length {
        return length == 0;
      }
      if progressMode != mode {
        ClearTransferProgress(false);
        progressMode := mode;
      }
      InModeIsValid(old(View()), mode);
      ok := MergeBlock(offset, offset + length, memory);
    }

    /** The body of noteTransferProgress once the mode is settled. */
    method MergeBlock(offset: Uint32, end: Uint32, memory: bool) returns (ok: bool)
      requires Bounded() && Valid(View()) && offset < end
      modifies this, progressRanges
      ensures Bounded() && (progressRanges == old(progressRanges) || fresh(progressRanges))
      ensures var q, r := old(View()), Insert(old(View()).ranges, offset, end);
        && ok == RoomFor(q.capacity, |r|, memory)
        && View() == if ok then Progress(q.mode, r, Total(r), NewCapacity(q.capacity, |r|)) else q
    {
      hide Canonical, Positions, Total, Insert, RoomFor, NewCapacity, Before, Reaching, Merged;
      ghost var q := View();
      var first, after, merged, removed := FindMerged(offset, end);
      InsertTotal(q.ranges, offset, end);
      TotalFits(q.ranges);
      InsertShape(q.ranges, offset, end);
      var required := progressRangeCount - (after - first) + 1;
      ok := Reserve(required, memory);
      if !ok {
        return;
      }
      Replace(first, after, merged);
      var covered := progressBytes - removed + (merged.end - merged.start);
      progressBytes := Saturated(covered);
    }

    /** memmove of the tail, then the merged range in the gap. */
    method Replace(first: nat, after: nat, merged: Range)
      requires Bounded() && first <= after <= progressRangeCount
      requires progressRangeCount - (after - first) + 1 <= progressRanges.Length
      modifies this`progressRangeCount, progressRanges
      ensures Bounded()
      ensures var s := old(View()).ranges; View() == old(View()).(ranges := s[..first] + [merged] + s[after..])
    {
      ghost var s := progressRanges[..progressRangeCount];
      var moved := progressRangeCount - after;
      forall i | 0 <= i < moved {
        progressRanges[first + 1 + i] := progressRanges[after + i];
      }
      assert forall i :: first + 1 <= i < first + 1 + moved ==> progressRanges[i] == s[i - first - 1 + after] by {
        forall i | first + 1 <= i < first + 1 + moved ensures progressRanges[i] == s[i - first - 1 + after] {
          assert i == first + 1 + (i - first - 1);
        }
      }
      progressRanges[first] := merged;
      progressRangeCount := first + 1 + moved;
      assert forall i :: 0 <= i < first ==> progressRanges[i] == s[i];
      SplicedFrom(progressRanges[..progressRangeCount], s, first, after, merged);
    }

    method ClipTransferProgress(size: Uint32)
      requires Bounded() && Valid(View())
      modifies this, progressRanges
      ensures Bounded() && View() == Resized(old(View()), size)
      ensures progressRanges == old(progressRanges)
    {
      hide Positions, Total, Valid, Canonical, Clipped, Covered;
      ghost var s := View().ranges;
      ValidMeans(View());
      ClippedAt(s, size);
      ClippedTotal(s, size);
      ghost var c := Clipped(s, size);
      var covered, kept, index := 0, 0, 0;
      EmptyPositions();
      while index < progressRangeCount
        invariant kept == index <= |c| && index <= progressRangeCount == |s| <= progressRanges.Length
        invariant progressMode == old(progressMode) && progressRangeCount == old(progressRangeCount)
        invariant progressRanges == old(progressRanges)
        invariant forall i :: 0 <= i < kept ==> progressRanges[i] == c[i]
        invariant forall i :: kept <= i < progressRangeCount ==> progressRanges[i] == s[i]
        invariant covered == Total(c[..kept])
      {
        var current := progressRanges[index];
        if current.start >= size {
          break;
        }
        if current.end > size {
          current := current.(end := size);
        }
        assert current == c[kept];
        LastAdds(c, kept);
        progressRanges[kept] := current;
        kept := kept + 1;
        covered := covered + (current.end - current.start);
        index := index + 1;
      }
      assert kept == |c| && c[..kept] == c;
      progressRangeCount := kept;
      assert progressRanges[..kept] == c;
      progressBytes := Saturated(covered);
    }
  }

  lemma SplicedFrom(r: seq<Range>, s: seq<Range>, first: nat, after: nat, merged: Range)
    requires first <= after <= |s| && |r| == first + 1 + |s| - after && r[first] == merged
    requires forall i :: 0 <= i < first ==> r[i] == s[i]
    requires forall i :: first + 1 <= i < |r| ==> r[i] == s[i - first - 1 + after]
    ensures r == s[..first] + [merged] + s[after..]
  {
  }

  lemma ValidMeans(p: Progress)
    requires Valid(p)
    ensures Canonical(p.ranges)
  {
  }

  lemma LastAdds(c: seq<Range>, k: nat)
    requires k < |c| && c[k].start <= c[k].end
    ensures Total(c[..k + 1]) == Total(c[..k]) + (c[k].end - c[k].start)
  {
    assert c[..k + 1][..k] == c[..k];
  }

  lemma BeforeIs(s: seq<Range>, offset: int, first: nat)
    requires first <= |s| && (forall i :: 0 <= i < first ==> s[i].end < offset)
    requires first < |s| ==> s[first].end >= offset
    ensures first == Before(s, offset)
  {
    hide Before;
  }

  lemma MergeStep(s: seq<Range>, first: nat, after: nat, offset: Uint32, end: Uint32)
    requires Canonical(s) && offset < end && first == Before(s, offset) <= after < |s|
    requires after <= Reaching(s, end)
    requires s[after].start <= if first < after then Max(end, s[after - 1].end) else end
    ensures after < Reaching(s, end) && s[after].start < s[after].end
    ensures first < after ==> s[first].start < s[after].start && s[after - 1].end < s[after].end
    ensures Total(s[first..after + 1]) == Total(s[first..after]) + (s[after].end - s[after].start)
  {
    hide Before, Reaching, Total;
    TotalSnoc(s, first, after);
  }

  lemma TotalSnoc(s: seq<Range>, lo: nat, hi: nat)
    requires lo <= hi < |s|
    ensures Total(s[lo..hi + 1]) == Total(s[lo..hi]) + RangeLength(s[hi])
  {
    assert s[lo..hi + 1][..hi - lo] == s[lo..hi];
  }

  lemma MergeStop(s: seq<Range>, first: nat, after: nat, offset: Uint32, end: Uint32)
    requires Canonical(s) && offset < end && first == Before(s, offset) <= after <= Reaching(s, end)
    requires after < |s| ==> s[after].start > if first < after then Max(end, s[after - 1].end) else end
    ensures after == Reaching(s, end)
  {
    hide Before, Reaching;
  }

  lemma InsertShape(s: seq<Range>, offset: Uint32, end: Uint32)
    requires Canonical(s) && offset < end
    ensures Before(s, offset) <= Reaching(s, end)
    ensures |Insert(s, offset, end)| == |s| - (Reaching(s, end) - Before(s, offset)) + 1
    ensures Insert(s, offset, end) == s[..Before(s, offset)] + [Merged(s, offset, end)] + s[Reaching(s, end)..]
    ensures Merged(s, offset, end).start < Merged(s, offset, end).end
  {
    BeforeReaching(s, offset, end);
  }
}

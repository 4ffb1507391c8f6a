/** The byte-range lock table of the SMB server (src/smb_server.cpp:2313-2387, 9168-9273): a fixed
    array of slots, each holding one shared or exclusive lock of one Open on one file. */
module LockTable {
  const WORD: nat := 0x1_0000_0000_0000_0000
  const LOCK_COUNT: nat := 32
  const FLAG_SHARED: bv32 := 0x1
  const FLAG_EXCLUSIVE: bv32 := 0x2
  const FLAG_UNLOCK: bv32 := 0x4
  const FLAG_FAIL_IMMEDIATELY: bv32 := 0x10

  type Uint64 = x: int | 0 <= x < 0x1_0000_0000_0000_0000

  /** A slot of the handle table together with its generation names one Open. */
  datatype Open = Open(slot: nat, generation: nat)

  datatype Lock = Lock(used: bool, exclusive: bool, owner: Open, fileKey: nat, offset: Uint64, length: Uint64)

  const FREE := Lock(false, false, Open(0, 0), 0, 0, 0)

  datatype Status = Success | FileClosed | InvalidParameter | RangeNotLocked | LockNotGranted | InsufficientResources

  datatype Element = Element(offset: Uint64, length: Uint64, flags: bv32)

  /** offset + length - 1 in 64-bit arithmetic, for a length that is not zero. */
  function Last(offset: Uint64, length: Uint64): Uint64
    requires length != 0
  {
    var last := offset + length - 1;
    if last >= WORD then last - WORD else last
  }

  predicate Overlaps(lock: Lock, fileKey: nat, offset: Uint64, length: Uint64)
    requires length != 0
  {
    && lock.used && lock.fileKey == fileKey && lock.length != 0
    && !(offset > Last(lock.offset, lock.length) || Last(offset, length) < lock.offset)
  }

  // ----- The two conflict checks -----

  predicate Refuses(lock: Lock, fileKey: nat, open: Open, offset: Uint64, length: Uint64, exclusive: bool)
    requires length != 0
  {
    Overlaps(lock, fileKey, offset, length)
    && (if lock.exclusive then lock.owner != open || exclusive else exclusive)
  }

  predicate RangeConflicts(t: seq<Lock>, fileKey: nat, open: Open, offset: Uint64, length: Uint64, exclusive: bool) {
    length != 0 && exists i :: 0 <= i < |t| && Refuses(t[i], fileKey, open, offset, length, exclusive)
  }

  predicate Forbids(lock: Lock, fileKey: nat, open: Open, offset: Uint64, length: Uint64, write: bool)
    requires length != 0
  {
    Overlaps(lock, fileKey, offset, length)
    && ((lock.exclusive && lock.owner != open) || (!lock.exclusive && write))
  }

  predicate IoConflicts(t: seq<Lock>, fileKey: nat, open: Open, offset: Uint64, length: Uint64, write: bool) {
    length != 0 && exists i :: 0 <= i < |t| && Forbids(t[i], fileKey, open, offset, length, write)
  }

  // ----- The permissions of single bytes (section 2.1.4.10 of MS-FSA) -----

  predicate Holds(lock: Lock, fileKey: nat, b: int) {
    lock.used && lock.fileKey == fileKey && lock.offset <= b < lock.offset + lock.length
  }

  predicate ByteForbidden(t: seq<Lock>, fileKey: nat, open: Open, b: int, write: bool) {
    exists i :: 0 <= i < |t| && Holds(t[i], fileKey, b)
      && (if t[i].exclusive then t[i].owner != open else write)
  }

  predicate ByteRefused(t: seq<Lock>, fileKey: nat, open: Open, b: int, exclusive: bool) {
    exists i :: 0 <= i < |t| && Holds(t[i], fileKey, b)
      && (if t[i].exclusive then t[i].owner != open || exclusive else exclusive)
  }

  predicate Fits(offset: Uint64, length: Uint64) {
    offset + length <= WORD
  }

  predicate SlotOk(lock: Lock) {
    if lock.used then Fits(lock.offset, lock.length) else lock == FREE
  }

  ghost predicate SlotsOk(t: seq<Lock>) {
    forall i :: 0 <= i < |t| ==> SlotOk(t[i])
  }

  lemma OverlapHasByte(lock: Lock, fileKey: nat, offset: Uint64, length: Uint64)
    requires length != 0 && Fits(offset, length) && SlotOk(lock)
    ensures Overlaps(lock, fileKey, offset, length)
      <==> exists b: int :: offset <= b < offset + length && Holds(lock, fileKey, b)
  {
    if Overlaps(lock, fileKey, offset, length) {
      assert Holds(lock, fileKey, if offset <= lock.offset then lock.offset else offset);
    }
  }

  /** A READ or WRITE passes the check exactly when none of its bytes is forbidden. */
  lemma IoConflictsIffByteForbidden(t: seq<Lock>, fileKey: nat, open: Open, offset: Uint64, length: Uint64, write: bool)
    requires SlotsOk(t) && Fits(offset, length)
    ensures IoConflicts(t, fileKey, open, offset, length, write)
      <==> exists b: int :: offset <= b < offset + length && ByteForbidden(t, fileKey, open, b, write)
  {
    hide Overlaps, Holds;
    if length != 0 {
      if IoConflicts(t, fileKey, open, offset, length, write) {
        var i :| 0 <= i < |t| && Forbids(t[i], fileKey, open, offset, length, write);
        OverlapHasByte(t[i], fileKey, offset, length);
        var b: int :| offset <= b < offset + length && Holds(t[i], fileKey, b);
        assert ByteForbidden(t, fileKey, open, b, write);
      }
      if b: int :| offset <= b < offset + length && ByteForbidden(t, fileKey, open, b, write) {
        var i :| 0 <= i < |t| && Holds(t[i], fileKey, b) && (if t[i].exclusive then t[i].owner != open else write);
        OverlapHasByte(t[i], fileKey, offset, length);
        assert Forbids(t[i], fileKey, open, offset, length, write);
      }
    }
  }

  /** A LOCK element is refused exactly when one of its bytes is. */
  lemma RangeConflictsIffByteRefused(t: seq<Lock>, fileKey: nat, open: Open, offset: Uint64, length: Uint64, exclusive: bool)
    requires SlotsOk(t) && Fits(offset, length)
    ensures RangeConflicts(t, fileKey, open, offset, length, exclusive)
      <==> exists b: int :: offset <= b < offset + length && ByteRefused(t, fileKey, open, b, exclusive)
  {
    hide Overlaps, Holds;
    if length != 0 {
      if RangeConflicts(t, fileKey, open, offset, length, exclusive) {
        var i :| 0 <= i < |t| && Refuses(t[i], fileKey, open, offset, length, exclusive);
        OverlapHasByte(t[i], fileKey, offset, length);
        var b: int :| offset <= b < offset + length && Holds(t[i], fileKey, b);
        assert ByteRefused(t, fileKey, open, b, exclusive);
      }
      if b: int :| offset <= b < offset + length && ByteRefused(t, fileKey, open, b, exclusive) {
        var i :| 0 <= i < |t| && Holds(t[i], fileKey, b)
          && (if t[i].exclusive then t[i].owner != open || exclusive else exclusive);
        OverlapHasByte(t[i], fileKey, offset, length);
        assert Refuses(t[i], fileKey, open, offset, length, exclusive);
      }
    }
  }

  // ----- The invariant -----

  predicate SharesByte(a: Lock, c: Lock, b: int) {
    Holds(a, a.fileKey, b) && Holds(c, a.fileKey, b)
  }

  /** Two locks may share a byte only when they are not both exclusive, and one exclusive lock
      tolerates only locks of its own Open. */
  predicate Compatible(a: Lock, c: Lock) {
    !(a.exclusive && c.exclusive) && (a.exclusive || c.exclusive ==> a.owner == c.owner)
  }

  ghost predicate Inv(t: seq<Lock>) {
    && SlotsOk(t)
    && (forall i, j, b: int :: 0 <= i < j < |t| && SharesByte(t[i], t[j], b) ==> Compatible(t[i], t[j]))
  }

  lemma InvPair(t: seq<Lock>, i: nat, j: nat, b: int)
    requires Inv(t) && i < |t| && j < |t| && i != j && SharesByte(t[i], t[j], b)
    ensures Compatible(t[i], t[j])
  {
    assert SharesByte(t[j], t[i], b);
  }

  /** Over a byte that one Open holds exclusively, no other Open reads or writes, and no other
      Open has any lock. */
  lemma ExclusiveMeansAlone(t: seq<Lock>, i: nat, b: int, other: Open, write: bool)
    requires Inv(t) && i < |t| && t[i].exclusive && Holds(t[i], t[i].fileKey, b) && other != t[i].owner
    ensures ByteForbidden(t, t[i].fileKey, other, b, write)
    ensures !ByteForbidden(t, t[i].fileKey, t[i].owner, b, false)
    ensures forall j :: 0 <= j < |t| && Holds(t[j], t[i].fileKey, b) ==> t[j].owner == t[i].owner
  {
    forall j | 0 <= j < |t| && Holds(t[j], t[i].fileKey, b) ensures t[j].owner == t[i].owner {
      if j != i { InvPair(t, i, j, b); }
    }
  }

  lemma ClearedSlotKeepsInv(t: seq<Lock>, k: nat)
    requires Inv(t) && k < |t|
    ensures Inv(t[k := FREE])
  {
    var u := t[k := FREE];
    forall i, j, b: int | 0 <= i < j < |u| && SharesByte(u[i], u[j], b) ensures Compatible(u[i], u[j]) {
      assert SharesByte(t[i], t[j], b);
    }
  }

  function Granted(open: Open, fileKey: nat, element: Element): Lock {
    Lock(true, element.flags & (FLAG_SHARED | FLAG_EXCLUSIVE) == FLAG_EXCLUSIVE, open, fileKey, element.offset, element.length)
  }

  lemma NewLockIsCompatible(t: seq<Lock>, k: nat, lock: Lock, j: nat, b: int)
    requires SlotsOk(t) && SlotOk(lock) && lock.used && j < |t| && SharesByte(t[j], lock, b)
    requires !RangeConflicts(t, lock.fileKey, lock.owner, lock.offset, lock.length, lock.exclusive)
    ensures Compatible(t[j], lock)
  {
    OverlapHasByte(t[j], lock.fileKey, lock.offset, lock.length);
    assert !Refuses(t[j], lock.fileKey, lock.owner, lock.offset, lock.length, lock.exclusive);
  }

  lemma GrantKeepsInv(t: seq<Lock>, k: nat, lock: Lock)
    requires Inv(t) && k < |t| && !t[k].used && SlotOk(lock) && lock.used
    requires !RangeConflicts(t, lock.fileKey, lock.owner, lock.offset, lock.length, lock.exclusive)
    ensures Inv(t[k := lock])
  {
    hide RangeConflicts, Compatible, SlotOk;
    var u := t[k := lock];
    forall i, j, b: int | 0 <= i < j < |u| && SharesByte(u[i], u[j], b) ensures Compatible(u[i], u[j]) {
      if i == k {
        assert SharesByte(t[j], lock, b);
        NewLockIsCompatible(t, k, lock, j, b);
        CompatibleIsSymmetric(t[j], lock);
      } else if j == k {
        NewLockIsCompatible(t, k, lock, i, b);
      } else {
        assert SharesByte(t[i], t[j], b);
      }
    }
  }

  lemma CompatibleIsSymmetric(a: Lock, c: Lock)
    requires Compatible(a, c)
    ensures Compatible(c, a)
  {
  }

  // ----- The LOCK request -----

  predicate Wraps(element: Element) {
    element.length != 0 && Last(element.offset, element.length) < element.offset
  }

  lemma WrapsIffTooLong(element: Element)
    ensures Wraps(element) <==> !Fits(element.offset, element.length)
  {
  }

  predicate GoodFlags(flags: bv32, count: nat) {
    var kind := flags & (FLAG_SHARED | FLAG_EXCLUSIVE);
    var allowed := kind | (flags & FLAG_FAIL_IMMEDIATELY);
    !((kind != FLAG_SHARED && kind != FLAG_EXCLUSIVE) || flags != allowed
      || (count > 1 && flags & FLAG_FAIL_IMMEDIATELY == 0))
  }

  /** The accepted flag words, one by one. */
  lemma GoodFlagsAre(flags: bv32, count: nat)
    ensures GoodFlags(flags, count) <==>
      flags == 0x11 || flags == 0x12 || (count <= 1 && (flags == 0x1 || flags == 0x2))
  {
  }

  function FirstFree(t: seq<Lock>): (k: nat)
    ensures k <= |t| && (k < |t| ==> !t[k].used) && (forall i :: 0 <= i < k ==> t[i].used)
  {
    if t == [] || !t[0].used then 0 else 1 + FirstFree(t[1..])
  }

  /** Clearing the slots this request has filled so far. */
  function Cleared(t: seq<Lock>, added: seq<nat>): (r: seq<Lock>)
    ensures |r| == |t|
  {
    if added == [] then t
    else
      var r := Cleared(t, added[..|added| - 1]);
      if added[|added| - 1] < |r| then r[added[|added| - 1] := FREE] else r
  }

  /** The loop over the elements of a LOCK request from element k on. */
  function LockFrom(t: seq<Lock>, added: seq<nat>, open: Open, fileKey: nat, elements: seq<Element>, k: nat): (seq<Lock>, Status)
    decreases |elements| - k
  {
    if k >= |elements| then (t, Success)
    else
      var e := elements[k];
      if Wraps(e) || !GoodFlags(e.flags, |elements|) then (t, InvalidParameter)
      else if RangeConflicts(t, fileKey, open, e.offset, e.length, Granted(open, fileKey, e).exclusive)
      then (Cleared(t, added), LockNotGranted)
      else if FirstFree(t) == |t| then (t, InsufficientResources)
      else LockFrom(t[FirstFree(t) := Granted(open, fileKey, e)], added + [FirstFree(t)], open, fileKey, elements, k + 1)
  }

  predicate Mine(lock: Lock, open: Open, fileKey: nat, e: Element) {
    lock.used && lock.fileKey == fileKey && lock.owner == open && lock.offset == e.offset && lock.length == e.length
  }

  /** The search of an UNLOCK: the last own lock of that very range, but an exclusive one ends it. */
  function FindFrom(t: seq<Lock>, i: nat, found: int, open: Open, fileKey: nat, e: Element): int
    decreases |t| - i
  {
    if i >= |t| then found
    else if !Mine(t[i], open, fileKey, e) then FindFrom(t, i + 1, found, open, fileKey, e)
    else if t[i].exclusive then i
    else FindFrom(t, i + 1, i, open, fileKey, e)
  }

  function UnlockFrom(t: seq<Lock>, open: Open, fileKey: nat, elements: seq<Element>, k: nat): (seq<Lock>, Status)
    decreases |elements| - k
  {
    if k >= |elements| then (t, Success)
    else
      var e := elements[k];
      if Wraps(e) || e.flags != FLAG_UNLOCK then (t, InvalidParameter)
      else
        var found := FindFrom(t, 0, -1, open, fileKey, e);
        if 0 <= found < |t| then UnlockFrom(t[found := FREE], open, fileKey, elements, k + 1) else (t, RangeNotLocked)
  }

  datatype Handle = NoHandle | Handle(open: Open, directory: bool, fileKey: nat)

  function Request(t: seq<Lock>, handle: Handle, elements: seq<Element>): (seq<Lock>, Status) {
    if handle.NoHandle? then (t, FileClosed)
    else if handle.directory || elements == [] then (t, InvalidParameter)
    else if elements[0].flags & FLAG_UNLOCK != 0 then UnlockFrom(t, handle.open, handle.fileKey, elements, 0)
    else LockFrom(t, [], handle.open, handle.fileKey, elements, 0)
  }

  function Released(t: seq<Lock>, open: Open): seq<Lock> {
    seq(|t|, i requires 0 <= i < |t| => if t[i].used && t[i].owner == open then FREE else t[i])
  }

  // ----- What a request does -----

  lemma {:induction false} FindFromResult(t: seq<Lock>, i: nat, found: int, open: Open, fileKey: nat, e: Element)
    requires i <= |t| && -1 <= found < i
    requires found >= 0 ==> Mine(t[found], open, fileKey, e) && !t[found].exclusive
    requires forall j :: 0 <= j < i && Mine(t[j], open, fileKey, e) ==> found >= 0 && !t[j].exclusive
    ensures var r := FindFrom(t, i, found, open, fileKey, e);
      && -1 <= r < |t|
      && (r >= 0 ==> Mine(t[r], open, fileKey, e))
      && (r < 0 ==> forall j :: 0 <= j < |t| ==> !Mine(t[j], open, fileKey, e))
      && (r >= 0 && !t[r].exclusive ==> forall j :: 0 <= j < |t| && Mine(t[j], open, fileKey, e) ==> !t[j].exclusive)
    decreases |t| - i
  {
    hide Mine;
    if i < |t| {
      if !Mine(t[i], open, fileKey, e) {
        FindFromResult(t, i + 1, found, open, fileKey, e);
      } else if !t[i].exclusive {
        FindFromResult(t, i + 1, i, open, fileKey, e);
      }
    }
  }

  /** UNLOCK removes one own lock of exactly that range, an exclusive one when there is one, and
      answers RANGE_NOT_LOCKED exactly when there is none. */
  lemma UnlockFinds(t: seq<Lock>, open: Open, fileKey: nat, e: Element)
    ensures var r := FindFrom(t, 0, -1, open, fileKey, e);
      && -1 <= r < |t|
      && (r >= 0 ==> Mine(t[r], open, fileKey, e))
      && (r < 0 <==> forall j :: 0 <= j < |t| ==> !Mine(t[j], open, fileKey, e))
      && (r >= 0 && !t[r].exclusive ==> forall j :: 0 <= j < |t| && Mine(t[j], open, fileKey, e) ==> !t[j].exclusive)
  {
    hide Mine;
    FindFromResult(t, 0, -1, open, fileKey, e);
  }

  /** added names, once each, the slots that differ from the table before the request. */
  ghost predicate Tracks(before: seq<Lock>, t: seq<Lock>, added: seq<nat>) {
    && |t| == |before|
    && (forall a :: a in added ==> a < |t| && !before[a].used && t[a].used)
    && (forall i :: 0 <= i < |t| && i !in added ==> t[i] == before[i])
    && (forall i, j :: 0 <= i < j < |added| ==> added[i] != added[j])
  }

  lemma {:induction false} ClearedAt(t: seq<Lock>, added: seq<nat>, i: nat)
    requires i < |t|
    ensures Cleared(t, added)[i] == if i in added then FREE else t[i]
    decreases |added|
  {
    if added == [] {
    } else {
      var front, last := added[..|added| - 1], added[|added| - 1];
      ClearedAt(t, front, i);
      assert added == front + [last];
    }
  }

  /** Rolling back restores the table exactly. */
  lemma ClearedRestores(before: seq<Lock>, t: seq<Lock>, added: seq<nat>)
    requires SlotsOk(before) && Tracks(before, t, added)
    ensures Cleared(t, added) == before
  {
    forall i | 0 <= i < |t| ensures Cleared(t, added)[i] == before[i] {
      ClearedAt(t, added, i);
    }
  }

  lemma TracksNext(before: seq<Lock>, t: seq<Lock>, added: seq<nat>, lock: Lock)
    requires Tracks(before, t, added) && lock.used && FirstFree(t) < |t|
    ensures Tracks(before, t[FirstFree(t) := lock], added + [FirstFree(t)])
  {
    hide FirstFree;
    var k := FirstFree(t);
    var u, more := t[k := lock], added + [k];
    assert k !in added;
    forall a | a in more ensures a < |u| && !before[a].used && u[a].used {
      assert a == k || a in added;
    }
    forall i | 0 <= i < |u| && i !in more ensures u[i] == before[i] {
      assert k in more && i !in added;
    }
  }

  lemma {:induction false} DistinctBelow(s: seq<nat>, n: nat)
    requires (forall i :: 0 <= i < |s| ==> s[i] < n) && (forall i, j :: 0 <= i < j < |s| ==> s[i] != s[j])
    ensures |s| <= n
    decreases n
  {
    if s != [] {
      assert s[0] < n;
      if k :| 0 <= k < |s| && s[k] == n - 1 {
        var rest := s[..k] + s[k + 1..];
        forall i | 0 <= i < |rest| ensures rest[i] < n - 1 {
          assert rest[i] == if i < k then s[i] else s[i + 1];
        }
        DistinctBelow(rest, n - 1);
      } else {
        DistinctBelow(s, n - 1);
      }
    }
  }

  /** The local array of added slots has room for every slot the request can fill. */
  lemma AddedHasRoom(before: seq<Lock>, t: seq<Lock>, added: seq<nat>)
    requires Tracks(before, t, added) && FirstFree(t) < |t|
    ensures |added| < |t|
  {
    hide FirstFree;
    TracksNext(before, t, added, Lock(true, false, Open(0, 0), 0, 0, 0));
    var more := added + [FirstFree(t)];
    forall i | 0 <= i < |more| ensures more[i] < |t| { assert more[i] in more; }
    DistinctBelow(more, |t|);
  }

  /** The elements granted so far, each in a slot of its own. */
  function GrantAll(t: seq<Lock>, open: Open, fileKey: nat, elements: seq<Element>, n: nat): (r: seq<Lock>)
    requires n <= |elements|
    ensures |r| == |t|
  {
    if n == 0 then t
    else
      var before := GrantAll(t, open, fileKey, elements, n - 1);
      if FirstFree(before) < |t| then before[FirstFree(before) := Granted(open, fileKey, elements[n - 1])] else before
  }

  /** A LOCK request keeps the invariant. LOCK_NOT_GRANTED leaves the table exactly as it was; every
      other answer leaves the granted elements in place: all of them on success, and on
      INVALID_PARAMETER or INSUFFICIENT_RESOURCES those before the element that failed. */
  lemma {:induction false} LockFromResult(
      before: seq<Lock>, t: seq<Lock>, added: seq<nat>, open: Open, fileKey: nat, elements: seq<Element>, k: nat)
    requires SlotsOk(before) && Tracks(before, t, added) && Inv(t) && Inv(before) && k == |added| <= |elements|
    requires t == GrantAll(before, open, fileKey, elements, k)
    ensures var (after, status) := LockFrom(t, added, open, fileKey, elements, k);
      && Inv(after) && |after| == |t|
      && (status == LockNotGranted ==> after == before)
      && (status == Success ==> after == GrantAll(before, open, fileKey, elements, |elements|))
      && (status != LockNotGranted && status != Success ==>
          exists n :: k <= n < |elements| && after == GrantAll(before, open, fileKey, elements, n))
    decreases |elements| - k
  {
    hide Inv, SlotsOk, Tracks, RangeConflicts, Wraps, GoodFlags, Cleared, FirstFree, Granted;
    if k < |elements| {
      var e := elements[k];
      if !Wraps(e) && GoodFlags(e.flags, |elements|) {
        var lock := Granted(open, fileKey, e);
        if RangeConflicts(t, fileKey, open, e.offset, e.length, lock.exclusive) {
          ClearedRestores(before, t, added);
        } else if FirstFree(t) < |t| {
          GrantedIsOk(open, fileKey, e);
          GrantKeepsInv(t, FirstFree(t), lock);
          TracksNext(before, t, added, lock);
          LockFromResult(before, t[FirstFree(t) := lock], added + [FirstFree(t)], open, fileKey, elements, k + 1);
        }
      }
    }
  }

  lemma {:induction false} GrantAllKeepsUsed(t: seq<Lock>, open: Open, fileKey: nat, elements: seq<Element>, m: nat, n: nat, i: nat)
    requires m <= n <= |elements| && i < |t| && GrantAll(t, open, fileKey, elements, m)[i].used
    ensures GrantAll(t, open, fileKey, elements, n)[i].used
    decreases n
  {
    hide FirstFree;
    if m == n {
    } else {
      GrantAllKeepsUsed(t, open, fileKey, elements, m, n - 1, i);
    }
  }

  /** The other two failures do not undo the elements granted before them: such a request leaves the
      table as it was exactly when its first element is already malformed or the table is full. */
  lemma FailureKeepsTableIff(t: seq<Lock>, open: Open, fileKey: nat, elements: seq<Element>)
    requires Inv(t) && elements != []
    requires LockFrom(t, [], open, fileKey, elements, 0).1 in {InvalidParameter, InsufficientResources}
    ensures LockFrom(t, [], open, fileKey, elements, 0).0 == t
      <==> Wraps(elements[0]) || !GoodFlags(elements[0].flags, |elements|) || FirstFree(t) == |t|
  {
    hide Inv, SlotsOk, Tracks, RangeConflicts, Wraps, GoodFlags, FirstFree, SlotOk;
    var e, free := elements[0], FirstFree(t);
    if !Wraps(e) && GoodFlags(e.flags, |elements|) && free < |t| {
      var lock := Granted(open, fileKey, e);
      var u := t[free := lock];
      InvSlots(t);
      TracksNothing(t);
      GrantedIsOk(open, fileKey, e);
      TracksNext(t, t, [], lock);
      GrantKeepsInv(t, free, lock);
      assert GrantAll(t, open, fileKey, elements, 0) == t;
      assert GrantAll(t, open, fileKey, elements, 1) == u;
      assert [] + [free] == [free];
      LockFromResult(t, u, [free], open, fileKey, elements, 1);
      var after := LockFrom(t, [], open, fileKey, elements, 0).0;
      var n :| 1 <= n < |elements| && after == GrantAll(t, open, fileKey, elements, n);
      GrantAllKeepsUsed(t, open, fileKey, elements, 1, n, free);
      assert after[free].used && !t[free].used;
    }
  }

  /** It happens: in an empty table, a good exclusive element followed by one with flags that mean
      nothing. The request fails, and its first lock stays. */
  lemma MalformedElementKeepsEarlierLock(open: Open, fileKey: nat)
    ensures var t := seq(LOCK_COUNT, _ => FREE);
      var elements := [Element(0, 10, 0x12), Element(20, 10, 0x0)];
      && Inv(t)
      && LockFrom(t, [], open, fileKey, elements, 0) == (t[0 := Granted(open, fileKey, elements[0])], InvalidParameter)
      && t[0 := Granted(open, fileKey, elements[0])] != t
  {
    var t := seq(LOCK_COUNT, _ => FREE);
    var elements := [Element(0, 10, 0x12), Element(20, 10, 0x0)];
    GoodFlagsAre(0x12, 2);
    GoodFlagsAre(0x0, 2);
    var lock := Granted(open, fileKey, elements[0]);
    assert !Wraps(elements[0]) && !RangeConflicts(t, fileKey, open, 0, 10, lock.exclusive);
    assert FirstFree(t) == 0;
    var u := t[0 := lock];
    assert LockFrom(t, [], open, fileKey, elements, 0) == LockFrom(u, [] + [0], open, fileKey, elements, 1);
    assert u[0].used && !t[0].used;
  }

  lemma GrantedIsOk(open: Open, fileKey: nat, e: Element)
    requires !Wraps(e)
    ensures var lock := Granted(open, fileKey, e);
      && lock.used && SlotOk(lock) && lock.fileKey == fileKey && lock.owner == open
      && lock.offset == e.offset && lock.length == e.length
  {
    WrapsIffTooLong(e);
  }

  lemma {:induction false} UnlockFromKeepsInv(t: seq<Lock>, open: Open, fileKey: nat, elements: seq<Element>, k: nat)
    requires Inv(t)
    ensures Inv(UnlockFrom(t, open, fileKey, elements, k).0) && |UnlockFrom(t, open, fileKey, elements, k).0| == |t|
    decreases |elements| - k
  {
    hide Inv, FindFrom;
    if k < |elements| {
      var found := FindFrom(t, 0, -1, open, fileKey, elements[k]);
      if 0 <= found < |t| {
        ClearedSlotKeepsInv(t, found);
        UnlockFromKeepsInv(t[found := FREE], open, fileKey, elements, k + 1);
      }
    }
  }

  lemma ReleasedKeepsInv(t: seq<Lock>, open: Open)
    requires Inv(t)
    ensures Inv(Released(t, open))
    ensures forall i :: 0 <= i < |t| && Released(t, open)[i].used ==> Released(t, open)[i].owner != open
    ensures forall i :: 0 <= i < |t| && t[i].owner != open ==> Released(t, open)[i] == t[i]
  {
    var u := Released(t, open);
    forall i, j, b: int | 0 <= i < j < |u| && SharesByte(u[i], u[j], b) ensures Compatible(u[i], u[j]) {
      assert SharesByte(t[i], t[j], b);
    }
  }

  lemma TracksNothing(t: seq<Lock>)
    ensures Tracks(t, t, [])
  {
  }

  /** An answer LOCK_NOT_GRANTED leaves the table untouched, and every request keeps the invariant. */
  lemma RequestKeepsInv(t: seq<Lock>, handle: Handle, elements: seq<Element>)
    requires Inv(t)
    ensures Inv(Request(t, handle, elements).0) && |Request(t, handle, elements).0| == |t|
    ensures Request(t, handle, elements).1 == LockNotGranted ==> Request(t, handle, elements).0 == t
  {
    hide Inv, LockFrom, UnlockFrom;
    if handle.Handle? && !handle.directory && elements != [] {
      if elements[0].flags & FLAG_UNLOCK != 0 {
        UnlockFromKeepsInv(t, handle.open, handle.fileKey, elements, 0);
        UnlockNeverRefuses(t, handle.open, handle.fileKey, elements, 0);
      } else {
        TracksNothing(t);
        assert SlotsOk(t) by { InvSlots(t); }
        LockFromResult(t, t, [], handle.open, handle.fileKey, elements, 0);
      }
    }
  }

  lemma InvSlots(t: seq<Lock>)
    requires Inv(t)
    ensures SlotsOk(t)
  {
  }

  lemma {:induction false} UnlockNeverRefuses(t: seq<Lock>, open: Open, fileKey: nat, elements: seq<Element>, k: nat)
    ensures UnlockFrom(t, open, fileKey, elements, k).1 != LockNotGranted
    decreases |elements| - k
  {
    hide FindFrom;
    if k < |elements| {
      var found := FindFrom(t, 0, -1, open, fileKey, elements[k]);
      if 0 <= found < |t| { UnlockNeverRefuses(t[found := FREE], open, fileKey, elements, k + 1); }
    }
  }

  // ----- What a request means for single bytes -----

  /** An element asks for some bytes of the file, shared or exclusive, by one of four flag words. */
  predicate Covers(e: Element, b: int) {
    e.offset <= b < e.offset + e.length
  }

  predicate AsksExclusive(flags: bv32) {
    flags == 0x2 || flags == 0x12
  }

  predicate WellFormed(e: Element, count: nat) {
    && e.offset + e.length <= 0x1_0000_0000_0000_0000
    && (e.flags == 0x11 || e.flags == 0x12 || (count <= 1 && (e.flags == 0x1 || e.flags == 0x2)))
  }

  /** The permissions of a byte once the first n elements are locked by an Open. */
  ghost predicate ForbiddenByFirst(elements: seq<Element>, n: nat, open: Open, other: Open, b: int, write: bool)
    requires n <= |elements|
  {
    exists j :: 0 <= j < n && Covers(elements[j], b) && (if AsksExclusive(elements[j].flags) then other != open else write)
  }

  ghost predicate Locks(t: seq<Lock>, u: seq<Lock>, open: Open, fileKey: nat, elements: seq<Element>, n: nat)
    requires n <= |elements|
  {
    forall key: nat, other: Open, b: int, write: bool ::
      ByteForbidden(u, key, other, b, write)
      <==> ByteForbidden(t, key, other, b, write) || (key == fileKey && ForbiddenByFirst(elements, n, open, other, b, write))
  }

  /** Filling a free slot adds exactly the permissions of that lock. */
  lemma SlotFilled(t: seq<Lock>, k: nat, lock: Lock, key: nat, other: Open, b: int, write: bool)
    requires k < |t| && !t[k].used
    ensures ByteForbidden(t[k := lock], key, other, b, write)
      <==> ByteForbidden(t, key, other, b, write)
           || (Holds(lock, key, b) && (if lock.exclusive then lock.owner != other else write))
  {
    var u := t[k := lock];
    if ByteForbidden(t, key, other, b, write) {
      var i :| 0 <= i < |t| && Holds(t[i], key, b) && (if t[i].exclusive then t[i].owner != other else write);
      assert u[i] == t[i];
    }
    assert u[k] == lock;
  }

  lemma GrantedLocks(t: seq<Lock>, u: seq<Lock>, open: Open, fileKey: nat, elements: seq<Element>, n: nat)
    requires n < |elements| && WellFormed(elements[n], |elements|) && Locks(t, u, open, fileKey, elements, n)
    requires FirstFree(u) < |u|
    ensures Locks(t, u[FirstFree(u) := Granted(open, fileKey, elements[n])], open, fileKey, elements, n + 1)
  {
    hide FirstFree, ByteForbidden;
    var e, lock := elements[n], Granted(open, fileKey, elements[n]);
    assert lock.exclusive == AsksExclusive(e.flags);
    forall key: nat, other: Open, b: int, write: bool
      ensures ByteForbidden(u[FirstFree(u) := lock], key, other, b, write)
        <==> ByteForbidden(t, key, other, b, write) || (key == fileKey && ForbiddenByFirst(elements, n + 1, open, other, b, write))
    {
      SlotFilled(u, FirstFree(u), lock, key, other, b, write);
      FirstMore(elements, n, open, other, b, write);
    }
  }

  lemma FirstMore(elements: seq<Element>, n: nat, open: Open, other: Open, b: int, write: bool)
    requires n < |elements|
    ensures ForbiddenByFirst(elements, n + 1, open, other, b, write)
      <==> ForbiddenByFirst(elements, n, open, other, b, write)
           || (Covers(elements[n], b) && (if AsksExclusive(elements[n].flags) then other != open else write))
  {
    if ForbiddenByFirst(elements, n, open, other, b, write) {
      var j :| 0 <= j < n && Covers(elements[j], b) && (if AsksExclusive(elements[j].flags) then other != open else write);
      assert 0 <= j < n + 1;
    }
  }

  lemma WellFormedIs(e: Element, count: nat)
    ensures WellFormed(e, count) <==> !Wraps(e) && GoodFlags(e.flags, count)
    ensures WellFormed(e, count) ==> (e.flags & (FLAG_SHARED | FLAG_EXCLUSIVE) == FLAG_EXCLUSIVE <==> AsksExclusive(e.flags))
  {
    WrapsIffTooLong(e);
    GoodFlagsAre(e.flags, count);
  }

  /** The answer of a LOCK request from element k on, and the table it leaves. */
  ghost predicate LockAnswers(before: seq<Lock>, open: Open, fileKey: nat, elements: seq<Element>, n: nat, u: seq<Lock>,
                              after: seq<Lock>, status: Status)
    requires n <= |elements|
  {
    && Locks(before, u, open, fileKey, elements, n)
    && (status == Success <==> n == |elements|)
    && after == (if status == LockNotGranted then before else u)
    && (n < |elements| ==>
          var e := elements[n];
          var refused := exists b: int :: Covers(e, b) && ByteRefused(u, fileKey, open, b, AsksExclusive(e.flags));
          status == if !WellFormed(e, |elements|) then InvalidParameter
                    else if refused then LockNotGranted
                    else InsufficientResources)
    && (status == InsufficientResources ==> forall i :: 0 <= i < |u| ==> u[i].used)
  }

  lemma RefusedIffByte(u: seq<Lock>, open: Open, fileKey: nat, e: Element, count: nat)
    requires Inv(u) && WellFormed(e, count)
    ensures RangeConflicts(u, fileKey, open, e.offset, e.length, Granted(open, fileKey, e).exclusive)
      <==> exists b: int :: Covers(e, b) && ByteRefused(u, fileKey, open, b, AsksExclusive(e.flags))
  {
    hide RangeConflicts, ByteRefused, Inv, GoodFlags, Wraps;
    InvSlots(u);
    WellFormedIs(e, count);
    RangeConflictsIffByteRefused(u, fileKey, open, e.offset, e.length, AsksExclusive(e.flags));
    if RangeConflicts(u, fileKey, open, e.offset, e.length, AsksExclusive(e.flags)) {
      var b: int :| e.offset <= b < e.offset + e.length && ByteRefused(u, fileKey, open, b, AsksExclusive(e.flags));
      assert Covers(e, b);
    }
  }

  lemma {:induction false} LockFromAnswers(
      before: seq<Lock>, t: seq<Lock>, added: seq<nat>, open: Open, fileKey: nat, elements: seq<Element>, k: nat)
      returns (n: nat, u: seq<Lock>)
    requires SlotsOk(before) && Tracks(before, t, added) && Inv(t) && k <= |elements|
    requires Locks(before, t, open, fileKey, elements, k)
    ensures n <= |elements|
    ensures var (after, status) := LockFrom(t, added, open, fileKey, elements, k);
      LockAnswers(before, open, fileKey, elements, n, u, after, status)
    decreases |elements| - k
  {
    hide Inv, SlotsOk, Tracks, RangeConflicts, Wraps, GoodFlags, Cleared, FirstFree, Granted, Locks, WellFormed, ByteRefused, SlotOk;
    n, u := k, t;
    if k < |elements| {
      var e := elements[k];
      WellFormedIs(e, |elements|);
      if WellFormed(e, |elements|) {
        var lock := Granted(open, fileKey, e);
        RefusedIffByte(t, open, fileKey, e, |elements|);
        if RangeConflicts(t, fileKey, open, e.offset, e.length, lock.exclusive) {
          ClearedRestores(before, t, added);
        } else if FirstFree(t) < |t| {
          GrantedIsOk(open, fileKey, e);
          GrantKeepsInv(t, FirstFree(t), lock);
          TracksNext(before, t, added, lock);
          GrantedLocks(before, t, open, fileKey, elements, k);
          n, u := LockFromAnswers(before, t[FirstFree(t) := lock], added + [FirstFree(t)], open, fileKey, elements, k + 1);
        }
      }
    }
  }

  /** What a LOCK request does, byte by byte. Up to the first element that fails, each is locked: its
      bytes are forbidden to every other Open for reading and writing if its flags ask for an exclusive
      lock, and to everyone for writing if not; and no other permission changes. The answer says how
      that element failed: malformed, a byte refused by the locks held so far, or no slot left. Only a
      refused byte undoes the elements before it. */
  lemma LockRequestAnswers(t: seq<Lock>, open: Open, fileKey: nat, elements: seq<Element>) returns (n: nat, u: seq<Lock>)
    requires Inv(t) && elements != [] && elements[0].flags & FLAG_UNLOCK == 0
    ensures n <= |elements|
    ensures var (after, status) := Request(t, Handle(open, false, fileKey), elements);
      LockAnswers(t, open, fileKey, elements, n, u, after, status)
  {
    hide Inv, LockFrom, UnlockFrom, LockAnswers;
    InvSlots(t);
    TracksNothing(t);
    NothingLocked(t, open, fileKey, elements);
    n, u := LockFromAnswers(t, t, [], open, fileKey, elements, 0);
  }

  lemma NothingLocked(t: seq<Lock>, open: Open, fileKey: nat, elements: seq<Element>)
    ensures Locks(t, t, open, fileKey, elements, 0)
  {
    hide ByteForbidden;
  }

  /** After SUCCESS: over an exclusively locked element no other Open reads or writes, over a shared
      one nobody writes, and a shared one alone forbids no reading. */
  lemma GrantedBytesAreProtected(t: seq<Lock>, open: Open, fileKey: nat, elements: seq<Element>, j: nat, other: Open, b: int)
    requires Inv(t) && j < |elements| && Covers(elements[j], b) && elements[0].flags & FLAG_UNLOCK == 0
    requires Request(t, Handle(open, false, fileKey), elements).1 == Success
    ensures var u := Request(t, Handle(open, false, fileKey), elements).0;
      && (elements[j].flags in {0x2, 0x12} && other != open ==>
            ByteForbidden(u, fileKey, other, b, true) && ByteForbidden(u, fileKey, other, b, false))
      && (elements[j].flags in {0x1, 0x11} ==> ByteForbidden(u, fileKey, other, b, true))
      && (elements[j].flags in {0x1, 0x11} && |elements| == 1 ==>
            (ByteForbidden(u, fileKey, other, b, false) <==> ByteForbidden(t, fileKey, other, b, false)))
      && (|elements| == 1 ==> (ByteForbidden(u, fileKey, open, b, false) <==> ByteForbidden(t, fileKey, open, b, false)))
  {
    hide Inv, Request, ByteForbidden, Covers;
    var n, u := LockRequestAnswers(t, open, fileKey, elements);
    assert ForbiddenByFirst(elements, n, open, other, b, true) <== elements[j].flags in {0x1, 0x11} || other != open;
    assert ForbiddenByFirst(elements, n, open, other, b, false) <== AsksExclusive(elements[j].flags) && other != open;
    assert |elements| == 1 ==> elements[j] == elements[0];
  }

  /** A lock an Open holds on exactly that range of that file. */
  predicate IsOwn(lock: Lock, open: Open, fileKey: nat, e: Element) {
    lock == Lock(true, lock.exclusive, open, fileKey, e.offset, e.length)
  }

  /** What an UNLOCK request does: up to the first element that fails, each removes one own lock of
      exactly that range, and nothing else changes; it fails when its flags or range are malformed, or
      when no such lock is left. */
  lemma {:induction false} UnlockFromAnswers(t: seq<Lock>, open: Open, fileKey: nat, elements: seq<Element>, k: nat)
      returns (removed: seq<nat>)
    requires k <= |elements|
    ensures k + |removed| <= |elements|
    ensures forall j :: 0 <= j < |removed| ==> removed[j] < |t| && IsOwn(t[removed[j]], open, fileKey, elements[k + j])
    ensures forall i, j :: 0 <= i < j < |removed| ==> removed[i] != removed[j]
    ensures forall j :: k <= j < k + |removed| ==> elements[j].flags == 0x4
    ensures var (after, status) := UnlockFrom(t, open, fileKey, elements, k);
      var n := k + |removed|;
      && |after| == |t| && (forall i :: 0 <= i < |t| ==> after[i] == if i in removed then FREE else t[i])
      && (status == Success <==> n == |elements|)
      && (n < |elements| ==>
            status == if elements[n].offset + elements[n].length > 0x1_0000_0000_0000_0000 || elements[n].flags != 0x4
                      then InvalidParameter else RangeNotLocked)
      && (status == RangeNotLocked ==> forall i :: 0 <= i < |t| ==> !IsOwn(after[i], open, fileKey, elements[n]))
    decreases |elements| - k
  {
    hide FindFrom, Wraps;
    removed := [];
    if k < |elements| {
      var e := elements[k];
      WrapsIffTooLong(e);
      UnlockFinds(t, open, fileKey, e);
      var found := FindFrom(t, 0, -1, open, fileKey, e);
      if !Wraps(e) && e.flags == FLAG_UNLOCK && found >= 0 {
        var rest := UnlockFromAnswers(t[found := FREE], open, fileKey, elements, k + 1);
        removed := [found] + rest;
        forall j | 0 <= j < |rest| ensures rest[j] != found && t[found := FREE][rest[j]] == t[rest[j]] {
          assert Mine(t[found := FREE][rest[j]], open, fileKey, elements[k + 1 + j]);
        }
      }
    }
  }

  lemma RequestKinds(t: seq<Lock>, handle: Handle, elements: seq<Element>)
    ensures handle.NoHandle? ==> Request(t, handle, elements) == (t, FileClosed)
    ensures handle.Handle? && (handle.directory || elements == []) ==> Request(t, handle, elements) == (t, InvalidParameter)
    ensures handle.Handle? && !handle.directory && elements != [] && elements[0].flags & 0x4 != 0 ==>
      Request(t, handle, elements) == UnlockFrom(t, handle.open, handle.fileKey, elements, 0)
  {
  }

  // ----- Whole runs -----

  datatype Event = LockRequest(handle: Handle, elements: seq<Element>) | CloseHandle(open: Open)

  function Step(t: seq<Lock>, event: Event): seq<Lock> {
    match event
    case LockRequest(handle, elements) => Request(t, handle, elements).0
    case CloseHandle(open) => Released(t, open)
  }

  function Run(t: seq<Lock>, events: seq<Event>): seq<Lock> {
    if events == [] then t else Step(Run(t, events[..|events| - 1]), events[|events| - 1])
  }

  function EmptyTable(): seq<Lock> {
    seq(LOCK_COUNT, _ => FREE)
  }

  lemma EmptyTableInv()
    ensures Inv(EmptyTable())
  {
  }

  /** In every table any run of LOCK, UNLOCK and close can reach, overlapping non-empty locks of a
      file are never both exclusive, and an exclusive one shares its bytes with its own Open only. */
  lemma {:induction false} RunKeepsInv(events: seq<Event>)
    ensures Inv(Run(EmptyTable(), events)) && |Run(EmptyTable(), events)| == LOCK_COUNT
    decreases |events|
  {
    hide Inv, Request, Released;
    if events == [] {
      EmptyTableInv();
    } else {
      RunKeepsInv(events[..|events| - 1]);
      var t := Run(EmptyTable(), events[..|events| - 1]);
      match events[|events| - 1]
      case LockRequest(handle, elements) => RequestKeepsInv(t, handle, elements);
      case CloseHandle(open) => ReleasedKeepsInv(t, open); ReleasedSize(t, open);
    }
  }

  /** The same, field by field: two locks of one file that share a byte are never both exclusive, and
      if one is, both are of one Open. */
  lemma LocksThatShareAByte(events: seq<Event>, i: nat, j: nat, b: int)
    requires var t := Run(EmptyTable(), events);
      && i < j < |t| && t[i].used && t[j].used && t[i].fileKey == t[j].fileKey
      && t[i].offset <= b < t[i].offset + t[i].length && t[j].offset <= b < t[j].offset + t[j].length
    ensures var t := Run(EmptyTable(), events);
      && !(t[i].exclusive && t[j].exclusive)
      && (t[i].exclusive || t[j].exclusive ==> t[i].owner == t[j].owner)
  {
    hide Run;
    RunKeepsInv(events);
    InvPair(Run(EmptyTable(), events), i, j, b);
  }

  lemma ReleasedSize(t: seq<Lock>, open: Open)
    ensures |Released(t, open)| == |t|
  {
  }

  // ----- The table of the server -----

  class ByteRangeLocks {
    const locks: array<Lock>

    ghost predicate Valid()
      reads this, locks
    {
      locks.Length == LOCK_COUNT && Inv(locks[..])
    }

    constructor ()
      ensures Valid() && locks[..] == EmptyTable() && fresh(locks)
    {
      locks := new Lock[LOCK_COUNT](_ => FREE);
      new;
      assert locks[..] == EmptyTable();
      EmptyTableInv();
    }

    method LockRangeConflicts(fileKey: nat, open: Open, offset: Uint64, length: Uint64, exclusive: bool) returns (r: bool)
      ensures r == RangeConflicts(locks[..], fileKey, open, offset, length, exclusive)
    {
      if length == 0 {
        return false;
      }
      var i := 0;
      while i < locks.Length
        invariant 0 <= i <= locks.Length
        invariant forall j :: 0 <= j < i ==> !Refuses(locks[..][j], fileKey, open, offset, length, exclusive)
      {
        var lock := locks[i];
        if Overlaps(lock, fileKey, offset, length) {
          var sameOpen := lock.owner == open;
          if lock.exclusive {
            if !sameOpen || exclusive {
              assert Refuses(locks[..][i], fileKey, open, offset, length, exclusive);
              return true;
            }
          } else if exclusive {
            assert Refuses(locks[..][i], fileKey, open, offset, length, exclusive);
            return true;
          }
        }
        i := i + 1;
      }
      return false;
    }

    method FileIoConflictsWithLock(handle: Handle, offset: Uint64, length: Uint64, write: bool) returns (r: bool)
      ensures r == (handle.Handle? && IoConflicts(locks[..], handle.fileKey, handle.open, offset, length, write))
    {
      if handle.NoHandle? || length == 0 {
        return false;
      }
      var i := 0;
      while i < locks.Length
        invariant 0 <= i <= locks.Length
        invariant forall j :: 0 <= j < i ==> !Forbids(locks[..][j], handle.fileKey, handle.open, offset, length, write)
      {
        var lock := locks[i];
        if Overlaps(lock, handle.fileKey, offset, length) {
          var sameOpen := lock.owner == handle.open;
          if (lock.exclusive && !sameOpen) || (!lock.exclusive && write) {
            assert Forbids(locks[..][i], handle.fileKey, handle.open, offset, length, write);
            return true;
          }
        }
        i := i + 1;
      }
      return false;
    }

    method ReleaseByteRangeLocksForHandle(open: Open)
      modifies locks
      ensures locks[..] == Released(old(locks[..]), open)
    {
      ghost var was := locks[..];
      var i := 0;
      while i < locks.Length
        invariant 0 <= i <= locks.Length
        invariant |Released(was, open)| == locks.Length
        invariant forall j :: 0 <= j < i ==> locks[j] == Released(was, open)[j]
        invariant forall j :: i <= j < locks.Length ==> locks[j] == was[j]
      {
        if locks[i].used && locks[i].owner == open {
          locks[i] := FREE;
        }
        i := i + 1;
      }
    }

    method FindFree() returns (k: nat)
      ensures k == FirstFree(locks[..])
    {
      k := 0;
      while k < locks.Length && locks[k].used
        invariant 0 <= k <= locks.Length
        invariant forall j :: 0 <= j < k ==> locks[..][j].used
      {
        k := k + 1;
      }
    }

    method FindOwn(open: Open, fileKey: nat, e: Element) returns (found: int)
      ensures found == FindFrom(locks[..], 0, -1, open, fileKey, e)
    {
      found := -1;
      var i := 0;
      while i < locks.Length
        invariant 0 <= i <= locks.Length
        invariant FindFrom(locks[..], 0, -1, open, fileKey, e) == FindFrom(locks[..], i, found, open, fileKey, e)
      {
        if Mine(locks[i], open, fileKey, e) {
          found := i;
          if locks[i].exclusive {
            return;
          }
        }
        i := i + 1;
      }
    }

    method Rollback(added: array<nat>, addedCount: nat)
      requires addedCount <= added.Length
      requires forall i :: 0 <= i < addedCount ==> added[i] < locks.Length
      modifies locks
      ensures locks[..] == Cleared(old(locks[..]), added[..addedCount])
    {
      var rollback := 0;
      while rollback < addedCount
        invariant 0 <= rollback <= addedCount
        invariant locks[..] == Cleared(old(locks[..]), added[..rollback])
      {
        assert added[..rollback + 1][..rollback] == added[..rollback];
        locks[added[rollback]] := FREE;
        rollback := rollback + 1;
      }
    }

    /** The elements of a request that takes locks. */
    method TakeLocks(open: Open, fileKey: nat, elements: seq<Element>) returns (status: Status)
      requires Valid()
      modifies locks
      ensures (locks[..], status) == LockFrom(old(locks[..]), [], open, fileKey, elements, 0)
    {
      hide Inv, RangeConflicts, Wraps, GoodFlags, FirstFree, Cleared, SlotsOk, Tracks, SlotOk;
      ghost var before := locks[..];
      TracksNothing(before);
      var added := new nat[LOCK_COUNT];
      var addedCount := 0;
      while addedCount < |elements|
        invariant 0 <= addedCount <= |elements| && addedCount <= LOCK_COUNT
        invariant Tracks(before, locks[..], added[..addedCount])
        invariant LockFrom(before, [], open, fileKey, elements, 0)
          == LockFrom(locks[..], added[..addedCount], open, fileKey, elements, addedCount)
      {
        var element := elements[addedCount];
        if Wraps(element) {
          return InvalidParameter;
        }
        if !GoodFlags(element.flags, |elements|) {
          return InvalidParameter;
        }
        var lock := Granted(open, fileKey, element);
        var conflict := LockRangeConflicts(fileKey, open, element.offset, element.length, lock.exclusive);
        if conflict {
          TrackedAreSlots(before, locks[..], added[..addedCount]);
          Rollback(added, addedCount);
          return LockNotGranted;
        }
        var freeIndex := FindFree();
        if freeIndex == LOCK_COUNT {
          return InsufficientResources;
        }
        AddedHasRoom(before, locks[..], added[..addedCount]);
        TracksNext(before, locks[..], added[..addedCount], lock);
        ghost var t := locks[..];
        locks[freeIndex] := lock;
        added[addedCount] := freeIndex;
        assert locks[..] == t[freeIndex := lock];
        assert added[..addedCount + 1] == added[..addedCount] + [freeIndex];
        addedCount := addedCount + 1;
      }
      return Success;
    }

    method DropLocks(open: Open, fileKey: nat, elements: seq<Element>) returns (status: Status)
      modifies locks
      ensures (locks[..], status) == UnlockFrom(old(locks[..]), open, fileKey, elements, 0)
    {
      hide FindFrom, Wraps;
      var index := 0;
      while index < |elements|
        invariant 0 <= index <= |elements|
        invariant UnlockFrom(old(locks[..]), open, fileKey, elements, 0)
          == UnlockFrom(locks[..], open, fileKey, elements, index)
      {
        if Wraps(elements[index]) {
          return InvalidParameter;
        }
        if elements[index].flags != FLAG_UNLOCK {
          return InvalidParameter;
        }
        var found := FindOwn(open, fileKey, elements[index]);
        UnlockFinds(locks[..], open, fileKey, elements[index]);
        if found < 0 {
          return RangeNotLocked;
        }
        ghost var t := locks[..];
        locks[found] := FREE;
        assert locks[..] == t[found := FREE];
        index := index + 1;
      }
      return Success;
    }

    method LockHandler(handle: Handle, elements: seq<Element>) returns (status: Status)
      requires Valid()
      modifies locks
      ensures Valid()
      ensures (locks[..], status) == Request(old(locks[..]), handle, elements)
      ensures status == LockNotGranted ==> locks[..] == old(locks[..])
    {
      hide Inv, LockFrom, UnlockFrom;
      RequestKeepsInv(locks[..], handle, elements);
      if handle.NoHandle? {
        return FileClosed;
      }
      if handle.directory || |elements| == 0 {
        return InvalidParameter;
      }
      if elements[0].flags & FLAG_UNLOCK != 0 {
        status := DropLocks(handle.open, handle.fileKey, elements);
      } else {
        status := TakeLocks(handle.open, handle.fileKey, elements);
      }
    }
  }

  lemma TrackedAreSlots(before: seq<Lock>, t: seq<Lock>, added: seq<nat>)
    requires Tracks(before, t, added)
    ensures forall i :: 0 <= i < |added| ==> added[i] < |t|
  {
    forall i | 0 <= i < |added| ensures added[i] < |t| { assert added[i] in added; }
  }
}

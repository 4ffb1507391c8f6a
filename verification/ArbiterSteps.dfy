/** What the arbiter (src/smb_server.cpp) chooses and what its single steps do, told without the
    functions that decide it. */
module ArbiterSteps {
  import opened Arbiter

  /** An operation that was queued, was not cancelled and is not done. */
  predicate Waits(p: Pending) {
    p.used && !p.cancelRequested && p.sequence != 0
  }

  /** The oldest operation that waits goes first, but one of another owner than the last served goes
      before any of that owner; with nothing waiting the answer is UINT64_MAX. */
  lemma ChoiceIs(ops: seq<Pending>, last: nat)
    requires forall p :: p in ops && Waits(p) ==> p.sequence < 0xFFFF_FFFF_FFFF_FFFF
    ensures var c := Choose(ops, last);
      var others := last != 0 && exists p :: p in ops && Waits(p) && p.ownerId != last;
      && (others ==>
            && (exists p :: p in ops && Waits(p) && p.ownerId != last && p.sequence == c)
            && (forall p :: p in ops && Waits(p) && p.ownerId != last ==> c <= p.sequence))
      && (!others && (exists p :: p in ops && Waits(p)) ==>
            && (exists p :: p in ops && Waits(p) && p.sequence == c)
            && (forall p :: p in ops && Waits(p) ==> c <= p.sequence))
      && ((forall p :: p in ops ==> !Waits(p)) ==> c == 0xFFFF_FFFF_FFFF_FFFF)
  {
    ScanIsLeast(ops, true, last);
    ScanIsLeast(ops, false, last);
    forall p | p in ops && Waits(p) ensures Eligible(p, false, last) && (p.ownerId != last ==> Eligible(p, true, last)) {
    }
    forall p | p in ops && !Waits(p) ensures !Eligible(p, false, last) && !Eligible(p, true, last) {
    }
  }

  /** Serving a window of the chosen operation takes one from what it still needs, and frees its slot
      with the last; then its owner is the one served last. */
  lemma ServeDoes(s: State, i: nat)
    requires i < |s.ops| && Waits(s.ops[i]) && s.ops[i].sequence == Choose(s.ops, s.last)
    requires forall j :: 0 <= j < i ==> !(Waits(s.ops[j]) && s.ops[j].sequence == Choose(s.ops, s.last))
    ensures var u, p := Next(s, Serve), s.ops[i];
      && u.last == p.ownerId && u.counter == s.counter
      && u.ops == s.ops[i := if p.windows <= 1 then FREE else p.(windows := p.windows - 1)]
  {
    hide Choose;
    IndexIs(s.ops, Choose(s.ops, s.last), i);
  }

  lemma {:induction false} IndexIs(ops: seq<Pending>, sequence: nat, i: nat)
    requires i < |ops| && Waits(ops[i]) && ops[i].sequence == sequence
    requires forall j :: 0 <= j < i ==> !(Waits(ops[j]) && ops[j].sequence == sequence)
    ensures IndexOf(ops, sequence) == i
    decreases i
  {
    if i == 0 {
    } else {
      assert !(Waits(ops[0]) && ops[0].sequence == sequence);
      IndexIs(ops[1..], sequence, i - 1);
    }
  }

  /** An arrival takes a free slot with the next number; a cancel only marks, and only a marked slot is
      released. */
  lemma OtherEventsDo(s: State, slot: nat, ownerId: nat, windows: nat, closesDirectory: bool)
    requires slot < |s.ops|
    ensures var u := Next(s, Arrive(slot, ownerId, windows, closesDirectory));
      u == if s.ops[slot].used || windows == 0 || s.counter + 1 >= 0xFFFF_FFFF_FFFF_FFFF then s
           else s.(counter := s.counter + 1,
                   ops := s.ops[slot := Pending(true, false, s.counter + 1, ownerId, windows, closesDirectory)])
    ensures Next(s, Cancel(slot)) == s.(ops := s.ops[slot := s.ops[slot].(cancelRequested := true)])
    ensures Next(s, Release(slot)) == if s.ops[slot].cancelRequested then s.(ops := s.ops[slot := FREE]) else s
  {
  }

  // ----- The READ slots -----

  /** The slots in use, as a set of indices. */
  ghost function UsedFrom(slots: seq<Pending>, from: nat): set<nat> {
    set i: nat | from <= i < |slots| && slots[i].used
  }

  ghost function UsedIndices(slots: seq<Pending>): set<nat> {
    UsedFrom(slots, 0)
  }

  lemma {:induction false} UsedCountFrom(slots: seq<Pending>, from: nat)
    requires from <= |slots|
    ensures UsedCount(slots[from..]) == |UsedFrom(slots, from)|
    decreases |slots| - from
  {
    if from == |slots| {
      assert UsedFrom(slots, from) == {};
    } else {
      UsedCountFrom(slots, from + 1);
      assert slots[from..][1..] == slots[from + 1..];
      assert UsedFrom(slots, from) == UsedFrom(slots, from + 1) + (if slots[from].used then {from} else {});
    }
  }

  lemma UsedCountIs(slots: seq<Pending>)
    ensures UsedCount(slots) == |UsedIndices(slots)|
  {
    UsedCountFrom(slots, 0);
    assert slots[0..] == slots;
  }

  /** A slot is free for a READ when neither a READ nor a WRITE has its buffer. */
  predicate BufferFree(q: Queues, i: nat) {
    i < |q.readSlots| && !q.readSlots[i].used && (i < |q.writes| ==> !q.writes[i].used)
  }

  lemma {:induction false} FreeIndexIs(readSlots: seq<Pending>, writes: seq<Pending>, i: nat)
    requires i <= |readSlots| && (i < |readSlots| ==> !readSlots[i].used && (i < |writes| ==> !writes[i].used))
    requires forall j :: 0 <= j < i ==> readSlots[j].used || (j < |writes| && writes[j].used)
    ensures FreeIndex(readSlots, writes) == i
    decreases i
  {
    if i == 0 || readSlots == [] {
    } else {
      assert readSlots[0].used || (0 < |writes| && writes[0].used);
      var rest := if writes == [] then [] else writes[1..];
      assert forall j :: 0 <= j < |rest| ==> rest[j] == writes[j + 1];
      assert forall j :: 0 <= j < |readSlots| - 1 ==> readSlots[1..][j] == readSlots[j + 1];
      FreeIndexIs(readSlots[1..], rest, i - 1);
    }
  }

  lemma FreeIndexOf(q: Queues, k: nat)
    requires BufferFree(q, k) && forall j :: 0 <= j < k ==> !BufferFree(q, j)
    ensures FreeIndex(q.readSlots, q.writes) == k
  {
    forall j | 0 <= j < k ensures q.readSlots[j].used || (j < |q.writes| && q.writes[j].used) {
      assert !BufferFree(q, j);
    }
    FreeIndexIs(q.readSlots, q.writes, k);
  }

  /** A READ can get a slot exactly when no READ is being served, fewer buffers are used than there are,
      and some buffer is free. */
  lemma SlotFreeIff(q: Queues)
    ensures SlotFree(q) <==>
      && (forall i :: 0 <= i < |q.readSlots| ==> !q.readSlots[i].used)
      && |UsedIndices(q.writes)| < |q.readSlots|
      && exists i :: BufferFree(q, i)
  {
    hide UsedCount, FreeIndex;
    UsedCountIs(q.readSlots);
    UsedCountIs(q.writes);
    if i :| 0 <= i < |q.readSlots| && q.readSlots[i].used {
      assert i in UsedIndices(q.readSlots);
    } else {
      assert UsedIndices(q.readSlots) == {};
    }
    var k := FirstBuffer(q);
    FreeIndexIs(q.readSlots, q.writes, k);
  }

  lemma FirstBuffer(q: Queues) returns (k: nat)
    ensures k <= |q.readSlots| && (k < |q.readSlots| ==> BufferFree(q, k))
    ensures forall j :: 0 <= j < k ==> q.readSlots[j].used || (j < |q.writes| && q.writes[j].used)
    ensures k == |q.readSlots| ==> forall i: nat :: !BufferFree(q, i)
  {
    k := 0;
    while k < |q.readSlots| && !BufferFree(q, k)
      invariant k <= |q.readSlots| && forall j :: 0 <= j < k ==> q.readSlots[j].used || (j < |q.writes| && q.writes[j].used)
    {
      k := k + 1;
    }
  }

  /** The oldest queued READ moves to the first free slot; then at once the slot is no longer free. */
  lemma PromotionDoes(q: Queues, k: nat)
    requires BufferFree(q, k) && forall j :: 0 <= j < k ==> !BufferFree(q, j)
    requires q.queued != [] && q.queued[0].used && SlotFree(q)
    ensures Promote(q) == q.(readSlots := q.readSlots[k := q.queued[0]], queued := q.queued[1..])
  {
    hide SlotFree, UsedCount, FreeIndex;
    FreeIndexOf(q, k);
    var u := q.(readSlots := q.readSlots[k := q.queued[0]], queued := q.queued[1..]);
    SlotFreeIff(u);
    assert u.readSlots[k].used;
  }

  /** A READ with something to transfer takes the free slot if none is queued before it, joins the queue
      while fewer wait and run than there are slots, and is refused otherwise; every one gets a number. */
  lemma ReadArrivalDoes(q: Queues, k: nat, ownerId: nat, windows: nat)
    requires 0 < windows && q.counter + 1 < 0xFFFF_FFFF_FFFF_FFFF
    ensures var u := NextQueues(q, ReadArrives(ownerId, windows));
      var p := Pending(true, false, q.counter + 1, ownerId, windows, false);
      && u == q.(counter := q.counter + 1, readSlots := u.readSlots, queued := u.queued)
      && (q.queued == [] && SlotFree(q) && BufferFree(q, k) && (forall j :: 0 <= j < k ==> !BufferFree(q, j)) ==>
            u.readSlots == q.readSlots[k := p] && u.queued == [])
      && (!(q.queued == [] && SlotFree(q)) ==>
            u.readSlots == q.readSlots
            && u.queued == q.queued + (if |q.queued| + |UsedIndices(q.readSlots)| + |UsedIndices(q.writes)| < |q.readSlots|
                                       then [p] else []))
  {
    hide SlotFree, UsedCount, FreeIndex;
    UsedCountIs(q.readSlots);
    UsedCountIs(q.writes);
    if BufferFree(q, k) && forall j :: 0 <= j < k ==> !BufferFree(q, j) {
      FreeIndexOf(q, k);
    }
    assert q.queued + [] == q.queued;
  }

  lemma OtherArrivalDoes(q: Queues, slot: nat, ownerId: nat, windows: nat, closesDirectory: bool)
    ensures NextQueues(q, OtherArrives(slot, ownerId, windows, closesDirectory))
      == if windows == 0 || q.counter + 1 >= 0xFFFF_FFFF_FFFF_FFFF || slot >= |q.others| || q.others[slot].used then q
         else q.(counter := q.counter + 1,
                 others := q.others[slot := Pending(true, false, q.counter + 1, ownerId, windows, closesDirectory)])
    ensures NextQueues(q, ServicePass) == ServeChoice(Promote(q))
  {
    hide Promote, ServeChoice;
  }

  function OneLess(p: Pending): Pending {
    if p.windows <= 1 then FREE else p.(windows := p.windows - 1)
  }

  /** A pass serves the chosen operation where it is: in a READ slot, */
  lemma PassServesRead(q: Queues, r: nat)
    requires QueuesOk(q) && r < |q.readSlots| && Waits(q.readSlots[r]) && q.readSlots[r].sequence == Choose(AllOf(q), q.last)
    ensures ServeChoice(q) == q.(readSlots := q.readSlots[r := OneLess(q.readSlots[r])], last := q.readSlots[r].ownerId)
  {
    hide Choose, Apart;
    UniqueIndex(q.readSlots, Choose(AllOf(q), q.last), r, q.counter);
  }

  /** among the WRITEs, */
  lemma PassServesWrite(q: Queues, r: nat)
    requires QueuesOk(q) && r < |q.writes| && Waits(q.writes[r]) && q.writes[r].sequence == Choose(AllOf(q), q.last)
    ensures ServeChoice(q) == q.(writes := q.writes[r := OneLess(q.writes[r])], last := q.writes[r].ownerId)
  {
    hide Choose, Apart, Sound;
    var rest := q.writes + q.others;
    assert rest[r] == q.writes[r];
    UniqueIndex(rest, Choose(AllOf(q), q.last), r, q.counter);
    NotAmong(q.readSlots, rest, r, Choose(AllOf(q), q.last));
  }

  /** or among the others. */
  lemma PassServesOther(q: Queues, r: nat)
    requires QueuesOk(q) && r < |q.others| && Waits(q.others[r]) && q.others[r].sequence == Choose(AllOf(q), q.last)
    ensures ServeChoice(q) == q.(others := q.others[r := OneLess(q.others[r])], last := q.others[r].ownerId)
  {
    hide Choose, Apart, Sound;
    var rest := q.writes + q.others;
    assert rest[|q.writes| + r] == q.others[r];
    UniqueIndex(rest, Choose(AllOf(q), q.last), |q.writes| + r, q.counter);
    NotAmong(q.readSlots, rest, |q.writes| + r, Choose(AllOf(q), q.last));
  }

  lemma UniqueIndex(ops: seq<Pending>, sequence: nat, i: nat, counter: nat)
    requires Sound(ops, counter) && i < |ops| && Waits(ops[i]) && ops[i].sequence == sequence
    ensures IndexOf(ops, sequence) == i
  {
    forall j | 0 <= j < i ensures !(Waits(ops[j]) && ops[j].sequence == sequence) {
    }
    IndexIs(ops, sequence, i);
  }

  lemma NotAmong(a: seq<Pending>, b: seq<Pending>, i: nat, sequence: nat)
    requires Apart(a, b) && i < |b| && Waits(b[i]) && b[i].sequence == sequence
    ensures IndexOf(a, sequence) == |a|
  {
    assert b[i] in b;
    forall j | 0 <= j < |a| ensures !(Waiting(a[j]) && a[j].sequence == sequence) {
      assert a[j] in a;
    }
  }
}

/** The arbiter of the single physical disk channel (src/smb_server.cpp): every deferred
    SMB operation carries a global sequence number, and after each physical window the
    oldest operation of another owner goes first. */
module Arbiter {

  /** UINT64_MAX, the answer "nothing to serve". */
  const NONE: nat := 0xFFFF_FFFF_FFFF_FFFF

  /** One slot of any of the queues. A window is one served step that reports a bridge
      result; closesDirectory marks a CLOSE of a live directory handle. */
  datatype Pending = Pending(
    used: bool, cancelRequested: bool, sequence: nat, ownerId: nat, windows: nat, closesDirectory: bool)

  const FREE := Pending(false, false, 0, 0, 0, false)

  predicate Waiting(p: Pending) {
    p.used && !p.cancelRequested && p.sequence != 0
  }

  /** The lambda "select": keeps the smaller sequence unless the owner was served last. */
  function Select(oldest: nat, p: Pending, anotherOwnerOnly: bool, last: nat): nat {
    if !Waiting(p) || p.sequence >= oldest || (anotherOwnerOnly && p.ownerId == last) then oldest
    else p.sequence
  }

  function Scan(oldest: nat, ops: seq<Pending>, anotherOwnerOnly: bool, last: nat): nat {
    if ops == [] then oldest
    else Select(Scan(oldest, ops[..|ops| - 1], anotherOwnerOnly, last), ops[|ops| - 1], anotherOwnerOnly, last)
  }

  /** nextAsyncVfsServiceSequence() outside the directory continuation window. */
  function Choose(ops: seq<Pending>, last: nat): nat {
    var another := if last != 0 then Scan(NONE, ops, true, last) else NONE;
    if another != NONE then another else Scan(NONE, ops, false, last)
  }

  lemma {:induction false} ScanConcat(oldest: nat, a: seq<Pending>, b: seq<Pending>, another: bool, last: nat)
    ensures Scan(oldest, a + b, another, last) == Scan(Scan(oldest, a, another, last), b, another, last)
    decreases |b|
  {
    if b == [] {
      assert a + b == a;
    } else {
      var ab := a + b;
      assert ab[..|ab| - 1] == a + b[..|b| - 1];
      ScanConcat(oldest, a, b[..|b| - 1], another, last);
    }
  }

  predicate Eligible(p: Pending, another: bool, last: nat) {
    Waiting(p) && p.sequence < NONE && !(another && p.ownerId == last)
  }

  /** Scan returns the least eligible sequence, or NONE when there is none. */
  lemma {:induction false} ScanIsLeast(ops: seq<Pending>, another: bool, last: nat)
    ensures var r := Scan(NONE, ops, another, last);
      && r <= NONE
      && (forall p :: p in ops && Eligible(p, another, last) ==> r <= p.sequence)
      && (r != NONE ==> exists p :: p in ops && Eligible(p, another, last) && p.sequence == r)
    decreases |ops|
  {
    if ops == [] {
    } else {
      var init, p := ops[..|ops| - 1], ops[|ops| - 1];
      ScanIsLeast(init, another, last);
      assert ops == init + [p];
      var r := Scan(NONE, ops, another, last);
      if r != NONE && r == Scan(NONE, init, another, last) {
        var q :| q in init && Eligible(q, another, last) && q.sequence == r;
        assert q in ops;
      } else if r != NONE {
        assert p in ops && Eligible(p, another, last);
      }
    }
  }

  // ----- What is chosen -----

  ghost predicate Numbered(ops: seq<Pending>) {
    forall p :: p in ops && Waiting(p) ==> p.sequence < NONE
  }

  /** The chosen operation is the oldest of its owner: nothing of that owner is overtaken. */
  lemma ChosenIsOwnersOldest(ops: seq<Pending>, last: nat)
    requires Numbered(ops)
    ensures var c := Choose(ops, last);
      if c == NONE then forall p :: p in ops ==> !Waiting(p)
      else exists p :: p in ops && Waiting(p) && p.sequence == c
             && forall q :: q in ops && Waiting(q) && q.ownerId == p.ownerId ==> p.sequence <= q.sequence
  {
    ScanIsLeast(ops, true, last);
    ScanIsLeast(ops, false, last);
    var c := Choose(ops, last);
    if last != 0 && Scan(NONE, ops, true, last) != NONE {
      var p :| p in ops && Eligible(p, true, last) && p.sequence == c;
      assert forall q :: q in ops && Waiting(q) && q.ownerId == p.ownerId ==> Eligible(q, true, last);
    } else if c != NONE {
      var p :| p in ops && Eligible(p, false, last) && p.sequence == c;
      assert forall q :: q in ops && Waiting(q) ==> Eligible(q, false, last);
    } else {
      forall p | p in ops ensures !Waiting(p) {
        assert Eligible(p, false, last) ==> c <= p.sequence;
      }
    }
  }

  /** So a FLUSH, SET_EOF or CLOSE (later) of a file is never chosen before an earlier
      uncancelled READ or WRITE of the same file, which belongs to the same owner. */
  lemma BarrierNeverOvertakes(ops: seq<Pending>, last: nat, earlier: Pending, later: Pending)
    requires Numbered(ops) && earlier in ops && later in ops && Waiting(earlier) && Waiting(later)
    requires earlier.ownerId == later.ownerId && earlier.sequence < later.sequence
    requires forall p, q :: p in ops && q in ops && Waiting(p) && Waiting(q) && p.sequence == q.sequence ==> p == q
    ensures Choose(ops, last) != later.sequence
  {
    ChosenIsOwnersOldest(ops, last);
  }

  // ----- Runs -----

  datatype State = State(ops: seq<Pending>, last: nat, counter: nat)

  datatype Event =
    | Serve
    | Arrive(slot: nat, ownerId: nat, windows: nat, closesDirectory: bool)
    | Cancel(slot: nat)
    | Release(slot: nat)

  function IndexOf(ops: seq<Pending>, sequence: nat): (i: nat)
    ensures i <= |ops|
    ensures i < |ops| ==> Waiting(ops[i]) && ops[i].sequence == sequence
    ensures i == |ops| ==> forall p :: p in ops ==> !(Waiting(p) && p.sequence == sequence)
  {
    if ops == [] then 0
    else if Waiting(ops[0]) && ops[0].sequence == sequence then 0
    else 1 + IndexOf(ops[1..], sequence)
  }

  /** The slot after one more of its windows was acknowledged. */
  function Served(p: Pending): Pending {
    if p.windows <= 1 then FREE else p.(windows := p.windows - 1)
  }

  function Next(s: State, event: Event): State {
    match event
    case Serve =>
      var i := IndexOf(s.ops, Choose(s.ops, s.last));
      if i == |s.ops| then s
      else s.(ops := s.ops[i := Served(s.ops[i])], last := s.ops[i].ownerId)
    case Arrive(slot, ownerId, windows, closesDirectory) =>
      if slot < |s.ops| && !s.ops[slot].used && 0 < windows && s.counter + 1 < NONE then
        s.(ops := s.ops[slot := Pending(true, false, s.counter + 1, ownerId, windows, closesDirectory)],
           counter := s.counter + 1)
      else s
    case Cancel(slot) =>
      if slot < |s.ops| then s.(ops := s.ops[slot := s.ops[slot].(cancelRequested := true)]) else s
    case Release(slot) =>
      if slot < |s.ops| && s.ops[slot].cancelRequested then s.(ops := s.ops[slot := FREE]) else s
  }

  function Run(s: State, events: seq<Event>): State
    decreases |events|
  {
    if events == [] then s else Run(Next(s, events[0]), events[1..])
  }

  function Selections(events: seq<Event>): nat {
    if events == [] then 0 else (if events[0].Serve? then 1 else 0) + Selections(events[1..])
  }

  ghost predicate Inv(s: State) {
    && s.counter < NONE
    && (forall i :: 0 <= i < |s.ops| && Waiting(s.ops[i]) ==> s.ops[i].sequence <= s.counter && 0 < s.ops[i].windows)
    && (forall i, j :: 0 <= i < j < |s.ops| && Waiting(s.ops[i]) && Waiting(s.ops[j]) ==>
          s.ops[i].sequence != s.ops[j].sequence)
  }

  lemma InvNumbered(s: State)
    requires Inv(s)
    ensures Numbered(s.ops)
  {
  }

  lemma StepKeepsInv(s: State, event: Event)
    requires Inv(s)
    ensures Inv(Next(s, event))
  {
  }

  // ----- No starvation -----

  function Share(p: Pending, limit: nat): nat {
    if Waiting(p) && p.sequence <= limit then p.windows else 0
  }

  /** Windows still owed to the operations numbered up to limit. */
  function Work(ops: seq<Pending>, limit: nat): nat {
    if ops == [] then 0 else Share(ops[0], limit) + Work(ops[1..], limit)
  }

  lemma {:induction false} WorkUpdate(ops: seq<Pending>, i: nat, p: Pending, limit: nat)
    requires i < |ops|
    ensures Work(ops[i := p], limit) == Work(ops, limit) - Share(ops[i], limit) + Share(p, limit)
    ensures Share(ops[i], limit) <= Work(ops, limit)
  {
    if i == 0 {
      assert ops[0 := p][1..] == ops[1..];
    } else {
      assert ops[i := p][1..] == ops[1..][i - 1 := p];
      WorkUpdate(ops[1..], i - 1, p, limit);
    }
  }

  /** Some operation up to limit belongs to an owner other than the last one served. */
  ghost predicate AnotherWaits(ops: seq<Pending>, last: nat, limit: nat) {
    exists p :: p in ops && Waiting(p) && p.sequence <= limit && p.ownerId != last
  }

  /** The measure of the proof: selections until the operations up to limit are done. */
  ghost function Debt(s: State, limit: nat): int {
    2 * Work(s.ops, limit) - if AnotherWaits(s.ops, s.last, limit) then 1 else 0
  }

  lemma {:induction false} WorkZeroIffDone(ops: seq<Pending>, limit: nat)
    requires forall i :: 0 <= i < |ops| && Waiting(ops[i]) ==> 0 < ops[i].windows
    ensures Work(ops, limit) == 0 <==> forall p :: p in ops && Waiting(p) ==> limit < p.sequence
  {
    if ops == [] {
    } else {
      WorkZeroIffDone(ops[1..], limit);
      assert ops == [ops[0]] + ops[1..];
    }
  }

  lemma DebtCoversWork(s: State, limit: nat)
    requires Inv(s)
    ensures Debt(s, limit) <= 0 <==> Work(s.ops, limit) == 0
  {
    WorkZeroIffDone(s.ops, limit);
  }

  /** What Serve picks when something up to limit waits: either such an operation, or a newer
      one of another owner, and then all operations up to limit belong to the last owner. */
  lemma ServePick(s: State, limit: nat, i: nat)
    requires Inv(s) && 0 < Work(s.ops, limit) && i == IndexOf(s.ops, Choose(s.ops, s.last))
    ensures i < |s.ops|
    ensures limit < s.ops[i].sequence ==> s.ops[i].ownerId != s.last && !AnotherWaits(s.ops, s.last, limit)
  {
    hide Scan, Work, IndexOf;
    InvNumbered(s);
    WorkZeroIffDone(s.ops, limit);
    ScanIsLeast(s.ops, true, s.last);
    ScanIsLeast(s.ops, false, s.last);
    ChosenIsOwnersOldest(s.ops, s.last);
    var w :| w in s.ops && Waiting(w) && w.sequence <= limit;
    assert Eligible(w, false, s.last);
    var c := Choose(s.ops, s.last);
    if limit < s.ops[i].sequence {
      assert c == Scan(NONE, s.ops, true, s.last);
      var p :| p in s.ops && Eligible(p, true, s.last) && p.sequence == c;
      var j :| 0 <= j < |s.ops| && s.ops[j] == p;
      assert i == j;
      forall q | q in s.ops && Waiting(q) && q.sequence <= limit ensures q.ownerId == s.last {
        assert Eligible(q, true, s.last) ==> c <= q.sequence;
      }
    }
  }

  lemma ServePaysDebt(s: State, limit: nat)
    requires Inv(s) && 0 < Work(s.ops, limit)
    ensures Debt(Next(s, Serve), limit) < Debt(s, limit)
  {
    var i := IndexOf(s.ops, Choose(s.ops, s.last));
    ServePick(s, limit, i);
    WorkUpdate(s.ops, i, Served(s.ops[i]), limit);
    var t := Next(s, Serve);
    if limit < s.ops[i].sequence {
      WorkZeroIffDone(s.ops, limit);
      var w :| w in s.ops && Waiting(w) && w.sequence <= limit;
      var k :| 0 <= k < |s.ops| && s.ops[k] == w;
      assert t.ops[k] == w && w in t.ops;
      assert AnotherWaits(t.ops, t.last, limit);
    }
  }

  /** Nothing but a Serve changes the last owner, and arrivals are newer than limit. */
  lemma OtherEventsAddNoDebt(s: State, limit: nat, event: Event)
    requires Inv(s) && limit <= s.counter && !event.Serve?
    ensures Debt(Next(s, event), limit) <= Debt(s, limit)
  {
    hide Work, AnotherWaits;
    var t := Next(s, event);
    if t.ops != s.ops {
      var i := event.slot;
      assert t.ops == s.ops[i := t.ops[i]] && t.last == s.last;
      assert Share(t.ops[i], limit) <= Share(s.ops[i], limit)
          && (Share(s.ops[i], limit) != 0 ==> t.ops[i] == s.ops[i] || Share(t.ops[i], limit) == 0);
      WorkUpdate(s.ops, i, t.ops[i], limit);
      if AnotherWaits(s.ops, s.last, limit) && Share(s.ops[i], limit) == 0 {
        OthersStillWait(s.ops, i, t.ops[i], s.last, limit);
      }
    }
  }

  lemma OthersStillWait(ops: seq<Pending>, i: nat, p: Pending, last: nat, limit: nat)
    requires i < |ops| && (forall k :: 0 <= k < |ops| && Waiting(ops[k]) ==> 0 < ops[k].windows)
    requires AnotherWaits(ops, last, limit) && Share(ops[i], limit) == 0
    ensures AnotherWaits(ops[i := p], last, limit)
  {
    var w :| w in ops && Waiting(w) && w.sequence <= limit && w.ownerId != last;
    var k :| 0 <= k < |ops| && ops[k] == w;
    assert ops[i := p][k] == w && w in ops[i := p];
  }

  lemma {:induction false} DebtOverRun(s: State, limit: nat, events: seq<Event>)
    requires Inv(s) && limit <= s.counter
    ensures Inv(Run(s, events))
    ensures Work(Run(s, events).ops, limit) == 0 || Debt(Run(s, events), limit) + Selections(events) <= Debt(s, limit)
    ensures Work(s.ops, limit) == 0 ==> Work(Run(s, events).ops, limit) == 0
    decreases |events|
  {
    if events == [] {
    } else {
      var t := Next(s, events[0]);
      StepKeepsInv(s, events[0]);
      if events[0].Serve? {
        if Work(s.ops, limit) == 0 {
          DoneStaysDone(s, limit);
        } else {
          ServePaysDebt(s, limit);
        }
      } else {
        OtherEventsAddNoDebt(s, limit, events[0]);
      }
      DebtCoversWork(s, limit);
      DebtCoversWork(t, limit);
      DebtOverRun(t, limit, events[1..]);
    }
  }

  lemma DoneStaysDone(s: State, limit: nat)
    requires Inv(s) && Work(s.ops, limit) == 0
    ensures Work(Next(s, Serve).ops, limit) == 0
  {
    var i := IndexOf(s.ops, Choose(s.ops, s.last));
    if i < |s.ops| {
      WorkUpdate(s.ops, i, Served(s.ops[i]), limit);
    }
  }

  /** An operation numbered sequence is finished within 2 * W selections, where W is the number
      of windows owed to the operations up to it, whatever newer operations keep arriving. */
  lemma NoStarvation(s: State, sequence: nat, events: seq<Event>)
    requires Inv(s) && sequence <= s.counter
    requires Selections(events) >= 2 * Work(s.ops, sequence)
    ensures forall p :: p in Run(s, events).ops && Waiting(p) ==> sequence < p.sequence
  {
    DebtOverRun(s, sequence, events);
    DebtCoversWork(Run(s, events), sequence);
    WorkZeroIffDone(Run(s, events).ops, sequence);
  }

  // ----- The one READ service slot -----

  /** The queues as a pass of serviceHandler() sees them: READ slots, READs still queued without
      a slot, WRITE slots (which share their buffers with the READ slots), and all other slots. */
  datatype Queues = Queues(
    readSlots: seq<Pending>, queued: seq<Pending>, writes: seq<Pending>, others: seq<Pending>, last: nat, counter: nat)

  const READ_SERVICE_DEPTH: nat := 1

  function AllOf(q: Queues): seq<Pending> {
    q.readSlots + q.queued + (q.writes + q.others)
  }

  function UsedCount(slots: seq<Pending>): nat {
    if slots == [] then 0 else UsedCount(slots[1..]) + if slots[0].used then 1 else 0
  }

  /** The first index whose READ slot and WRITE slot are both free. */
  function FreeIndex(readSlots: seq<Pending>, writes: seq<Pending>): (i: nat)
    ensures i <= |readSlots| && (i < |readSlots| ==> !readSlots[i].used)
  {
    if readSlots == [] then 0
    else if !readSlots[0].used && (writes == [] || !writes[0].used) then 0
    else 1 + FreeIndex(readSlots[1..], if writes == [] then [] else writes[1..])
  }

  /** allocateAsyncRead() finds a slot. */
  predicate SlotFree(q: Queues) {
    && UsedCount(q.readSlots) < READ_SERVICE_DEPTH
    && UsedCount(q.readSlots) + UsedCount(q.writes) < |q.readSlots|
    && FreeIndex(q.readSlots, q.writes) < |q.readSlots|
  }

  /** promoteQueuedReads(), for handles that are still open. */
  function Promote(q: Queues): Queues
    decreases |q.queued|
  {
    if q.queued == [] || !SlotFree(q) then q
    else Promote(q.(readSlots := q.readSlots[FreeIndex(q.readSlots, q.writes) := q.queued[0]], queued := q.queued[1..]))
  }

  /** Each poller serves the choice only if it finds it in its own slots. */
  function ServeChoice(q: Queues): Queues {
    var c := Choose(AllOf(q), q.last);
    var r := IndexOf(q.readSlots, c);
    var o := IndexOf(q.writes + q.others, c);
    if r < |q.readSlots| then q.(readSlots := q.readSlots[r := Served(q.readSlots[r])], last := q.readSlots[r].ownerId)
    else if o < |q.writes| then q.(writes := q.writes[o := Served(q.writes[o])], last := q.writes[o].ownerId)
    else if o < |q.writes| + |q.others| then
      var k := o - |q.writes|;
      q.(others := q.others[k := Served(q.others[k])], last := q.others[k].ownerId)
    else q
  }

  /** One pass of serviceHandler() without an active operation. */
  function Pass(q: Queues): Queues {
    ServeChoice(Promote(q))
  }

  datatype QueueEvent =
    | ReadArrives(ownerId: nat, windows: nat)
    | OtherArrives(slot: nat, ownerId: nat, windows: nat, closesDirectory: bool)
    | ServicePass

  /** readHandler() takes a slot only when no READ is queued before it; a full queue refuses. */
  function NextQueues(q: Queues, event: QueueEvent): Queues {
    match event
    case ReadArrives(ownerId, windows) =>
      var p := Pending(true, false, q.counter + 1, ownerId, windows, false);
      if windows == 0 || q.counter + 1 >= NONE then q
      else if q.queued == [] && SlotFree(q) then
        q.(readSlots := q.readSlots[FreeIndex(q.readSlots, q.writes) := p], counter := q.counter + 1)
      else if |q.queued| + UsedCount(q.readSlots) + UsedCount(q.writes) < |q.readSlots| then
        q.(queued := q.queued + [p], counter := q.counter + 1)
      else q.(counter := q.counter + 1)
    case OtherArrives(slot, ownerId, windows, closesDirectory) =>
      if windows == 0 || q.counter + 1 >= NONE || slot >= |q.others| || q.others[slot].used then q
      else
        q.(others := q.others[slot := Pending(true, false, q.counter + 1, ownerId, windows, closesDirectory)],
           counter := q.counter + 1)
    case ServicePass => Pass(q)
  }

  function RunQueues(q: Queues, events: seq<QueueEvent>): Queues
    decreases |events|
  {
    if events == [] then q else RunQueues(NextQueues(q, events[0]), events[1..])
  }

  ghost predicate Sound(ops: seq<Pending>, counter: nat) {
    && (forall p :: p in ops && Waiting(p) ==> p.sequence <= counter && 0 < p.windows)
    && (forall i, j :: 0 <= i < j < |ops| && Waiting(ops[i]) && Waiting(ops[j]) ==> ops[i].sequence != ops[j].sequence)
  }

  ghost predicate Apart(a: seq<Pending>, b: seq<Pending>) {
    forall p, r :: p in a && r in b && Waiting(p) && Waiting(r) ==> p.sequence != r.sequence
  }

  ghost predicate QueuesOk(q: Queues) {
    var rest := q.writes + q.others;
    && q.counter < NONE
    && Sound(q.readSlots, q.counter) && Sound(q.queued, q.counter) && Sound(rest, q.counter)
    && Apart(q.readSlots, q.queued) && Apart(q.readSlots, rest) && Apart(q.queued, rest)
    && (forall p :: p in q.queued ==> Waiting(p))
  }

  /** One slot changes to something that keeps its number, is free, or has a new number. */
  lemma SlotChanges(ops: seq<Pending>, i: nat, p: Pending, counter: nat, after: nat)
    requires Sound(ops, counter) && i < |ops| && counter <= after
    requires Waiting(p) ==> 0 < p.windows && p.sequence <= after
    requires Waiting(p) ==> (Waiting(ops[i]) && p.sequence == ops[i].sequence) ||
                            forall r :: r in ops && Waiting(r) ==> r.sequence != p.sequence
    ensures Sound(ops[i := p], after)
  {
  }

  lemma SlotStaysApart(ops: seq<Pending>, i: nat, p: Pending, b: seq<Pending>)
    requires Apart(ops, b) && i < |ops|
    requires Waiting(p) ==> (Waiting(ops[i]) && p.sequence == ops[i].sequence) ||
                            forall r :: r in b && Waiting(r) ==> r.sequence != p.sequence
    ensures Apart(ops[i := p], b)
  {
    assert ops[i] in ops;
  }

  lemma ApartIsSymmetric(a: seq<Pending>, b: seq<Pending>)
    requires Apart(a, b)
    ensures Apart(b, a)
  {
  }

  lemma PromotedHead(q: Queues)
    requires QueuesOk(q) && q.queued != [] && SlotFree(q)
    ensures QueuesOk(q.(readSlots := q.readSlots[FreeIndex(q.readSlots, q.writes) := q.queued[0]], queued := q.queued[1..]))
  {
    hide FreeIndex, UsedCount;
    var f, h, rest := FreeIndex(q.readSlots, q.writes), q.queued[0], q.writes + q.others;
    assert h in q.queued;
    assert forall r :: r in q.queued[1..] ==> r in q.queued;
    ApartIsSymmetric(q.readSlots, q.queued);
    SlotChanges(q.readSlots, f, h, q.counter, q.counter);
    SlotStaysApart(q.readSlots, f, h, rest);
    SlotStaysApart(q.readSlots, f, h, q.queued[1..]);
  }

  lemma {:induction false} PromoteKeepsQueues(q: Queues)
    requires QueuesOk(q)
    ensures QueuesOk(Promote(q))
    decreases |q.queued|
  {
    hide QueuesOk, FreeIndex;
    if q.queued == [] || !SlotFree(q) {
    } else {
      PromotedHead(q);
      PromoteKeepsQueues(q.(readSlots := q.readSlots[FreeIndex(q.readSlots, q.writes) := q.queued[0]], queued := q.queued[1..]));
    }
  }

  lemma ServeKeepsQueues(q: Queues)
    requires QueuesOk(q)
    ensures QueuesOk(ServeChoice(q)) && ServeChoice(q).queued == q.queued
  {
    hide Choose, IndexOf;
    var c, rest := Choose(AllOf(q), q.last), q.writes + q.others;
    var r, o := IndexOf(q.readSlots, c), IndexOf(rest, c);
    if r < |q.readSlots| {
      assert q.readSlots[r] in q.readSlots;
      SlotChanges(q.readSlots, r, Served(q.readSlots[r]), q.counter, q.counter);
      SlotStaysApart(q.readSlots, r, Served(q.readSlots[r]), rest);
      SlotStaysApart(q.readSlots, r, Served(q.readSlots[r]), q.queued);
    } else if o < |rest| {
      var u := ServeChoice(q);
      assert rest[o] in rest;
      assert u.writes + u.others == rest[o := Served(rest[o])];
      RestChanges(q, o, Served(rest[o]), u, q.counter);
    }
  }

  lemma RestChanges(q: Queues, o: nat, p: Pending, u: Queues, after: nat)
    requires QueuesOk(q) && o < |q.writes + q.others| && q.counter <= after < NONE
    requires u.writes + u.others == (q.writes + q.others)[o := p]
    requires u.readSlots == q.readSlots && u.queued == q.queued && u.counter == after
    requires Waiting(p) ==> 0 < p.windows && p.sequence <= after
    requires Waiting(p) ==> (Waiting((q.writes + q.others)[o]) && p.sequence == (q.writes + q.others)[o].sequence) || p.sequence > q.counter
    ensures QueuesOk(u)
  {
    var rest := q.writes + q.others;
    SlotChanges(rest, o, p, q.counter, after);
    ApartIsSymmetric(q.readSlots, rest);
    ApartIsSymmetric(q.queued, rest);
    SlotStaysApart(rest, o, p, q.readSlots);
    SlotStaysApart(rest, o, p, q.queued);
  }

  lemma ReadArrivesKeepsQueues(q: Queues, ownerId: nat, windows: nat)
    requires QueuesOk(q)
    ensures QueuesOk(NextQueues(q, ReadArrives(ownerId, windows)))
  {
    hide FreeIndex, UsedCount, Sound, Apart;
    var p := Pending(true, false, q.counter + 1, ownerId, windows, false);
    var rest, f := q.writes + q.others, FreeIndex(q.readSlots, q.writes);
    if windows != 0 && q.counter + 1 < NONE {
      NewNumber(q.readSlots, p, q.counter);
      NewNumber(q.queued, p, q.counter);
      NewNumber(rest, p, q.counter);
      if q.queued == [] && SlotFree(q) {
        SlotChanges(q.readSlots, f, p, q.counter, q.counter + 1);
        SlotStaysApart(q.readSlots, f, p, rest);
        SlotStaysApart(q.readSlots, f, p, q.queued);
      } else {
        ApartIsSymmetric(q.readSlots, q.queued);
        ElementAdded(q.queued, p, q.readSlots);
        ApartIsSymmetric(q.queued + [p], q.readSlots);
        ElementAdded(q.queued, p, rest);
      }
    }
  }

  /** A number not handed out before is nobody's, and what was sound stays so. */
  lemma NewNumber(ops: seq<Pending>, p: Pending, counter: nat)
    requires Sound(ops, counter) && p.sequence == counter + 1 && Waiting(p) && 0 < p.windows
    ensures forall r :: r in ops && Waiting(r) ==> r.sequence != p.sequence
    ensures Sound(ops, counter + 1) && Sound(ops + [p], counter + 1)
  {
    var all := ops + [p];
    forall i, j | 0 <= i < j < |all| && Waiting(all[i]) && Waiting(all[j]) ensures all[i].sequence != all[j].sequence {
      assert all[i] in ops;
    }
  }

  lemma ElementAdded(ops: seq<Pending>, p: Pending, b: seq<Pending>)
    requires Apart(ops, b) && forall r :: r in b && Waiting(r) ==> r.sequence != p.sequence
    ensures Apart(ops + [p], b)
  {
  }

  /** Arrivals and passes keep the numbers distinct, whatever is queued or promoted. */
  lemma QueueStepKeepsInv(q: Queues, event: QueueEvent)
    requires QueuesOk(q)
    ensures QueuesOk(NextQueues(q, event))
  {
    hide SlotFree, Promote, ServeChoice, QueuesOk;
    match event
    case ReadArrives(ownerId, windows) => ReadArrivesKeepsQueues(q, ownerId, windows);
    case OtherArrives(slot, ownerId, windows, closesDirectory) =>
      if windows != 0 && q.counter + 1 < NONE && slot < |q.others| && !q.others[slot].used {
        var u := NextQueues(q, event);
        assert u.writes + u.others == (q.writes + q.others)[|q.writes| + slot := u.others[slot]];
        RestChanges(q, |q.writes| + slot, u.others[slot], u, q.counter + 1);
      }
    case ServicePass =>
      PromoteKeepsQueues(q);
      ServeKeepsQueues(Promote(q));
  }

  lemma {:induction false} QueueRunKeepsInv(q: Queues, events: seq<QueueEvent>)
    requires QueuesOk(q)
    ensures QueuesOk(RunQueues(q, events))
    decreases |events|
  {
    hide QueuesOk, NextQueues;
    if events == [] {
    } else {
      QueueStepKeepsInv(q, events[0]);
      QueueRunKeepsInv(NextQueues(q, events[0]), events[1..]);
    }
  }

  lemma ServedDiffers(p: Pending)
    requires Waiting(p) && 0 < p.windows
    ensures Served(p) != p
  {
  }

  /** Serving does nothing exactly when nothing waits or the chosen operation is a queued READ. */
  lemma ServeStallsIff(q: Queues)
    requires QueuesOk(q)
    ensures var c := Choose(AllOf(q), q.last);
      ServeChoice(q) == q <==> c == NONE || exists p :: p in q.queued && p.sequence == c
  {
    var all, c, rest := AllOf(q), Choose(AllOf(q), q.last), q.writes + q.others;
    ChosenIsOwnersOldest(all, q.last);
    var r, o := IndexOf(q.readSlots, c), IndexOf(rest, c);
    if r < |q.readSlots| {
      assert q.readSlots[r] in q.readSlots;
      ServedDiffers(q.readSlots[r]);
      assert ServeChoice(q).readSlots[r] != q.readSlots[r];
      assert q.readSlots[r] in all;
    } else if o < |rest| {
      assert rest[o] in rest;
      ServedDiffers(rest[o]);
      var u := ServeChoice(q);
      assert (u.writes + u.others)[o] != rest[o];
      assert rest[o] in all;
    } else if c != NONE {
      var p :| p in all && Waiting(p) && p.sequence == c;
      assert p in q.queued;
    }
  }

  lemma PromoteShrinks(q: Queues)
    requires q.queued != [] && SlotFree(q)
    ensures |Promote(q).queued| < |q.queued|
    decreases |q.queued|
  {
    hide FreeIndex, UsedCount;
    var next := q.(readSlots := q.readSlots[FreeIndex(q.readSlots, q.writes) := q.queued[0]], queued := q.queued[1..]);
    if next.queued != [] && SlotFree(next) {
      PromoteShrinks(next);
    }
  }

  /** A pass changes nothing exactly when no queued READ can take a slot, and nothing waits or the
      chosen operation is such a READ: then every later pass is as idle. */
  lemma PassStallsIffQueuedReadChosen(q: Queues)
    requires QueuesOk(q)
    ensures var c := Choose(AllOf(q), q.last);
      Pass(q) == q <==>
        (q.queued == [] || !SlotFree(q)) && (c == NONE || exists p :: p in q.queued && p.sequence == c)
  {
    hide SlotFree, ServeChoice, QueuesOk, Choose;
    ServeStallsIff(q);
    if q.queued != [] && SlotFree(q) {
      PromoteShrinks(q);
      PromoteKeepsQueues(q);
      ServeKeepsQueues(Promote(q));
    }
  }

  /** It happens from empty queues, for any two owners: the first READ gets the slot, the second
      is queued; after one window the first yields to the second, which cannot be promoted. */
  lemma DeferredReadStalls(first: nat, second: nat, windows: nat, more: nat)
    requires first != second && first != 0 && 2 <= windows && 1 <= more
    ensures var start := Queues([FREE, FREE], [], [FREE, FREE], [FREE], 0, 0);
      var q := RunQueues(start, [ReadArrives(first, windows), ReadArrives(second, more), ServicePass]);
      && QueuesOk(start)
      && q.readSlots == [Pending(true, false, 1, first, windows - 1, false), FREE]
      && q.queued == [Pending(true, false, 2, second, more, false)]
      && Pass(q) == q
  {
    var start := Queues([FREE, FREE], [], [FREE, FREE], [FREE], 0, 0);
    var a, b, e := ReadArrives(first, windows), ReadArrives(second, more), ServicePass;
    var p, r := Pending(true, false, 1, first, windows, false), Pending(true, false, 2, second, more, false);
    var p' := p.(windows := windows - 1);
    NothingUsed();
    var q1 := start.(readSlots := [p, FREE], counter := 1);
    assert NextQueues(start, a) == q1 by { assert start.readSlots[0 := p] == [p, FREE]; }
    OneUsed(p);
    var q2 := q1.(queued := [r], counter := 2);
    assert NextQueues(q1, b) == q2;
    ChoiceOfTwo(p, r, 0);
    var q3 := q2.(readSlots := [p', FREE], last := first);
    assert q2.readSlots[0 := p'] == [p', FREE];
    assert Pass(q2) == q3;
    OneUsed(p');
    ChoiceOfTwo(p', r, first);
    assert [a, b, e][1..] == [b, e] && [b, e][1..] == [e];
    assert RunQueues(start, [a, b, e]) == RunQueues(q1, [b, e]) == RunQueues(q2, [e]) == q3;
  }

  lemma NothingUsed()
    ensures UsedCount([FREE, FREE]) == 0 && FreeIndex([FREE, FREE], [FREE, FREE]) == 0
    ensures forall last :: Choose([FREE, FREE] + [] + ([FREE, FREE] + [FREE]), last) == NONE
    ensures QueuesOk(Queues([FREE, FREE], [], [FREE, FREE], [FREE], 0, 0))
  {
    assert [FREE, FREE][1..] == [FREE] && [FREE][1..] == [];
    assert UsedCount([FREE]) == UsedCount([]) == 0;
    var all := [FREE, FREE] + [] + ([FREE, FREE] + [FREE]);
    forall last ensures Choose(all, last) == NONE { ChosenIsOwnersOldest(all, last); }
  }

  lemma OneUsed(p: Pending)
    requires p.used
    ensures UsedCount([p, FREE]) == 1 && UsedCount([FREE, FREE]) == 0
  {
    assert [p, FREE][1..] == [FREE] && [FREE][1..] == [] && [FREE, FREE][1..] == [FREE];
    assert UsedCount([FREE]) == UsedCount([]) == 0;
  }

  /** Of a READ in its slot and a younger queued one, the other owner's is chosen. */
  lemma ChoiceOfTwo(p: Pending, r: Pending, last: nat)
    requires Waiting(p) && Waiting(r) && p.sequence < r.sequence < NONE && p.ownerId != r.ownerId
    requires last == 0 || last == p.ownerId
    ensures var all := [p, FREE] + [r] + ([FREE, FREE] + [FREE]);
      Choose(all, last) == if last == 0 then p.sequence else r.sequence
    ensures IndexOf([p, FREE], p.sequence) == 0 && IndexOf([p, FREE], r.sequence) == 2
    ensures IndexOf([FREE, FREE] + [FREE], r.sequence) == 3
  {
    var all := [p, FREE] + [r] + ([FREE, FREE] + [FREE]);
    assert all[0] == p && all[2] == r;
    assert p in all && r in all && forall x :: x in all && Waiting(x) ==> x == p || x == r;
    ScanIsLeast(all, true, last);
    ScanIsLeast(all, false, last);
    assert Eligible(r, false, last) && Eligible(p, false, last);
    assert last != 0 ==> Eligible(r, true, last) && !Eligible(p, true, last);
    assert [p, FREE][1] == FREE && [p, FREE][0] == p;
    assert forall x :: x in [FREE, FREE] + [FREE] ==> x == FREE;
  }

  // ----- The queues in memory -----

  class AsyncQueues {
    const asyncReads: array<Pending>
    const asyncWrites: array<Pending>
    const asyncDirectories: array<Pending>
    const asyncCreates: array<Pending>
    const asyncCloses: array<Pending>
    var queuedReads: seq<Pending>
    var asyncVfsSequence: nat
    var lastVfsOwnerId: nat
    var directoryContinuationOwnerId: nat
    var continuationOpen: bool

    constructor (ioDepth: nat, directoryDepth: nat, createDepth: nat, closeDepth: nat)
      ensures forall p :: p in All() ==> p == FREE
      ensures queuedReads == [] && asyncVfsSequence == 0 && lastVfsOwnerId == 0 && !continuationOpen
    {
      asyncReads := new Pending[ioDepth](_ => FREE);
      asyncWrites := new Pending[ioDepth](_ => FREE);
      asyncDirectories := new Pending[directoryDepth](_ => FREE);
      asyncCreates := new Pending[createDepth](_ => FREE);
      asyncCloses := new Pending[closeDepth](_ => FREE);
      queuedReads := [];
      asyncVfsSequence, lastVfsOwnerId := 0, 0;
      directoryContinuationOwnerId, continuationOpen := 0, false;
    }

    ghost function All(): seq<Pending>
      reads this, asyncReads, asyncWrites, asyncDirectories, asyncCreates, asyncCloses
    {
      asyncReads[..] + queuedReads + asyncWrites[..] + asyncDirectories[..] + asyncCreates[..] + asyncCloses[..]
    }

    method ScanSlots(slots: array<Pending>, from: nat, anotherOwnerOnly: bool) returns (oldest: nat)
      ensures oldest == Scan(from, slots[..], anotherOwnerOnly, lastVfsOwnerId)
    {
      oldest := from;
      for index := 0 to slots.Length
        invariant oldest == Scan(from, slots[..index], anotherOwnerOnly, lastVfsOwnerId)
      {
        oldest := Select(oldest, slots[index], anotherOwnerOnly, lastVfsOwnerId);
        assert slots[..index + 1][..index] == slots[..index];
      }
      assert slots[..slots.Length] == slots[..];
    }

    /** The lambda "scan": all queues in turn, with one running minimum. */
    method ScanAll(anotherOwnerOnly: bool) returns (oldest: nat)
      ensures oldest == Scan(NONE, All(), anotherOwnerOnly, lastVfsOwnerId)
    {
      oldest := ScanSlots(asyncReads, NONE, anotherOwnerOnly);
      ghost var seen := asyncReads[..];
      ghost var start := oldest;
      for index := 0 to |queuedReads|
        invariant oldest == Scan(start, queuedReads[..index], anotherOwnerOnly, lastVfsOwnerId)
      {
        oldest := Select(oldest, queuedReads[index], anotherOwnerOnly, lastVfsOwnerId);
        assert queuedReads[..index + 1][..index] == queuedReads[..index];
      }
      assert queuedReads[..|queuedReads|] == queuedReads;
      ScanConcat(NONE, seen, queuedReads, anotherOwnerOnly, lastVfsOwnerId);
      seen := seen + queuedReads;
      oldest := ScanSlots(asyncWrites, oldest, anotherOwnerOnly);
      ScanConcat(NONE, seen, asyncWrites[..], anotherOwnerOnly, lastVfsOwnerId);
      seen := seen + asyncWrites[..];
      oldest := ScanSlots(asyncDirectories, oldest, anotherOwnerOnly);
      ScanConcat(NONE, seen, asyncDirectories[..], anotherOwnerOnly, lastVfsOwnerId);
      seen := seen + asyncDirectories[..];
      oldest := ScanSlots(asyncCreates, oldest, anotherOwnerOnly);
      ScanConcat(NONE, seen, asyncCreates[..], anotherOwnerOnly, lastVfsOwnerId);
      seen := seen + asyncCreates[..];
      oldest := ScanSlots(asyncCloses, oldest, anotherOwnerOnly);
      ScanConcat(NONE, seen, asyncCloses[..], anotherOwnerOnly, lastVfsOwnerId);
    }

    /** nextAsyncVfsSequence(): never 0, which means "not queued" (no wrap is modelled). */
    method NextAsyncVfsSequence() returns (sequence: nat)
      modifies this`asyncVfsSequence
      ensures sequence == asyncVfsSequence == old(asyncVfsSequence) + 1
    {
      asyncVfsSequence := asyncVfsSequence + 1;
      return asyncVfsSequence;
    }

    /** Inside the grace window after a QUERY_DIRECTORY reply only that owner's directory work
        is offered, oldest first, or nothing at all; outside it the choice is Choose. */
    method NextAsyncVfsServiceSequence() returns (sequence: nat)
      ensures !ContinuationHolds() ==> sequence == Choose(All(), lastVfsOwnerId)
      ensures ContinuationHolds() ==> sequence <= NONE
      ensures ContinuationHolds() && sequence != NONE ==>
        || (exists p :: p in asyncDirectories[..] && Continues(p) && p.sequence == sequence)
        || (exists p :: p in asyncCloses[..] && Continues(p) && p.closesDirectory && p.sequence == sequence)
      ensures ContinuationHolds() ==>
        && (forall p :: p in asyncDirectories[..] && Continues(p) ==> sequence <= p.sequence)
        && (forall p :: p in asyncCloses[..] && Continues(p) && p.closesDirectory ==> sequence <= p.sequence)
    {
      if directoryContinuationOwnerId != 0 && continuationOpen {
        sequence := NONE;
        for index := 0 to asyncDirectories.Length
          invariant sequence <= NONE
          invariant sequence != NONE ==> exists p :: p in asyncDirectories[..] && Continues(p) && p.sequence == sequence
          invariant forall i :: 0 <= i < index && Continues(asyncDirectories[i]) ==> sequence <= asyncDirectories[i].sequence
        {
          var pending := asyncDirectories[index];
          if Waiting(pending) && pending.ownerId == directoryContinuationOwnerId && pending.sequence < sequence {
            sequence := pending.sequence;
            assert pending in asyncDirectories[..];
          }
        }
        for index := 0 to asyncCloses.Length
          invariant sequence <= NONE
          invariant sequence != NONE ==>
            || (exists p :: p in asyncDirectories[..] && Continues(p) && p.sequence == sequence)
            || (exists p :: p in asyncCloses[..] && Continues(p) && p.closesDirectory && p.sequence == sequence)
          invariant forall i :: 0 <= i < asyncDirectories.Length && Continues(asyncDirectories[i]) ==>
            sequence <= asyncDirectories[i].sequence
          invariant forall i :: 0 <= i < index && Continues(asyncCloses[i]) && asyncCloses[i].closesDirectory ==>
            sequence <= asyncCloses[i].sequence
        {
          var pending := asyncCloses[index];
          if Waiting(pending) && pending.closesDirectory && pending.ownerId == directoryContinuationOwnerId
             && pending.sequence < sequence {
            sequence := pending.sequence;
            assert pending in asyncCloses[..];
          }
        }
        return;
      }
      if lastVfsOwnerId != 0 {
        sequence := ScanAll(true);
        if sequence != NONE {
          return;
        }
      }
      sequence := ScanAll(false);
    }

    predicate ContinuationHolds()
      reads this
    {
      directoryContinuationOwnerId != 0 && continuationOpen
    }

    predicate Continues(p: Pending)
      reads this
    {
      Waiting(p) && p.sequence < NONE && p.ownerId == directoryContinuationOwnerId
    }
  }
}

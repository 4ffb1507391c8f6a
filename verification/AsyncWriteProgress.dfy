/** How soon the asynchronous WRITE automaton (src/smb_server.cpp) answers: while nothing disturbs
    it, every poll with a result pays off one window, one cancelled slot or one recovery phase. */
module AsyncWriteProgress {
  import opened Common
  import opened AsyncWrites

  // ----- No slot waits without bytes left to write -----

  ghost predicate Unfinished(slots: seq<AsyncWrite>) {
    forall i :: 0 <= i < |slots| && slots[i].used ==> slots[i].flushed < slots[i].length
  }

  lemma {:induction false} FailSlotsUnfinished(f: Failing, k: nat, r: int, pendingRequest: bool, status: Status, refusing: set<nat>)
    requires k <= |f.slots| && Unfinished(f.slots)
    ensures Unfinished(FailSlots(f, k, r, pendingRequest, status, refusing).slots)
  {
    hide FailHandle, Reply;
    if k == 0 {
    } else {
      FailSlotsUnfinished(f, k - 1, r, pendingRequest, status, refusing);
    }
  }

  lemma FailAllUnfinished(s: State, status: Status, refusing: set<nat>)
    requires Unfinished(s.slots)
    ensures Unfinished(FailAll(s, status, refusing).slots)
  {
    hide FailSlots;
    FailSlotsUnfinished(Initially(s), |s.slots|, RecoveryIndex(s), s.bridge != Idle, status, refusing);
  }

  lemma StartNextUnfinished(s: State, input: Input)
    requires Unfinished(s.slots)
    ensures Unfinished(StartNext(s, input).slots)
  {
    hide FailAll, FirstReady, FirstCancelled, ReplyOrClose;
    FailAllUnfinished(AfterReset(s, input), Failed(IO_DEVICE_ERROR), input.refusing);
  }

  lemma TakeWindowUnfinished(s: State, input: Input)
    requires Inv(s) && Unfinished(s.slots) && s.active >= 0 && s.slots[s.active].recovery == NoRecovery && input.result.Some?
    ensures Unfinished(TakeWindow(s, input).slots)
  {
    hide FailAll, StartNext, ReplyOrClose, Tile, UsedSlots, Acknowledge;
    var index := s.active;
    var t := s.(active := -1, bridge := Idle);
    assert SlotOk(s.slots[index], s.log);
    var a := Advanced(t, index, Carried(s.bridge), input.result.value);
    FailAllUnfinished(t, StatusOf(input.result.value), input.refusing);
    if a.slots[index].flushed != a.slots[index].length {
      StartNextUnfinished(a, input);
    } else {
      var f := Freed(a, index);
      FailAllUnfinished(f.(handles := FailHandle(a.handles, a.slots[index])), Failed(IO_DEVICE_ERROR), input.refusing);
      StartNextUnfinished(Completed(a, index, input), input);
    }
  }

  lemma StepKeepsUnfinished(s: State, event: Event)
    requires Inv(s) && Unfinished(s.slots)
    ensures Unfinished(Next(s, event).slots)
  {
    hide FailAll, StartNext, TakeWindow, Inv, ReplyOrClose, Close;
    match event
    case PollEvent(input) =>
      if !(0 <= s.active < |s.slots|) {
        StartNextUnfinished(s, input);
      } else if s.slots[s.active].recovery == NoRecovery && input.result.Some? {
        TakeWindowUnfinished(s, input);
      }
    case Watchdog(code, refusing) => FailAllUnfinished(s, Failed(code), refusing);
    case _ =>
  }

  lemma {:induction false} RunKeepsUnfinished(s: State, events: seq<Event>)
    requires Inv(s) && Unfinished(s.slots)
    ensures Inv(Run(s, events)) && Unfinished(Run(s, events).slots)
    decreases |events|
  {
    hide Inv, Next, Unfinished, FailsAt, NoneForgotten, Remembered;
    if events == [] {
    } else {
      StepKeepsUnfinished(s, events[0]);
      StepKeepsInv(s, events[0]);
      RunKeepsUnfinished(Next(s, events[0]), events[1..]);
    }
  }

  // ----- What is left to do -----

  function WindowsLeft(bytes: nat, limit: nat): (n: nat)
    requires 0 < limit
    ensures 0 < bytes ==> 0 < n
  {
    if bytes == 0 then 0 else 1 + WindowsLeft(bytes - Minimum(bytes, limit), limit)
  }

  /** That is the quotient rounded up. */
  lemma {:induction false} WindowsLeftRoundsUp(bytes: nat, limit: nat)
    requires 0 < limit
    ensures var n := WindowsLeft(bytes, limit);
      bytes <= n * limit && (0 < bytes ==> (n - 1) * limit < bytes)
  {
    if bytes == 0 {
    } else {
      var rest := bytes - Minimum(bytes, limit);
      WindowsLeftRoundsUp(rest, limit);
      var n := WindowsLeft(rest, limit);
      assert (n + 1) * limit == n * limit + limit;
      assert 0 < rest ==> n * limit == (n - 1) * limit + limit;
    }
  }

  /** Results a slot still needs: its windows, the end of a cancelled one, the phases of a recovery. */
  function Weight(p: AsyncWrite, limit: nat): (n: nat)
    requires 0 < limit
    ensures p.used && p.flushed < p.length ==> 0 < n
  {
    if !p.used then 0
    else if p.recovery == WaitAbort then 1
    else if p.recovery != NoRecovery then 2
    else if p.cancelRequested || p.length < p.flushed then 1
    else if p.inFlight && p.flushed + p.windowLength <= p.length then
      1 + WindowsLeft(p.length - p.flushed - p.windowLength, limit)
    else WindowsLeft(p.length - p.flushed, limit)
  }

  function Total(slots: seq<AsyncWrite>, limit: nat): nat
    requires 0 < limit
  {
    if slots == [] then 0 else Weight(slots[0], limit) + Total(slots[1..], limit)
  }

  /** Starting a window takes one poll and its result another, except that a result starts the next. */
  function PollsLeft(s: State, limit: nat): int
    requires 0 < limit
  {
    2 * Total(s.slots, limit) - if s.active >= 0 then 1 else 0
  }

  lemma {:induction false} TotalUpdate(slots: seq<AsyncWrite>, i: nat, p: AsyncWrite, limit: nat)
    requires i < |slots| && 0 < limit
    ensures Total(slots[i := p], limit) == Total(slots, limit) - Weight(slots[i], limit) + Weight(p, limit)
  {
    hide Weight;
    if i == 0 {
      assert slots[0 := p][1..] == slots[1..];
    } else {
      assert slots[i := p][1..] == slots[1..][i - 1 := p];
      TotalUpdate(slots[1..], i - 1, p, limit);
    }
  }

  lemma {:induction false} TotalIsPositive(slots: seq<AsyncWrite>, i: nat, limit: nat)
    requires i < |slots| && slots[i].used && slots[i].flushed < slots[i].length && 0 < limit
    ensures 0 < Total(slots, limit)
  {
    hide Weight;
    if i == 0 {
    } else {
      TotalIsPositive(slots[1..], i - 1, limit);
    }
  }

  lemma {:induction false} NoneUsedNothingLeft(slots: seq<AsyncWrite>, limit: nat)
    requires 0 < limit && forall i :: 0 <= i < |slots| ==> !slots[i].used
    ensures Total(slots, limit) == 0
  {
    if slots == [] {
    } else {
      NoneUsedNothingLeft(slots[1..], limit);
    }
  }

  // ----- Undisturbed polls -----

  /** Nothing outside the automaton stops it: no other automaton owns the channel, no foreign
      request is on the bridge, and every request still wanted has its handle. */
  ghost predicate Free(s: State) {
    && !s.physical.otherActive && (s.active < 0 ==> s.bridge == Idle)
    && forall i :: 0 <= i < |s.slots| && s.slots[i].used && s.slots[i].recovery == NoRecovery && !s.slots[i].cancelRequested ==>
         ValidHandle(s, s.slots[i])
  }

  ghost predicate Smooth(s: State) {
    Inv(s) && Unfinished(s.slots) && Free(s)
  }

  /** The state in which a poll looks for its next work, if it does. */
  function TailState(s: State, input: Input): Option<State> {
    if !(0 <= s.active < |s.slots|) then Some(s)
    else if s.slots[s.active].recovery != NoRecovery || input.result.None?
         || !WindowSucceeded(s, s.slots[s.active], input.result.value) then None
    else
      var t := Advanced(s.(active := -1, bridge := Idle), s.active, Carried(s.bridge), input.result.value);
      if t.slots[s.active].flushed != t.slots[s.active].length then Some(t) else Some(Completed(t, s.active, input))
  }

  /** If any WRITE is queued, the arbiter serves one. */
  predicate ServesWrite(s: State, served: nat) {
    && served < NO_SEQUENCE
    && exists i :: 0 <= i < |s.slots| && s.slots[i].used && s.slots[i].sequence == served
  }

  /** The bridge answers, in full; replies are taken; the next window is taken; and the arbiter
      serves a WRITE if there is one. */
  ghost predicate Undisturbed(s: State, input: Input, limit: nat) {
    && input.windowLimit == limit && input.ringFree && input.started && input.refusing == {}
    && !input.physical.otherActive
    && (0 <= s.active < |s.slots| ==>
          && input.result.Some?
          && (s.slots[s.active].recovery == NoRecovery && !s.slots[s.active].cancelRequested ==>
                input.result.value.success && s.slots[s.active].windowLength <= input.result.value.transferred))
    && (TailState(s, input).Some? && UsedSlots(TailState(s, input).value.slots) != 0 ==>
          ServesWrite(TailState(s, input).value, input.served))
  }

  /** A request still waits to be answered so, or was. */
  ghost predicate Promised(s: State, t: nat, status: Status) {
    && t < |s.log.entries|
    && (s.log.entries[t].replies == [status] || WaitsFor(s.slots, t, status))
  }

  ghost predicate WaitsFor(slots: seq<AsyncWrite>, t: nat, status: Status) {
    exists i :: 0 <= i < |slots| && slots[i].used && !slots[i].replied && slots[i].messageId == t
             && status == if slots[i].cancelRequested then Cancelled else Success
  }

  /** What one step keeps of a smooth state. */
  ghost predicate Onward(s: State, u: State, limit: nat, paid: nat)
    requires 0 < limit
  {
    && Smooth(u) && PollsLeft(u, limit) <= PollsLeft(s, limit) - paid
    && forall t: nat, status :: Promised(s, t, status) ==> Promised(u, t, status)
  }

  lemma UsedSlot(slots: seq<AsyncWrite>) returns (i: nat)
    requires UsedSlots(slots) != 0
    ensures i < |slots| && slots[i].used
  {
    if slots[0].used {
      i := 0;
    } else {
      i := UsedSlot(slots[1..]);
      i := i + 1;
    }
  }

  lemma PromisesKept(s: State, u: State)
    requires |u.slots| == |s.slots| && |s.log.entries| <= |u.log.entries|
    requires forall t :: 0 <= t < |s.log.entries| && s.log.entries[t].replies != [] ==>
      u.log.entries[t].replies == s.log.entries[t].replies
    requires forall i :: 0 <= i < |s.slots| && s.slots[i].used && !s.slots[i].replied ==>
      var p, q := s.slots[i], u.slots[i];
      || (q.used && !q.replied && q.messageId == p.messageId && q.cancelRequested == p.cancelRequested)
      || (p.messageId < |u.log.entries| && u.log.entries[p.messageId].replies == [if p.cancelRequested then Cancelled else Success])
    ensures forall t: nat, status :: Promised(s, t, status) ==> Promised(u, t, status)
  {
    forall t: nat, status | Promised(s, t, status) ensures Promised(u, t, status) {
      if s.log.entries[t].replies != [status] {
        var i :| 0 <= i < |s.slots| && s.slots[i].used && !s.slots[i].replied && s.slots[i].messageId == t
              && status == if s.slots[i].cancelRequested then Cancelled else Success;
        if u.log.entries[t].replies != [status] {
          assert u.slots[i].used && !u.slots[i].replied && u.slots[i].messageId == t;
        }
      }
    }
  }

  /** A cancelled slot is answered and freed. */
  lemma CancelledWorks(s: State, index: nat, physical: Physical, limit: nat)
    requires LogOk(s.log) && SlotsOk(s.slots, s.log) && s.count == UsedSlots(s.slots) && Unfinished(s.slots)
    requires index < |s.slots| && s.slots[index].used && s.slots[index].cancelRequested && 0 < limit
    requires forall i :: 0 <= i < |s.slots| && s.slots[i].used && (s.slots[i].inFlight || s.slots[i].recovery != NoRecovery) ==> i == index
    requires (s.active == -1 || s.active == index) && s.bridge == Idle
    requires !physical.otherActive
    requires forall i :: 0 <= i < |s.slots| && i != index && s.slots[i].used && !s.slots[i].cancelRequested ==> ValidHandle(s, s.slots[i])
    ensures var u := CompleteCancelled(s, index, physical, {});
      && Smooth(u) && u.active == -1 && (forall t: nat, status :: Promised(s, t, status) ==> Promised(u, t, status))
      && Total(u.slots, limit) < Total(s.slots, limit)
  {
    hide UsedSlots, Tile, NoneForgotten, Remembered;
    var u := CompleteCancelled(s, index, physical, {});
    var p := s.slots[index];
    CompleteCancelledKeepsInv(s, index, physical, {});
    TotalUpdate(s.slots, index, FREE, limit);
    assert SlotOk(p, s.log);
    assert forall i :: 0 <= i < |s.slots| && i != index ==> u.slots[i] == s.slots[i];
    forall t | 0 <= t < |s.log.entries| && s.log.entries[t].replies != []
      ensures u.log.entries[t].replies == s.log.entries[t].replies
    {
    }
    PromisesKept(s, u);
  }

  lemma {:induction false} NoneCancelled(slots: seq<AsyncWrite>, from: nat)
    requires from <= |slots| && FirstCancelled(slots, from) == |slots|
    ensures forall i :: from <= i < |slots| && slots[i].used ==> !slots[i].cancelRequested
    decreases |slots| - from
  {
    if from == |slots| {
    } else {
      NoneCancelled(slots, from + 1);
    }
  }

  lemma {:induction false} NoneReady(s: State, served: nat, from: nat)
    requires from <= |s.slots| && FirstReady(s, served, from) == |s.slots|
    ensures forall i :: from <= i < |s.slots| ==> !Ready(s, s.slots[i], served)
    decreases |s.slots| - from
  {
    if from == |s.slots| {
    } else {
      NoneReady(s, served, from + 1);
    }
  }

  /** Whichever WRITE the arbiter serves is found. */
  lemma ServedIsFound(s: State, served: nat)
    requires Smooth(s) && s.active < 0 && FirstCancelled(s.slots, 0) == |s.slots| == FindReady(s, served)
    ensures !ServesWrite(s, served)
  {
    hide Tile, UsedSlots, FirstCancelled, FirstReady, LogOk, SlotsOk;
    NoneCancelled(s.slots, 0);
    NoneReady(s, served, 0);
  }

  /** The slot that is found starts its next window; it still needs as many results. */
  lemma WindowStarts(s: State, input: Input, limit: nat)
    requires Smooth(s) && s.active < 0 && input.windowLimit == limit && 0 < limit
    requires input.ringFree && input.started
    requires FirstCancelled(s.slots, 0) == |s.slots| && FindReady(s, input.served) < |s.slots|
    ensures var u := StartNext(s, input);
      && u.active >= 0 && Unfinished(u.slots) && Free(u) && Total(u.slots, limit) == Total(s.slots, limit)
      && forall t: nat, status :: Promised(s, t, status) ==> Promised(u, t, status)
  {
    hide Tile, UsedSlots, FirstCancelled, FirstReady, LogOk, SlotsOk, FailAll, Total, Promised;
    var index := FindReady(s, input.served);
    var p := s.slots[index];
    var part := NextPart(p, input);
    var q := p.(inFlight := true, windowLength := part);
    TotalUpdate(s.slots, index, q, limit);
    var u := StartNext(s, input);
    assert u.slots == s.slots[index := q];
    PromisesKept(s, u);
  }

  /** The tail of an undisturbed poll: it ends a cancelled request or starts a window, if there is any. */
  lemma TailWorks(s: State, input: Input, limit: nat)
    requires Smooth(s) && s.active < 0 && input.windowLimit == limit && 0 < limit
    requires input.ringFree && input.started && input.refusing == {}
    requires UsedSlots(s.slots) != 0 ==> ServesWrite(s, input.served)
    ensures Onward(s, StartNext(s, input), limit, if UsedSlots(s.slots) != 0 then 1 else 0)
  {
    hide FailAll, Tile, FirstCancelled, FirstReady, Total, NoneForgotten, Remembered, UsedSlots;
    StartNextKeepsInv(s, input);
    var u := StartNext(s, input);
    var cancelled := FirstCancelled(s.slots, 0);
    if cancelled < |s.slots| {
      CancelledWorks(s, cancelled, s.physical, limit);
    } else if FindReady(s, input.served) == |s.slots| {
      ServedIsFound(s, input.served);
      PromisesKept(s, s);
    } else {
      WindowStarts(s, input, limit);
    }
  }

  /** A recovering slot moves to its next phase, and is freed by the last. */
  lemma RecoverWorks(s: State, input: Input, limit: nat)
    requires Smooth(s) && s.active >= 0 && s.slots[s.active].recovery != NoRecovery
    requires Undisturbed(s, input, limit) && 0 < limit
    ensures Onward(s, Recover(s, input), limit, 1)
  {
    hide Tile, UsedSlots, Total, NoneForgotten, Remembered, LogOk, Promised;
    RecoverKeepsInv(s, input);
    var p := s.slots[s.active];
    var u := Recover(s, input);
    assert SlotOk(p, s.log);
    if p.recovery == WaitAbort {
      CancelledWorks(s.(bridge := Idle), s.active, Physical(-1, NoMode, s.physical.otherActive), limit);
      SamePromises(s, s.(bridge := Idle));
    } else {
      TotalUpdate(s.slots, s.active, p.(recovery := WaitAbort), limit);
      PromisesKept(s, u);
    }
  }

  lemma SamePromises(s: State, u: State)
    requires u.slots == s.slots && u.log == s.log
    ensures forall t: nat, status :: Promised(s, t, status) ==> Promised(u, t, status)
  {
  }

  /** A whole window is acknowledged. */
  lemma AdvanceWorks(s: State, result: Result, limit: nat)
    requires Smooth(s) && s.active >= 0 && s.slots[s.active].recovery == NoRecovery && 0 < limit
    requires !s.slots[s.active].cancelRequested
    requires result.success && s.slots[s.active].windowLength <= result.transferred
    ensures var t := Advanced(s.(active := -1, bridge := Idle), s.active, Carried(s.bridge), result);
      && Inv(t) && Free(t) && Total(t.slots, limit) == Total(s.slots, limit) - 1
      && t.slots == s.slots[s.active := t.slots[s.active]] && t.slots[s.active].flushed <= t.slots[s.active].length
      && forall k: nat, status :: Promised(s, k, status) ==> Promised(t, k, status)
  {
    hide Tile, UsedSlots, Total, NoneForgotten, Promised;
    var index := s.active;
    var r := s.(active := -1, bridge := Idle);
    assert SlotOk(s.slots[index], s.log);
    AdvancedKeepsInv(r, index, result);
    var t := Advanced(r, index, Carried(s.bridge), result);
    TotalUpdate(s.slots, index, t.slots[index], limit);
    PromisesKept(s, t);
  }

  /** The last window was acknowledged: the request is answered with SUCCESS and its slot freed. */
  lemma CompletedWorks(s: State, index: nat, input: Input, limit: nat)
    requires Inv(s) && Free(s) && s.active == -1 && index < |s.slots| && s.slots[index].used && 0 < limit
    requires s.slots[index].flushed == s.slots[index].length && !s.slots[index].cancelRequested
    requires input.refusing == {} && !input.physical.otherActive
    requires forall i :: 0 <= i < |s.slots| && i != index && s.slots[i].used ==> s.slots[i].flushed < s.slots[i].length
    ensures var t := Completed(s, index, input);
      && Smooth(t) && Total(t.slots, limit) <= Total(s.slots, limit) && t.active == -1
      && forall k: nat, status :: Promised(s, k, status) ==> Promised(t, k, status)
  {
    hide Tile, UsedSlots, Total, NoneForgotten, Promised;
    assert SlotOk(s.slots[index], s.log);
    CompletedKeepsInv(s, index, input);
    var t := Completed(s, index, input);
    TotalUpdate(s.slots, index, FREE, limit);
    assert forall i :: 0 <= i < |s.slots| && i != index ==> t.slots[i] == s.slots[i];
    assert forall i :: 0 <= i < |s.slots| ==> SlotOk(s.slots[i], s.log);
    PromisesKept(s, t);
  }

  lemma TakeWorks(s: State, input: Input, limit: nat)
    requires Smooth(s) && s.active >= 0 && s.slots[s.active].recovery == NoRecovery
    requires Undisturbed(s, input, limit) && 0 < limit
    ensures Onward(s, TakeWindow(s, input), limit, 1)
  {
    hide Tile, UsedSlots, Total, NoneForgotten, Promised, StartNext, LogOk, Free;
    var p, r := s.slots[s.active], s.(active := -1, bridge := Idle);
    assert SlotOk(p, s.log);
    if p.cancelRequested {
      assert Free(s);
      CancelledFromBridge(s, input, limit);
    } else {
      ValidActive(s);
      AdvanceWorks(s, input.result.value, limit);
      var t := Advanced(r, s.active, Carried(s.bridge), input.result.value);
      if t.slots[s.active].flushed != t.slots[s.active].length {
        TailWorks(t, input, limit);
      } else {
        CompletedWorks(t, s.active, input, limit);
        TailWorks(Completed(t, s.active, input), input, limit);
      }
    }
  }

  lemma ValidActive(s: State)
    requires Smooth(s) && s.active >= 0 && s.slots[s.active].recovery == NoRecovery && !s.slots[s.active].cancelRequested
    ensures ValidHandle(s, s.slots[s.active])
  {
    hide Tile, LogOk, SlotsOk;
  }

  lemma CancelledFromBridge(s: State, input: Input, limit: nat)
    requires Smooth(s) && s.active >= 0 && s.slots[s.active].recovery == NoRecovery && s.slots[s.active].cancelRequested
    requires Undisturbed(s, input, limit) && 0 < limit
    ensures Onward(s, TakeWindow(s, input), limit, 1)
  {
    hide Tile, UsedSlots, Total, NoneForgotten, Promised, LogOk;
    var r := s.(active := -1, bridge := Idle);
    CancelledWorks(r, s.active, input.physical, limit);
    SamePromises(s, r);
  }

  /** An undisturbed poll never fails, and pays off one of the polls left, if anything is queued. */
  lemma PollWorks(s: State, input: Input, limit: nat)
    requires Smooth(s) && Undisturbed(s, input, limit) && 0 < limit
    ensures Onward(s, Poll(s, input), limit, if UsedSlots(s.slots) != 0 then 1 else 0)
  {
    hide Unfinished, Free, Recover, TakeWindow, StartNext, Total, UsedSlots, LogOk, SlotsOk, Promised, WindowSucceeded;
    if s.active < 0 {
      TailWorks(s, input, limit);
    } else if s.slots[s.active].recovery != NoRecovery {
      RecoverWorks(s, input, limit);
    } else {
      TakeWorks(s, input, limit);
    }
  }

  function PollAll(s: State, inputs: seq<Input>): State
    decreases |inputs|
  {
    if inputs == [] then s else PollAll(Poll(s, inputs[0]), inputs[1..])
  }

  ghost predicate UndisturbedRun(s: State, inputs: seq<Input>, limit: nat)
    decreases |inputs|
  {
    inputs != [] ==> Undisturbed(s, inputs[0], limit) && UndisturbedRun(Poll(s, inputs[0]), inputs[1..], limit)
  }

  /** After as many undisturbed polls as are left, no slot is used any more. */
  lemma {:induction false} PollsPayOff(s: State, inputs: seq<Input>, limit: nat)
    requires Smooth(s) && 0 < limit && UndisturbedRun(s, inputs, limit) && PollsLeft(s, limit) <= |inputs|
    ensures Smooth(PollAll(s, inputs)) && UsedSlots(PollAll(s, inputs).slots) == 0
    ensures forall t: nat, status :: Promised(s, t, status) ==> Promised(PollAll(s, inputs), t, status)
    decreases |inputs|
  {
    hide Smooth, Undisturbed, Poll, Total, Promised, UsedSlots;
    if UsedSlots(s.slots) != 0 {
      SomethingLeft(s, limit);
    } else {
      NothingLeft(s, limit);
    }
    if inputs == [] {
    } else {
      var u := Poll(s, inputs[0]);
      PollWorks(s, inputs[0], limit);
      PollsPayOff(u, inputs[1..], limit);
    }
  }

  lemma SomethingLeft(s: State, limit: nat)
    requires Smooth(s) && 0 < limit && UsedSlots(s.slots) != 0
    ensures 0 < PollsLeft(s, limit)
  {
    hide Total, UsedSlots;
    var i := UsedSlot(s.slots);
    TotalIsPositive(s.slots, i, limit);
  }

  lemma {:induction false} AllUnused(slots: seq<AsyncWrite>)
    requires UsedSlots(slots) == 0
    ensures forall i :: 0 <= i < |slots| ==> !slots[i].used
  {
    if slots == [] {
    } else {
      AllUnused(slots[1..]);
      assert forall i :: 1 <= i < |slots| ==> slots[i] == slots[1..][i - 1];
    }
  }

  lemma NothingLeft(s: State, limit: nat)
    requires 0 < limit && UsedSlots(s.slots) == 0
    ensures PollsLeft(s, limit) <= 0
  {
    AllUnused(s.slots);
    NoneUsedNothingLeft(s.slots, limit);
  }

  /** In every state the automaton can reach: if from then on nothing disturbs it, then after two
      polls for each window left (and as many for each recovery) every WRITE still owed has got
      exactly one reply, CANCELLED if it was cancelled by then and SUCCESS otherwise. */
  lemma OwedIsAnswered(start: State, events: seq<Event>, inputs: seq<Input>, limit: nat)
    requires Empty(start) && 0 < limit
    requires var s := Run(start, events);
      Free(s) && UndisturbedRun(s, inputs, limit) && PollsLeft(s, limit) <= |inputs|
    ensures var s, u := Run(start, events), PollAll(Run(start, events), inputs);
      forall i :: 0 <= i < |s.slots| && s.slots[i].used && !s.slots[i].replied ==>
        && s.slots[i].messageId < |u.log.entries|
        && u.log.entries[s.slots[i].messageId].replies == [if s.slots[i].cancelRequested then Cancelled else Success]
  {
    hide Run, PollAll, UndisturbedRun, Free, Total, UsedSlots, LogOk;
    EmptyIsUnfinished(start);
    RunKeepsUnfinished(start, events);
    var s := Run(start, events);
    var u := PollAll(s, inputs);
    PollsPayOff(s, inputs, limit);
    AllUnused(u.slots);
    forall i | 0 <= i < |s.slots| && s.slots[i].used && !s.slots[i].replied
      ensures s.slots[i].messageId < |u.log.entries|
      ensures u.log.entries[s.slots[i].messageId].replies == [if s.slots[i].cancelRequested then Cancelled else Success]
    {
      assert SlotOk(s.slots[i], s.log);
      assert Promised(s, s.slots[i].messageId, if s.slots[i].cancelRequested then Cancelled else Success);
    }
  }

  lemma EmptyIsUnfinished(s: State)
    requires Empty(s)
    ensures Inv(s) && Unfinished(s.slots)
  {
    EmptyInv(s);
    assert forall i :: 0 <= i < |s.slots| ==> s.slots[i] in s.slots;
  }
}

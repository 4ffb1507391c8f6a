/** What the single steps of the asynchronous WRITE automaton (src/smb_server.cpp) do, field by field
    and without the functions that decide them. */
module AsyncWriteSteps {
  import opened Common
  import opened AsyncWrites

  /** The handle of a request is still the one it came through. */
  predicate KeepsHandle(handles: seq<Handle>, p: AsyncWrite) {
    0 <= p.slot < |handles| && handles[p.slot].used && handles[p.slot].generation == p.generation
  }

  /** Only the entry of request t got this reply. */
  ghost predicate RepliedOnly(before: Log, after: Log, t: nat, replies: seq<Status>) {
    && |after.entries| == |before.entries| && t < |before.entries|
    && after.entries[t] == before.entries[t].(replies := before.entries[t].replies + replies)
    && forall k :: 0 <= k < |before.entries| && k != t ==> after.entries[k] == before.entries[k]
  }

  /** A cancelled request is answered CANCELLED, unless it was answered before or nobody is left; if
      that reply is refused its connection is closed. Its slot is free again. */
  lemma CancelledSlotEnds(s: State, index: nat, physical: Physical, refusing: set<nat>)
    requires SlotsOk(s.slots, s.log) && s.count == UsedSlots(s.slots) && index < |s.slots| && s.slots[index].used
    ensures var p, u := s.slots[index], CompleteCancelled(s, index, physical, refusing);
      var owed := p.context != 0 && !p.replied;
      && u.slots == s.slots[index := FREE] && u.count == s.count - 1
      && u.active == (if s.active == index then -1 else s.active)
      && u.physical == physical && u.bridge == s.bridge && u.handles == s.handles
      && RepliedOnly(s.log, u.log, p.messageId, if owed && p.messageId !in refusing then [Cancelled] else [])
      && u.log.closed == s.log.closed + (if owed && p.messageId in refusing then {p.context} else {})
  {
    hide UsedSlots, Tile, Distinct;
    assert SlotOk(s.slots[index], s.log);
    UsedUpdate(s.slots, index, FREE);
  }

  // ----- failAsyncWrites() -----

  /** A slot whose file is the one open for writing on a channel nobody else has. */
  predicate HasOpenFile(s: State, i: nat)
    requires i < |s.slots|
  {
    && s.physical.activeMode == WriteMode && !s.physical.otherActive
    && s.slots[i].used && s.slots[i].slot == s.physical.activeSlot && KeepsHandle(s.handles, s.slots[i])
  }

  lemma {:induction false} FirstOnFile(s: State, from: nat)
    requires from <= |s.slots| && s.physical.activeMode == WriteMode && !s.physical.otherActive
    ensures var k := FirstOnActiveFile(s, from);
      && (k >= 0 ==> from <= k < |s.slots| && HasOpenFile(s, k) && forall i :: from <= i < k ==> !HasOpenFile(s, i))
      && (k < 0 ==> k == -1 && forall i :: from <= i < |s.slots| ==> !HasOpenFile(s, i))
    decreases |s.slots| - from
  {
    if from == |s.slots| {
    } else {
      FirstOnFile(s, from + 1);
    }
  }

  /** When everything fails, the slot whose window or file is open stays to clean up: the active one, or
      else the first that has its file open. It waits for the request that is on the bridge, if any,
      and counts as answered and cancelled. Every other slot is free. */
  lemma FailureCleansUp(s: State, status: Status, refusing: set<nat>)
    requires Books(s)
    ensures var u := FailAll(s, status, refusing);
      && |u.slots| == |s.slots| && u.bridge == s.bridge && u.physical == s.physical && u.count == UsedSlots(u.slots)
      && (s.active >= 0 ==> u.active == s.active)
      && (s.active < 0 && u.active >= 0 ==>
            u.active < |s.slots| && HasOpenFile(s, u.active) && forall i :: 0 <= i < u.active ==> !HasOpenFile(s, i))
      && (u.active < 0 ==> u.active == -1 && forall i :: 0 <= i < |s.slots| ==> !HasOpenFile(s, i))
      && (forall i :: 0 <= i < |s.slots| && i != u.active ==> u.slots[i] == FREE || (!s.slots[i].used && u.slots[i] == s.slots[i]))
      && (u.active >= 0 ==>
            var p := s.slots[u.active];
            u.slots[u.active] == p.(cancelRequested := true, replied := true,
              recovery := if p.recovery != NoRecovery then p.recovery else if s.bridge != Idle then WaitWindow else SubmitAbort))
  {
    hide FailSlots, UsedSlots, Tile, FirstOnActiveFile, LogOk, SlotsOk;
    FailAllSlots(s, status, refusing);
    if s.active < 0 && s.physical.activeMode == WriteMode && !s.physical.otherActive {
      FirstOnFile(s, 0);
    }
  }

  // ----- The tail of a poll -----

  /** A slot the arbiter's choice can start. */
  predicate CanStart(s: State, i: nat, served: nat)
    requires i < |s.slots|
  {
    var p := s.slots[i];
    && p.used && !p.inFlight && !p.cancelRequested && p.sequence == served && KeepsHandle(s.handles, p)
    && served < 0xFFFF_FFFF_FFFF_FFFF && !s.physical.otherActive
  }

  predicate IsCancelled(s: State, i: nat)
    requires i < |s.slots|
  {
    s.slots[i].used && s.slots[i].cancelRequested
  }

  lemma {:induction false} FirstCancelledIs(s: State, from: nat, k: nat)
    requires from <= k <= |s.slots| && (k < |s.slots| ==> IsCancelled(s, k))
    requires forall i :: from <= i < k ==> !IsCancelled(s, i)
    ensures FirstCancelled(s.slots, from) == k
    decreases k - from
  {
    if from == k {
    } else {
      assert !IsCancelled(s, from);
      FirstCancelledIs(s, from + 1, k);
    }
  }

  lemma {:induction false} FirstReadyIs(s: State, served: nat, from: nat, k: nat)
    requires from <= k <= |s.slots| && s.active < 0 && !s.physical.otherActive
    requires (k < |s.slots| ==> CanStart(s, k, served)) && forall i :: from <= i < k ==> !CanStart(s, i, served)
    ensures FirstReady(s, served, from) == k
    decreases k - from
  {
    if from == k {
    } else {
      assert !CanStart(s, from, served);
      FirstReadyIs(s, served, from + 1, k);
    }
  }

  /** The tail of a poll ends the first cancelled request, if there is one. */
  lemma TailEndsCancelled(s: State, input: Input, k: nat)
    requires k < |s.slots| && IsCancelled(s, k) && forall i :: 0 <= i < k ==> !IsCancelled(s, i)
    ensures StartNext(s, input) == CompleteCancelled(s, k, s.physical, input.refusing)
  {
    hide FailAll, FirstReady, CompleteCancelled;
    FirstCancelledIs(s, 0, k);
  }

  /** Otherwise it submits the next window of the first slot that can start: as many bytes as are left,
      up to the window limit, from where the last window ended. It does nothing while the bridge or the
      ring is busy, and an attempt that is refused fails all writes with an I/O error. */
  lemma TailStartsWindow(s: State, input: Input, k: nat)
    requires Inv(s) && s.active < 0 && k < |s.slots| && CanStart(s, k, input.served)
    requires forall i :: 0 <= i < |s.slots| ==> !IsCancelled(s, i) && (i < k ==> !CanStart(s, i, input.served))
    ensures var p, u := s.slots[k], StartNext(s, input);
      var left := p.length - p.flushed;
      var part := if left < input.windowLimit then left else input.windowLimit;
      && 0 <= left
      && (s.bridge != Idle || !input.ringFree || part == 0 ==> u == s)
      && (s.bridge == Idle && input.ringFree && part != 0 && input.started ==>
            && p.flushed + part <= |p.data|
            && u == s.(slots := s.slots[k := p.(inFlight := true, windowLength := part)], active := k,
                       bridge := Window(Range(p.slot, p.offset + p.flushed, p.data[p.flushed..p.flushed + part])),
                       physical := Physical(p.slot, WriteMode, false)))
      && (s.bridge == Idle && input.ringFree && part != 0 && !input.started ==>
            u == FailAll(s.(physical := input.physical, bridge := if input.busyAfterReset then Foreign else Idle),
                         Failed(1), input.refusing))
  {
    hide FailAll, FirstCancelled, FirstReady, Tile, UsedSlots, Distinct;
    FirstCancelledIs(s, 0, |s.slots|);
    FirstReadyIs(s, input.served, 0, k);
    assert SlotOk(s.slots[k], s.log);
  }

  /** And it does nothing if no slot is cancelled and none can start. */
  lemma TailIdles(s: State, input: Input)
    requires s.active < 0
    requires forall i :: 0 <= i < |s.slots| ==> !IsCancelled(s, i) && !CanStart(s, i, input.served)
    ensures StartNext(s, input) == s
  {
    hide FailAll, CompleteCancelled, FirstReady, FirstCancelled;
    FirstCancelledIs(s, 0, |s.slots|);
    if !s.physical.otherActive {
      FirstReadyIs(s, input.served, 0, |s.slots|);
    }
  }

  // ----- Recovery and results -----

  /** The phases of a recovery: wait for the window on the bridge, submit CLOSE_ABORT, wait for its
      result; then nothing is open any more and the slot ends like a cancelled one. */
  lemma RecoveryPhases(s: State, input: Input)
    requires Inv(s) && s.active >= 0 && s.slots[s.active].recovery != NoRecovery
    ensures var p, u := s.slots[s.active], Poll(s, input);
      var next := s.(slots := s.slots[s.active := p.(recovery := WaitAbort)], bridge := Abort);
      && (p.recovery == WaitWindow && input.result.None? ==> u == s)
      && (p.recovery == WaitWindow && input.result.Some? && input.started ==> u == next)
      && (p.recovery == WaitWindow && input.result.Some? && !input.started ==>
            u == s.(slots := s.slots[s.active := p.(recovery := SubmitAbort)], bridge := Idle))
      && (p.recovery == SubmitAbort && input.started ==> u == next)
      && (p.recovery == SubmitAbort && !input.started ==> u == s)
      && (p.recovery == WaitAbort && input.result.None? ==> u == s)
      && (p.recovery == WaitAbort && input.result.Some? ==>
            u == CompleteCancelled(s.(bridge := Idle), s.active, Physical(-1, NoMode, s.physical.otherActive), input.refusing)
            && u.active == -1 && u.bridge == Idle && u.slots[s.active] == FREE)
  {
    hide FailAll, StartNext, TakeWindow, Tile, UsedSlots, ReplyOrClose;
    assert s.slots[s.active := s.slots[s.active]] == s.slots;
  }

  /** A window that was not written in full, or whose request is not wanted any more: a cancelled request
      ends, and closes the file as the caller did; any other failure fails all writes. */
  lemma BadResult(s: State, input: Input)
    requires Inv(s) && s.active >= 0 && s.slots[s.active].recovery == NoRecovery && input.result.Some?
    requires !(WroteAll(s, input.result.value) && StillWanted(s, s.slots[s.active]))
    ensures var p, u, r := s.slots[s.active], Poll(s, input), s.(active := -1, bridge := Idle);
      var result := input.result.value;
      u == if p.cancelRequested then CompleteCancelled(r, s.active, input.physical, input.refusing)
           else FailAll(r, Failed(if result.status != 0 then result.status else 1), input.refusing)
  {
    hide FailAll, StartNext, FinishOrContinue, CompleteCancelled, WindowSucceeded, WroteAll, StillWanted;
    SucceededIff(s, input.result.value);
  }

  /** A window written in full moves its slot on. If that was the last one the request is answered
      SUCCESS, its slot is free, and a request without a client closes the file; if the answer is
      refused its connection is closed and all other writes fail. Then the next work starts. */
  lemma GoodResult(s: State, input: Input)
    requires Inv(s) && s.active >= 0 && s.slots[s.active].recovery == NoRecovery && input.result.Some?
    requires WroteAll(s, input.result.value) && StillWanted(s, s.slots[s.active])
    ensures var p, u := s.slots[s.active], Poll(s, input);
      var t := Advanced(s.(active := -1, bridge := Idle), s.active, s.bridge.window, input.result.value);
      var done := p.flushed + p.windowLength;
      && 0 < s.count
      && t.slots == s.slots[s.active := p.(flushed := done, inFlight := false, windowLength := 0)]
      && t == s.(active := -1, bridge := Idle, slots := t.slots, log := t.log)
      && (done != p.length ==> u == StartNext(t, input))
      && (done == p.length && !p.replied && p.messageId !in input.refusing ==>
            exists v: State ::
              && u == StartNext(v, input) && RepliedOnly(t.log, v.log, p.messageId, [Success])
              && v == t.(slots := t.slots[s.active := FREE], count := s.count - 1, log := v.log) && v.log.closed == s.log.closed)
      && (done == p.length && p.replied ==>
            u == StartNext(t.(slots := t.slots[s.active := FREE], count := s.count - 1,
                              physical := if p.context == 0 then input.physical else s.physical), input))
      && (done == p.length && !p.replied && p.messageId in input.refusing ==>
            && p.context in u.log.closed && |u.slots| == |s.slots| && u.slots[s.active] == FREE
            && p.messageId < |u.log.entries| && Success !in u.log.entries[p.messageId].replies)
  {
    hide FailAll, StartNext, WindowSucceeded, UsedSlots, Tile, Distinct, NoneForgotten, WroteAll;
    var p := s.slots[s.active];
    SucceededIff(s, input.result.value);
    assert SlotOk(p, s.log);
    UsedUpdate(s.slots, s.active, FREE);
    var t := Advanced(s.(active := -1, bridge := Idle), s.active, Carried(s.bridge), input.result.value);
    if p.flushed + p.windowLength == p.length {
      if ReplyRefused(t.slots[s.active], input.refusing) {
        RefusedEnd(s, t, input);
      } else if !p.replied {
        assert RepliedOnly(t.log, Completed(t, s.active, input).log, p.messageId, [Success]);
      }
    }
  }

  lemma RefusedEnd(s: State, t: State, input: Input)
    requires Inv(s) && s.active >= 0 && s.slots[s.active].recovery == NoRecovery && input.result.Some?
    requires t == Advanced(s.(active := -1, bridge := Idle), s.active, Carried(s.bridge), input.result.value)
    requires WroteAll(s, input.result.value) && StillWanted(s, s.slots[s.active])
    requires t.slots[s.active].flushed == t.slots[s.active].length && ReplyRefused(t.slots[s.active], input.refusing)
    ensures var p, u := s.slots[s.active], FinishOrContinue(t, s.active, input);
      && p.context in u.log.closed && |u.slots| == |s.slots| && u.slots[s.active] == FREE
      && p.messageId < |u.log.entries| && Success !in u.log.entries[p.messageId].replies
  {
    hide FailAll, UsedSlots, Tile, NoneForgotten, WindowSucceeded, LastRefused;
    var p := s.slots[s.active];
    assert SlotOk(p, s.log);
    SucceededIff(s, input.result.value);
    AdvancedKeepsInv(s.(active := -1, bridge := Idle), s.active, input.result.value);
    assert SlotOk(t.slots[s.active], t.log);
    UsedUpdate(t.slots, s.active, FREE);
    var log := Close(t.log, p.context);
    SettleAndFree(t.slots, t.log, s.active, Failed(IO_DEVICE_ERROR), log);
    var f := Freed(t, s.active).(handles := FailHandle(t.handles, t.slots[s.active]));
    FailAllThenClose(f, Failed(IO_DEVICE_ERROR), input.refusing, p.context);
    FailAllSlots(f.(log := log), Failed(IO_DEVICE_ERROR), input.refusing);
    FailAllReplies(f.(log := log), Failed(IO_DEVICE_ERROR), input.refusing);
  }

  // ----- The other events -----

  /** Exactly these slots are marked cancelled, and nothing else changes. */
  ghost predicate CancelsExactly(s: State, u: State, marked: AsyncWrite -> bool) {
    && |u.slots| == |s.slots| && u == s.(slots := u.slots)
    && forall i :: 0 <= i < |s.slots| ==>
         u.slots[i] == if marked(s.slots[i]) then s.slots[i].(cancelRequested := true) else s.slots[i]
  }

  /** SMB CANCEL marks the request with that MessageId if its client still waits for it; cancelling a
      handle marks all its requests. */
  lemma CancelsMark(s: State, messageId: nat, slot: int, generation: nat)
    ensures CancelsExactly(s, Next(s, CancelRequest(messageId)),
              (p: AsyncWrite) => p.used && p.messageId == messageId && p.context != 0 && !p.replied)
    ensures CancelsExactly(s, Next(s, CancelHandle(slot, generation)),
              (p: AsyncWrite) => p.used && p.slot == slot && p.generation == generation)
  {
  }

  /** A client that goes leaves its requests to be written without an answer; one that is being recovered
      stays cancelled, and a wanted one is not cancelled any more. */
  lemma DisconnectDetaches(s: State, context: nat)
    requires context != 0
    ensures var u := Next(s, Disconnect(context));
      && |u.slots| == |s.slots| && u == s.(slots := u.slots, log := s.log.(closed := s.log.closed + {context}))
      && forall i :: 0 <= i < |s.slots| ==>
           var p := s.slots[i];
           if p.used && p.context == context
           then u.slots[i] == p.(context := 0, replied := true, cancelRequested := p.recovery != NoRecovery)
           else u.slots[i] == p
  {
  }

  /** A WRITE with data from a live client fills a free slot, with nothing flushed yet. */
  lemma AcceptFills(s: State, index: nat, context: nat, sequence: nat, slot: int, generation: nat, offset: nat, data: seq<bv8>)
    requires index < |s.slots|
    ensures var u := Next(s, Accept(index, context, sequence, slot, generation, offset, data));
      if s.slots[index].used || context == 0 || context in s.log.closed || data == [] then u == s
      else
        var p, id := u.slots[index], |s.log.entries|;
        && u == s.(slots := s.slots[index := p], count := s.count + 1, log := u.log) && u.log.closed == s.log.closed
        && u.log.entries == s.log.entries + [Entry(Request(context, Range(slot, offset, data)), [], [], [])]
        && p.used && !p.inFlight && !p.cancelRequested && !p.replied && p.recovery == NoRecovery
        && p.context == context && p.messageId == id && p.sequence == sequence && p.slot == slot
        && p.generation == generation && p.offset == offset && p.length == |data| && p.flushed == 0 && p.data == data
  {
  }

  /** What goes on outside: handles open and close at any time, but another automaton gets at the file
      and the bridge only while no window or recovery is out. */
  lemma OutsideChanges(s: State, handles: seq<Handle>, physical: Physical, bridge: BridgeUse)
    ensures Next(s, HandlesChange(handles)) == s.(handles := handles)
    ensures Next(s, OtherAutomaton(physical, bridge))
         == if s.active < 0 && (bridge == Idle || bridge == Foreign) then s.(physical := physical, bridge := bridge) else s
  {
  }

  lemma WatchdogFailsAll(s: State, code: nat, refusing: set<nat>, context: nat)
    requires context != 0
    ensures Next(s, Watchdog(code, refusing)) == FailAll(s, Failed(code), refusing)
    ensures Next(s, ConnectionClosed(context)) == s.(log := s.log.(closed := s.log.closed + {context}))
  {
    hide FailAll;
  }
}

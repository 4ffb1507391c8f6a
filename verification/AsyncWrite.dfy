/** The asynchronous SMB WRITE automaton (src/smb_server.cpp): slots filled by writeHandler,
    served one physical window at a time by pollAsyncWrite, failed by the watchdog, cancelled
    by the client, detached by a disconnect and recovered through CLOSE_ABORT. */
module AsyncWrites {
  import opened Common

  datatype Recovery = NoRecovery | WaitWindow | SubmitAbort | WaitAbort

  datatype Status = Success | Cancelled | Failed(code: nat)

  const IO_DEVICE_ERROR: nat := 1
  const IO_TIMEOUT: nat := 2

  /** context 0 is the null pointer of a detached request; messageId numbers the accepted
      requests, as a MessageId does within its connection. data is what the slot's buffer holds,
      and slot is the open file it is meant for. */
  datatype AsyncWrite = AsyncWrite(
    used: bool, inFlight: bool, cancelRequested: bool, replied: bool, recovery: Recovery,
    context: nat, messageId: nat, sequence: nat, slot: int, generation: nat,
    offset: nat, length: nat, flushed: nat, windowLength: nat, data: seq<bv8>)

  const FREE := AsyncWrite(false, false, false, false, NoRecovery, 0, 0, 0, -1, 0, 0, 0, 0, 0, [])

  /** The service sequence that stands for no operation at all. */
  const NO_SEQUENCE: nat := 0xFFFF_FFFF_FFFF_FFFF

  datatype Handle = Handle(used: bool, generation: nat, failed: bool)

  datatype ActiveMode = NoMode | WriteMode | OtherMode

  /** The file FILEX holds open, and whether another automaton owns the channel. */
  datatype Physical = Physical(activeSlot: int, activeMode: ActiveMode, otherActive: bool)

  /** Bytes for an offset of an open file. */
  datatype Range = Range(slot: int, offset: nat, data: seq<bv8>)

  /** What the bridge carries: WRITE_AT with its offset and the bytes put into the empty ring for
      it, CLOSE_ABORT, or a request of somebody else. */
  datatype BridgeUse = Idle | Window(window: Range) | Abort | Foreign

  datatype Request = Request(context: nat, range: Range)

  datatype Result = Result(success: bool, status: nat, transferred: nat)

  /** History of one accepted request: the final replies queued for it, and its acknowledged windows
      with the result the bridge returned for each. */
  datatype Entry = Entry(request: Request, replies: seq<Status>, windows: seq<Range>, results: seq<Result>)

  /** History: one entry per accepted request, and the connections that have been closed. */
  datatype Log = Log(entries: seq<Entry>, closed: set<nat>)

  datatype State = State(
    slots: seq<AsyncWrite>, active: int, count: nat, bridge: BridgeUse, physical: Physical,
    handles: seq<Handle>, log: Log)

  function Minimum(a: nat, b: nat): nat {
    if a < b then a else b
  }

  // ----- Replies -----

  /** queueAsyncStatus() or queueAsyncWriteReply(): on refusal nothing reaches the client. */
  function Reply(log: Log, messageId: nat, status: Status, refused: bool): Log {
    if refused || messageId >= |log.entries| then log
    else
      var e := log.entries[messageId];
      log.(entries := log.entries[messageId := e.(replies := e.replies + [status])])
  }

  /** smb2_close_context(): 0 is the null context. */
  function Close(log: Log, context: nat): Log {
    if context == 0 then log else log.(closed := log.closed + {context})
  }

  function Acknowledge(log: Log, messageId: nat, window: Range, result: Result): Log {
    if messageId >= |log.entries| then log
    else
      var e := log.entries[messageId];
      log.(entries := log.entries[messageId := e.(windows := e.windows + [window], results := e.results + [result])])
  }

  function ReplyOrClose(log: Log, pending: AsyncWrite, status: Status, refusing: set<nat>): Log {
    if pending.context == 0 || pending.replied then log
    else if pending.messageId in refusing then Close(log, pending.context)
    else Reply(log, pending.messageId, status, false)
  }

  function Decrement(count: nat): nat {
    if count != 0 then count - 1 else 0
  }

  predicate ValidHandle(s: State, pending: AsyncWrite) {
    && 0 <= pending.slot < |s.handles|
    && s.handles[pending.slot].used
    && s.handles[pending.slot].generation == pending.generation
  }

  // ----- completeCancelledAsyncWrite() -----

  function CompleteCancelled(s: State, index: nat, physical: Physical, refusing: set<nat>): State
    requires index < |s.slots|
  {
    var pending := s.slots[index];
    if !pending.used then s
    else s.(active := if s.active == index then -1 else s.active,
            slots := s.slots[index := FREE],
            count := Decrement(s.count),
            physical := physical,
            log := ReplyOrClose(s.log, pending, Cancelled, refusing))
  }

  // ----- failAsyncWrites() -----

  /** The slot that must clean up the physical file: the active one, or one whose handle is the
      file still open for writing while no other automaton owns the channel. */
  function RecoveryIndex(s: State): int {
    if s.active >= 0 then s.active
    else if s.physical.activeMode.WriteMode? && !s.physical.otherActive then FirstOnActiveFile(s, 0)
    else -1
  }

  function FirstOnActiveFile(s: State, from: nat): (index: int)
    requires from <= |s.slots|
    ensures index == -1 || (from <= index < |s.slots| && s.slots[index].used)
    decreases |s.slots| - from
  {
    if from == |s.slots| then -1
    else if s.slots[from].used && s.slots[from].slot == s.physical.activeSlot && ValidHandle(s, s.slots[from]) then from
    else FirstOnActiveFile(s, from + 1)
  }

  /** The loop variables of failAsyncWrites(): contextToClose remembers one refused connection. */
  datatype Failing = Failing(slots: seq<AsyncWrite>, count: nat, handles: seq<Handle>, log: Log, contextToClose: nat)

  function FailHandle(handles: seq<Handle>, pending: AsyncWrite): seq<Handle> {
    if 0 <= pending.slot < |handles| && handles[pending.slot].used && handles[pending.slot].generation == pending.generation
    then handles[pending.slot := handles[pending.slot].(failed := true)]
    else handles
  }

  function FailSlot(f: Failing, index: nat, recoveryIndex: int, pendingRequest: bool, status: Status, refusing: set<nat>): Failing
    requires index < |f.slots|
  {
    var pending := f.slots[index];
    if !pending.used then f
    else
      var needsReply := pending.context != 0 && !pending.replied;
      var refused := pending.messageId in refusing;
      Failing(
        f.slots[index := if index == recoveryIndex then
            pending.(recovery := if pending.recovery != NoRecovery then pending.recovery
                                 else if pendingRequest then WaitWindow else SubmitAbort,
                     cancelRequested := true, replied := true)
          else FREE],
        if index == recoveryIndex then f.count else Decrement(f.count),
        FailHandle(f.handles, pending),
        if needsReply then Reply(f.log, pending.messageId, status, refused) else f.log,
        if needsReply && refused then pending.context else f.contextToClose)
  }

  function FailSlots(f: Failing, upTo: nat, recoveryIndex: int, pendingRequest: bool, status: Status, refusing: set<nat>): (g: Failing)
    requires upTo <= |f.slots|
    ensures |g.slots| == |f.slots|
  {
    if upTo == 0 then f
    else FailSlot(FailSlots(f, upTo - 1, recoveryIndex, pendingRequest, status, refusing),
                  upTo - 1, recoveryIndex, pendingRequest, status, refusing)
  }

  function FailAll(s: State, status: Status, refusing: set<nat>): State {
    var r := RecoveryIndex(s);
    var f := FailSlots(Failing(s.slots, s.count, s.handles, s.log, 0), |s.slots|, r, s.bridge != Idle, status, refusing);
    s.(slots := f.slots, active := r, count := f.count, handles := f.handles, log := Close(f.log, f.contextToClose))
  }

  // ----- pollAsyncWrite() -----

  /** What one call meets: the result the bridge hands over (if any), the requests whose
      replies cannot be queued, the sequence number the arbiter serves, whether the ring and the
      bridge take the next window, the window limit, and what a synchronous activate, close or
      reset leaves: the physical state, and whether the bridge carries a foreign request. */
  datatype Input = Input(
    result: Option<Result>, refusing: set<nat>, served: nat, ringFree: bool, started: bool,
    windowLimit: nat, physical: Physical, busyAfterReset: bool)

  function FirstCancelled(slots: seq<AsyncWrite>, from: nat): (index: nat)
    requires from <= |slots|
    ensures from <= index <= |slots|
    ensures index < |slots| ==> slots[index].used && slots[index].cancelRequested
    decreases |slots| - from
  {
    if from == |slots| || (slots[from].used && slots[from].cancelRequested) then from
    else FirstCancelled(slots, from + 1)
  }

  predicate Ready(s: State, p: AsyncWrite, served: nat) {
    && p.used && !p.inFlight && !p.cancelRequested && p.sequence == served && served < NO_SEQUENCE && ValidHandle(s, p)
  }

  /** findReadyAsyncWrite(): the slot of the served sequence, if the channel is free. */
  function FindReady(s: State, served: nat): (index: nat)
    ensures index < |s.slots| ==> Ready(s, s.slots[index], served)
  {
    if s.active >= 0 || s.physical.otherActive then |s.slots| else FirstReady(s, served, 0)
  }

  function FirstReady(s: State, served: nat, from: nat): (index: nat)
    requires from <= |s.slots|
    ensures from <= index <= |s.slots|
    ensures index < |s.slots| ==> Ready(s, s.slots[index], served)
    decreases |s.slots| - from
  {
    if from == |s.slots| || Ready(s, s.slots[from], served) then from else FirstReady(s, served, from + 1)
  }

  /** activateWrite(), the ring or the bridge refused the window, and the buffers were reset. */
  function AfterReset(s: State, input: Input): State {
    s.(physical := input.physical, bridge := if input.busyAfterReset then Foreign else Idle)
  }

  function NextPart(next: AsyncWrite, input: Input): nat {
    Minimum(if next.flushed <= next.length then next.length - next.flushed else 0, input.windowLimit)
  }

  /** The next bytes of the buffer, for the offset they have in the file. */
  function WindowOf(p: AsyncWrite, part: nat): Range {
    Range(p.slot, p.offset + p.flushed, if p.flushed + part <= |p.data| then p.data[p.flushed..p.flushed + part] else [])
  }

  /** The tail of pollAsyncWrite(): at most one cancelled slot is completed, else one window starts. */
  function StartNext(s: State, input: Input): State {
    var cancelled := FirstCancelled(s.slots, 0);
    if cancelled < |s.slots| then CompleteCancelled(s, cancelled, s.physical, input.refusing)
    else if FindReady(s, input.served) == |s.slots| then s
    else
      var index := FindReady(s, input.served);
      var next := s.slots[index];
      var part := NextPart(next, input);
      if s.bridge != Idle || !input.ringFree || part == 0 then s
      else if !input.started then
        FailAll(AfterReset(s, input), Failed(IO_DEVICE_ERROR), input.refusing)
      else
        s.(slots := s.slots[index := next.(inFlight := true, windowLength := part)],
           active := index, bridge := Window(WindowOf(next, part)),
           physical := Physical(next.slot, WriteMode, false))
  }

  function Recover(s: State, input: Input): State
    requires 0 <= s.active < |s.slots|
  {
    var pending := s.slots[s.active];
    match pending.recovery
    case WaitWindow =>
      if input.result.None? then s
      else
        // a late acknowledgement only updates sizes; the abort follows in the same call
        SubmitCloseAbort(s.(bridge := Idle), input)
    case SubmitAbort => SubmitCloseAbort(s, input)
    case WaitAbort =>
      if input.result.None? then s
      else CompleteCancelled(s.(bridge := Idle), s.active, Physical(-1, NoMode, s.physical.otherActive), input.refusing)
    case NoRecovery => s
  }

  function SubmitCloseAbort(s: State, input: Input): State
    requires 0 <= s.active < |s.slots|
  {
    var pending := s.slots[s.active];
    if s.bridge == Idle && input.started then
      s.(slots := s.slots[s.active := pending.(recovery := WaitAbort)], bridge := Abort)
    else s.(slots := s.slots[s.active := pending.(recovery := SubmitAbort)])
  }

  function StatusOf(result: Result): Status {
    Failed(if result.status != 0 then result.status else IO_DEVICE_ERROR)
  }

  /** The window the bridge carried. */
  function Carried(bridge: BridgeUse): Range {
    if bridge.Window? then bridge.window else Range(-1, 0, [])
  }

  /** A whole window was acknowledged: the slot advances, and the history notes what was written. */
  function Advanced(s: State, index: nat, written: Range, result: Result): State
    requires index < |s.slots|
  {
    var p := s.slots[index];
    s.(slots := s.slots[index := p.(flushed := p.flushed + p.windowLength, inFlight := false, windowLength := 0)],
       log := Acknowledge(s.log, p.messageId, written, result))
  }

  function Freed(s: State, index: nat): State
    requires index < |s.slots|
  {
    s.(slots := s.slots[index := FREE], count := Decrement(s.count))
  }

  /** The request is complete: SUCCESS is queued, unless the watchdog already answered. */
  function Completed(s: State, index: nat, input: Input): State
    requires index < |s.slots|
  {
    var p := s.slots[index];
    Freed(s, index).(log := if p.replied then s.log else Reply(s.log, p.messageId, Success, false),
                     physical := if p.context == 0 then input.physical else s.physical)
  }

  predicate ReplyRefused(p: AsyncWrite, refusing: set<nat>) {
    !p.replied && (p.context == 0 || p.messageId in refusing)
  }

  /** SUCCESS goes out only with the last window; a refused reply fails all other writes. */
  function FinishOrContinue(s: State, index: nat, input: Input): State
    requires index < |s.slots|
  {
    var p := s.slots[index];
    if p.flushed != p.length then StartNext(s, input)
    else if ReplyRefused(p, input.refusing) then
      var u := FailAll(Freed(s, index).(handles := FailHandle(s.handles, p)), Failed(IO_DEVICE_ERROR), input.refusing);
      u.(log := Close(u.log, p.context))
    else StartNext(Completed(s, index, input), input)
  }

  predicate WindowSucceeded(s: State, completed: AsyncWrite, result: Result) {
    && result.success && ValidHandle(s, completed) && completed.windowLength != 0
    && Minimum(result.transferred, completed.windowLength) == completed.windowLength
    && !completed.cancelRequested
    && (completed.replied || completed.context != 0)
  }

  function TakeWindow(s: State, input: Input): State
    requires 0 <= s.active < |s.slots| && input.result.Some?
  {
    var index := s.active;
    var t := s.(active := -1, bridge := Idle);
    var completed := s.slots[index];
    if WindowSucceeded(s, completed, input.result.value) then
      FinishOrContinue(Advanced(t, index, Carried(s.bridge), input.result.value), index, input)
    else if completed.cancelRequested then CompleteCancelled(t, index, input.physical, input.refusing)
    else FailAll(t, StatusOf(input.result.value), input.refusing)
  }

  function Poll(s: State, input: Input): State {
    if 0 <= s.active < |s.slots| then
      if s.slots[s.active].recovery != NoRecovery then Recover(s, input)
      else if input.result.None? then s
      else TakeWindow(s, input)
    else StartNext(s, input)
  }

  // ----- Everything else that happens to the slots -----

  datatype Event =
    | PollEvent(input: Input)
    | Accept(index: nat, context: nat, sequence: nat, slot: int, generation: nat, offset: nat, data: seq<bv8>)
    | CancelRequest(messageId: nat)
    | CancelHandle(slot: int, generation: nat)
    | Disconnect(context: nat)
    | Watchdog(code: nat, refusing: set<nat>)
    | ConnectionClosed(context: nat)
    | HandlesChange(handles: seq<Handle>)
    | OtherAutomaton(physical: Physical, bridge: BridgeUse)

  function CancelSlots(slots: seq<AsyncWrite>, cancels: AsyncWrite -> bool): seq<AsyncWrite> {
    seq(|slots|, i requires 0 <= i < |slots| =>
      if slots[i].used && cancels(slots[i]) then slots[i].(cancelRequested := true) else slots[i])
  }

  /** cleanupClient(): accepted data is still written, but nobody is left to answer, and a
      request that was already refused is not turned back into a write. */
  function Detach(slots: seq<AsyncWrite>, context: nat): seq<AsyncWrite> {
    seq(|slots|, i requires 0 <= i < |slots| =>
      var p := slots[i];
      if p.used && p.context == context then
        p.(context := 0, replied := true, cancelRequested := p.recovery != NoRecovery)
      else p)
  }

  function Next(s: State, event: Event): State {
    match event
    case PollEvent(input) => Poll(s, input)
    case Accept(index, context, sequence, slot, generation, offset, data) =>
      if index < |s.slots| && !s.slots[index].used && context != 0 && context !in s.log.closed && data != [] then
        var messageId := |s.log.entries|;
        s.(slots := s.slots[index := AsyncWrite(true, false, false, false, NoRecovery, context, messageId, sequence,
                                                slot, generation, offset, |data|, 0, 0, data)],
           count := s.count + 1,
           log := s.log.(entries := s.log.entries + [Entry(Request(context, Range(slot, offset, data)), [], [], [])]))
      else s
    case CancelRequest(messageId) =>
      s.(slots := CancelSlots(s.slots, (p: AsyncWrite) => p.messageId == messageId && p.context != 0 && !p.replied))
    case CancelHandle(slot, generation) =>
      s.(slots := CancelSlots(s.slots, (p: AsyncWrite) => p.slot == slot && p.generation == generation))
    case Disconnect(context) =>
      if context == 0 then s
      else s.(slots := Detach(s.slots, context), log := Close(s.log, context))
    case Watchdog(code, refusing) => FailAll(s, Failed(code), refusing)
    case ConnectionClosed(context) => s.(log := Close(s.log, context))
    case HandlesChange(handles) => s.(handles := handles)
    case OtherAutomaton(physical, bridge) =>
      if s.active < 0 && (bridge == Idle || bridge == Foreign) then s.(physical := physical, bridge := bridge) else s
  }

  function Run(s: State, events: seq<Event>): State
    decreases |events|
  {
    if events == [] then s else Run(Next(s, events[0]), events[1..])
  }

  // ----- The invariant -----

  /** The windows are consecutive pieces of the range, each for its own offset, from first to last. */
  ghost predicate Tile(windows: seq<Range>, range: Range) {
    if windows == [] then range.data == []
    else
      var w := windows[|windows| - 1];
      var before := |range.data| - |w.data|;
      && w.slot == range.slot && 0 < |w.data| <= |range.data|
      && w.offset == range.offset + before && w.data == range.data[before..]
      && Tile(windows[..|windows| - 1], range.(data := range.data[..before]))
  }

  /** Every acknowledged window has a result of its own: a success that transferred all of it. */
  ghost predicate AllTransferred(e: Entry) {
    && |e.results| == |e.windows|
    && forall i :: 0 <= i < |e.results| ==> e.results[i].success && |e.windows[i].data| <= e.results[i].transferred
  }

  ghost predicate EntryOk(e: Entry) {
    && e.request.context != 0 && |e.replies| <= 1 && AllTransferred(e)
    && (e.replies == [Success] ==> Tile(e.windows, e.request.range))
  }

  ghost predicate LogOk(log: Log) {
    forall t :: 0 <= t < |log.entries| ==> EntryOk(log.entries[t])
  }

  /** A used slot and the history of its request. */
  ghost predicate SlotMatches(p: AsyncWrite, e: Entry) {
    && e.request.range == Range(p.slot, p.offset, p.data) && p.flushed <= p.length == |p.data|
    && Tile(e.windows, Range(p.slot, p.offset, p.data[..p.flushed]))
    && (p.context == 0 || p.context == e.request.context)
    && (p.context == 0 ==> p.replied)
    && (!p.replied ==> e.replies == [])
    && Success !in e.replies
    && (p.replied && p.recovery == NoRecovery ==> p.context == 0)
    && (p.recovery != NoRecovery ==> p.replied && p.cancelRequested)
    && (p.inFlight ==> 0 < p.windowLength && p.flushed + p.windowLength <= p.length)
  }

  ghost predicate SlotOk(p: AsyncWrite, log: Log) {
    p.used ==> p.messageId < |log.entries| && SlotMatches(p, log.entries[p.messageId])
  }

  ghost predicate Distinct(slots: seq<AsyncWrite>) {
    forall i, j :: 0 <= i < j < |slots| && slots[i].used && slots[j].used ==> slots[i].messageId != slots[j].messageId
  }

  ghost predicate SlotsOk(slots: seq<AsyncWrite>, log: Log) {
    Distinct(slots) && forall i :: 0 <= i < |slots| ==> SlotOk(slots[i], log)
  }

  /** Only the active slot recovers, and the bridge carries what its phase waits for. */
  ghost predicate RecoveryOk(slots: seq<AsyncWrite>, active: int, bridge: BridgeUse) {
    && -1 <= active < |slots|
    && (forall i :: 0 <= i < |slots| && slots[i].used && slots[i].recovery != NoRecovery ==> i == active)
    && (active >= 0 ==> slots[active].used && CarriesBridge(slots[active], bridge))
    && (active < 0 ==> bridge == Idle || bridge == Foreign)
  }

  ghost predicate ActiveOk(slots: seq<AsyncWrite>, active: int, bridge: BridgeUse) {
    && RecoveryOk(slots, active, bridge)
    && (forall i :: 0 <= i < |slots| && slots[i].used && slots[i].inFlight ==> i == active)
  }

  ghost predicate CarriesBridge(p: AsyncWrite, bridge: BridgeUse) {
    match p.recovery
    case NoRecovery => p.inFlight && bridge == Window(WindowOf(p, p.windowLength))
    case WaitWindow => bridge.Window? || bridge == Foreign
    case SubmitAbort => bridge == Idle
    case WaitAbort => bridge == Abort
  }

  function UsedSlots(slots: seq<AsyncWrite>): nat {
    if slots == [] then 0 else (if slots[0].used then 1 else 0) + UsedSlots(slots[1..])
  }

  /** Some slot still owes the reply of request t. */
  ghost predicate Owed(slots: seq<AsyncWrite>, t: nat) {
    exists i :: 0 <= i < |slots| && slots[i].used && !slots[i].replied && slots[i].messageId == t
  }

  ghost predicate Accounted(slots: seq<AsyncWrite>, log: Log, t: nat)
    requires t < |log.entries|
  {
    var e := log.entries[t];
    e.replies != [] || e.request.context in log.closed || Owed(slots, t)
  }

  /** No request is forgotten: answered, or its connection is gone, or a slot still owes it. */
  ghost predicate NoneForgotten(slots: seq<AsyncWrite>, log: Log) {
    forall t :: 0 <= t < |log.entries| ==> Accounted(slots, log, t)
  }

  /** What failAsyncWrites() relies on: the active window may just have been taken off the bridge. */
  ghost predicate Books(s: State) {
    && LogOk(s.log)
    && SlotsOk(s.slots, s.log)
    && RecoveryOk(s.slots, s.active, s.bridge)
    && s.count == UsedSlots(s.slots)
  }

  ghost predicate Inv(s: State) {
    Books(s) && ActiveOk(s.slots, s.active, s.bridge)
  }

  lemma {:induction false} UsedUpdate(slots: seq<AsyncWrite>, i: nat, p: AsyncWrite)
    requires i < |slots|
    ensures UsedSlots(slots[i := p]) == UsedSlots(slots) - (if slots[i].used then 1 else 0) + (if p.used then 1 else 0)
    ensures slots[i].used ==> UsedSlots(slots) >= 1
  {
    if i == 0 {
      assert slots[0 := p][1..] == slots[1..];
    } else {
      assert slots[i := p][1..] == slots[1..][i - 1 := p];
      UsedUpdate(slots[1..], i - 1, p);
    }
  }

  lemma OwedKept(slots: seq<AsyncWrite>, index: nat, p: AsyncWrite, t: nat)
    requires index < |slots| && Owed(slots, t) && (slots[index].used && slots[index].messageId == t ==> p.used && !p.replied && p.messageId == t)
    ensures Owed(slots[index := p], t)
  {
    var i :| 0 <= i < |slots| && slots[i].used && !slots[i].replied && slots[i].messageId == t;
    assert slots[index := p][i] == if i == index then p else slots[i];
  }

  /** The log after one slot's request got its final reply, or lost its connection. */
  ghost predicate Settled(log: Log, log': Log, p: AsyncWrite, status: Status) {
    if p.context == 0 || p.replied then log' == log
    else log' == Close(log, p.context) || log' == Reply(log, p.messageId, status, false)
  }

  lemma SettledLog(slots: seq<AsyncWrite>, log: Log, index: nat, status: Status, log': Log)
    requires LogOk(log) && SlotsOk(slots, log) && index < |slots| && slots[index].used
    requires Settled(log, log', slots[index], status)
    requires var p := slots[index]; status == Success ==> Tile(log.entries[p.messageId].windows, Range(p.slot, p.offset, p.data))
    ensures LogOk(log') && |log'.entries| == |log.entries| && log.closed <= log'.closed
    ensures forall t :: 0 <= t < |log.entries| && t != slots[index].messageId ==> log'.entries[t] == log.entries[t]
    ensures slots[index].messageId < |log.entries|
    ensures var e, e' := log.entries[slots[index].messageId], log'.entries[slots[index].messageId];
      && e'.request == e.request && (e.replies != [] ==> e'.replies != [])
      && (NeedsReply(slots[index]) ==> e'.replies != [] || e'.request.context in log'.closed)
  {
    var p := slots[index];
    assert SlotOk(p, log);
    assert EntryOk(log.entries[p.messageId]);
    assert (log.entries[p.messageId].replies + [status])[|log.entries[p.messageId].replies|] == status;
    assert EntryOk(log'.entries[p.messageId]);
  }

  /** Answering (or closing) for one slot and freeing it keeps the books. */
  lemma SettleAndFree(slots: seq<AsyncWrite>, log: Log, index: nat, status: Status, log': Log)
    requires LogOk(log) && SlotsOk(slots, log) && index < |slots| && slots[index].used
    requires Settled(log, log', slots[index], status)
    requires var p := slots[index]; status == Success ==> Tile(log.entries[p.messageId].windows, Range(p.slot, p.offset, p.data))
    ensures LogOk(log') && SlotsOk(slots[index := FREE], log')
    ensures NoneForgotten(slots, log) ==> NoneForgotten(slots[index := FREE], log')
  {
    SettledLog(slots, log, index, status, log');
    var after := slots[index := FREE];
    forall i | 0 <= i < |after| ensures SlotOk(after[i], log') {
      assert SlotOk(slots[i], log);
    }
    if NoneForgotten(slots, log) {
      forall t | 0 <= t < |log'.entries| ensures Accounted(after, log', t) {
        assert Accounted(slots, log, t);
        if Owed(slots, t) {
          if t != slots[index].messageId {
            OwedKept(slots, index, FREE, t);
          } else {
            assert SlotOk(slots[index], log);
          }
        }
      }
    }
  }

  // ----- failAsyncWrites() keeps the books -----

  function FailedSlot(p: AsyncWrite, recovers: bool, pendingRequest: bool): AsyncWrite {
    if !p.used then p
    else if recovers then
      p.(recovery := if p.recovery != NoRecovery then p.recovery else if pendingRequest then WaitWindow else SubmitAbort,
         cancelRequested := true, replied := true)
    else FREE
  }

  predicate NeedsReply(p: AsyncWrite) {
    p.used && p.context != 0 && !p.replied
  }

  lemma FailSlotShape(h: Failing, i: nat, r: int, pendingRequest: bool, status: Status, refusing: set<nat>)
    requires i < |h.slots|
    ensures var g, p := FailSlot(h, i, r, pendingRequest, status, refusing), h.slots[i];
      && g.slots == h.slots[i := FailedSlot(p, i == r, pendingRequest)]
      && g.count == (if p.used && i != r then Decrement(h.count) else h.count)
      && g.log == (if NeedsReply(p) then Reply(h.log, p.messageId, status, p.messageId in refusing) else h.log)
      && g.contextToClose == (if NeedsReply(p) && p.messageId in refusing then p.context else h.contextToClose)
  {
  }

  lemma {:induction false} FailSlotsShape(f: Failing, k: nat, r: int, pendingRequest: bool, status: Status, refusing: set<nat>)
    requires k <= |f.slots| && f.count == UsedSlots(f.slots)
    ensures var g := FailSlots(f, k, r, pendingRequest, status, refusing);
      && (forall i :: 0 <= i < |f.slots| ==>
            g.slots[i] == if i < k then FailedSlot(f.slots[i], i == r, pendingRequest) else f.slots[i])
      && g.count == UsedSlots(g.slots)
  {
    hide FailSlot, UsedSlots, FailedSlot;
    if k == 0 {
    } else {
      FailSlotsShape(f, k - 1, r, pendingRequest, status, refusing);
      var h := FailSlots(f, k - 1, r, pendingRequest, status, refusing);
      FailSlotShape(h, k - 1, r, pendingRequest, status, refusing);
      UsedUpdate(h.slots, k - 1, FailedSlot(h.slots[k - 1], k - 1 == r, pendingRequest));
      FailedSlotUsed(h.slots[k - 1], k - 1 == r, pendingRequest);
    }
  }

  lemma FailedSlotUsed(p: AsyncWrite, recovers: bool, pendingRequest: bool)
    ensures FailedSlot(p, recovers, pendingRequest).used <==> p.used && recovers
  {
  }

  /** The log after failing the slots below k: slot i got its one reply unless refused. */
  ghost predicate RepliesFailed(slots: seq<AsyncWrite>, log: Log, log': Log, k: nat, status: Status, refusing: set<nat>)
    requires k <= |slots|
  {
    && |log'.entries| == |log.entries| && log'.closed == log.closed
    && (forall t :: 0 <= t < |log.entries| ==>
          log'.entries[t] == log.entries[t]
          || (log.entries[t].replies == [] && log'.entries[t] == log.entries[t].(replies := [status])))
    && (forall i :: 0 <= i < k && NeedsReply(slots[i]) && slots[i].messageId !in refusing ==>
          slots[i].messageId < |log.entries| && log'.entries[slots[i].messageId].replies == [status])
    && (forall i :: 0 <= i < |slots| && slots[i].used && (i >= k || slots[i].messageId in refusing) ==>
          slots[i].messageId < |log.entries| && log'.entries[slots[i].messageId] == log.entries[slots[i].messageId])
  }

  lemma RepliesFailedStep(slots: seq<AsyncWrite>, log: Log, log': Log, k: nat, status: Status, refusing: set<nat>)
    requires SlotsOk(slots, log) && k < |slots| && RepliesFailed(slots, log, log', k, status, refusing)
    ensures RepliesFailed(slots, log,
              if NeedsReply(slots[k]) then Reply(log', slots[k].messageId, status, slots[k].messageId in refusing) else log',
              k + 1, status, refusing)
  {
    hide Tile;
    var p := slots[k];
    assert SlotOk(p, log);
    if NeedsReply(p) && p.messageId !in refusing {
      forall i | 0 <= i < |slots| && i != k && slots[i].used ensures slots[i].messageId != p.messageId {}
      assert log'.entries[p.messageId].replies == [];
    }
  }

  lemma {:induction false} FailSlotsReplies(f: Failing, k: nat, r: int, pendingRequest: bool, status: Status, refusing: set<nat>)
    requires k <= |f.slots| && f.count == UsedSlots(f.slots) && SlotsOk(f.slots, f.log)
    ensures RepliesFailed(f.slots, f.log, FailSlots(f, k, r, pendingRequest, status, refusing).log, k, status, refusing)
  {
    if k == 0 {
      forall i | 0 <= i < |f.slots| ensures SlotOk(f.slots[i], f.log) {}
    } else {
      FailSlotsReplies(f, k - 1, r, pendingRequest, status, refusing);
      FailSlotsShape(f, k - 1, r, pendingRequest, status, refusing);
      var h := FailSlots(f, k - 1, r, pendingRequest, status, refusing);
      assert h.slots[k - 1] == f.slots[k - 1];
      FailSlotShape(h, k - 1, r, pendingRequest, status, refusing);
      RepliesFailedStep(f.slots, f.log, h.log, k - 1, status, refusing);
    }
  }

  /** The connection failAsyncWrites() closes: that of the last slot whose reply was refused. */
  function LastRefused(slots: seq<AsyncWrite>, k: nat, refusing: set<nat>): nat
    requires k <= |slots|
  {
    if k == 0 then 0
    else if NeedsReply(slots[k - 1]) && slots[k - 1].messageId in refusing then slots[k - 1].context
    else LastRefused(slots, k - 1, refusing)
  }

  lemma {:induction false} ContextToCloseIsLastRefused(f: Failing, k: nat, r: int, pendingRequest: bool, status: Status, refusing: set<nat>)
    requires k <= |f.slots| && f.count == UsedSlots(f.slots) && f.contextToClose == 0
    ensures FailSlots(f, k, r, pendingRequest, status, refusing).contextToClose == LastRefused(f.slots, k, refusing)
  {
    if k == 0 {
    } else {
      ContextToCloseIsLastRefused(f, k - 1, r, pendingRequest, status, refusing);
      FailSlotsShape(f, k - 1, r, pendingRequest, status, refusing);
      FailSlotShape(FailSlots(f, k - 1, r, pendingRequest, status, refusing), k - 1, r, pendingRequest, status, refusing);
    }
  }

  ghost function Initially(s: State): Failing {
    Failing(s.slots, s.count, s.handles, s.log, 0)
  }

  lemma FailAllSlots(s: State, status: Status, refusing: set<nat>)
    requires Books(s)
    ensures var u, r := FailAll(s, status, refusing), RecoveryIndex(s);
      && |u.slots| == |s.slots| && u.count == UsedSlots(u.slots) && -1 <= r < |s.slots|
      && ActiveOk(u.slots, u.active, u.bridge)
      && (forall i :: 0 <= i < |s.slots| ==> u.slots[i] == FailedSlot(s.slots[i], i == r, s.bridge != Idle))
  {
    hide UsedSlots, FailSlots, LogOk, SlotsOk, FirstOnActiveFile;
    var r := RecoveryIndex(s);
    FailSlotsShape(Initially(s), |s.slots|, r, s.bridge != Idle, status, refusing);
  }

  /** Everyone who needed a reply got exactly one, or was refused it; and contextToClose closes
      the connection of the last one refused, and no other. */
  lemma FailAllReplies(s: State, status: Status, refusing: set<nat>)
    requires Books(s)
    ensures var u := FailAll(s, status, refusing);
      && RepliesFailed(s.slots, s.log, u.log.(closed := s.log.closed), |s.slots|, status, refusing)
      && u.log.closed == Close(s.log, LastRefused(s.slots, |s.slots|, refusing)).closed
  {
    hide RecoveryIndex, UsedSlots, LastRefused, FailSlots, RepliesFailed;
    FailSlotsReplies(Initially(s), |s.slots|, RecoveryIndex(s), s.bridge != Idle, status, refusing);
    ContextToCloseIsLastRefused(Initially(s), |s.slots|, RecoveryIndex(s), s.bridge != Idle, status, refusing);
    var f := FailSlots(Initially(s), |s.slots|, RecoveryIndex(s), s.bridge != Idle, status, refusing);
    RepliesKeepClosed(s.slots, s.log, f.log, |s.slots|, status, refusing);
  }

  lemma RepliesKeepClosed(slots: seq<AsyncWrite>, log: Log, log': Log, k: nat, status: Status, refusing: set<nat>)
    requires k <= |slots| && RepliesFailed(slots, log, log', k, status, refusing)
    ensures log'.closed == log.closed
  {
  }

  lemma FailAllKeepsInv(s: State, code: nat, refusing: set<nat>)
    requires Books(s)
    ensures Inv(FailAll(s, Failed(code), refusing))
  {
    hide FailAll, RecoveryIndex, UsedSlots, ActiveOk, LastRefused, Tile;
    var status := Failed(code);
    FailAllSlots(s, status, refusing);
    FailAllReplies(s, status, refusing);
    var u := FailAll(s, status, refusing);
    forall t | 0 <= t < |u.log.entries| ensures EntryOk(u.log.entries[t]) {
      assert EntryOk(s.log.entries[t]);
    }
    forall i | 0 <= i < |u.slots| ensures SlotOk(u.slots[i], u.log) {
      assert SlotOk(s.slots[i], s.log);
    }
    ActiveIsOk(u.slots, u.active, u.bridge);
  }

  lemma ActiveIsOk(slots: seq<AsyncWrite>, active: int, bridge: BridgeUse)
    requires ActiveOk(slots, active, bridge)
    ensures RecoveryOk(slots, active, bridge)
  {
  }

  /** A slot owes a reply to a live connection, and it is refused. */
  predicate RefusedAlive(s: State, i: nat, refusing: set<nat>)
    requires i < |s.slots|
  {
    NeedsReply(s.slots[i]) && s.slots[i].messageId in refusing && s.slots[i].context !in s.log.closed
  }

  /** Every live connection that is refused a reply is the last one refused. */
  predicate RefusedAreLast(s: State, refusing: set<nat>) {
    forall i :: 0 <= i < |s.slots| && RefusedAlive(s, i, refusing) ==>
      s.slots[i].context == LastRefused(s.slots, |s.slots|, refusing)
  }

  /** failAsyncWrites() keeps one contextToClose for all slots. So it forgets a request of a live
      connection exactly when some slot's reply is refused by a connection other than the last
      one refused: that request is neither answered, nor owed, nor its connection closed. */
  lemma FailAllForgetsIff(s: State, code: nat, refusing: set<nat>)
    requires Books(s) && NoneForgotten(s.slots, s.log)
    ensures NoneForgotten(FailAll(s, Failed(code), refusing).slots, FailAll(s, Failed(code), refusing).log)
      <==> RefusedAreLast(s, refusing)
  {
    hide FailAll, RecoveryIndex, UsedSlots, LastRefused, ActiveOk, RepliesFailed;
    var u := FailAll(s, Failed(code), refusing);
    if RefusedAreLast(s, refusing) {
      forall t | 0 <= t < |u.log.entries| ensures Accounted(u.slots, u.log, t) {
        StaysAccounted(s, t, code, refusing);
      }
    } else {
      var i :| 0 <= i < |s.slots| && RefusedAlive(s, i, refusing)
            && s.slots[i].context != LastRefused(s.slots, |s.slots|, refusing);
      ForgottenSlot(s, i, code, refusing);
    }
  }

  lemma StaysAccounted(s: State, t: nat, code: nat, refusing: set<nat>)
    requires Books(s) && NoneForgotten(s.slots, s.log) && RefusedAreLast(s, refusing)
    ensures var u := FailAll(s, Failed(code), refusing);
      |u.log.entries| == |s.log.entries| && (t < |u.log.entries| ==> Accounted(u.slots, u.log, t))
  {
    hide FailAll, RecoveryIndex, UsedSlots, LastRefused, ActiveOk;
    FailAllReplies(s, Failed(code), refusing);
    if t < |s.log.entries| {
      assert Accounted(s.slots, s.log, t);
      if Owed(s.slots, t) {
        var i :| 0 <= i < |s.slots| && s.slots[i].used && !s.slots[i].replied && s.slots[i].messageId == t;
        assert SlotOk(s.slots[i], s.log) && NeedsReply(s.slots[i]);
      }
    }
  }

  lemma ForgottenSlot(s: State, i: nat, code: nat, refusing: set<nat>)
    requires Books(s) && i < |s.slots|
    requires RefusedAlive(s, i, refusing) && s.slots[i].context != LastRefused(s.slots, |s.slots|, refusing)
    ensures var u := FailAll(s, Failed(code), refusing);
      s.slots[i].messageId < |u.log.entries| && !Accounted(u.slots, u.log, s.slots[i].messageId)
  {
    hide FailAll, RecoveryIndex, UsedSlots, LastRefused, ActiveOk;
    FailAllSlots(s, Failed(code), refusing);
    FailAllReplies(s, Failed(code), refusing);
    assert SlotOk(s.slots[i], s.log);
  }

  // ----- Every event keeps the books -----

  /** Closing a connection first does not change what failAsyncWrites() does. */
  lemma {:induction false} FailSlotsIgnoresClosed(f: Failing, k: nat, r: int, pendingRequest: bool, status: Status, refusing: set<nat>, closed: set<nat>)
    requires k <= |f.slots|
    ensures var g := FailSlots(f, k, r, pendingRequest, status, refusing);
      FailSlots(f.(log := f.log.(closed := closed)), k, r, pendingRequest, status, refusing)
      == g.(log := g.log.(closed := closed)) && g.log.closed == f.log.closed
  {
    if k == 0 {
    } else {
      FailSlotsIgnoresClosed(f, k - 1, r, pendingRequest, status, refusing, closed);
    }
  }

  lemma FailAllThenClose(s: State, status: Status, refusing: set<nat>, context: nat)
    ensures var u := FailAll(s, status, refusing);
      u.(log := Close(u.log, context)) == FailAll(s.(log := Close(s.log, context)), status, refusing)
  {
    var t := s.(log := Close(s.log, context));
    assert RecoveryIndex(t) == RecoveryIndex(s) by { FirstOnActiveFileSame(s, t, 0); }
    FailSlotsIgnoresClosed(Initially(s), |s.slots|, RecoveryIndex(s), s.bridge != Idle, status, refusing, t.log.closed);
    assert Initially(t) == Initially(s).(log := s.log.(closed := t.log.closed));
  }

  lemma FirstOnActiveFileSame(s: State, t: State, from: nat)
    requires t == s.(log := t.log) && from <= |s.slots|
    ensures FirstOnActiveFile(t, from) == FirstOnActiveFile(s, from)
    decreases |s.slots| - from
  {
  }

  /** The state in which the tail of a poll calls failAsyncWrites(), if it does. */
  function FailsInStart(s: State, input: Input): Option<State> {
    var index := FindReady(s, input.served);
    if FirstCancelled(s.slots, 0) < |s.slots| || index == |s.slots| then None
    else if s.bridge != Idle || !input.ringFree || NextPart(s.slots[index], input) == 0 || input.started then None
    else Some(AfterReset(s, input))
  }

  function FailsInFinish(s: State, index: nat, input: Input): Option<State>
    requires index < |s.slots|
  {
    var p := s.slots[index];
    if p.flushed != p.length then FailsInStart(s, input)
    else if ReplyRefused(p, input.refusing) then
      Some(Freed(s, index).(handles := FailHandle(s.handles, p), log := Close(s.log, p.context)))
    else FailsInStart(Completed(s, index, input), input)
  }

  function FailsInTake(s: State, input: Input): Option<State>
    requires 0 <= s.active < |s.slots| && input.result.Some?
  {
    var t := s.(active := -1, bridge := Idle);
    if WindowSucceeded(s, s.slots[s.active], input.result.value) then
      FailsInFinish(Advanced(t, s.active, Carried(s.bridge), input.result.value), s.active, input)
    else if s.slots[s.active].cancelRequested then None
    else Some(t)
  }

  /** The state in which an event calls failAsyncWrites(), if it does. */
  function FailsAt(s: State, event: Event): Option<State> {
    match event
    case PollEvent(input) =>
      if 0 <= s.active < |s.slots| then
        if s.slots[s.active].recovery != NoRecovery || input.result.None? then None else FailsInTake(s, input)
      else FailsInStart(s, input)
    case Watchdog(_, _) => Some(s)
    case _ => None
  }

  /** No request is forgotten by what failed. */
  predicate Remembered(failed: Option<State>, refusing: set<nat>) {
    failed.Some? ==> RefusedAreLast(failed.value, refusing)
  }

  /** The books are kept, and nothing more is forgotten than the condition allows. */
  ghost predicate KeptFrom(s: State, u: State, failed: Option<State>, refusing: set<nat>) {
    Inv(u) && (NoneForgotten(s.slots, s.log) ==> (NoneForgotten(u.slots, u.log) <==> Remembered(failed, refusing)))
  }

  lemma FailAllKeeps(s: State, code: nat, refusing: set<nat>)
    requires Books(s)
    ensures KeptFrom(s, FailAll(s, Failed(code), refusing), Some(s), refusing)
  {
    hide FailAll, RefusedAreLast, Books, NoneForgotten;
    FailAllKeepsInv(s, code, refusing);
    if NoneForgotten(s.slots, s.log) {
      FailAllForgetsIff(s, code, refusing);
    }
  }

  lemma CompleteCancelledKeepsInv(s: State, index: nat, physical: Physical, refusing: set<nat>)
    requires LogOk(s.log) && SlotsOk(s.slots, s.log) && s.count == UsedSlots(s.slots)
    requires index < |s.slots| && s.slots[index].used
    requires forall i :: 0 <= i < |s.slots| && s.slots[i].used && (s.slots[i].inFlight || s.slots[i].recovery != NoRecovery) ==> i == index
    requires (s.active == -1 || s.active == index) && (s.bridge == Idle || s.bridge == Foreign)
    ensures KeptFrom(s, CompleteCancelled(s, index, physical, refusing), None, refusing)
  {
    var p := s.slots[index];
    var u := CompleteCancelled(s, index, physical, refusing);
    UsedUpdate(s.slots, index, FREE);
    SettleAndFree(s.slots, s.log, index, Cancelled, u.log);
  }

  lemma StartNextKeepsInv(s: State, input: Input)
    requires Inv(s) && s.active < 0
    ensures KeptFrom(s, StartNext(s, input), FailsInStart(s, input), input.refusing)
  {
    hide FailAll, RefusedAreLast, UsedSlots, Tile, FirstReady, NoneForgotten, LogOk;
    var cancelled := FirstCancelled(s.slots, 0);
    if cancelled < |s.slots| {
      CompleteCancelledKeepsInv(s, cancelled, s.physical, input.refusing);
    } else if FindReady(s, input.served) < |s.slots| {
      var index := FindReady(s, input.served);
      var next := s.slots[index];
      assert SlotOk(next, s.log);
      var part := NextPart(next, input);
      if s.bridge == Idle && input.ringFree && part != 0 {
        if !input.started {
          FailAllKeeps(AfterReset(s, input), IO_DEVICE_ERROR, input.refusing);
        } else {
          UpdateSlotKeepsInv(s, index, next.(inFlight := true, windowLength := part), s.log);
        }
      }
    }
  }

  /** Replacing one slot by a later stage of the same request. */
  lemma UpdateSlotKeepsInv(s: State, index: nat, p: AsyncWrite, log: Log)
    requires LogOk(s.log) && SlotsOk(s.slots, s.log) && s.count == UsedSlots(s.slots)
    requires index < |s.slots| && s.slots[index].used && p.used && p.messageId == s.slots[index].messageId
    requires p.replied == s.slots[index].replied
    requires LogOk(log) && |log.entries| == |s.log.entries| && log.closed == s.log.closed
    requires forall t :: 0 <= t < |log.entries| && t != p.messageId ==> log.entries[t] == s.log.entries[t]
    requires SlotOk(p, log) && log.entries[p.messageId].replies == s.log.entries[p.messageId].replies
    requires log.entries[p.messageId].request == s.log.entries[p.messageId].request
    ensures var slots := s.slots[index := p];
      && SlotsOk(slots, log) && s.count == UsedSlots(slots)
      && (NoneForgotten(s.slots, s.log) ==> NoneForgotten(slots, log))
  {
    hide Tile, UsedSlots;
    var slots := s.slots[index := p];
    UsedUpdate(s.slots, index, p);
    forall i | 0 <= i < |slots| ensures SlotOk(slots[i], log) {
      assert SlotOk(s.slots[i], s.log);
    }
    if NoneForgotten(s.slots, s.log) {
      forall t | 0 <= t < |log.entries| ensures Accounted(slots, log, t) {
        assert Accounted(s.slots, s.log, t);
        if Owed(s.slots, t) {
          var i :| 0 <= i < |s.slots| && s.slots[i].used && !s.slots[i].replied && s.slots[i].messageId == t;
          assert slots[i].used && !slots[i].replied && slots[i].messageId == t;
        }
      }
    }
  }

  lemma TileExtends(windows: seq<Range>, range: Range, piece: seq<bv8>)
    requires Tile(windows, range) && piece != []
    ensures Tile(windows + [Range(range.slot, range.offset + |range.data|, piece)], range.(data := range.data + piece))
  {
    assert (windows + [Range(range.slot, range.offset + |range.data|, piece)])[..|windows|] == windows;
    assert (range.data + piece)[..|range.data|] == range.data;
  }

  lemma AdvancedMatches(p: AsyncWrite, log: Log, result: Result)
    requires LogOk(log) && p.used && SlotOk(p, log) && p.inFlight && p.recovery == NoRecovery
    requires result.success && p.windowLength <= result.transferred
    ensures var log' := Acknowledge(log, p.messageId, WindowOf(p, p.windowLength), result);
      LogOk(log') && SlotOk(p.(flushed := p.flushed + p.windowLength, inFlight := false, windowLength := 0), log')
  {
    hide Tile, AllTransferred;
    var e := log.entries[p.messageId];
    var next := p.flushed + p.windowLength;
    TileExtends(e.windows, Range(p.slot, p.offset, p.data[..p.flushed]), p.data[p.flushed..next]);
    assert p.data[..p.flushed] + p.data[p.flushed..next] == p.data[..next];
    var log' := Acknowledge(log, p.messageId, WindowOf(p, p.windowLength), result);
    assert EntryOk(e);
    TransferredMore(e, WindowOf(p, p.windowLength), result);
    forall t | 0 <= t < |log'.entries| ensures EntryOk(log'.entries[t]) {
      assert t != p.messageId ==> log'.entries[t] == log.entries[t] && EntryOk(log.entries[t]);
    }
  }

  lemma TransferredMore(e: Entry, window: Range, result: Result)
    requires AllTransferred(e) && result.success && |window.data| <= result.transferred
    ensures AllTransferred(e.(windows := e.windows + [window], results := e.results + [result]))
  {
  }

  lemma AdvancedKeepsInv(s: State, index: nat, result: Result)
    requires Books(s) && s.active == -1 && index < |s.slots| && s.slots[index].used
    requires forall i :: 0 <= i < |s.slots| && s.slots[i].used && s.slots[i].inFlight ==> i == index
    requires s.slots[index].inFlight && s.slots[index].recovery == NoRecovery
    requires result.success && s.slots[index].windowLength <= result.transferred
    ensures var u := Advanced(s, index, WindowOf(s.slots[index], s.slots[index].windowLength), result);
      Inv(u) && (NoneForgotten(s.slots, s.log) ==> NoneForgotten(u.slots, u.log))
  {
    hide Tile, UsedSlots, LogOk, AllTransferred, NoneForgotten, Distinct;
    assert SlotOk(s.slots[index], s.log);
    AdvancedMatches(s.slots[index], s.log, result);
    var u := Advanced(s, index, WindowOf(s.slots[index], s.slots[index].windowLength), result);
    UpdateSlotKeepsInv(s, index, u.slots[index], u.log);
  }

  lemma CompletedKeepsInv(s: State, index: nat, input: Input)
    requires Inv(s) && s.active == -1 && index < |s.slots| && s.slots[index].used
    requires s.slots[index].flushed == s.slots[index].length && !ReplyRefused(s.slots[index], input.refusing)
    ensures var t := Completed(s, index, input);
      t.active == -1 && Inv(t) && (NoneForgotten(s.slots, s.log) ==> NoneForgotten(t.slots, t.log))
  {
    var p := s.slots[index];
    assert SlotOk(p, s.log);
    assert p.data[..p.flushed] == p.data;
    SettleAndFree(s.slots, s.log, index, Success, Completed(s, index, input).log);
    UsedUpdate(s.slots, index, FREE);
  }

  lemma RefusedKeepsInv(s: State, index: nat, handles: seq<Handle>, refusing: set<nat>)
    requires Inv(s) && s.active == -1 && index < |s.slots| && s.slots[index].used && !s.slots[index].replied
    ensures var u := FailAll(Freed(s, index).(handles := handles), Failed(IO_DEVICE_ERROR), refusing);
      KeptFrom(s, u.(log := Close(u.log, s.slots[index].context)),
               Some(Freed(s, index).(handles := handles, log := Close(s.log, s.slots[index].context))), refusing)
  {
    hide FailAll, RefusedAreLast;
    var p := s.slots[index];
    assert SlotOk(p, s.log);
    var t := Freed(s, index).(handles := handles);
    var log := Close(s.log, p.context);
    UsedUpdate(s.slots, index, FREE);
    SettleAndFree(s.slots, s.log, index, Failed(IO_DEVICE_ERROR), log);
    FailAllThenClose(t, Failed(IO_DEVICE_ERROR), refusing, p.context);
    FailAllKeeps(t.(log := log), IO_DEVICE_ERROR, refusing);
  }

  lemma FinishOrContinueKeepsInv(s: State, index: nat, input: Input)
    requires Inv(s) && s.active == -1 && index < |s.slots| && s.slots[index].used
    ensures KeptFrom(s, FinishOrContinue(s, index, input), FailsInFinish(s, index, input), input.refusing)
  {
    hide Inv, NoneForgotten, FailAll, StartNext, FailsInStart, RefusedAreLast, Completed, Freed;
    var p := s.slots[index];
    if p.flushed != p.length {
      StartNextKeepsInv(s, input);
    } else if ReplyRefused(p, input.refusing) {
      RefusedKeepsInv(s, index, FailHandle(s.handles, p), input.refusing);
    } else {
      CompletedKeepsInv(s, index, input);
      var t := Completed(s, index, input);
      StartNextKeepsInv(t, input);
    }
  }

  /** A short or failed window never counts as acknowledged. */
  lemma TakeWindowKeepsInv(s: State, input: Input)
    requires Inv(s) && s.active >= 0 && s.slots[s.active].recovery == NoRecovery && input.result.Some?
    ensures KeptFrom(s, TakeWindow(s, input), FailsInTake(s, input), input.refusing)
  {
    hide UsedSlots, FailAll, FinishOrContinue, FailsInFinish, RefusedAreLast, NoneForgotten;
    var index := s.active;
    var t := s.(active := -1, bridge := Idle);
    assert SlotOk(s.slots[index], s.log);
    if WindowSucceeded(s, s.slots[index], input.result.value) {
      AdvancedKeepsInv(t, index, input.result.value);
      FinishOrContinueKeepsInv(Advanced(t, index, Carried(s.bridge), input.result.value), index, input);
    } else if s.slots[index].cancelRequested {
      CompleteCancelledKeepsInv(t, index, input.physical, input.refusing);
    } else {
      FailAllKeeps(t, StatusOf(input.result.value).code, input.refusing);
    }
  }

  // ----- Which results count, without the predicate that decides it -----

  /** The bridge reports that all bytes of the window it carried were written. */
  predicate WroteAll(s: State, result: Result) {
    s.bridge.Window? && result.success && |s.bridge.window.data| <= result.transferred
  }

  /** The request behind the active slot is still wanted and its handle is still its own. */
  predicate StillWanted(s: State, p: AsyncWrite) {
    && !p.cancelRequested && (p.replied || p.context != 0)
    && 0 <= p.slot < |s.handles| && s.handles[p.slot].used && s.handles[p.slot].generation == p.generation
  }

  lemma SucceededIff(s: State, result: Result)
    requires Inv(s) && s.active >= 0 && s.slots[s.active].recovery == NoRecovery
    ensures WindowSucceeded(s, s.slots[s.active], result) <==> WroteAll(s, result) && StillWanted(s, s.slots[s.active])
  {
    hide Tile, Distinct, UsedSlots;
    assert SlotOk(s.slots[s.active], s.log);
  }

  /** The later steps of a poll reply and close, but note no window. */
  ghost predicate SameWindows(a: Log, b: Log) {
    && |a.entries| == |b.entries|
    && forall t :: 0 <= t < |a.entries| ==>
         a.entries[t].windows == b.entries[t].windows && a.entries[t].results == b.entries[t].results
  }

  lemma {:induction false} FailSlotsNotesNothing(f: Failing, k: nat, r: int, pendingRequest: bool, status: Status, refusing: set<nat>)
    requires k <= |f.slots|
    ensures SameWindows(f.log, FailSlots(f, k, r, pendingRequest, status, refusing).log)
  {
    hide FailHandle;
    if k == 0 {
    } else {
      FailSlotsNotesNothing(f, k - 1, r, pendingRequest, status, refusing);
    }
  }

  lemma FailAllNotesNothing(s: State, status: Status, refusing: set<nat>)
    ensures SameWindows(s.log, FailAll(s, status, refusing).log)
  {
    hide FailSlots;
    FailSlotsNotesNothing(Initially(s), |s.slots|, RecoveryIndex(s), s.bridge != Idle, status, refusing);
  }

  lemma StartNextNotesNothing(s: State, input: Input)
    ensures SameWindows(s.log, StartNext(s, input).log)
  {
    hide FailAll, FirstReady, FirstCancelled;
    FailAllNotesNothing(AfterReset(s, input), Failed(IO_DEVICE_ERROR), input.refusing);
  }

  lemma FinishNotesNothing(s: State, index: nat, input: Input)
    requires index < |s.slots|
    ensures SameWindows(s.log, FinishOrContinue(s, index, input).log)
  {
    hide FailAll, StartNext;
    StartNextNotesNothing(s, input);
    StartNextNotesNothing(Completed(s, index, input), input);
    FailAllNotesNothing(Freed(s, index).(handles := FailHandle(s.handles, s.slots[index])), Failed(IO_DEVICE_ERROR), input.refusing);
  }

  /** A poll notes a window exactly when it brings the result of a window that was written in full for
      a request still wanted: it notes the very window the bridge carried, with that result, for the
      request of the active slot, and nothing for any other. */
  lemma NotedIffWritten(s: State, input: Input, t: nat)
    requires Inv(s) && t < |s.log.entries|
    ensures var u, e := Poll(s, input), s.log.entries[t];
      var noted := s.active >= 0 && s.slots[s.active].recovery == NoRecovery && s.slots[s.active].messageId == t
                   && input.result.Some? && WroteAll(s, input.result.value) && StillWanted(s, s.slots[s.active]);
      && |u.log.entries| == |s.log.entries|
      && u.log.entries[t].windows == e.windows + (if noted then [s.bridge.window] else [])
      && u.log.entries[t].results == e.results + (if noted then [input.result.value] else [])
  {
    hide StartNext, FinishOrContinue, FailAll, Inv, Tile, WindowSucceeded, WroteAll, StillWanted;
    ActiveInRange(s);
    if s.active < 0 {
      StartNextNotesNothing(s, input);
    } else if s.slots[s.active].recovery == NoRecovery && input.result.Some? {
      var result, r := input.result.value, s.(active := -1, bridge := Idle);
      SucceededIff(s, result);
      ActiveCarries(s, result);
      if WindowSucceeded(s, s.slots[s.active], result) {
        FinishNotesNothing(Advanced(r, s.active, Carried(s.bridge), result), s.active, input);
      } else {
        FailAllNotesNothing(r, StatusOf(result), input.refusing);
      }
    }
  }

  lemma ActiveInRange(s: State)
    requires Inv(s)
    ensures -1 <= s.active < |s.slots|
  {
  }

  lemma ActiveCarries(s: State, result: Result)
    requires Inv(s) && s.active >= 0 && s.slots[s.active].recovery == NoRecovery
    ensures s.bridge.Window? && s.slots[s.active].used && s.slots[s.active].messageId < |s.log.entries|
  {
    assert SlotOk(s.slots[s.active], s.log);
  }

  /** A wanted request whose window was not written in full is answered with the status of that result,
      or IO_DEVICE_ERROR if it gave none, unless the reply is refused; it is never answered SUCCESS,
      and its handle is marked failed. */
  lemma FailedWindowIsAnswered(s: State, input: Input)
    requires Inv(s) && s.active >= 0 && s.slots[s.active].recovery == NoRecovery && input.result.Some?
    requires !s.slots[s.active].cancelRequested && !(WroteAll(s, input.result.value) && StillWanted(s, s.slots[s.active]))
    ensures var p, u := s.slots[s.active], Poll(s, input);
      var status := Failed(if input.result.value.status != 0 then input.result.value.status else IO_DEVICE_ERROR);
      && p.messageId < |u.log.entries|
      && (p.context != 0 && !p.replied && p.messageId !in input.refusing ==> u.log.entries[p.messageId].replies == [status])
      && Success !in u.log.entries[p.messageId].replies
      && |u.handles| == |s.handles|
      && (0 <= p.slot < |s.handles| && s.handles[p.slot].used && s.handles[p.slot].generation == p.generation ==>
            u.handles[p.slot].failed)
  {
    hide FailAll, WindowSucceeded, Tile, UsedSlots, RepliesFailed, LastRefused, StillWanted, WroteAll;
    var p, r := s.slots[s.active], s.(active := -1, bridge := Idle);
    SucceededIff(s, input.result.value);
    assert SlotOk(p, s.log);
    FailAllReplies(r, StatusOf(input.result.value), input.refusing);
    ReplyOf(r, s.active, StatusOf(input.result.value), input.refusing);
    FailAllHandles(r, StatusOf(input.result.value), input.refusing);
  }

  lemma ReplyOf(s: State, i: nat, status: Status, refusing: set<nat>)
    requires Books(s) && i < |s.slots| && s.slots[i].used && status != Success
    ensures var u, p := FailAll(s, status, refusing), s.slots[i];
      && p.messageId < |s.log.entries| == |u.log.entries|
      && (NeedsReply(p) && p.messageId !in refusing ==> u.log.entries[p.messageId].replies == [status])
      && Success !in u.log.entries[p.messageId].replies
  {
    hide FailAll, Tile, UsedSlots, LastRefused;
    FailAllReplies(s, status, refusing);
    assert SlotOk(s.slots[i], s.log);
  }

  /** Some used slot below k is of that handle. */
  predicate OnHandle(slots: seq<AsyncWrite>, k: nat, handles: seq<Handle>, h: nat)
    requires k <= |slots| && h < |handles|
  {
    exists i :: 0 <= i < k && slots[i].used && slots[i].slot == h && handles[h].used && slots[i].generation == handles[h].generation
  }

  lemma {:induction false} FailSlotsHandles(f: Failing, k: nat, r: int, pendingRequest: bool, status: Status, refusing: set<nat>)
    requires k <= |f.slots| && f.count == UsedSlots(f.slots)
    ensures var g := FailSlots(f, k, r, pendingRequest, status, refusing);
      && |g.handles| == |f.handles|
      && forall h :: 0 <= h < |f.handles| ==>
           g.handles[h] == f.handles[h].(failed := f.handles[h].failed || OnHandle(f.slots, k, f.handles, h))
  {
    hide UsedSlots, Reply;
    if k == 0 {
    } else {
      FailSlotsHandles(f, k - 1, r, pendingRequest, status, refusing);
      FailSlotsShape(f, k - 1, r, pendingRequest, status, refusing);
      var g := FailSlots(f, k - 1, r, pendingRequest, status, refusing);
      assert g.slots[k - 1] == f.slots[k - 1];
      forall h | 0 <= h < |f.handles|
        ensures OnHandle(f.slots, k, f.handles, h)
          <==> OnHandle(f.slots, k - 1, f.handles, h)
               || (f.slots[k - 1].used && f.slots[k - 1].slot == h && f.handles[h].used && f.slots[k - 1].generation == f.handles[h].generation)
      {
        MoreOnHandle(f.slots, k, f.handles, h);
      }
    }
  }

  lemma MoreOnHandle(slots: seq<AsyncWrite>, k: nat, handles: seq<Handle>, h: nat)
    requires 0 < k <= |slots| && h < |handles|
    ensures OnHandle(slots, k, handles, h)
      <==> OnHandle(slots, k - 1, handles, h)
           || (slots[k - 1].used && slots[k - 1].slot == h && handles[h].used && slots[k - 1].generation == handles[h].generation)
  {
    if OnHandle(slots, k - 1, handles, h) {
      var i :| 0 <= i < k - 1 && slots[i].used && slots[i].slot == h && handles[h].used && slots[i].generation == handles[h].generation;
      assert 0 <= i < k;
    }
  }

  /** Failing all writes marks exactly the handles that have one, and changes nothing else of them. */
  lemma FailAllHandles(s: State, status: Status, refusing: set<nat>)
    requires Books(s)
    ensures var u := FailAll(s, status, refusing);
      && |u.handles| == |s.handles|
      && forall h :: 0 <= h < |s.handles| ==>
           u.handles[h] == s.handles[h].(failed := s.handles[h].failed || OnHandle(s.slots, |s.slots|, s.handles, h))
  {
    hide FailSlots, UsedSlots, OnHandle;
    FailSlotsHandles(Initially(s), |s.slots|, RecoveryIndex(s), s.bridge != Idle, status, refusing);
  }

  lemma RecoverPhaseKeepsInv(s: State, recovery: Recovery, bridge: BridgeUse)
    requires Inv(s) && s.active >= 0 && s.slots[s.active].recovery != NoRecovery
    requires recovery != NoRecovery && CarriesBridge(s.slots[s.active].(recovery := recovery), bridge)
    ensures var u := s.(slots := s.slots[s.active := s.slots[s.active].(recovery := recovery)], bridge := bridge);
      Inv(u) && (NoneForgotten(s.slots, s.log) ==> NoneForgotten(u.slots, u.log))
  {
    var p := s.slots[s.active];
    assert SlotOk(p, s.log);
    UpdateSlotKeepsInv(s, s.active, p.(recovery := recovery), s.log);
  }

  lemma RecoverKeepsInv(s: State, input: Input)
    requires Inv(s) && s.active >= 0 && s.slots[s.active].recovery != NoRecovery
    ensures KeptFrom(s, Recover(s, input), None, input.refusing)
  {
    var p := s.slots[s.active];
    if p.recovery == WaitAbort {
      if input.result.Some? {
        CompleteCancelledKeepsInv(s.(bridge := Idle), s.active, Physical(-1, NoMode, s.physical.otherActive), input.refusing);
      }
    } else if p.recovery == SubmitAbort || input.result.Some? {
      if input.started {
        RecoverPhaseKeepsInv(s, WaitAbort, Abort);
      }
      RecoverPhaseKeepsInv(s, SubmitAbort, if p.recovery == SubmitAbort then s.bridge else Idle);
    }
  }

  lemma PollKeepsInv(s: State, input: Input)
    requires Inv(s)
    ensures KeptFrom(s, Poll(s, input), FailsAt(s, PollEvent(input)), input.refusing)
  {
    hide StartNext, TakeWindow, Recover, FailsInStart, FailsInTake, RefusedAreLast, NoneForgotten, UsedSlots;
    if s.active >= 0 {
      if s.slots[s.active].recovery != NoRecovery {
        RecoverKeepsInv(s, input);
      } else if input.result.Some? {
        TakeWindowKeepsInv(s, input);
      }
    } else {
      StartNextKeepsInv(s, input);
    }
  }

  lemma AcceptKeepsInv(s: State, index: nat, context: nat, sequence: nat, slot: int, generation: nat, offset: nat, data: seq<bv8>)
    requires Inv(s)
    ensures var u := Next(s, Accept(index, context, sequence, slot, generation, offset, data));
      Inv(u) && (NoneForgotten(s.slots, s.log) ==> NoneForgotten(u.slots, u.log))
  {
    hide UsedSlots, Poll, FailAll, LogOk, SlotsOk;
    var u := Next(s, Accept(index, context, sequence, slot, generation, offset, data));
    if u != s {
      UsedUpdate(s.slots, index, u.slots[index]);
      AcceptedMatches(s, u, index, Request(context, Range(slot, offset, data)));
      if NoneForgotten(s.slots, s.log) {
        AcceptedIsOwed(s, u, index);
      }
    }
  }

  lemma AcceptedMatches(s: State, u: State, index: nat, request: Request)
    requires LogOk(s.log) && SlotsOk(s.slots, s.log) && index < |s.slots| == |u.slots| && request.context != 0
    requires u.slots == s.slots[index := u.slots[index]] && u.slots[index].messageId == |s.log.entries|
    requires u.log == s.log.(entries := s.log.entries + [Entry(request, [], [], [])])
    requires SlotMatches(u.slots[index], Entry(request, [], [], []))
    ensures LogOk(u.log) && SlotsOk(u.slots, u.log)
  {
    hide Tile;
    forall t | 0 <= t < |u.log.entries| ensures EntryOk(u.log.entries[t]) {
      assert t < |s.log.entries| ==> EntryOk(s.log.entries[t]);
    }
    forall i | 0 <= i < |s.slots| ensures SlotOk(s.slots[i], s.log) {
    }
  }

  lemma AcceptedIsOwed(s: State, u: State, index: nat)
    requires NoneForgotten(s.slots, s.log) && index < |s.slots| == |u.slots| && !s.slots[index].used
    requires u.slots == s.slots[index := u.slots[index]] && u.slots[index].messageId == |s.log.entries|
    requires u.slots[index].used && !u.slots[index].replied && u.log.closed == s.log.closed
    requires |u.log.entries| == |s.log.entries| + 1 && u.log.entries[..|s.log.entries|] == s.log.entries
    ensures NoneForgotten(u.slots, u.log)
  {
    forall t | 0 <= t < |u.log.entries| ensures Accounted(u.slots, u.log, t) {
      if t < |s.log.entries| {
        assert u.log.entries[t] == s.log.entries[t];
        assert Accounted(s.slots, s.log, t);
        if Owed(s.slots, t) {
          OwedKept(s.slots, index, u.slots[index], t);
        }
      } else {
        assert u.slots[index].messageId == t;
      }
    }
  }

  /** Flags of slots changed, but each still matches its history and owes what it owed. */
  lemma FlagsKeepInv(s: State, u: State)
    requires Inv(s) && u == s.(slots := u.slots, log := s.log.(closed := u.log.closed)) && s.log.closed <= u.log.closed
    requires |u.slots| == |s.slots|
    requires forall i :: 0 <= i < |s.slots| ==>
      && (!s.slots[i].used ==> u.slots[i] == s.slots[i])
      && u.slots[i] == s.slots[i].(context := u.slots[i].context, replied := u.slots[i].replied,
                                   cancelRequested := u.slots[i].cancelRequested)
      && SlotOk(u.slots[i], u.log)
      && (s.slots[i].used && !s.slots[i].replied ==>
            !u.slots[i].replied || s.log.entries[s.slots[i].messageId].request.context in u.log.closed)
    ensures Inv(u) && (NoneForgotten(s.slots, s.log) ==> NoneForgotten(u.slots, u.log))
  {
    hide Tile, UsedSlots;
    SameUsed(s.slots, u.slots);
    if NoneForgotten(s.slots, s.log) {
      forall t | 0 <= t < |u.log.entries| ensures Accounted(u.slots, u.log, t) {
        assert Accounted(s.slots, s.log, t);
        if Owed(s.slots, t) {
          var i :| 0 <= i < |s.slots| && s.slots[i].used && !s.slots[i].replied && s.slots[i].messageId == t;
          assert u.slots[i].messageId == t;
        }
      }
    }
  }

  lemma {:induction false} SameUsed(a: seq<AsyncWrite>, b: seq<AsyncWrite>)
    requires |a| == |b| && forall i :: 0 <= i < |a| ==> a[i].used == b[i].used
    ensures UsedSlots(a) == UsedSlots(b)
  {
    if a == [] {
    } else {
      SameUsed(a[1..], b[1..]);
    }
  }

  lemma DetachKeepsInv(s: State, context: nat)
    requires Inv(s) && context != 0
    ensures var u := Next(s, Disconnect(context));
      Inv(u) && (NoneForgotten(s.slots, s.log) ==> NoneForgotten(u.slots, u.log))
  {
    var u := Next(s, Disconnect(context));
    forall i | 0 <= i < |s.slots|
      ensures SlotOk(u.slots[i], u.log)
      ensures s.slots[i].used && !s.slots[i].replied ==>
        !u.slots[i].replied || s.log.entries[s.slots[i].messageId].request.context in u.log.closed
    {
      assert SlotOk(s.slots[i], s.log);
    }
    FlagsKeepInv(s, u);
  }

  lemma CancelKeepsInv(s: State, u: State)
    requires Inv(s) && u == s.(slots := u.slots) && |u.slots| == |s.slots|
    requires forall i :: 0 <= i < |s.slots| ==>
      u.slots[i] == s.slots[i] || (s.slots[i].used && u.slots[i] == s.slots[i].(cancelRequested := true))
    ensures Inv(u) && (NoneForgotten(s.slots, s.log) ==> NoneForgotten(u.slots, u.log))
  {
    forall i | 0 <= i < |s.slots| ensures SlotOk(u.slots[i], u.log) {
      assert SlotOk(s.slots[i], s.log);
    }
    FlagsKeepInv(s, u);
  }

  lemma ClosedKeepsInv(s: State, context: nat)
    requires Inv(s)
    ensures var u := s.(log := Close(s.log, context));
      Inv(u) && (NoneForgotten(s.slots, s.log) ==> NoneForgotten(u.slots, u.log))
  {
    var u := s.(log := Close(s.log, context));
    forall i | 0 <= i < |s.slots| ensures SlotOk(u.slots[i], u.log) {
      assert SlotOk(s.slots[i], s.log);
    }
    FlagsKeepInv(s, u);
  }

  function RefusingOf(event: Event): set<nat> {
    match event
    case PollEvent(input) => input.refusing
    case Watchdog(_, refusing) => refusing
    case _ => {}
  }

  /** Every event keeps the books, whatever replies are refused; and it forgets a request of a
      live connection exactly when it calls failAsyncWrites() in a state where some refused
      live connection is not the last one refused. */
  lemma StepKeepsInv(s: State, event: Event)
    requires Inv(s)
    ensures KeptFrom(s, Next(s, event), FailsAt(s, event), RefusingOf(event))
  {
    hide Poll, FailAll, RefusedAreLast, UsedSlots;
    match event
    case PollEvent(input) => PollKeepsInv(s, input);
    case Accept(index, context, sequence, slot, generation, offset, data) =>
      AcceptKeepsInv(s, index, context, sequence, slot, generation, offset, data);
    case CancelRequest(_) => CancelKeepsInv(s, Next(s, event));
    case CancelHandle(_, _) => CancelKeepsInv(s, Next(s, event));
    case Disconnect(context) => if context != 0 { DetachKeepsInv(s, context); }
    case Watchdog(code, refusing) => FailAllKeeps(s, code, refusing);
    case ConnectionClosed(context) => ClosedKeepsInv(s, context);
    case HandlesChange(_) =>
    case OtherAutomaton(_, _) =>
  }

  /** No event of the run calls failAsyncWrites() in a state where it forgets a request. */
  predicate AllRemembered(s: State, events: seq<Event>)
    decreases |events|
  {
    events != [] ==>
      && Remembered(FailsAt(s, events[0]), RefusingOf(events[0]))
      && AllRemembered(Next(s, events[0]), events[1..])
  }

  lemma {:induction false} RunKeepsInv(s: State, events: seq<Event>)
    requires Inv(s)
    ensures Inv(Run(s, events))
    ensures NoneForgotten(s.slots, s.log) && AllRemembered(s, events) ==>
              NoneForgotten(Run(s, events).slots, Run(s, events).log)
    decreases |events|
  {
    hide Inv, NoneForgotten, Next, FailsAt, Remembered;
    if events == [] {
    } else {
      StepKeepsInv(s, events[0]);
      RunKeepsInv(Next(s, events[0]), events[1..]);
    }
  }

  // ----- The theorems over every run -----

  ghost predicate Empty(s: State) {
    && s.active == -1 && s.count == 0 && (s.bridge == Idle || s.bridge == Foreign)
    && s.log == Log([], {}) && forall p :: p in s.slots ==> p == FREE
  }

  lemma {:induction false} NoneUsed(slots: seq<AsyncWrite>)
    requires forall i :: 0 <= i < |slots| ==> slots[i] == FREE
    ensures UsedSlots(slots) == 0
  {
    if slots == [] {
    } else {
      NoneUsed(slots[1..]);
    }
  }

  lemma EmptyInv(s: State)
    requires Empty(s)
    ensures Inv(s) && NoneForgotten(s.slots, s.log)
  {
    assert forall i :: 0 <= i < |s.slots| ==> s.slots[i] in s.slots;
    NoneUsed(s.slots);
  }

  /** Through every run of polls, cancels, timeouts, late results, disconnects and recoveries,
      whatever replies are refused: an accepted WRITE never gets two final replies; SUCCESS means
      that its acknowledged windows tile the whole request; what is answered is not owed any
      more; and asyncWriteCount is the number of used slots. */
  lemma AtMostOneReply(s: State, events: seq<Event>)
    requires Empty(s)
    ensures var u := Run(s, events);
      && u.count == UsedSlots(u.slots)
      && forall t :: 0 <= t < |u.log.entries| ==>
           var e := u.log.entries[t];
           && |e.replies| <= 1
           && (e.replies == [Success] ==> Tile(e.windows, e.request.range))
           && |e.results| == |e.windows|
           && (forall i :: 0 <= i < |e.windows| ==> e.results[i].success && |e.windows[i].data| <= e.results[i].transferred)
           && (|e.replies| == 1 ==> !Owed(u.slots, t))
  {
    EmptyInv(s);
    RunKeepsInv(s, events);
    var u := Run(s, events);
    forall t | 0 <= t < |u.log.entries|
      ensures EntryOk(u.log.entries[t]) && (|u.log.entries[t].replies| == 1 ==> !Owed(u.slots, t))
    {
      assert EntryOk(u.log.entries[t]);
      if i :| 0 <= i < |u.slots| && u.slots[i].used && !u.slots[i].replied && u.slots[i].messageId == t {
        assert SlotOk(u.slots[i], u.log);
      }
    }
  }

  predicate Covers(r: Range, position: nat) {
    r.offset <= position < r.offset + |r.data|
  }

  /** The byte at a position of a file after these windows were written into it in turn. */
  function ByteAfter(before: Option<bv8>, windows: seq<Range>, position: nat): Option<bv8> {
    if windows == [] then before
    else
      var w := windows[|windows| - 1];
      if Covers(w, position) then Some(w.data[position - w.offset])
      else ByteAfter(before, windows[..|windows| - 1], position)
  }

  /** So the windows behind a SUCCESS, written one after the other, leave in the file exactly the
      bytes of the request at its offset, and every other byte as it was. */
  lemma {:induction false} TilesWriteTheRequest(windows: seq<Range>, range: Range, before: Option<bv8>, position: nat)
    requires Tile(windows, range)
    ensures ByteAfter(before, windows, position)
         == if Covers(range, position) then Some(range.data[position - range.offset]) else before
    ensures forall i :: 0 <= i < |windows| ==> windows[i].slot == range.slot
  {
    if windows == [] {
    } else {
      var front, last := windows[..|windows| - 1], windows[|windows| - 1];
      var kept := range.(data := range.data[..|range.data| - |last.data|]);
      TilesWriteTheRequest(front, kept, before, position);
      assert forall i :: 0 <= i < |front| ==> windows[i] == front[i];
    }
  }

  /** And none is forgotten, if no event fails all writes while a live connection other than the
      last refused one is refused a reply: while its connection lives, an accepted WRITE is
      either answered exactly once or still owed by a slot, never both. */
  lemma ExactlyOneReply(s: State, events: seq<Event>)
    requires Empty(s) && AllRemembered(s, events)
    ensures var u := Run(s, events);
      forall t :: 0 <= t < |u.log.entries| && u.log.entries[t].request.context !in u.log.closed ==>
        |u.log.entries[t].replies| <= 1 && (|u.log.entries[t].replies| == 1 <==> !Owed(u.slots, t))
  {
    hide Inv, AllRemembered, Empty;
    EmptyInv(s);
    RunKeepsInv(s, events);
    AtMostOneReply(s, events);
    var u := Run(s, events);
    forall t | 0 <= t < |u.log.entries| && u.log.entries[t].request.context !in u.log.closed
      ensures |u.log.entries[t].replies| <= 1 && (|u.log.entries[t].replies| == 1 <==> !Owed(u.slots, t))
    {
      assert Accounted(u.slots, u.log, t);
    }
  }

  /** The condition matters: two clients with one queued WRITE each, and a watchdog whose error
      replies are both refused. The first client is neither answered nor closed, and its slot is
      free again. */
  lemma TwoRefusalsForgetOne(s: State)
    requires s == State([FREE, FREE], -1, 0, Idle, Physical(-1, NoMode, false), [Handle(true, 1, false), Handle(true, 1, false)], Log([], {}))
    ensures var u := Run(s, [Accept(0, 7, 1, 0, 1, 0, [5]), Accept(1, 8, 2, 1, 1, 0, [6]), Watchdog(IO_TIMEOUT, {0, 1})]);
      && Empty(s) && |u.log.entries| == 2 && u.log.closed == {8} && u.slots == [FREE, FREE]
      && u.log.entries[0] == Entry(Request(7, Range(0, 0, [5])), [], [], []) && !Accounted(u.slots, u.log, 0)
  {
    var first, second, third := Accept(0, 7, 1, 0, 1, 0, [5]), Accept(1, 8, 2, 1, 1, 0, [6]), Watchdog(IO_TIMEOUT, {0, 1});
    var s1 := Next(s, first);
    var s2 := Next(s1, second);
    var u := Next(s2, third);
    var p := AsyncWrite(true, false, false, false, NoRecovery, 7, 0, 1, 0, 1, 0, 1, 0, 0, [5]);
    var q := AsyncWrite(true, false, false, false, NoRecovery, 8, 1, 2, 1, 1, 0, 1, 0, 0, [6]);
    assert s2.slots == [p, q] && s2.count == 2;
    assert s2.log.entries == [Entry(Request(7, Range(0, 0, [5])), [], [], []), Entry(Request(8, Range(1, 0, [6])), [], [], [])];
    var f0 := Initially(s2);
    var f1 := FailSlot(f0, 0, -1, false, Failed(IO_TIMEOUT), {0, 1});
    var f2 := FailSlot(f1, 1, -1, false, Failed(IO_TIMEOUT), {0, 1});
    assert FailSlots(f0, 0, -1, false, Failed(IO_TIMEOUT), {0, 1}) == f0;
    assert FailSlots(f0, 1, -1, false, Failed(IO_TIMEOUT), {0, 1}) == f1;
    assert FailSlots(f0, 2, -1, false, Failed(IO_TIMEOUT), {0, 1}) == f2;
    assert f2.slots == [FREE, FREE] && f2.contextToClose == 8;
    assert [first, second, third][1..] == [second, third] && [second, third][1..] == [third];
    assert Run(s, [first, second, third]) == Run(s1, [second, third]) == Run(s2, [third]) == u;
  }

  /** The result of CLOSE_ABORT arrives. */
  predicate AbortAnswered(s: State, event: Event) {
    && 0 <= s.active < |s.slots| && s.slots[s.active].recovery == WaitAbort
    && event.PollEvent? && event.input.result.Some?
  }

  /** The slot recovers the same request on the same channel, and no window was acknowledged. */
  ghost predicate StillRecovering(s: State, u: State)
    requires 0 <= s.active < |s.slots|
  {
    && u.active == s.active && |u.slots| == |s.slots|
    && u.slots[s.active].used && u.slots[s.active].messageId == s.slots[s.active].messageId
    && u.slots[s.active].recovery != NoRecovery
    && |s.log.entries| <= |u.log.entries|
    && forall t :: 0 <= t < |s.log.entries| ==> u.log.entries[t].windows == s.log.entries[t].windows
  }

  /** Once an error put a slot into recovery, no event frees or reuses it, starts another window
      or acknowledges one, unless it brings the result of CLOSE_ABORT. */
  lemma RecoveryHoldsTheChannel(s: State, event: Event)
    requires Inv(s) && s.active >= 0 && s.slots[s.active].recovery != NoRecovery && !AbortAnswered(s, event)
    ensures StillRecovering(s, Next(s, event))
  {
    hide FailAll, Tile, UsedSlots, Distinct, TakeWindow, StartNext;
    if event.Watchdog? {
      FailAllSlots(s, Failed(event.code), event.refusing);
      FailAllReplies(s, Failed(event.code), event.refusing);
    }
  }

  predicate AbortUnanswered(s: State, events: seq<Event>)
    decreases |events|
  {
    events != [] ==> !AbortAnswered(s, events[0]) && AbortUnanswered(Next(s, events[0]), events[1..])
  }

  /** So through every run, from the error until the result of CLOSE_ABORT. */
  lemma {:induction false} RecoveryHoldsUntilAbort(s: State, events: seq<Event>)
    requires Inv(s) && s.active >= 0 && s.slots[s.active].recovery != NoRecovery && AbortUnanswered(s, events)
    ensures StillRecovering(s, Run(s, events))
    decreases |events|
  {
    hide Next, AbortAnswered;
    if events == [] {
    } else {
      var u := Next(s, events[0]);
      RecoveryHoldsTheChannel(s, events[0]);
      StepKeepsInv(s, events[0]);
      RecoveryHoldsUntilAbort(u, events[1..]);
    }
  }

  // ----- The slots in memory -----

  class WriteQueue {
    const asyncWrites: array<AsyncWrite>
    var activeAsyncWrite: int
    var asyncWriteCount: nat
    var bridge: BridgeUse
    var physical: Physical
    var handles: seq<Handle>
    ghost var log: Log

    ghost function View(): State
      reads this, asyncWrites
    {
      State(asyncWrites[..], activeAsyncWrite, asyncWriteCount, bridge, physical, handles, log)
    }

    constructor (depth: nat, handles: seq<Handle>)
      ensures Empty(View()) && Inv(View())
    {
      asyncWrites := new AsyncWrite[depth](_ => FREE);
      activeAsyncWrite, asyncWriteCount, bridge := -1, 0, Idle;
      physical, this.handles, log := Physical(-1, NoMode, false), handles, Log([], {});
      new;
      assert forall i :: 0 <= i < asyncWrites.Length ==> asyncWrites[i] == FREE;
      EmptyInv(View());
    }

    method CompleteCancelledAsyncWrite(index: nat, closed: Physical, ghost refusing: set<nat>)
      requires index < asyncWrites.Length
      modifies this, asyncWrites
      ensures View() == CompleteCancelled(old(View()), index, closed, refusing)
    {
      if !asyncWrites[index].used {
        return;
      }
      ghost var pending := asyncWrites[index];
      if activeAsyncWrite == index {
        activeAsyncWrite := -1;
      }
      asyncWrites[index] := FREE;
      if asyncWriteCount != 0 {
        asyncWriteCount := asyncWriteCount - 1;
      }
      physical := closed;
      log := ReplyOrClose(log, pending, Cancelled, refusing);
    }

    method FindRecoveryIndex() returns (index: int)
      ensures index == RecoveryIndex(View())
    {
      if activeAsyncWrite >= 0 {
        return activeAsyncWrite;
      }
      if !physical.activeMode.WriteMode? || physical.otherActive {
        return -1;
      }
      var from := 0;
      while from < asyncWrites.Length
        invariant 0 <= from <= asyncWrites.Length
        invariant FirstOnActiveFile(View(), 0) == FirstOnActiveFile(View(), from)
      {
        var pending := asyncWrites[from];
        if pending.used && pending.slot == physical.activeSlot && 0 <= pending.slot < |handles|
           && handles[pending.slot].used && handles[pending.slot].generation == pending.generation {
          return from;
        }
        from := from + 1;
      }
      return -1;
    }

    /** Fails every queued write: one slot stays to clean up the physical file, the others go. */
    method FailAsyncWrites(status: Status, refusing: set<nat>)
      modifies this, asyncWrites
      ensures View() == FailAll(old(View()), status, refusing)
    {
      ghost var before := View();
      var recoveryIndex := FindRecoveryIndex();
      activeAsyncWrite := recoveryIndex;
      var contextToClose := 0;
      var index := 0;
      while index < asyncWrites.Length
        invariant 0 <= index <= asyncWrites.Length
        invariant activeAsyncWrite == recoveryIndex && bridge == before.bridge && physical == before.physical
        invariant Failing(asyncWrites[..], asyncWriteCount, handles, log, contextToClose)
               == FailSlots(Initially(before), index, recoveryIndex, bridge != Idle, status, refusing)
      {
        contextToClose := FailOne(index, recoveryIndex, contextToClose, status, refusing);
        index := index + 1;
      }
      log := Close(log, contextToClose);
    }

    method FailOne(index: nat, recoveryIndex: int, close: nat, status: Status, refusing: set<nat>) returns (contextToClose: nat)
      requires index < asyncWrites.Length
      modifies this, asyncWrites
      ensures activeAsyncWrite == old(activeAsyncWrite) && bridge == old(bridge) && physical == old(physical)
      ensures Failing(asyncWrites[..], asyncWriteCount, handles, log, contextToClose)
           == FailSlot(old(Failing(asyncWrites[..], asyncWriteCount, handles, log, close)),
                       index, recoveryIndex, bridge != Idle, status, refusing)
    {
      contextToClose := close;
      var pending := asyncWrites[index];
      if !pending.used {
        return;
      }
      handles := FailHandle(handles, pending);
      var needsReply := pending.context != 0 && !pending.replied;
      if index == recoveryIndex {
        var recovery := if pending.recovery != NoRecovery then pending.recovery
                        else if bridge != Idle then WaitWindow else SubmitAbort;
        asyncWrites[index] := pending.(recovery := recovery, cancelRequested := true, replied := true);
      } else {
        asyncWrites[index] := FREE;
        if asyncWriteCount != 0 {
          asyncWriteCount := asyncWriteCount - 1;
        }
      }
      if needsReply {
        log := Reply(log, pending.messageId, status, pending.messageId in refusing);
        if pending.messageId in refusing {
          contextToClose := pending.context;
        }
      }
    }

    /** The scan for a cancelled slot, which is completed. */
    method CompleteFirstCancelled(refusing: set<nat>) returns (found: bool)
      modifies this, asyncWrites
      ensures var k := FirstCancelled(old(asyncWrites[..]), 0);
        && (found <==> k < asyncWrites.Length)
        && View() == if found then CompleteCancelled(old(View()), k, old(physical), refusing) else old(View())
    {
      var index := 0;
      while index < asyncWrites.Length
        invariant 0 <= index <= asyncWrites.Length
        invariant FirstCancelled(asyncWrites[..], 0) == FirstCancelled(asyncWrites[..], index)
        invariant View() == old(View())
      {
        if asyncWrites[index].used && asyncWrites[index].cancelRequested {
          CompleteCancelledAsyncWrite(index, physical, refusing);
          return true;
        }
        index := index + 1;
      }
      found := false;
    }

    /** The tail of pollAsyncWrite(). */
    method StartNextWindow(input: Input)
      modifies this, asyncWrites
      ensures View() == StartNext(old(View()), input)
    {
      hide FirstCancelled, FirstReady, FailAll, CompleteCancelled;
      var found := CompleteFirstCancelled(input.refusing);
      if found {
        return;
      }
      var index := FindReadyAsyncWrite(input.served);
      if index == asyncWrites.Length {
        return;
      }
      var next := asyncWrites[index];
      var part := NextPart(next, input);
      var nextOffset := next.offset + next.flushed;
      if bridge != Idle || !input.ringFree || part == 0 {
        return;
      }
      if !input.started {
        physical, bridge := input.physical, if input.busyAfterReset then Foreign else Idle;
        FailAsyncWrites(Failed(IO_DEVICE_ERROR), input.refusing);
        return;
      }
      physical := Physical(next.slot, WriteMode, false);
      SubmitAt(nextOffset, if next.flushed + part <= |next.data| then next.data[next.flushed..next.flushed + part] else []);
      asyncWrites[index] := next.(inFlight := true, windowLength := part);
      activeAsyncWrite := index;
    }

    /** writeFromNetwork() into the empty ring and submitAt(), for the file that is open. */
    method SubmitAt(offset: nat, data: seq<bv8>)
      modifies this`bridge
      ensures bridge == Window(Range(physical.activeSlot, offset, data))
    {
      bridge := Window(Range(physical.activeSlot, offset, data));
    }

    /** The scan for the slot that holds the served sequence number. */
    method FindReadyAsyncWrite(served: nat) returns (index: nat)
      ensures index == FindReady(View(), served)
    {
      if activeAsyncWrite >= 0 || physical.otherActive {
        return asyncWrites.Length;
      }
      index := 0;
      while index < asyncWrites.Length
        invariant 0 <= index <= asyncWrites.Length
        invariant FirstReady(View(), served, 0) == FirstReady(View(), served, index)
      {
        var pending := asyncWrites[index];
        if pending.used && !pending.inFlight && !pending.cancelRequested && pending.sequence == served
           && served < NO_SEQUENCE && HandleIsValid(pending) {
          return;
        }
        index := index + 1;
      }
    }

    predicate HandleIsValid(pending: AsyncWrite)
      reads this
    {
      0 <= pending.slot < |handles| && handles[pending.slot].used && handles[pending.slot].generation == pending.generation
    }

    method RecoverActive(input: Input)
      requires 0 <= activeAsyncWrite < asyncWrites.Length
      modifies this, asyncWrites
      ensures View() == Recover(old(View()), input)
    {
      var pending := asyncWrites[activeAsyncWrite];
      if pending.recovery == NoRecovery {
        return;
      }
      if pending.recovery == WaitWindow {
        if input.result.None? {
          return;
        }
        bridge := Idle;
        pending := pending.(recovery := SubmitAbort);
      }
      if pending.recovery == SubmitAbort {
        if bridge == Idle && input.started {
          pending := pending.(recovery := WaitAbort);
          bridge := Abort;
        }
        asyncWrites[activeAsyncWrite] := pending;
        return;
      }
      if input.result.None? {
        return;
      }
      bridge := Idle;
      CompleteCancelledAsyncWrite(activeAsyncWrite, Physical(-1, NoMode, physical.otherActive), input.refusing);
    }

    method FinishOrContinueWrite(index: nat, input: Input)
      requires index < asyncWrites.Length
      modifies this, asyncWrites
      ensures View() == FinishOrContinue(old(View()), index, input)
    {
      var completed := asyncWrites[index];
      if completed.flushed == completed.length {
        asyncWrites[index] := FREE;
        if asyncWriteCount != 0 {
          asyncWriteCount := asyncWriteCount - 1;
        }
        if ReplyRefused(completed, input.refusing) {
          handles := FailHandle(handles, completed);
          FailAsyncWrites(Failed(IO_DEVICE_ERROR), input.refusing);
          log := Close(log, completed.context);
          return;
        }
        if !completed.replied {
          log := Reply(log, completed.messageId, Success, false);
        }
        if completed.context == 0 {
          physical := input.physical;
        }
      }
      StartNextWindow(input);
    }

    method TakeFinishedWindow(input: Input)
      requires 0 <= activeAsyncWrite < asyncWrites.Length && input.result.Some?
      modifies this, asyncWrites
      ensures View() == TakeWindow(old(View()), input)
    {
      var index := activeAsyncWrite;
      ghost var written := Carried(bridge);
      activeAsyncWrite, bridge := -1, Idle;
      var completed := asyncWrites[index];
      var result := input.result.value;
      var transferred := Minimum(result.transferred, completed.windowLength);
      var succeeded := result.success && HandleIsValid(completed) && completed.windowLength != 0
                    && transferred == completed.windowLength && !completed.cancelRequested
                    && (completed.replied || completed.context != 0);
      if !succeeded {
        if completed.cancelRequested {
          CompleteCancelledAsyncWrite(index, input.physical, input.refusing);
        } else {
          FailAsyncWrites(StatusOf(result), input.refusing);
        }
        return;
      }
      Advance(index, written, result);
      FinishOrContinueWrite(index, input);
    }

    method Advance(index: nat, ghost written: Range, ghost result: Result)
      requires index < asyncWrites.Length
      modifies this, asyncWrites
      ensures View() == Advanced(old(View()), index, written, result)
    {
      var completed := asyncWrites[index];
      log := Acknowledge(log, completed.messageId, written, result);
      asyncWrites[index] := completed.(flushed := completed.flushed + completed.windowLength, inFlight := false, windowLength := 0);
    }

    method PollAsyncWrite(input: Input)
      requires Inv(View())
      modifies this, asyncWrites
      ensures View() == Poll(old(View()), input) && Inv(View())
    {
      PollKeepsInv(View(), input);
      if activeAsyncWrite >= 0 {
        if asyncWrites[activeAsyncWrite].recovery != NoRecovery {
          RecoverActive(input);
        } else if input.result.Some? {
          TakeFinishedWindow(input);
        }
      } else {
        StartNextWindow(input);
      }
    }
  }
}

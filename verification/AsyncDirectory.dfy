/** The cold QUERY_DIRECTORY automaton (pollAsyncDirectory in src/smb_server.cpp): one Open lists
    a directory through the single physical FINDNEXT cursor, collecting entries into batches,
    carrying an entry that did not fit over to the next reply, and reopening the directory and
    replaying what was already read whenever another operation took the channel in between. */
module AsyncDirectory {
  import opened Common
  import opened Wildcard

  datatype Entry = Entry(name: string, isDirectory: bool, size: nat)

  const BATCH_CAPACITY: nat := 64

  /** fixedPart is the size of one encoded entry without its name (0: class not supported); an
      empty name keeps the search pattern. */
  datatype Query = Query(outputBufferLength: nat, fixedPart: nat, single: bool, restart: bool, name: string)

  datatype Phase = Prepare | CloseCommit | Open | Replay | Read

  datatype Handle = Handle(index: nat, ended: bool, carried: Option<Entry>, pattern: string)

  datatype Pending = Pending(
    query: Query, prepared: bool, inFlight: bool, phase: Phase, replayRemaining: nat,
    batch: seq<Entry>, batchEncoded: nat)

  /** mine: FILEX has this Open's directory open; foreignFile: another Open's file, which must be
      closed first; cursor: how many entries FINDNEXT has delivered since the directory was opened. */
  datatype Channel = Channel(mine: bool, foreignFile: bool, cursor: nat)

  datatype Reply = Entries(query: Query, entries: seq<Entry>) | NoMoreFiles | BufferTooSmall

  /** History: all replies, one for each query in turn, and for every entry read the number of the
      query it was read for. delivered and applied are auxiliary variables of the proof for the
      scan since the last restart: the entries handed out, and the pattern for each entry read. */
  datatype Log = Log(replies: seq<Reply>, readFor: seq<nat>, delivered: seq<Entry>, applied: seq<string>)

  /** batchMemory: the batch buffers could be allocated when the server started. */
  datatype State = State(
    handle: Handle, queue: seq<Query>, active: Option<Pending>, channel: Channel, batchMemory: bool, log: Log)

  /** What one call meets: whether the bridge has a result, whether another request holds the
      bridge, and whether the reply budget of a non-empty batch has run out. */
  datatype Input = Input(ready: bool, busy: bool, due: bool)

  function PadTo8(n: nat): nat {
    (n + 7) / 8 * 8
  }

  function EncodedSize(query: Query, name: string): nat {
    if query.fixedPart == 0 then 0 else PadTo8(query.fixedPart + 2 * |name|)
  }

  /** The size of a reply that holds the entries one after another. */
  function EncodedTotal(query: Query, entries: seq<Entry>): nat {
    if entries == [] then 0
    else EncodedTotal(query, entries[..|entries| - 1]) + EncodedSize(query, entries[|entries| - 1].name)
  }

  // ----- Replies -----

  function SendEntries(s: State, query: Query, entries: seq<Entry>): State {
    s.(active := None,
       log := s.log.(replies := s.log.replies + [Entries(query, entries)], delivered := s.log.delivered + entries))
  }

  function SendStatus(s: State, reply: Reply): State {
    s.(active := None, log := s.log.(replies := s.log.replies + [reply]))
  }

  // ----- The physical results -----

  /** FINDNEXT: the entry under the cursor, or the end of the directory. */
  function UnderCursor(dir: seq<Entry>, channel: Channel): Option<Entry> {
    if channel.cursor < |dir| then Some(dir[channel.cursor]) else None
  }

  /** kRead took an entry: count it, then filter, carry over, batch or answer. The second part of
      the result says whether the call goes on to submit the next request. */
  function ReadEntry(s: State, p: Pending, entry: Entry, input: Input): (State, bool) {
    var h := s.handle.(index := s.handle.index + 1);
    var t := s.(handle := h, log := s.log.(applied := s.log.applied + [h.pattern], readFor := s.log.readFor + [|s.log.replies|]));
    if !Accepts(h.pattern, entry.name) then
      if p.batch != [] && input.due then (SendEntries(t, p.query, p.batch), false)
      else (t.(active := Some(p)), true)
    else
      var encoded := EncodedSize(p.query, entry.name);
      if encoded == 0 || p.batchEncoded + encoded > p.query.outputBufferLength then
        var u := t.(handle := h.(carried := Some(entry)));
        if p.batch != [] then (SendEntries(u, p.query, p.batch), false) else (SendStatus(u, BufferTooSmall), false)
      else if !s.batchMemory || |p.batch| >= BATCH_CAPACITY then (SendEntries(t, p.query, [entry]), false)
      else
        var q := p.(batch := p.batch + [entry], batchEncoded := p.batchEncoded + encoded);
        if p.query.single || |q.batch| >= BATCH_CAPACITY || input.due then (SendEntries(t, q.query, q.batch), false)
        else (t.(active := Some(q)), true)
  }

  function TakeResult(s: State, p: Pending, dir: seq<Entry>, input: Input): (State, bool) {
    match p.phase
    case Prepare => (s.(active := Some(p)), true)
    case CloseCommit =>
      (s.(channel := s.channel.(mine := false, foreignFile := false), active := Some(p.(phase := Open))), true)
    case Open =>
      var replay := s.handle.index;
      (s.(channel := Channel(true, false, 0),
          active := Some(p.(replayRemaining := replay, phase := if replay == 0 then Read else Replay))), true)
    case Replay =>
      (match UnderCursor(dir, s.channel)
       case None => (SendStatus(s.(handle := s.handle.(ended := true)), NoMoreFiles), false)
       case Some(_) =>
         var left := if p.replayRemaining != 0 then p.replayRemaining - 1 else 0;
         (s.(channel := s.channel.(cursor := s.channel.cursor + 1),
             active := Some(p.(replayRemaining := left, phase := if left == 0 then Read else Replay))), true))
    case Read =>
      (match UnderCursor(dir, s.channel)
       case None =>
         var t := s.(handle := s.handle.(ended := true));
         (if p.batch != [] then SendEntries(t, p.query, p.batch) else SendStatus(t, NoMoreFiles), false)
       case Some(entry) =>
         ReadEntry(s.(channel := s.channel.(cursor := s.channel.cursor + 1)), p, entry, input))
  }

  // ----- The rest of the call: prepare, answer from memory, or submit -----

  function PrepareQuery(s: State, p: Pending): (State, Pending) {
    if p.prepared then (s, p)
    else
      var t := if p.query.restart then
          s.(handle := s.handle.(index := 0, ended := false, carried := None),
             channel := s.channel.(mine := false), log := s.log.(delivered := [], applied := []))
        else s;
      var u := if p.query.name != "" then t.(handle := t.handle.(pattern := p.query.name)) else t;
      (u, p.(prepared := true, phase := Prepare))
  }

  function Submit(s: State, p: Pending, input: Input): State {
    if input.busy then s.(active := Some(p))
    else if !s.channel.mine then
      if s.channel.foreignFile then s.(active := Some(p.(phase := CloseCommit, inFlight := true)))
      else s.(active := Some(p.(phase := Open, inFlight := true)))
    else s.(active := Some(p.(phase := if p.phase == Replay then Replay else Read, inFlight := true)))
  }

  function Advance(s: State, p: Pending, input: Input): State {
    var (t, q) := PrepareQuery(s, p);
    if t.handle.ended then SendStatus(t, NoMoreFiles)
    else if t.handle.carried.Some? then
      var entry := t.handle.carried.value;
      var encoded := EncodedSize(q.query, entry.name);
      if encoded == 0 || encoded > q.query.outputBufferLength then SendStatus(t, BufferTooSmall)
      else SendEntries(t.(handle := t.handle.(carried := None)), q.query, [entry])
    else Submit(t, q, input)
  }

  /** pollAsyncDirectory() on a run where no request fails, times out or is cancelled. */
  function Poll(s: State, dir: seq<Entry>, input: Input): State {
    match s.active
    case None =>
      if s.queue == [] || input.busy then s
      else Advance(s.(queue := s.queue[1..]), Pending(s.queue[0], false, false, Prepare, 0, [], 0), input)
    case Some(p) =>
      if !p.inFlight then Advance(s, p, input)
      else if !input.ready then s
      else
        var (t, more) := TakeResult(s, p.(inFlight := false), dir, input);
        if more && t.active.Some? then Advance(t, t.active.value, input) else t
  }

  datatype Event =
    | NewQuery(query: Query)
    | PollEvent(input: Input)
    | OtherTookChannel(foreignFile: bool)

  function Next(s: State, dir: seq<Entry>, event: Event): State {
    match event
    case NewQuery(query) => s.(queue := s.queue + [query])
    case PollEvent(input) => Poll(s, dir, input)
    case OtherTookChannel(foreignFile) =>
      // never while this automaton's own request is on the bridge
      if s.active.Some? && s.active.value.inFlight then s
      else s.(channel := s.channel.(mine := false, foreignFile := foreignFile))
  }

  function Run(s: State, dir: seq<Entry>, events: seq<Event>): State
    decreases |events|
  {
    if events == [] then s else Run(Next(s, dir, events[0]), dir, events[1..])
  }

  // ----- The invariant -----

  /** The entries that the patterns in force let through, in directory order. */
  function Selected(entries: seq<Entry>, applied: seq<string>): seq<Entry>
    requires |entries| == |applied|
  {
    if entries == [] then []
    else
      var n := |entries| - 1;
      Selected(entries[..n], applied[..n]) + (if Accepts(applied[n], entries[n].name) then [entries[n]] else [])
  }

  function Carried(h: Handle): seq<Entry> {
    if h.carried.Some? then [h.carried.value] else []
  }

  function Batched(active: Option<Pending>): seq<Entry> {
    if active.Some? then active.value.batch else []
  }

  /** Handed out, then collected in the batch, then carried over: exactly what was read and let through. */
  ghost predicate Conserved(dir: seq<Entry>, h: Handle, batch: seq<Entry>, log: Log) {
    && h.index == |log.applied| <= |dir|
    && log.delivered + batch + Carried(h) == Selected(dir[..h.index], log.applied)
    && (h.carried.Some? ==> batch == [])
    && (h.ended ==> h.index == |dir| && h.carried.None? && batch == [])
  }

  ghost predicate BatchOk(p: Pending, batchMemory: bool) {
    && p.batchEncoded == EncodedTotal(p.query, p.batch) <= p.query.outputBufferLength
    && |p.batch| < BATCH_CAPACITY
    && (p.batch != [] ==> p.prepared && batchMemory)
    && (!p.prepared ==> p.phase == Prepare && !p.inFlight)
  }

  /** How far the physical cursor is from the next entry to read. */
  ghost predicate CursorOk(p: Pending, h: Handle, c: Channel) {
    c.mine ==>
      if p.phase == Replay then 0 < p.replayRemaining <= h.index && c.cursor == h.index - p.replayRemaining
      else c.cursor == h.index
  }

  ghost predicate FlightOk(p: Pending, h: Handle, c: Channel) {
    && (p.phase != Prepare ==> h.carried.None? && !h.ended && p.prepared)
    && (p.inFlight ==> p.phase != Prepare && (c.mine <==> p.phase == Read || p.phase == Replay))
  }

  ghost predicate PendingOk(p: Pending, h: Handle, c: Channel, batchMemory: bool) {
    BatchOk(p, batchMemory) && CursorOk(p, h, c) && FlightOk(p, h, c)
  }

  /** No reply is empty or larger than the client's buffer. */
  ghost predicate RepliesFit(replies: seq<Reply>) {
    forall r :: r in replies && r.Entries? ==>
      r.entries != [] && EncodedTotal(r.query, r.entries) <= r.query.outputBufferLength
  }

  ghost predicate Inv(s: State, dir: seq<Entry>) {
    && Conserved(dir, s.handle, Batched(s.active), s.log)
    && RepliesFit(s.log.replies)
    && (match s.active
        case None => s.channel.mine ==> s.channel.cursor == s.handle.index
        case Some(p) => PendingOk(p, s.handle, s.channel, s.batchMemory))
  }

  lemma SelectedStep(dir: seq<Entry>, n: nat, applied: seq<string>, pattern: string)
    requires n < |dir| && |applied| == n
    ensures Selected(dir[..n + 1], applied + [pattern])
         == Selected(dir[..n], applied) + (if Accepts(pattern, dir[n].name) then [dir[n]] else [])
  {
    assert dir[..n + 1][..n] == dir[..n];
    assert (applied + [pattern])[..n] == applied;
  }

  lemma EncodedStep(query: Query, entries: seq<Entry>, entry: Entry)
    ensures EncodedTotal(query, entries + [entry]) == EncodedTotal(query, entries) + EncodedSize(query, entry.name)
  {
    assert (entries + [entry])[..|entries|] == entries;
  }

  /** After one more entry was read, what was let through grows by it or stays. */
  lemma ConservedAfterRead(dir: seq<Entry>, h: Handle, batch: seq<Entry>, log: Log, h': Handle, batch': seq<Entry>, log': Log)
    requires Conserved(dir, h, batch, log) && h.index < |dir| && h.carried.None? && !h.ended
    requires h' == h.(index := h.index + 1, carried := h'.carried)
    requires log'.applied == log.applied + [h.pattern]
    requires log'.delivered + batch' + Carried(h') == log.delivered + batch
               + if Accepts(h.pattern, dir[h.index].name) then [dir[h.index]] else []
    requires h'.carried.Some? ==> batch' == []
    ensures Conserved(dir, h', batch', log')
  {
    SelectedStep(dir, h.index, log.applied, h.pattern);
    assert log.delivered + batch + Carried(h) == log.delivered + batch;
  }

  lemma ReadEntryConserves(s: State, p: Pending, dir: seq<Entry>, input: Input)
    requires Conserved(dir, s.handle, p.batch, s.log) && s.handle.index < |dir|
    requires s.handle.carried.None? && !s.handle.ended && BatchOk(p, s.batchMemory)
    ensures var t := ReadEntry(s, p, dir[s.handle.index], input).0;
      Conserved(dir, t.handle, Batched(t.active), t.log)
  {
    var entry := dir[s.handle.index];
    var t := ReadEntry(s, p, entry, input).0;
    var d, b := s.log.delivered, p.batch;
    if !Accepts(s.handle.pattern, entry.name) {
      assert t.log.delivered + Batched(t.active) + Carried(t.handle) == d + b + [];
    } else {
      assert d + (b + [entry]) == d + b + [entry];
      assert t.log.delivered + Batched(t.active) + Carried(t.handle) == d + b + [entry];
    }
    ConservedAfterRead(dir, s.handle, b, s.log, t.handle, Batched(t.active), t.log);
  }

  lemma ReadEntryKeepsPending(s: State, p: Pending, entry: Entry, input: Input)
    requires BatchOk(p, s.batchMemory) && p.prepared && !p.inFlight && p.phase == Read
    requires s.channel.mine && s.channel.cursor == s.handle.index + 1
    requires s.handle.carried.None? && !s.handle.ended && RepliesFit(s.log.replies)
    ensures var (t, more) := ReadEntry(s, p, entry, input);
      && RepliesFit(t.log.replies)
      && t.channel == s.channel && t.batchMemory == s.batchMemory && t.handle.index == s.handle.index + 1
      && (t.active.Some? <==> more)
      && (more ==> PendingOk(t.active.value, t.handle, t.channel, t.batchMemory) && !t.active.value.inFlight)
  {
    hide Accepts, EncodedTotal;
    EncodedStep(p.query, p.batch, entry);
    EncodedStep(p.query, [], entry);
    assert [] + [entry] == [entry];
  }

  lemma TakeResultKeepsInv(s: State, p: Pending, dir: seq<Entry>, input: Input)
    requires s.active == Some(p) && p.inFlight && Inv(s, dir)
    ensures var (t, more) := TakeResult(s, p.(inFlight := false), dir, input);
      Inv(t, dir) && (more ==> t.active.Some? && !t.active.value.inFlight)
  {
    hide ReadEntry, Selected, EncodedTotal;
    var q := p.(inFlight := false);
    var (t, more) := TakeResult(s, q, dir, input);
    if p.phase == Read && s.channel.cursor < |dir| {
      var u := s.(channel := s.channel.(cursor := s.channel.cursor + 1));
      ReadEntryConserves(u, q, dir, input);
      ReadEntryKeepsPending(u, q, dir[s.handle.index], input);
    } else if p.phase == Read {
      assert s.log.delivered + p.batch + [] + [] == s.log.delivered + p.batch + [];
    }
  }

  lemma PrepareKeepsInv(s: State, p: Pending, dir: seq<Entry>)
    requires Conserved(dir, s.handle, p.batch, s.log) && PendingOk(p, s.handle, s.channel, s.batchMemory) && !p.inFlight
    ensures var (t, q) := PrepareQuery(s, p);
      && Conserved(dir, t.handle, q.batch, t.log) && PendingOk(q, t.handle, t.channel, t.batchMemory)
      && q.prepared && !q.inFlight && t.batchMemory == s.batchMemory && t.log.replies == s.log.replies
  {
    assert dir[..0] == [];
    assert [] + p.batch + [] == p.batch;
  }

  lemma SubmitKeepsInv(s: State, p: Pending, dir: seq<Entry>, input: Input)
    requires Conserved(dir, s.handle, p.batch, s.log) && PendingOk(p, s.handle, s.channel, s.batchMemory)
    requires RepliesFit(s.log.replies) && p.prepared && !p.inFlight && s.handle.carried.None? && !s.handle.ended
    ensures Inv(Submit(s, p, input), dir)
  {
  }

  lemma CarriedKeepsInv(s: State, p: Pending, dir: seq<Entry>)
    requires Conserved(dir, s.handle, p.batch, s.log) && PendingOk(p, s.handle, s.channel, s.batchMemory)
    requires RepliesFit(s.log.replies) && s.handle.carried.Some?
    requires 0 < EncodedSize(p.query, s.handle.carried.value.name) <= p.query.outputBufferLength
    ensures Inv(SendEntries(s.(handle := s.handle.(carried := None)), p.query, [s.handle.carried.value]), dir)
  {
    var entry := s.handle.carried.value;
    assert s.log.delivered + [] + [entry] == s.log.delivered + [entry] + [] + [];
    EncodedStep(p.query, [], entry);
    assert [] + [entry] == [entry];
  }

  lemma AdvanceKeepsInv(s: State, p: Pending, dir: seq<Entry>, input: Input)
    requires Conserved(dir, s.handle, p.batch, s.log) && PendingOk(p, s.handle, s.channel, s.batchMemory) && !p.inFlight
    requires RepliesFit(s.log.replies)
    ensures Inv(Advance(s, p, input), dir)
  {
    PrepareKeepsInv(s, p, dir);
    var (t, q) := PrepareQuery(s, p);
    if !t.handle.ended {
      if t.handle.carried.None? {
        SubmitKeepsInv(t, q, dir, input);
      } else if 0 < EncodedSize(q.query, t.handle.carried.value.name) <= q.query.outputBufferLength {
        CarriedKeepsInv(t, q, dir);
      }
    }
  }

  lemma PollKeepsInv(s: State, dir: seq<Entry>, input: Input)
    requires Inv(s, dir)
    ensures Inv(Poll(s, dir, input), dir)
  {
    match s.active
    case None =>
      if s.queue != [] && !input.busy {
        var p := Pending(s.queue[0], false, false, Prepare, 0, [], 0);
        AdvanceKeepsInv(s.(queue := s.queue[1..]), p, dir, input);
      }
    case Some(p) =>
      if !p.inFlight {
        AdvanceKeepsInv(s, p, dir, input);
      } else if input.ready {
        TakeResultKeepsInv(s, p, dir, input);
        var (t, more) := TakeResult(s, p.(inFlight := false), dir, input);
        if more {
          AdvanceKeepsInv(t, t.active.value, dir, input);
        }
      }
  }

  lemma StepKeepsInv(s: State, dir: seq<Entry>, event: Event)
    requires Inv(s, dir)
    ensures Inv(Next(s, dir, event), dir)
  {
    if event.PollEvent? {
      PollKeepsInv(s, dir, event.input);
    }
  }

  lemma {:induction false} RunKeepsInv(s: State, dir: seq<Entry>, events: seq<Event>)
    requires Inv(s, dir)
    ensures Inv(Run(s, dir, events), dir)
    decreases |events|
  {
    if events == [] {
    } else {
      StepKeepsInv(s, dir, events[0]);
      RunKeepsInv(Next(s, dir, events[0]), dir, events[1..]);
    }
  }

  // ----- The theorems over every run -----

  function Opened(pattern: string, batchMemory: bool): State {
    State(Handle(0, false, None, pattern), [], None, Channel(false, false, 0), batchMemory, Log([], [], [], []))
  }

  /** For any buffer sizes, batch cut-offs, carried entries and context switches: what one Open was
      given since its last restart, with what is batched or carried, is exactly the part of the
      directory already read that the patterns let through, each entry once and in order; after the
      end was seen it is all of it; and no reply overflows the client's buffer. */
  lemma ListingIsExactlyOnce(dir: seq<Entry>, pattern: string, batchMemory: bool, events: seq<Event>)
    ensures var u := Run(Opened(pattern, batchMemory), dir, events);
      && u.handle.index == |u.log.applied| <= |dir|
      && u.log.delivered + Batched(u.active) + Carried(u.handle) == Selected(dir[..u.handle.index], u.log.applied)
      && (u.handle.ended ==> u.handle.index == |dir| && u.log.delivered == Selected(dir, u.log.applied))
      && RepliesFit(u.log.replies)
  {
    assert dir[..0] == [];
    RunKeepsInv(Opened(pattern, batchMemory), dir, events);
    var u := Run(Opened(pattern, batchMemory), dir, events);
    if u.handle.ended {
      assert dir[..|dir|] == dir;
      assert u.log.delivered + [] + [] == u.log.delivered;
    }
  }

  function Filter(entries: seq<Entry>, pattern: string): seq<Entry> {
    if entries == [] then []
    else
      var n := |entries| - 1;
      Filter(entries[..n], pattern) + (if Accepts(pattern, entries[n].name) then [entries[n]] else [])
  }

  function Flatten(replies: seq<Reply>): seq<Entry> {
    if replies == [] then []
    else
      var n := |replies| - 1;
      Flatten(replies[..n]) + (if replies[n].Entries? then replies[n].entries else [])
  }

  lemma {:induction false} SelectedIsFilter(entries: seq<Entry>, applied: seq<string>, pattern: string)
    requires |entries| == |applied| && forall i :: 0 <= i < |applied| ==> applied[i] == pattern
    ensures Selected(entries, applied) == Filter(entries, pattern)
  {
    if entries == [] {
    } else {
      var n := |entries| - 1;
      SelectedIsFilter(entries[..n], applied[..n], pattern);
    }
  }

  /** A plain scan: no query restarts it or changes its pattern. */
  predicate PlainQuery(query: Query, pattern: string) {
    !query.restart && (query.name == "" || query.name == pattern)
  }

  ghost predicate PlainLog(h: Handle, log: Log, pattern: string) {
    && h.pattern == pattern && (forall i :: 0 <= i < |log.applied| ==> log.applied[i] == pattern)
    && Flatten(log.replies) == log.delivered
    && (NoMoreFiles in log.replies ==> h.ended)
  }

  ghost predicate PlainQueue(queue: seq<Query>, pattern: string) {
    forall i :: 0 <= i < |queue| ==> PlainQuery(queue[i], pattern)
  }

  ghost predicate Plain(s: State, pattern: string) {
    && PlainLog(s.handle, s.log, pattern) && PlainQueue(s.queue, pattern)
    && (s.active.Some? ==> PlainQuery(s.active.value.query, pattern))
  }

  lemma FlattenStep(replies: seq<Reply>, r: Reply)
    ensures Flatten(replies + [r]) == Flatten(replies) + (if r.Entries? then r.entries else [])
  {
    assert (replies + [r])[..|replies|] == replies;
  }

  lemma SendsStayPlain(s: State, pattern: string, query: Query, entries: seq<Entry>)
    requires PlainLog(s.handle, s.log, pattern)
    ensures PlainLog(s.handle, SendEntries(s, query, entries).log, pattern)
    ensures PlainLog(s.handle, SendStatus(s, BufferTooSmall).log, pattern)
    ensures s.handle.ended ==> PlainLog(s.handle, SendStatus(s, NoMoreFiles).log, pattern)
  {
    FlattenStep(s.log.replies, Entries(query, entries));
    FlattenStep(s.log.replies, BufferTooSmall);
    FlattenStep(s.log.replies, NoMoreFiles);
    assert s.log.delivered + [] == s.log.delivered;
  }

  lemma AdvanceStaysPlain(s: State, p: Pending, pattern: string, input: Input)
    requires PlainLog(s.handle, s.log, pattern) && PlainQueue(s.queue, pattern) && PlainQuery(p.query, pattern)
    ensures Plain(Advance(s, p, input), pattern)
  {
    hide Flatten;
    var (t, q) := PrepareQuery(s, p);
    if t.handle.carried.Some? && !t.handle.ended {
      SendsStayPlain(t.(handle := t.handle.(carried := None)), pattern, q.query, [t.handle.carried.value]);
    }
    SendsStayPlain(t, pattern, q.query, []);
  }

  lemma ReadEntryStaysPlain(s: State, p: Pending, entry: Entry, pattern: string, input: Input)
    requires PlainLog(s.handle, s.log, pattern)
    ensures var t := ReadEntry(s, p, entry, input).0;
      && PlainLog(t.handle, t.log, pattern) && t.queue == s.queue
      && (t.active.Some? ==> t.active.value.query == p.query)
  {
    hide Accepts, Flatten;
    var h := s.handle.(index := s.handle.index + 1);
    var t := s.(handle := h, log := s.log.(applied := s.log.applied + [h.pattern], readFor := s.log.readFor + [|s.log.replies|]));
    assert PlainLog(h, t.log, pattern);
    var encoded := EncodedSize(p.query, entry.name);
    if !Accepts(h.pattern, entry.name) {
      SendsStayPlain(t, pattern, p.query, p.batch);
    } else if encoded == 0 || p.batchEncoded + encoded > p.query.outputBufferLength {
      SendsStayPlain(t.(handle := h.(carried := Some(entry))), pattern, p.query, p.batch);
    } else if !s.batchMemory || |p.batch| >= BATCH_CAPACITY {
      SendsStayPlain(t, pattern, p.query, [entry]);
    } else {
      SendsStayPlain(t, pattern, p.query, p.batch + [entry]);
    }
  }

  lemma TakeResultStaysPlain(s: State, p: Pending, dir: seq<Entry>, pattern: string, input: Input)
    requires PlainLog(s.handle, s.log, pattern)
    ensures var t := TakeResult(s, p, dir, input).0;
      && PlainLog(t.handle, t.log, pattern) && t.queue == s.queue
      && (t.active.Some? ==> t.active.value.query == p.query)
  {
    if p.phase == Read && s.channel.cursor < |dir| {
      ReadEntryStaysPlain(s.(channel := s.channel.(cursor := s.channel.cursor + 1)), p, dir[s.channel.cursor], pattern, input);
    } else {
      SendsStayPlain(s.(handle := s.handle.(ended := true)), pattern, p.query, p.batch);
    }
  }

  lemma StepStaysPlain(s: State, dir: seq<Entry>, event: Event, pattern: string)
    requires Plain(s, pattern) && (event.NewQuery? ==> PlainQuery(event.query, pattern))
    ensures Plain(Next(s, dir, event), pattern)
  {
    if event.PollEvent? {
      if s.active.None? {
        if s.queue != [] && !event.input.busy {
          AdvanceStaysPlain(s.(queue := s.queue[1..]), Pending(s.queue[0], false, false, Prepare, 0, [], 0), pattern, event.input);
        }
      } else if !s.active.value.inFlight {
        AdvanceStaysPlain(s, s.active.value, pattern, event.input);
      } else if event.input.ready {
        var p := s.active.value.(inFlight := false);
        TakeResultStaysPlain(s, p, dir, pattern, event.input);
        var (t, more) := TakeResult(s, p, dir, event.input);
        if more && t.active.Some? {
          AdvanceStaysPlain(t, t.active.value, pattern, event.input);
        }
      }
    }
  }

  lemma {:induction false} RunStaysPlain(s: State, dir: seq<Entry>, events: seq<Event>, pattern: string)
    requires Plain(s, pattern) && forall e :: e in events && e.NewQuery? ==> PlainQuery(e.query, pattern)
    ensures Plain(Run(s, dir, events), pattern)
    decreases |events|
  {
    if events == [] {
    } else {
      assert events[0] in events;
      StepStaysPlain(s, dir, events[0], pattern);
      RunStaysPlain(Next(s, dir, events[0]), dir, events[1..], pattern);
    }
  }

  /** The entries whose names the mask means (names on FAT never contain a star). */
  function Meant(entries: seq<Entry>, pattern: string): seq<Entry> {
    if entries == [] then []
    else
      var n := |entries| - 1;
      Meant(entries[..n], pattern) + (if Matches(pattern, entries[n].name) then [entries[n]] else [])
  }

  lemma {:induction false} FilterIsMeant(entries: seq<Entry>, pattern: string)
    requires forall i :: 0 <= i < |entries| ==> '*' !in entries[i].name
    ensures Filter(entries, pattern) == Meant(entries, pattern)
  {
    hide Accepts, Matches;
    if entries == [] {
    } else {
      var n := |entries| - 1;
      FilterIsMeant(entries[..n], pattern);
      AcceptsWhatTheMaskMeans(pattern, entries[n].name);
    }
  }

  ghost predicate StarFree(dir: seq<Entry>) {
    forall i :: 0 <= i < |dir| ==> '*' !in dir[i].name
  }

  /** The concatenation of all replies of one scan is a prefix of the filtered directory, and once
      the client was told NO_MORE_FILES it is the whole of it; for names without a star the filter
      is what the mask means. */
  lemma RepliesConcatenateToFilter(dir: seq<Entry>, pattern: string, batchMemory: bool, events: seq<Event>)
    requires forall e :: e in events && e.NewQuery? ==> PlainQuery(e.query, pattern)
    ensures var u := Run(Opened(pattern, batchMemory), dir, events);
      && u.handle.index <= |dir|
      && Flatten(u.log.replies) + Batched(u.active) + Carried(u.handle) == Filter(dir[..u.handle.index], pattern)
      && (NoMoreFiles in u.log.replies ==> Flatten(u.log.replies) == Filter(dir, pattern))
      && (StarFree(dir) ==>
          && Filter(dir[..u.handle.index], pattern) == Meant(dir[..u.handle.index], pattern)
          && Filter(dir, pattern) == Meant(dir, pattern))
  {
    ListingIsExactlyOnce(dir, pattern, batchMemory, events);
    RunStaysPlain(Opened(pattern, batchMemory), dir, events, pattern);
    var u := Run(Opened(pattern, batchMemory), dir, events);
    SelectedIsFilter(dir[..u.handle.index], u.log.applied, pattern);
    assert dir[..|dir|] == dir;
    if StarFree(dir) {
      FilterIsMeant(dir[..u.handle.index], pattern);
      FilterIsMeant(dir, pattern);
    }
  }

  // ----- The same told by the queries alone -----

  /** The queries of a run, in order. */
  function Queries(events: seq<Event>): seq<Query> {
    if events == [] then []
    else (if events[0].NewQuery? then [events[0].query] else []) + Queries(events[1..])
  }

  /** Where the scan that the n-th query belongs to began: at the last restart, or at the first query. */
  function ScanStart(queries: seq<Query>, n: nat): (start: nat)
    ensures start <= n && (0 < n ==> start < n)
  {
    if n == 0 then 0
    else if n <= |queries| && queries[n - 1].restart then n - 1
    else if n == 1 then 0
    else ScanStart(queries, n - 1)
  }

  /** The pattern in force after n queries: the last name given, or the one the Open began with. */
  function PatternAfter(pattern: string, queries: seq<Query>, n: nat): string {
    if n == 0 then pattern
    else if n <= |queries| && queries[n - 1].name != "" then queries[n - 1].name
    else PatternAfter(pattern, queries, n - 1)
  }

  /** The patterns in force when the entries of a scan were read. */
  function PatternsOfScan(readFor: seq<nat>, start: nat, pattern: string, queries: seq<Query>): seq<string> {
    if readFor == [] then []
    else
      var n := |readFor| - 1;
      PatternsOfScan(readFor[..n], start, pattern, queries)
      + (if start <= readFor[n] then [PatternAfter(pattern, queries, readFor[n] + 1)] else [])
  }

  /** The auxiliary variables, once n queries were taken up, are what the history says. */
  ghost predicate Tells(h: Handle, log: Log, queries: seq<Query>, n: nat, pattern: string) {
    var start := ScanStart(queries, n);
    && n <= |queries| && h.pattern == PatternAfter(pattern, queries, n)
    && start <= |log.replies| <= n <= |log.replies| + 1
    && log.delivered == Flatten(log.replies[start..])
    && log.applied == PatternsOfScan(log.readFor, start, pattern, queries)
    && (forall i :: 0 <= i < |log.readFor| ==> log.readFor[i] < n)
    && (forall i :: 0 <= i < |log.replies| && log.replies[i].Entries? ==> log.replies[i].query == queries[i])
  }

  /** While query number |replies| is worked on. */
  ghost predicate Working(s: State, p: Pending, queries: seq<Query>, coming: seq<Query>, pattern: string) {
    var n := |s.log.replies|;
    && n < |queries| && queries[n] == p.query && queries[n + 1..] == s.queue + coming
    && Tells(s.handle, s.log, queries, if p.prepared then n + 1 else n, pattern)
  }

  ghost predicate Story(s: State, queries: seq<Query>, coming: seq<Query>, pattern: string) {
    match s.active
    case None =>
      var n := |s.log.replies|;
      && n <= |queries| && queries[n..] == s.queue + coming && Tells(s.handle, s.log, queries, n, pattern)
      && (n > 0 && s.log.replies[n - 1] == NoMoreFiles ==> s.handle.ended)
    case Some(p) => p.prepared && Working(s, p, queries, coming, pattern)
  }

  lemma ReplyTells(s: State, p: Pending, queries: seq<Query>, coming: seq<Query>, pattern: string, entries: seq<Entry>)
    requires Working(s, p, queries, coming, pattern) && p.prepared
    ensures Story(SendEntries(s, p.query, entries), queries, coming, pattern)
    ensures Story(SendStatus(s, BufferTooSmall), queries, coming, pattern)
    ensures s.handle.ended ==> Story(SendStatus(s, NoMoreFiles), queries, coming, pattern)
  {
    hide Tells;
    LogTells(s.handle, s.log, queries, pattern, Entries(p.query, entries));
    LogTells(s.handle, s.log, queries, pattern, BufferTooSmall);
    LogTells(s.handle, s.log, queries, pattern, NoMoreFiles);
    assert queries[|s.log.replies|..][1..] == queries[|s.log.replies| + 1..];
  }

  /** A reply goes to the query that is worked on. */
  lemma LogTells(h: Handle, log: Log, queries: seq<Query>, pattern: string, reply: Reply)
    requires Tells(h, log, queries, |log.replies| + 1, pattern)
    requires reply.Entries? ==> reply.query == queries[|log.replies|]
    ensures var after := log.(replies := log.replies + [reply],
                              delivered := if reply.Entries? then log.delivered + reply.entries else log.delivered);
      Tells(h, after, queries, |log.replies| + 1, pattern)
  {
    hide PatternAfter, PatternsOfScan, Flatten, ScanStart;
    OneMoreReply(log.replies, ScanStart(queries, |log.replies| + 1), reply);
  }

  lemma OneMoreReply(replies: seq<Reply>, start: nat, reply: Reply)
    requires start <= |replies|
    ensures Flatten((replies + [reply])[start..])
         == if reply.Entries? then Flatten(replies[start..]) + reply.entries else Flatten(replies[start..])
  {
    hide Flatten;
    assert (replies + [reply])[start..] == replies[start..] + [reply];
    FlattenStep(replies[start..], reply);
    assert Flatten(replies[start..]) + [] == Flatten(replies[start..]);
  }

  lemma {:induction false} NothingReadYet(readFor: seq<nat>, start: nat, pattern: string, queries: seq<Query>)
    requires forall i :: 0 <= i < |readFor| ==> readFor[i] < start
    ensures PatternsOfScan(readFor, start, pattern, queries) == []
  {
    if readFor == [] {
    } else {
      NothingReadYet(readFor[..|readFor| - 1], start, pattern, queries);
    }
  }

  lemma PrepareTells(s: State, p: Pending, queries: seq<Query>, coming: seq<Query>, pattern: string)
    requires Working(s, p, queries, coming, pattern)
    ensures var (t, q) := PrepareQuery(s, p);
      && Working(t, q, queries, coming, pattern) && q.prepared && q.query == p.query
      && (!p.prepared && p.query.restart ==> t.handle.index == 0 && t.handle.carried.None? && !t.handle.ended && !t.channel.mine)
      && (p.prepared || !p.query.restart ==> t.handle == s.handle.(pattern := t.handle.pattern))
  {
    hide PatternsOfScan, Tells;
    var (t, q) := PrepareQuery(s, p);
    if !p.prepared {
      NextTells(s.handle, s.log, t.handle, queries, |s.log.replies|, pattern);
    }
  }

  /** Taking up query n: with the restart flag nothing was read or delivered for its scan yet. */
  lemma NextTells(h: Handle, log: Log, h': Handle, queries: seq<Query>, n: nat, pattern: string)
    requires Tells(h, log, queries, n, pattern) && n < |queries| && |log.replies| == n
    requires h'.pattern == if queries[n].name != "" then queries[n].name else h.pattern
    ensures Tells(h', if queries[n].restart then log.(delivered := [], applied := []) else log, queries, n + 1, pattern)
  {
    hide PatternsOfScan, Flatten;
    if queries[n].restart {
      NothingReadYet(log.readFor, n, pattern, queries);
      assert log.replies[n..] == [];
      NothingFlat();
    }
  }

  lemma NothingFlat()
    ensures Flatten([]) == []
  {
  }

  lemma AdvanceTells(s: State, p: Pending, queries: seq<Query>, coming: seq<Query>, pattern: string, input: Input)
    requires Working(s, p, queries, coming, pattern)
    ensures Story(Advance(s, p, input), queries, coming, pattern)
  {
    hide Tells, PrepareQuery, PadTo8;
    PrepareTells(s, p, queries, coming, pattern);
    var (t, q) := PrepareQuery(s, p);
    if t.handle.carried.Some? && !t.handle.ended {
      CarriedTells(t, q, queries, coming, pattern);
    }
    ReplyTells(t, q, queries, coming, pattern, []);
  }

  lemma CarriedTells(t: State, q: Pending, queries: seq<Query>, coming: seq<Query>, pattern: string)
    requires Working(t, q, queries, coming, pattern) && q.prepared && t.handle.carried.Some?
    ensures Story(SendEntries(t.(handle := t.handle.(carried := None)), q.query, [t.handle.carried.value]), queries, coming, pattern)
  {
    ReplyTells(t.(handle := t.handle.(carried := None)), q, queries, coming, pattern, [t.handle.carried.value]);
  }

  /** Reading an entry for the query that is worked on. */
  lemma ReadTells(s: State, p: Pending, entry: Entry, queries: seq<Query>, coming: seq<Query>, pattern: string, input: Input)
    requires Working(s, p, queries, coming, pattern) && p.prepared
    ensures var (t, more) := ReadEntry(s, p, entry, input);
      if more then t.active.Some? && t.active.value.prepared && Working(t, t.active.value, queries, coming, pattern)
      else Story(t, queries, coming, pattern)
  {
    hide Accepts, Working, Story, EncodedSize;
    var h := s.handle.(index := s.handle.index + 1);
    var t := s.(handle := h, log := s.log.(applied := s.log.applied + [h.pattern], readFor := s.log.readFor + [|s.log.replies|]));
    NotedTells(s, p, queries, coming, pattern);
    SamePending(t, p, p.(batch := p.batch + [entry], batchEncoded := p.batchEncoded + EncodedSize(p.query, entry.name)), p,
                queries, coming, pattern);
    var u := t.(handle := h.(carried := Some(entry)));
    CarryTells(t, p, queries, coming, pattern, Some(entry));
    ReplyTells(t, p, queries, coming, pattern, p.batch);
    ReplyTells(t, p, queries, coming, pattern, [entry]);
    ReplyTells(t, p, queries, coming, pattern, p.batch + [entry]);
    ReplyTells(u, p, queries, coming, pattern, p.batch);
  }

  /** Which request is active in the state does not matter, nor its batch. */
  lemma SamePending(s: State, p: Pending, q: Pending, active: Pending, queries: seq<Query>, coming: seq<Query>, pattern: string)
    requires Working(s, p, queries, coming, pattern) && q.query == p.query && q.prepared == p.prepared
    ensures Working(s.(active := Some(q)), q, queries, coming, pattern)
    ensures Working(s.(active := Some(active)), p, queries, coming, pattern)
  {
  }

  lemma NotedTells(s: State, p: Pending, queries: seq<Query>, coming: seq<Query>, pattern: string)
    requires Working(s, p, queries, coming, pattern) && p.prepared
    ensures var h := s.handle.(index := s.handle.index + 1);
      Working(s.(handle := h, log := s.log.(applied := s.log.applied + [h.pattern], readFor := s.log.readFor + [|s.log.replies|])),
              p, queries, coming, pattern)
  {
    hide Flatten;
    var n := |s.log.replies|;
    assert (s.log.readFor + [n])[..|s.log.readFor|] == s.log.readFor;
  }

  lemma CarryTells(s: State, p: Pending, queries: seq<Query>, coming: seq<Query>, pattern: string, carried: Option<Entry>)
    requires Working(s, p, queries, coming, pattern)
    ensures Working(s.(handle := s.handle.(carried := carried)), p, queries, coming, pattern)
  {
  }

  lemma TakeTells(s: State, p: Pending, dir: seq<Entry>, queries: seq<Query>, coming: seq<Query>, pattern: string, input: Input)
    requires Working(s, p, queries, coming, pattern) && p.prepared
    ensures var (t, more) := TakeResult(s, p, dir, input);
      if more then t.active.Some? && t.active.value.prepared && Working(t, t.active.value, queries, coming, pattern)
      else Story(t, queries, coming, pattern)
  {
    hide ReadEntry, Working, Story;
    if p.phase == Read && s.channel.cursor < |dir| {
      var u := s.(channel := s.channel.(cursor := s.channel.cursor + 1));
      ChannelTells(s, u, p, queries, coming, pattern);
      ReadTells(u, p, dir[s.channel.cursor], queries, coming, pattern, input);
    } else {
      var t := s.(handle := s.handle.(ended := true));
      ChannelTells(s, t, p, queries, coming, pattern);
      ReplyTells(t, p, queries, coming, pattern, p.batch);
      PhaseTells(s, p, TakeResult(s, p, dir, input).0, queries, coming, pattern);
    }
  }

  lemma ChannelTells(s: State, u: State, p: Pending, queries: seq<Query>, coming: seq<Query>, pattern: string)
    requires Working(s, p, queries, coming, pattern)
    requires u.queue == s.queue && u.log == s.log && u.handle.pattern == s.handle.pattern
    ensures Working(u, p, queries, coming, pattern)
  {
  }

  lemma PhaseTells(s: State, p: Pending, u: State, queries: seq<Query>, coming: seq<Query>, pattern: string)
    requires Working(s, p, queries, coming, pattern) && p.prepared
    ensures u.queue == s.queue && u.log == s.log && u.handle == s.handle && u.active.Some?
            && u.active.value.query == p.query && u.active.value.prepared ==>
      Working(u, u.active.value, queries, coming, pattern)
  {
  }

  lemma PollTells(s: State, dir: seq<Entry>, queries: seq<Query>, coming: seq<Query>, pattern: string, input: Input)
    requires Story(s, queries, coming, pattern)
    ensures Story(Poll(s, dir, input), queries, coming, pattern)
  {
    hide TakeResult, Advance, Tells;
    match s.active
    case None =>
      if s.queue != [] && !input.busy {
        var p := Pending(s.queue[0], false, false, Prepare, 0, [], 0);
        assert (s.queue + coming)[1..] == s.queue[1..] + coming;
        assert queries[|s.log.replies|..][1..] == queries[|s.log.replies| + 1..];
        assert queries[|s.log.replies|] == (s.queue + coming)[0];
        AdvanceTells(s.(queue := s.queue[1..]), p, queries, coming, pattern, input);
      }
    case Some(p) =>
      if !p.inFlight {
        AdvanceTells(s, p, queries, coming, pattern, input);
      } else if input.ready {
        TakeTells(s, p.(inFlight := false), dir, queries, coming, pattern, input);
        var (t, more) := TakeResult(s, p.(inFlight := false), dir, input);
        if more {
          AdvanceTells(t, t.active.value, queries, coming, pattern, input);
        }
      }
  }

  lemma {:induction false} RunTells(s: State, dir: seq<Entry>, events: seq<Event>, queries: seq<Query>, pattern: string)
    requires Story(s, queries, Queries(events), pattern)
    ensures Story(Run(s, dir, events), queries, [], pattern)
    decreases |events|
  {
    hide Poll, Tells;
    if events == [] {
    } else {
      if events[0].NewQuery? {
        assert s.queue + Queries(events) == (s.queue + [events[0].query]) + Queries(events[1..]);
      } else if events[0].PollEvent? {
        PollTells(s, dir, queries, Queries(events[1..]), pattern, events[0].input);
      }
      RunTells(Next(s, dir, events[0]), dir, events[1..], queries, pattern);
    }
  }

  lemma OpenedTells(queries: seq<Query>, pattern: string, batchMemory: bool)
    ensures Story(Opened(pattern, batchMemory), queries, queries, pattern)
  {
    assert queries[0..] == [] + queries;
  }

  /** What one Open answers, told by its queries and its replies alone. The scan that is going on began
      at the last query with the restart flag. Its replies, with what is batched and carried, are the
      entries of the directory from the first one on that the patterns in force let through, each once
      and in order, where the pattern in force is the last name a query gave; so no entry of an
      earlier scan is among them. When the last answer was NO_MORE_FILES, they are all of it. And each
      query is answered in its turn, within its own buffer. */
  lemma ScansStartOver(dir: seq<Entry>, pattern: string, batchMemory: bool, events: seq<Event>)
    ensures var queries, u := Queries(events), Run(Opened(pattern, batchMemory), dir, events);
      var answered := |u.log.replies|;
      var start := ScanStart(queries, if u.active.Some? then answered + 1 else answered);
      var patterns := PatternsOfScan(u.log.readFor, start, pattern, queries);
      && start <= answered <= |queries| && |patterns| == u.handle.index <= |dir|
      && Flatten(u.log.replies[start..]) + Batched(u.active) + Carried(u.handle) == Selected(dir[..|patterns|], patterns)
      && (u.active.None? && answered > 0 && u.log.replies[answered - 1] == NoMoreFiles ==>
            |patterns| == |dir| && Flatten(u.log.replies[start..]) == Selected(dir, patterns))
      && (forall i :: 0 <= i < answered && u.log.replies[i].Entries? ==>
            u.log.replies[i].query == queries[i]
            && EncodedTotal(queries[i], u.log.replies[i].entries) <= queries[i].outputBufferLength)
  {
    hide PatternsOfScan, Flatten, Selected, PatternAfter, EncodedTotal;
    var queries := Queries(events);
    OpenedTells(queries, pattern, batchMemory);
    RunTells(Opened(pattern, batchMemory), dir, events, queries, pattern);
    ListingIsExactlyOnce(dir, pattern, batchMemory, events);
    var u := Run(Opened(pattern, batchMemory), dir, events);
    forall i | 0 <= i < |u.log.replies| && u.log.replies[i].Entries?
      ensures EncodedTotal(u.log.replies[i].query, u.log.replies[i].entries) <= u.log.replies[i].query.outputBufferLength
    {
      assert u.log.replies[i] in u.log.replies;
    }
  }

  /** How a query is taken up: a restart is never answered from memory, whatever was carried or ended
      before, but opens the directory again; without one, a scan that reached the end is answered
      NO_MORE_FILES at once. */
  lemma QueryIsTakenUp(s: State, dir: seq<Entry>, input: Input)
    requires s.active.None? && s.queue != [] && !input.busy
    ensures var u, q := Poll(s, dir, input), s.queue[0];
      && u.queue == s.queue[1..]
      && (q.restart ==> u.log.replies == s.log.replies && u.active.Some? && u.active.value.inFlight
                        && u.active.value.phase != Read && u.active.value.phase != Replay
                        && u.handle.index == 0 && u.handle.carried.None? && !u.handle.ended)
      && (!q.restart && s.handle.ended ==> u.log.replies == s.log.replies + [NoMoreFiles] && u.active.None?)
      && (!q.restart && !s.handle.ended && s.handle.carried.Some? ==>
            u.active.None? && u.log.replies == s.log.replies
              + [if 0 < EncodedSize(q, s.handle.carried.value.name) <= q.outputBufferLength
                 then Entries(q, [s.handle.carried.value]) else BufferTooSmall])
  {
    hide PadTo8;
  }

  // ----- Every query is answered -----

  /** Bridge results still needed at most before the active query is answered. */
  function ResultsLeft(p: Pending, h: Handle, dir: seq<Entry>): int {
    match p.phase
    case Prepare => |dir| + 4
    case CloseCommit => |dir| + 3
    case Open => |dir| + 2
    case Replay => |dir| - h.index + 1 + Least(p.replayRemaining, h.index)
    case Read => |dir| - h.index + 1
  }

  function Least(a: nat, b: nat): nat {
    if a < b then a else b
  }

  /** Undisturbed, each result answers the query or brings the answer closer: replaying restarts
      nothing and the end of the directory is reached. */
  lemma ResultBringsAnswerCloser(s: State, dir: seq<Entry>, input: Input)
    requires Inv(s, dir) && s.active.Some? && s.active.value.inFlight && input.ready && !input.busy
    ensures var t := Poll(s, dir, input);
      t.active.None? || (t.active.value.inFlight && t.handle.index <= |dir|
        && ResultsLeft(t.active.value, t.handle, dir) < ResultsLeft(s.active.value, s.handle, dir))
  {
    hide TakeResult, Advance, Inv;
    var p := s.active.value.(inFlight := false);
    TakeResultKeepsInv(s, s.active.value, dir, input);
    TakenAnswersOnce(s, p, dir, input);
    var (t, more) := TakeResult(s, p, dir, input);
    IndexWithin(t, dir);
    if more {
      TakenIsCloser(s, p, dir, input);
      SubmitsNext(t, t.active.value, dir, input);
    }
  }

  lemma TakenIsCloser(s: State, p: Pending, dir: seq<Entry>, input: Input)
    requires Inv(s, dir) && s.active.Some? && p == s.active.value.(inFlight := false) && s.active.value.inFlight
    ensures var (t, more) := TakeResult(s, p, dir, input);
      more && t.active.Some? && t.handle.index <= |dir| ==>
        && t.handle.carried.None? && !t.handle.ended && t.active.value.prepared && t.active.value.phase != Prepare
        && ResultsLeft(t.active.value, t.handle, dir) < ResultsLeft(p, s.handle, dir)
        && (t.channel.mine <==> t.active.value.phase == Read || t.active.value.phase == Replay)
        && (!t.channel.mine ==> !t.channel.foreignFile)
  {
  }

  lemma SubmitsNext(s: State, p: Pending, dir: seq<Entry>, input: Input)
    requires p.prepared && p.phase != Prepare && s.handle.carried.None? && !s.handle.ended && !input.busy
    requires (s.channel.mine <==> p.phase == Read || p.phase == Replay) && (!s.channel.mine ==> !s.channel.foreignFile)
    requires s.handle.index <= |dir|
    ensures var t := Advance(s, p, input);
      t.active.Some? && t.active.value.inFlight && t.handle == s.handle
      && ResultsLeft(t.active.value, t.handle, dir) <= ResultsLeft(p, s.handle, dir)
  {
  }

  /** Queries that still have to be answered. */
  function Waiting(s: State): nat {
    |s.queue| + if s.active.Some? then 1 else 0
  }

  /** Undisturbed polls needed at most for one query: not yet submitted, or with its request out. */
  function ActiveLeft(s: State, dir: seq<Entry>): int {
    match s.active
    case None => 0
    case Some(p) => if p.inFlight then ResultsLeft(p, s.handle, dir) else |dir| + 5
  }

  function PollsLeft(s: State, dir: seq<Entry>): int {
    |s.queue| * (|dir| + 5) + ActiveLeft(s, dir)
  }

  /** A call answers its query once and ends it, or goes on with it. */
  ghost predicate AnswersOnce(s: State, t: State) {
    t.queue == s.queue && |t.log.replies| == |s.log.replies| + if t.active.None? then 1 else 0
  }

  lemma AdvanceAnswersOrSubmits(s: State, p: Pending, dir: seq<Entry>, input: Input)
    requires s.handle.index <= |dir| && !p.inFlight && !input.busy
    ensures var t := Advance(s, p, input);
      && AnswersOnce(s, t)
      && (t.active.Some? ==> t.active.value.inFlight && t.handle.index <= |dir|
                             && ResultsLeft(t.active.value, t.handle, dir) < |dir| + 5)
  {
  }

  lemma EntryAnswersOnce(s: State, p: Pending, entry: Entry, input: Input)
    ensures var (t, more) := ReadEntry(s, p, entry, input);
      AnswersOnce(s, t) && (more <==> t.active.Some?)
  {
    hide Accepts, EncodedSize;
  }

  lemma TakenAnswersOnce(s: State, p: Pending, dir: seq<Entry>, input: Input)
    ensures var (t, more) := TakeResult(s, p, dir, input);
      AnswersOnce(s, t) && (more <==> t.active.Some?)
  {
    hide ReadEntry, UnderCursor;
    if p.phase == Read && UnderCursor(dir, s.channel).Some? {
      EntryAnswersOnce(s.(channel := s.channel.(cursor := s.channel.cursor + 1)), p, UnderCursor(dir, s.channel).value, input);
    }
  }

  /** A call with the bridge free and its result there answers a query or brings an answer closer,
      and loses none. */
  lemma PollBringsAnswersCloser(s: State, dir: seq<Entry>, input: Input)
    requires Inv(s, dir) && input.ready && !input.busy
    ensures var t := Poll(s, dir, input);
      && t.handle.index <= |dir|
      && |t.log.replies| + Waiting(t) == |s.log.replies| + Waiting(s)
      && (if Waiting(s) == 0 then t == s else PollsLeft(t, dir) < PollsLeft(s, dir))
  {
    hide Advance, TakeResult, ResultsLeft;
    PollKeepsInv(s, dir, input);
    var t := Poll(s, dir, input);
    match s.active
    case None =>
      if s.queue != [] {
        var p := Pending(s.queue[0], false, false, Prepare, 0, [], 0);
        AdvanceAnswersOrSubmits(s.(queue := s.queue[1..]), p, dir, input);
        assert |s.queue| * (|dir| + 5) == (|s.queue| - 1) * (|dir| + 5) + (|dir| + 5);
      }
    case Some(p) =>
      if !p.inFlight {
        AdvanceAnswersOrSubmits(s, p, dir, input);
      } else {
        ResultBringsAnswerCloser(s, dir, input);
        TakenAnswersOnce(s, p.(inFlight := false), dir, input);
        var (r, more) := TakeResult(s, p.(inFlight := false), dir, input);
        TakeResultKeepsInv(s, p, dir, input);
        if more {
          AdvanceAnswersOrSubmits(r, r.active.value, dir, input);
        }
        SomethingIsLeft(p, s.handle, dir);
      }
  }

  lemma SomethingIsLeft(p: Pending, h: Handle, dir: seq<Entry>)
    requires h.index <= |dir|
    ensures 0 < ResultsLeft(p, h, dir)
  {
  }

  function PollAll(s: State, dir: seq<Entry>, inputs: seq<Input>): State
    decreases |inputs|
  {
    if inputs == [] then s else PollAll(Poll(s, dir, inputs[0]), dir, inputs[1..])
  }

  lemma {:induction false} PollsAnswer(s: State, dir: seq<Entry>, inputs: seq<Input>)
    requires Inv(s, dir) && (forall i :: 0 <= i < |inputs| ==> inputs[i].ready && !inputs[i].busy)
    requires PollsLeft(s, dir) <= |inputs|
    ensures var u := PollAll(s, dir, inputs);
      Waiting(u) == 0 && |u.log.replies| == |s.log.replies| + Waiting(s)
    decreases |inputs|
  {
    hide Poll, PollsLeft, Inv;
    IndexWithin(s, dir);
    if Waiting(s) != 0 {
      SomethingLeftIfWaiting(s, dir);
    }
    if inputs == [] {
    } else {
      PollBringsAnswersCloser(s, dir, inputs[0]);
      PollKeepsInv(s, dir, inputs[0]);
      if Waiting(s) == 0 {
        NothingLeft(s, dir);
      }
      PollsAnswer(Poll(s, dir, inputs[0]), dir, inputs[1..]);
    }
  }

  lemma NothingLeft(s: State, dir: seq<Entry>)
    requires Waiting(s) == 0
    ensures PollsLeft(s, dir) == 0
  {
  }

  lemma SomethingLeftIfWaiting(s: State, dir: seq<Entry>)
    requires s.handle.index <= |dir| && Waiting(s) != 0
    ensures 0 < PollsLeft(s, dir)
  {
    if s.queue != [] {
      assert |s.queue| * (|dir| + 5) >= |dir| + 5;
    }
    if s.active.Some? {
      SomethingIsLeft(s.active.value, s.handle, dir);
    }
  }

  /** From every state one Open can reach: after as many undisturbed calls as the bound says, every
      query that waited has got exactly one reply, and none waits any more. */
  lemma QueriesAreAnswered(dir: seq<Entry>, pattern: string, batchMemory: bool, events: seq<Event>, inputs: seq<Input>)
    requires forall i :: 0 <= i < |inputs| ==> inputs[i].ready && !inputs[i].busy
    requires PollsLeft(Run(Opened(pattern, batchMemory), dir, events), dir) <= |inputs|
    ensures var s := Run(Opened(pattern, batchMemory), dir, events);
      var u := PollAll(s, dir, inputs);
      u.queue == [] && u.active.None? && |u.log.replies| == |s.log.replies| + Waiting(s)
  {
    hide Inv, Run, PollAll;
    OpenedInv(dir, pattern, batchMemory);
    RunKeepsInv(Opened(pattern, batchMemory), dir, events);
    PollsAnswer(Run(Opened(pattern, batchMemory), dir, events), dir, inputs);
  }

  lemma OpenedInv(dir: seq<Entry>, pattern: string, batchMemory: bool)
    ensures Inv(Opened(pattern, batchMemory), dir)
  {
    assert dir[..0] == [];
  }

  lemma IndexWithin(s: State, dir: seq<Entry>)
    requires Inv(s, dir)
    ensures s.handle.index <= |dir|
  {
  }

  // ----- The automaton in memory -----

  class DirectoryQueue {
    var handle: Handle
    var queue: seq<Query>
    var active: Option<Pending>
    var channel: Channel
    const batchMemory: bool
    ghost var log: Log

    ghost function View(): State
      reads this
    {
      State(handle, queue, active, channel, batchMemory, log)
    }

    constructor (pattern: string, batchMemory: bool)
      ensures View() == Opened(pattern, batchMemory)
    {
      handle, queue, active := Handle(0, false, None, pattern), [], None;
      channel, this.batchMemory, log := Channel(false, false, 0), batchMemory, Log([], [], [], []);
    }

    /** queueAsyncDirectoryReply() for one entry, flushAsyncDirectoryBatch() for several. */
    method ReplyEntries(query: Query, entries: seq<Entry>)
      modifies this
      ensures View() == SendEntries(old(View()), query, entries)
    {
      log := log.(replies := log.replies + [Entries(query, entries)], delivered := log.delivered + entries);
      active := None;
    }

    method ReplyStatus(reply: Reply)
      modifies this
      ensures View() == SendStatus(old(View()), reply)
    {
      log := log.(replies := log.replies + [reply]);
      active := None;
    }

    /** The kRead branch for an entry. */
    method TakeEntry(p: Pending, entry: Entry, input: Input) returns (more: bool)
      modifies this
      ensures (View(), more) == ReadEntry(old(View()), p, entry, input)
    {
      hide Accepts, EncodedTotal;
      handle := handle.(index := handle.index + 1);
      log := log.(applied := log.applied + [handle.pattern], readFor := log.readFor + [|log.replies|]);
      var matched := WildcardMatch(handle.pattern, entry.name);
      if !matched {
        if p.batch != [] && input.due {
          ReplyEntries(p.query, p.batch);
          return false;
        }
        active := Some(p);
        return true;
      }
      var encoded := EncodedSize(p.query, entry.name);
      if encoded == 0 || p.batchEncoded + encoded > p.query.outputBufferLength {
        handle := handle.(carried := Some(entry));
        if p.batch != [] {
          ReplyEntries(p.query, p.batch);
        } else {
          ReplyStatus(BufferTooSmall);
        }
        return false;
      }
      if !batchMemory || |p.batch| >= BATCH_CAPACITY {
        ReplyEntries(p.query, [entry]);
        return false;
      }
      var q := p.(batch := p.batch + [entry], batchEncoded := p.batchEncoded + encoded);
      if q.query.single || |q.batch| >= BATCH_CAPACITY || input.due {
        ReplyEntries(q.query, q.batch);
        return false;
      }
      active := Some(q);
      return true;
    }

    /** The result branch of pollAsyncDirectory(). */
    method TakeBridgeResult(p: Pending, dir: seq<Entry>, input: Input) returns (more: bool)
      modifies this
      ensures (View(), more) == TakeResult(old(View()), p, dir, input)
    {
      match p.phase
      case Prepare =>
        active := Some(p);
        more := true;
      case CloseCommit =>
        channel := channel.(mine := false, foreignFile := false);
        active := Some(p.(phase := Open));
        more := true;
      case Open =>
        channel := Channel(true, false, 0);
        active := Some(p.(replayRemaining := handle.index, phase := if handle.index == 0 then Read else Replay));
        more := true;
      case Replay =>
        if channel.cursor >= |dir| {
          handle := handle.(ended := true);
          ReplyStatus(NoMoreFiles);
          return false;
        }
        channel := channel.(cursor := channel.cursor + 1);
        var left := if p.replayRemaining != 0 then p.replayRemaining - 1 else 0;
        active := Some(p.(replayRemaining := left, phase := if left == 0 then Read else Replay));
        more := true;
      case Read =>
        if channel.cursor >= |dir| {
          handle := handle.(ended := true);
          if p.batch != [] {
            ReplyEntries(p.query, p.batch);
          } else {
            ReplyStatus(NoMoreFiles);
          }
          return false;
        }
        var entry := dir[channel.cursor];
        channel := channel.(cursor := channel.cursor + 1);
        more := TakeEntry(p, entry, input);
    }

    method PrepareActive(p: Pending) returns (q: Pending)
      modifies this
      ensures (View(), q) == PrepareQuery(old(View()), p)
    {
      if p.prepared {
        return p;
      }
      if p.query.restart {
        handle := handle.(index := 0, ended := false, carried := None);
        channel := channel.(mine := false);
        log := log.(delivered := [], applied := []);
      }
      if p.query.name != "" {
        handle := handle.(pattern := p.query.name);
      }
      return p.(prepared := true, phase := Prepare);
    }

    /** The second half of pollAsyncDirectory(): answer from memory or submit the next request. */
    method AdvanceActive(p: Pending, input: Input)
      modifies this
      ensures View() == Advance(old(View()), p, input)
    {
      var q := PrepareActive(p);
      if handle.ended {
        ReplyStatus(NoMoreFiles);
        return;
      }
      if handle.carried.Some? {
        var entry := handle.carried.value;
        var encoded := EncodedSize(q.query, entry.name);
        if encoded == 0 || encoded > q.query.outputBufferLength {
          ReplyStatus(BufferTooSmall);
          return;
        }
        handle := handle.(carried := None);
        ReplyEntries(q.query, [entry]);
        return;
      }
      if input.busy {
        active := Some(q);
        return;
      }
      if !channel.mine {
        active := Some(q.(phase := if channel.foreignFile then CloseCommit else Open, inFlight := true));
        return;
      }
      active := Some(q.(phase := if q.phase == Replay then Replay else Read, inFlight := true));
    }

    method PollAsyncDirectory(dir: seq<Entry>, input: Input)
      modifies this
      ensures View() == Poll(old(View()), dir, input)
      ensures old(Inv(View(), dir)) ==> Inv(View(), dir)
    {
      if Inv(View(), dir) {
        PollKeepsInv(View(), dir, input);
      }
      if active.None? {
        if queue == [] || input.busy {
          return;
        }
        var p := Pending(queue[0], false, false, Prepare, 0, [], 0);
        queue := queue[1..];
        AdvanceActive(p, input);
        return;
      }
      var p := active.value;
      if p.inFlight {
        if !input.ready {
          return;
        }
        var more := TakeBridgeResult(p.(inFlight := false), dir, input);
        if !more || active.None? {
          return;
        }
      }
      AdvanceActive(active.value, input);
    }
  }
}

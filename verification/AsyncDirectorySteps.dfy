/** What the single steps of the QUERY_DIRECTORY automaton (src/smb_server.cpp) do, field by field. */
module AsyncDirectorySteps {
  import opened Common
  import opened Wildcard
  import opened AsyncDirectory

  /** An encoded entry takes its fixed part and two bytes a character, rounded up to eight; a class that
      is not supported has no size. */
  lemma EncodedSizeIs(query: Query, name: string)
    ensures query.fixedPart == 0 ==> EncodedSize(query, name) == 0
    ensures query.fixedPart != 0 ==>
      var size, least := EncodedSize(query, name), query.fixedPart + |name| + |name|;
      size % 8 == 0 && least <= size < least + 8
  {
  }

  /** A reply is queued and the query is over. */
  predicate Answered(s: State, u: State, reply: Reply) {
    && u.active.None? && u.queue == s.queue && u.log.replies == s.log.replies + [reply]
    && (reply.Entries? ==> u.log.delivered == s.log.delivered + reply.entries)
    && (!reply.Entries? ==> u.log.delivered == s.log.delivered)
  }

  /** The query goes on with this batch. */
  predicate GoesOn(s: State, u: State, p: Pending, batch: seq<Entry>, encoded: nat) {
    && u.active == Some(p.(batch := batch, batchEncoded := encoded))
    && u.queue == s.queue && u.log.replies == s.log.replies && u.log.delivered == s.log.delivered
  }

  /** What becomes of an entry that was read. One the pattern refuses only lets a due batch go out. One
      that does not fit the client's buffer beside the batch is carried over, behind the batch if there
      is one and behind BUFFER_TOO_SMALL if not. Any other joins the batch, which goes out when it is
      due or full or one entry was asked for; without memory for batches it goes out alone. */
  lemma EntryGoes(s: State, p: Pending, entry: Entry, input: Input)
    requires |p.batch| < 64
    ensures var (u, more) := ReadEntry(s, p, entry, input);
      var size := EncodedSize(p.query, entry.name);
      var fits := size != 0 && p.batchEncoded + size <= p.query.outputBufferLength;
      var out := p.query.single || |p.batch| + 1 == 64 || input.due;
      && u.handle == s.handle.(index := s.handle.index + 1, carried := u.handle.carried) && u.channel == s.channel
      && (more <==> u.active.Some?)
      && (!Accepts(s.handle.pattern, entry.name) ==>
            u.handle.carried == s.handle.carried
            && if p.batch != [] && input.due then Answered(s, u, Entries(p.query, p.batch)) else GoesOn(s, u, p, p.batch, p.batchEncoded))
      && (Accepts(s.handle.pattern, entry.name) && !fits ==>
            u.handle.carried == Some(entry)
            && Answered(s, u, if p.batch != [] then Entries(p.query, p.batch) else BufferTooSmall))
      && (Accepts(s.handle.pattern, entry.name) && fits ==>
            u.handle.carried == s.handle.carried
            && if !s.batchMemory then Answered(s, u, Entries(p.query, [entry]))
               else if out then Answered(s, u, Entries(p.query, p.batch + [entry]))
               else GoesOn(s, u, p, p.batch + [entry], p.batchEncoded + size))
  {
    hide Accepts, EncodedSize;
  }

  /** The results of the other requests: the foreign file is closed; the directory is open at its first
      entry, to be replayed up to where the listing is; one entry less is to be replayed, and a directory
      that became shorter ends; the end of the directory sends the batch, or NO_MORE_FILES without one. */
  lemma ResultMeans(s: State, p: Pending, dir: seq<Entry>, input: Input)
    ensures var (u, more) := TakeResult(s, p, dir, input);
      && (p.phase == CloseCommit ==>
            more && u == s.(channel := Channel(false, false, s.channel.cursor), active := Some(p.(phase := Open))))
      && (p.phase == Open ==>
            more && u == s.(channel := Channel(true, false, 0),
                            active := Some(p.(replayRemaining := s.handle.index,
                                              phase := if s.handle.index == 0 then Read else Replay))))
      && (p.phase == Replay && s.channel.cursor >= |dir| ==>
            !more && u.handle == s.handle.(ended := true) && Answered(s, u, NoMoreFiles))
      && (p.phase == Replay && s.channel.cursor < |dir| && 0 < p.replayRemaining ==>
            more && u == s.(channel := s.channel.(cursor := s.channel.cursor + 1),
                            active := Some(p.(replayRemaining := p.replayRemaining - 1,
                                              phase := if p.replayRemaining == 1 then Read else Replay))))
      && (p.phase == Read && s.channel.cursor >= |dir| ==>
            !more && u.handle == s.handle.(ended := true) && u.channel == s.channel
            && Answered(s, u, if p.batch != [] then Entries(p.query, p.batch) else NoMoreFiles))
      && (p.phase == Read && s.channel.cursor < |dir| ==>
            (u, more) == ReadEntry(s.(channel := s.channel.(cursor := s.channel.cursor + 1)), p, dir[s.channel.cursor], input))
  {
    hide ReadEntry;
  }

  /** The next request of a query that is neither at its end nor has an entry carried over: none while the
      bridge is busy; otherwise the foreign file is closed, the directory opened, or the next entry of the
      replay or of the listing read. */
  lemma NextRequest(s: State, p: Pending, input: Input)
    requires p.prepared && !s.handle.ended && s.handle.carried.None?
    ensures var u := Advance(s, p, input);
      && u == s.(active := u.active)
      && (input.busy ==> u.active == Some(p))
      && (!input.busy ==>
            u.active == Some(p.(inFlight := true,
              phase := if s.channel.mine then (if p.phase == Replay then Replay else Read)
                       else if s.channel.foreignFile then CloseCommit else Open)))
  {
  }

  /** What a query changes when it is taken up: the restart flag begins a new scan, a name becomes the
      pattern in force; both once only. */
  lemma TakenUp(s: State, p: Pending)
    ensures var (t, q) := PrepareQuery(s, p);
      && t.queue == s.queue && t.log.replies == s.log.replies && t.log.readFor == s.log.readFor
      && q == p.(prepared := true, phase := q.phase)
      && (p.prepared ==> t == s && q == p)
      && (!p.prepared ==>
            && q.phase == Prepare
            && t.handle.pattern == (if p.query.name != "" then p.query.name else s.handle.pattern)
            && (p.query.restart ==>
                  t.handle == Handle(0, false, None, t.handle.pattern) && t.channel == s.channel.(mine := false))
            && (!p.query.restart ==> t.handle == s.handle.(pattern := t.handle.pattern) && t.channel == s.channel))
  {
  }

  /** Another operation takes the channel only between this automaton's requests, and then the directory
      has to be opened again. */
  lemma ChannelIsTaken(s: State, dir: seq<Entry>, foreignFile: bool, query: Query)
    ensures Next(s, dir, OtherTookChannel(foreignFile))
         == if s.active.Some? && s.active.value.inFlight then s
            else s.(channel := Channel(false, foreignFile, s.channel.cursor))
    ensures Next(s, dir, NewQuery(query)) == s.(queue := s.queue + [query])
  {
  }
}

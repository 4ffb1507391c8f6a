/** The one-slot exchange through which core 0 (network) asks core 1 (Z80 disk) for one
    operation at a time (src/vfs_bridge.cpp). The request and result blocks are shared
    memory: each core reads and writes them one field at a time, and only the two
    one-place queues and the flag requestPending_ keep the cores apart. */
module VfsExchange {

  type Word = int
  type Block = seq<Word>

  /** submit() fills the block, posts the token and only then raises the flag;
      takeResult() takes the token, copies the result and only then lowers it. */
  datatype Core0 =
    | Idle
    | Filling(request: Block, filled: nat)
    | Marking
    | Copying(got: Block)
    | Clearing(got: Block)

  /** pollCore1(): take the token, clear the result, read the request, answer, respond. */
  datatype Core1 =
    | Waiting
    | Resetting(cleared: nat)
    | Reading(local: Block)
    | Writing(answer: Block, written: nat)
    | Responding

  datatype Shared = Shared(
    request: Block, result: Block, requestQueue: bool, responseQueue: bool, requestPending: bool)

  datatype Exchange = Pair(request: Block, answer: Block)

  /** History: requests posted, answers computed from what core 1 really read, and results
      core 0 really copied out, paired with the request it had posted last. */
  datatype History = History(posted: seq<Block>, answered: seq<Exchange>, taken: seq<Exchange>)

  datatype Bridge = Bridge(shared: Shared, core0: Core0, core1: Core1, history: History)

  datatype Step =
    | SubmitCall(request: Block)
    | AbandonSubmit
    | TakeCall
    | Core0Step
    | PollCore1
    | Answer(answer: Block)
    | Core1Step

  function Fresh(requestSize: nat, resultSize: nat): Bridge {
    Bridge(Shared(seq(requestSize, _ => 0), seq(resultSize, _ => 0), false, false, false),
           Idle, Waiting, History([], [], []))
  }

  function StepCore0(b: Bridge): Bridge {
    var s := b.shared;
    match b.core0
    case Idle => b
    case Filling(request, filled) =>
      if filled < |request| && filled < |s.request| then
        b.(shared := s.(request := s.request[filled := request[filled]]), core0 := Filling(request, filled + 1))
      else if s.requestQueue then b.(core0 := Idle)  // xQueueSend refused
      else b.(shared := s.(requestQueue := true), core0 := Marking,
              history := b.history.(posted := b.history.posted + [request]))
    case Marking => b.(shared := s.(requestPending := true), core0 := Idle)
    case Copying(got) =>
      if |got| < |s.result| then b.(core0 := Copying(got + [s.result[|got|]]))
      else b.(core0 := Clearing(got))
    case Clearing(got) =>
      b.(shared := s.(requestPending := false), core0 := Idle,
         history := if b.history.posted == [] then b.history
                    else b.history.(taken := b.history.taken + [Pair(Last(b.history.posted), got)]))
  }

  function Last<T>(s: seq<T>): T
    requires s != []
  {
    s[|s| - 1]
  }

  function StepCore1(b: Bridge): Bridge {
    var s := b.shared;
    match b.core1
    case Waiting => b
    case Resetting(cleared) =>
      if cleared < |s.result| then
        b.(shared := s.(result := s.result[cleared := 0]), core1 := Resetting(cleared + 1))
      else b.(core1 := Reading([]))
    case Reading(local) =>
      if |local| < |s.request| then b.(core1 := Reading(local + [s.request[|local|]])) else b
    case Writing(answer, written) =>
      if written < |s.result| && written < |answer| then
        b.(shared := s.(result := s.result[written := answer[written]]), core1 := Writing(answer, written + 1))
      else b.(core1 := Responding)
    case Responding => b.(shared := s.(responseQueue := true), core1 := Waiting)
  }

  function Next(b: Bridge, step: Step): Bridge {
    var s := b.shared;
    match step
    case SubmitCall(request) =>
      if b.core0.Idle? && !s.requestPending && |request| == |s.request| then b.(core0 := Filling(request, 0)) else b
    case AbandonSubmit =>
      // a path too long for the block: some fields may already be overwritten
      if b.core0.Filling? then b.(core0 := Idle) else b
    case TakeCall =>
      if b.core0.Idle? && s.requestPending && s.responseQueue then
        b.(shared := s.(responseQueue := false), core0 := Copying([]))
      else b
    case Core0Step => StepCore0(b)
    case PollCore1 =>
      if b.core1.Waiting? && s.requestQueue then b.(shared := s.(requestQueue := false), core1 := Resetting(0)) else b
    case Answer(answer) =>
      if b.core1.Reading? && |b.core1.local| == |s.request| && |answer| == |s.result| then
        b.(core1 := Writing(answer, 0),
           history := b.history.(answered := b.history.answered + [Pair(b.core1.local, answer)]))
      else b
    case Core1Step => StepCore1(b)
  }

  function Run(b: Bridge, steps: seq<Step>): Bridge
    decreases |steps|
  {
    if steps == [] then b else Run(Next(b, steps[0]), steps[1..])
  }

  // ----- Where the token is -----

  function One(holds: bool): nat {
    if holds then 1 else 0
  }

  function Tokens(s: Shared, core0: Core0, core1: Core1): nat {
    One(s.requestQueue) + One(!core1.Waiting?) + One(s.responseQueue) + One(core0.Copying? || core0.Clearing?)
  }

  /** The flag lags behind the token only inside submit() and takeResult(). */
  ghost predicate TokenMatches(s: Shared, core0: Core0, core1: Core1) {
    && Tokens(s, core0, core1) == One(s.requestPending || core0.Marking?)
    && (core0.Filling? || core0.Marking? ==> !s.requestPending)
    && (core0.Copying? || core0.Clearing? ==> s.requestPending)
  }

  ghost predicate Core0Matches(s: Shared, core0: Core0, h: History) {
    match core0
    case Idle => true
    case Filling(request, filled) =>
      filled <= |request| == |s.request| && s.request[..filled] == request[..filled]
    case Marking => true
    case Copying(got) => |got| <= |s.result| && got == s.result[..|got|]
    case Clearing(got) => got == s.result
  }

  ghost predicate Core1Matches(s: Shared, core1: Core1, h: History) {
    match core1
    case Waiting => true
    case Resetting(cleared) => cleared <= |s.result|
    case Reading(local) => |local| <= |s.request| && local == s.request[..|local|]
    case Writing(answer, written) =>
      && h.answered != [] && answer == Last(h.answered).answer
      && written <= |answer| == |s.result| && s.result[..written] == answer[..written]
    case Responding => h.answered != [] && s.result == Last(h.answered).answer
  }

  /** Every posted request is answered once, in order, from exactly its own fields, and
      every answer is taken once, in order: at most the newest of each is outstanding. */
  ghost predicate HistoryMatches(b: Bridge) {
    var h := b.history;
    && (forall i :: 0 <= i < |h.answered| ==> i < |h.posted| && h.answered[i].request == h.posted[i])
    && (forall i :: 0 <= i < |h.taken| ==> i < |h.answered| && h.taken[i] == h.answered[i])
    && |h.posted| == |h.taken| + Tokens(b.shared, b.core0, b.core1)
    && |h.answered| == |h.posted| - One(Unanswered(b.shared, b.core1))
    && (Unanswered(b.shared, b.core1) ==> h.posted != [] && b.shared.request == Last(h.posted))
    && (b.shared.responseQueue || b.core0.Copying? || b.core0.Clearing? ==>
          h.answered != [] && b.shared.result == Last(h.answered).answer)
  }

  predicate Unanswered(s: Shared, core1: Core1) {
    s.requestQueue || core1.Resetting? || core1.Reading?
  }

  ghost predicate Inv(b: Bridge) {
    && TokenMatches(b.shared, b.core0, b.core1)
    && Core0Matches(b.shared, b.core0, b.history)
    && Core1Matches(b.shared, b.core1, b.history)
    && HistoryMatches(b)
  }

  lemma Core0KeepsInv(b: Bridge)
    requires Inv(b)
    ensures Inv(StepCore0(b))
  {
  }

  lemma Core1ReadKeepsInv(b: Bridge)
    requires Inv(b) && (b.core1.Resetting? || b.core1.Reading?)
    ensures Inv(StepCore1(b))
  {
  }

  lemma Core1KeepsInv(b: Bridge)
    requires Inv(b)
    ensures Inv(StepCore1(b))
  {
    if b.core1.Resetting? || b.core1.Reading? {
      Core1ReadKeepsInv(b);
    }
  }

  lemma StepKeepsInv(b: Bridge, step: Step)
    requires Inv(b)
    ensures Inv(Next(b, step))
  {
    match step
    case Core0Step => Core0KeepsInv(b);
    case Core1Step => Core1KeepsInv(b);
    case _ =>
  }

  lemma {:induction false} RunKeepsInv(b: Bridge, steps: seq<Step>)
    requires Inv(b)
    ensures Inv(Run(b, steps))
    decreases |steps|
  {
    if steps == [] {
    } else {
      StepKeepsInv(b, steps[0]);
      RunKeepsInv(Next(b, steps[0]), steps[1..]);
    }
  }

  // ----- The theorems over every interleaving -----

  /** Between calls of core 0 the flag says exactly that the token is out, in one place. */
  lemma PendingIffTokenIsOut(requestSize: nat, resultSize: nat, steps: seq<Step>)
    ensures var b := Run(Fresh(requestSize, resultSize), steps);
      b.core0.Idle? ==>
        && (b.shared.requestPending <==> b.shared.requestQueue || !b.core1.Waiting? || b.shared.responseQueue)
        && One(b.shared.requestQueue) + One(!b.core1.Waiting?) + One(b.shared.responseQueue) <= 1
  {
    RunKeepsInv(Fresh(requestSize, resultSize), steps);
  }

  /** While one core touches the shared block the other core is outside it, so xQueueSend is
      never refused and xQueueOverwrite never destroys a response. */
  lemma CoresNeverShareTheBlock(requestSize: nat, resultSize: nat, steps: seq<Step>)
    ensures var b := Run(Fresh(requestSize, resultSize), steps);
      && (b.core0.Filling? || b.core0.Copying? ==> b.core1.Waiting? && !b.shared.requestQueue && !b.shared.responseQueue)
      && (!b.core1.Waiting? ==> b.core0.Idle? || b.core0.Marking?)
      && (b.core1.Responding? ==> !b.shared.responseQueue)
  {
    RunKeepsInv(Fresh(requestSize, resultSize), steps);
  }

  /** Requests are answered one for one and in order, each from its own untorn fields; what
      core 0 copies out is the whole answer to the request it posted last. */
  lemma ResultAnswersLastRequest(requestSize: nat, resultSize: nat, steps: seq<Step>)
    ensures var b := Run(Fresh(requestSize, resultSize), steps); var h := b.history;
      && |h.taken| <= |h.answered| <= |h.posted| <= |h.taken| + 1
      && (forall i :: 0 <= i < |h.answered| ==> h.answered[i].request == h.posted[i])
      && h.taken == h.answered[..|h.taken|]
      && (b.core0.Clearing? ==>
            |h.answered| == |h.posted| == |h.taken| + 1 && Last(h.answered) == Pair(Last(h.posted), b.core0.got))
  {
    RunKeepsInv(Fresh(requestSize, resultSize), steps);
    var b := Run(Fresh(requestSize, resultSize), steps);
    assert One(Unanswered(b.shared, b.core1)) <= Tokens(b.shared, b.core0, b.core1) <= 1;
  }

  // ----- One exchange from end to end -----

  function Core0Runs(b: Bridge, n: nat): Bridge
    decreases n
  {
    if n == 0 then b else Core0Runs(StepCore0(b), n - 1)
  }

  function Core1Runs(b: Bridge, n: nat): Bridge
    decreases n
  {
    if n == 0 then b else Core1Runs(StepCore1(b), n - 1)
  }

  /** submit(): field by field, then the token, then the flag. */
  lemma {:induction false} FillingEnds(b: Bridge, request: Block, filled: nat)
    requires b.core0 == Filling(request, filled) && filled <= |request| == |b.shared.request|
    requires b.shared.request[..filled] == request[..filled] && !b.shared.requestQueue
    ensures Core0Runs(b, |request| - filled + 2)
      == b.(core0 := Idle, shared := b.shared.(request := request, requestQueue := true, requestPending := true),
            history := b.history.(posted := b.history.posted + [request]))
    decreases |request| - filled
  {
    if filled < |request| {
      FillingEnds(StepCore0(b), request, filled + 1);
    } else {
      assert b.shared.request == request;
      assert Core0Runs(StepCore0(b), 1) == StepCore0(StepCore0(b));
    }
  }

  /** takeResult(): field by field, then the flag. */
  lemma {:induction false} CopyingEnds(b: Bridge, got: Block)
    requires b.core0 == Copying(got) && |got| <= |b.shared.result| && got == b.shared.result[..|got|] && b.history.posted != []
    ensures Core0Runs(b, |b.shared.result| - |got| + 2)
      == b.(core0 := Idle, shared := b.shared.(requestPending := false),
            history := b.history.(taken := b.history.taken + [Pair(Last(b.history.posted), b.shared.result)]))
    decreases |b.shared.result| - |got|
  {
    if |got| < |b.shared.result| {
      CopyingEnds(StepCore0(b), got + [b.shared.result[|got|]]);
    } else {
      assert got == b.shared.result;
      assert Core0Runs(StepCore0(b), 1) == StepCore0(StepCore0(b));
    }
  }

  /** pollCore1(): first the result block is cleared, */
  lemma {:induction false} ResettingEnds(b: Bridge, cleared: nat)
    requires b.core1 == Resetting(cleared) && cleared <= |b.shared.result|
    requires forall i :: 0 <= i < cleared ==> b.shared.result[i] == 0
    ensures Core1Runs(b, |b.shared.result| - cleared + 1)
      == b.(core1 := Reading([]), shared := b.shared.(result := seq(|b.shared.result|, _ => 0)))
    decreases |b.shared.result| - cleared
  {
    if cleared < |b.shared.result| {
      ResettingEnds(StepCore1(b), cleared + 1);
    } else {
      assert b.shared.result == seq(|b.shared.result|, _ => 0);
      assert Core1Runs(StepCore1(b), 0) == StepCore1(b);
    }
  }

  /** then the request is read, */
  lemma {:induction false} ReadingEnds(b: Bridge, local: Block)
    requires b.core1 == Reading(local) && |local| <= |b.shared.request| && local == b.shared.request[..|local|]
    ensures Core1Runs(b, |b.shared.request| - |local|) == b.(core1 := Reading(b.shared.request))
    decreases |b.shared.request| - |local|
  {
    if |local| < |b.shared.request| {
      ReadingEnds(StepCore1(b), local + [b.shared.request[|local|]]);
    } else {
      assert local == b.shared.request;
    }
  }

  /** and at last the answer is written and the token sent back. */
  lemma {:induction false} WritingEnds(b: Bridge, answer: Block, written: nat)
    requires b.core1 == Writing(answer, written) && written <= |answer| == |b.shared.result|
    requires b.shared.result[..written] == answer[..written]
    ensures Core1Runs(b, |answer| - written + 2)
      == b.(core1 := Waiting, shared := b.shared.(result := answer, responseQueue := true))
    decreases |answer| - written
  {
    if written < |answer| {
      WritingEnds(StepCore1(b), answer, written + 1);
    } else {
      assert b.shared.result == answer;
      assert Core1Runs(StepCore1(b), 1) == StepCore1(StepCore1(b));
    }
  }

  lemma NothingIsOut(b: Bridge)
    requires Inv(b) && b.core0.Idle? && !b.shared.requestPending
    ensures b.core1.Waiting? && !b.shared.requestQueue && !b.shared.responseQueue
  {
  }

  function Submitted(b: Bridge, request: Block): Bridge {
    Core0Runs(Next(b, SubmitCall(request)), |request| + 2)
  }

  function Read(b: Bridge): Bridge {
    Core1Runs(Core1Runs(Next(b, PollCore1), |b.shared.result| + 1), |b.shared.request|)
  }

  function Answered(b: Bridge, answer: Block): Bridge {
    Core1Runs(Next(Read(b), Answer(answer)), |answer| + 2)
  }

  function Taken(b: Bridge): Bridge {
    Core0Runs(Next(b, TakeCall), |b.shared.result| + 2)
  }

  lemma SubmissionEnds(b: Bridge, request: Block)
    requires b.core0.Idle? && !b.shared.requestPending && !b.shared.requestQueue && |request| == |b.shared.request|
    ensures Submitted(b, request)
      == b.(shared := b.shared.(request := request, requestQueue := true, requestPending := true),
            history := b.history.(posted := b.history.posted + [request]))
  {
    FillingEnds(Next(b, SubmitCall(request)), request, 0);
  }

  lemma ReadEnds(b: Bridge)
    requires b.core1.Waiting? && b.shared.requestQueue
    ensures Read(b) == b.(core1 := Reading(b.shared.request),
                          shared := b.shared.(requestQueue := false, result := seq(|b.shared.result|, _ => 0)))
  {
    ResettingEnds(Next(b, PollCore1), 0);
    ReadingEnds(Core1Runs(Next(b, PollCore1), |b.shared.result| + 1), []);
  }

  lemma AnswerEnds(b: Bridge, answer: Block)
    requires b.core1.Waiting? && b.shared.requestQueue && |answer| == |b.shared.result|
    ensures Answered(b, answer)
      == b.(shared := b.shared.(requestQueue := false, responseQueue := true, result := answer),
            history := b.history.(answered := b.history.answered + [Pair(b.shared.request, answer)]))
  {
    hide Read, StepCore1, StepCore0, Core1Runs;
    ReadEnds(b);
    WritingEnds(Next(Read(b), Answer(answer)), answer, 0);
  }

  lemma TakingEnds(b: Bridge)
    requires b.core0.Idle? && b.shared.requestPending && b.shared.responseQueue && b.history.posted != []
    ensures Taken(b)
      == b.(shared := b.shared.(responseQueue := false, requestPending := false),
            history := b.history.(taken := b.history.taken + [Pair(Last(b.history.posted), b.shared.result)]))
  {
    CopyingEnds(Next(b, TakeCall), []);
  }

  /** Between exchanges any request can be submitted; core 1 reads exactly its fields, and core 0 takes
      exactly the answer to it. Afterwards the bridge is between exchanges again. */
  lemma ExchangeCompletes(b: Bridge, request: Block, answer: Block)
    requires Inv(b) && b.core0.Idle? && !b.shared.requestPending
    requires |request| == |b.shared.request| && |answer| == |b.shared.result|
    ensures var h := b.history;
      && Read(Submitted(b, request)).core1 == Reading(request)
      && Taken(Answered(Submitted(b, request), answer))
         == b.(shared := b.shared.(request := request, result := answer),
               history := History(h.posted + [request], h.answered + [Pair(request, answer)], h.taken + [Pair(request, answer)]))
  {
    hide Submitted, Read, Answered, Taken;
    NothingIsOut(b);
    hide Inv;
    SubmissionEnds(b, request);
    ReadEnds(Submitted(b, request));
    AnswerEnds(Submitted(b, request), answer);
    TakingEnds(Answered(Submitted(b, request), answer));
  }

  // ----- The exchange in memory -----

  class ExchangeBlock {
    var request: array<Word>
    var result: array<Word>
    var requestQueue: bool
    var responseQueue: bool
    var requestPending: bool
    var core0: Core0
    var core1: Core1
    ghost var history: History

    ghost function View(): Bridge
      reads this, request, result
    {
      Bridge(Shared(request[..], result[..], requestQueue, responseQueue, requestPending), core0, core1, history)
    }

    ghost predicate Valid()
      reads this, request, result
    {
      request != result && Inv(View())
    }

    constructor (requestSize: nat, resultSize: nat)
      ensures Valid() && fresh(request) && fresh(result)
      ensures View() == Fresh(requestSize, resultSize)
    {
      request := new Word[requestSize](_ => 0);
      result := new Word[resultSize](_ => 0);
      requestQueue, responseQueue, requestPending := false, false, false;
      core0, core1, history := Idle, Waiting, History([], [], []);
      new;
      assert request[..] == seq(requestSize, _ => 0);
      assert result[..] == seq(resultSize, _ => 0);
    }

    /** One step of core 0 inside submit() or takeResult(). */
    method Core0Action()
      requires request != result
      modifies this, request
      ensures request == old(request) && result == old(result)
      ensures View() == StepCore0(old(View()))
    {
      match core0
      case Idle =>
      case Filling(wanted, filled) =>
        if filled < |wanted| && filled < request.Length {
          request[filled] := wanted[filled];
          core0 := Filling(wanted, filled + 1);
        } else if requestQueue {
          core0 := Idle;
        } else {
          requestQueue := true;
          core0 := Marking;
          history := history.(posted := history.posted + [wanted]);
        }
      case Marking =>
        requestPending := true;
        core0 := Idle;
      case Copying(got) =>
        if |got| < result.Length {
          core0 := Copying(got + [result[|got|]]);
        } else {
          core0 := Clearing(got);
        }
      case Clearing(got) =>
        requestPending := false;
        core0 := Idle;
        history := if history.posted == [] then history
                   else history.(taken := history.taken + [Pair(Last(history.posted), got)]);
    }

    /** submit(): refused while an earlier request is still out. */
    method Submit(wanted: Block) returns (accepted: bool)
      requires Valid() && core0.Idle? && |wanted| == request.Length
      modifies this
      ensures Valid() && request == old(request) && result == old(result)
      ensures View() == Next(old(View()), SubmitCall(wanted))
      ensures accepted <==> !old(requestPending)
    {
      StepKeepsInv(View(), SubmitCall(wanted));
      if requestPending {
        return false;
      }
      core0 := Filling(wanted, 0);
      return true;
    }

    /** takeResult(): succeeds exactly when core 1 has responded. */
    method TakeResult() returns (taken: bool)
      requires Valid() && core0.Idle?
      modifies this
      ensures Valid() && request == old(request) && result == old(result)
      ensures View() == Next(old(View()), TakeCall)
      ensures taken <==> old(responseQueue)
    {
      StepKeepsInv(View(), TakeCall);
      if !requestPending {
        return false;
      }
      if !responseQueue {
        return false;
      }
      responseQueue := false;
      core0 := Copying([]);
      return true;
    }

    /** One step of core 1 inside pollCore1(). */
    method Core1Action()
      requires request != result
      modifies this, result
      ensures request == old(request) && result == old(result)
      ensures View() == StepCore1(old(View()))
    {
      match core1
      case Waiting =>
      case Resetting(cleared) =>
        if cleared < result.Length {
          result[cleared] := 0;
          core1 := Resetting(cleared + 1);
        } else {
          core1 := Reading([]);
        }
      case Reading(local) =>
        if |local| < request.Length {
          core1 := Reading(local + [request[|local|]]);
        }
      case Writing(answer, written) =>
        if written < result.Length && written < |answer| {
          result[written] := answer[written];
          core1 := Writing(answer, written + 1);
        } else {
          core1 := Responding;
        }
      case Responding =>
        responseQueue := true;
        core1 := Waiting;
    }
  }
}

/** The data pumps of core 1 over the two byte rings (src/vfs_bridge.cpp), with the window
    transfers of VfsClient they drive (src/vfs_client.cpp). A ring is the queue of its unread
    bytes: that is what writing, peeking and discarding do to the real one by the lemmas
    WriteAppends, PeekReadsTheQueue and DiscardDropsTheOldest of SpscRing. The network core may
    add bytes to the write ring at any moment. */
module VfsPump {
  import opened SpscRing

  datatype PumpError = NoError | DeviceError | IngressRace

  /** One frame of a window: its place in the window and its bytes. */
  datatype Frame = Frame(isStart: bool, isEnd: bool, offset: nat, data: seq<Byte>)

  /** What becomes of a window sent to the Z80: acknowledged, not acknowledged in time or
      with an error, or broken off because the line refuses a frame. */
  datatype Outcome = Acknowledged | Unanswered | LineFails(after: nat)

  /** One answer of the Z80 while a window is read. The two flags say that flag bits and
      sequence number are right, and that the CRC of a last frame is. */
  datatype Reply =
    | EndOfFile
    | Refused
    | Part(frame: Frame, total: nat, headerOk: bool, crcOk: bool)

  /** History of one window offered to the Z80. */
  datatype Delivery = Delivery(frames: seq<Frame>, window: seq<Byte>, acked: bool)

  function Joined(frames: seq<Frame>): (data: seq<Byte>) {
    if frames == [] then [] else Joined(frames[..|frames| - 1]) + frames[|frames| - 1].data
  }

  lemma NoFrames()
    ensures Joined([]) == []
  {
  }

  lemma JoinedAppend(frames: seq<Frame>, frame: Frame)
    ensures Joined(frames + [frame]) == Joined(frames) + frame.data
  {
    assert (frames + [frame])[..|frames|] == frames;
  }

  ghost predicate InPlace(frames: seq<Frame>, i: nat, complete: bool)
    requires i < |frames|
  {
    && frames[i].offset == |Joined(frames[..i])|
    && (frames[i].isStart <==> i == 0)
    && (frames[i].isEnd <==> complete && i == |frames| - 1)
  }

  /** The frames cut the bytes into consecutive fragments; only the first starts the
      window and, once it is complete, only the last ends it. */
  ghost predicate Cuts(frames: seq<Frame>, data: seq<Byte>, complete: bool) {
    && Joined(frames) == data
    && forall i :: 0 <= i < |frames| ==> InPlace(frames, i, complete)
  }

  lemma CutsExtend(frames: seq<Frame>, data: seq<Byte>, frame: Frame)
    requires Cuts(frames, data, false)
    requires frame.offset == |data| && (frame.isStart <==> frames == [])
    ensures Cuts(frames + [frame], data + frame.data, frame.isEnd)
  {
    hide Joined;
    JoinedAppend(frames, frame);
    var all := frames + [frame];
    forall i | 0 <= i < |all| ensures InPlace(all, i, frame.isEnd) {
      if i < |frames| {
        assert InPlace(frames, i, false);
        assert all[..i] == frames[..i];
      } else {
        assert all[..i] == frames;
      }
    }
  }

  /** A window that was broken off: the frames sent cut a beginning of it. */
  ghost predicate CutsBeginning(frames: seq<Frame>, window: seq<Byte>) {
    && Joined(frames) <= window
    && Cuts(frames, Joined(frames), Joined(frames) == window)
  }

  ghost predicate DeliveryOk(d: Delivery) {
    if d.acked then Cuts(d.frames, d.window, true) else CutsBeginning(d.frames, d.window)
  }

  /** Everything the line carried, and the bytes of the acknowledged windows. */
  ghost function Carried(log: seq<Delivery>): (frames: seq<Frame>) {
    if log == [] then [] else Carried(log[..|log| - 1]) + log[|log| - 1].frames
  }

  ghost function AckedBytes(log: seq<Delivery>): (data: seq<Byte>) {
    if log == [] then []
    else AckedBytes(log[..|log| - 1]) + (if log[|log| - 1].acked then log[|log| - 1].window else [])
  }

  lemma LogAppend(log: seq<Delivery>, d: Delivery)
    ensures Carried(log + [d]) == Carried(log) + d.frames
    ensures AckedBytes(log + [d]) == AckedBytes(log) + (if d.acked then d.window else [])
  {
    assert (log + [d])[..|log|] == log;
  }

  /** How many of the requested bytes the first n windows hold. */
  function Progress(requested: nat, limit: nat, n: nat): (bytes: nat)
    ensures bytes <= requested
  {
    if n == 0 then 0 else Minimum(requested, Progress(requested, limit, n - 1) + limit)
  }

  lemma {:induction false} ProgressIsProduct(requested: nat, limit: nat, n: nat)
    ensures Progress(requested, limit, n) == Minimum(requested, n * limit)
  {
    if n == 0 {
    } else {
      ProgressIsProduct(requested, limit, n - 1);
      assert n * limit == (n - 1) * limit + limit;
    }
  }

  /** Window number i when the bytes are sent limit at a time. */
  function WindowOf(data: seq<Byte>, limit: nat, i: nat): (window: seq<Byte>) {
    data[Progress(|data|, limit, i)..Progress(|data|, limit, i + 1)]
  }

  /** The windows offered are consecutive parts of the bytes. */
  ghost predicate InOrder(offered: seq<Delivery>, data: seq<Byte>, limit: nat) {
    forall i :: 0 <= i < |offered| ==> offered[i].window == WindowOf(data, limit, i)
  }

  ghost predicate AllAcked(offered: seq<Delivery>, outcomes: seq<Outcome>) {
    forall i :: 0 <= i < |offered| ==> offered[i].acked && OutcomeOf(outcomes, i) == Acknowledged
  }

  lemma NothingOffered(data: seq<Byte>, limit: nat, outcomes: seq<Outcome>)
    ensures Progress(|data|, limit, 0) == 0 && InOrder([], data, limit) && AllAcked([], outcomes)
  {
  }

  lemma NextWindow(data: seq<Byte>, limit: nat, n: nat)
    requires 0 < limit && Progress(|data|, limit, n) < |data|
    ensures var done := Progress(|data|, limit, n); var next := done + Minimum(|data| - done, limit);
      Progress(|data|, limit, n + 1) == next && WindowOf(data, limit, n) == data[done..next]
  {
  }

  lemma OfferNext(offered: seq<Delivery>, data: seq<Byte>, limit: nat, d: Delivery)
    requires InOrder(offered, data, limit) && d.window == WindowOf(data, limit, |offered|)
    ensures InOrder(offered + [d], data, limit)
  {
    hide WindowOf;
  }

  lemma LogNext(before: seq<Delivery>, offered: seq<Delivery>, d: Delivery)
    ensures before + offered + [d] == before + (offered + [d])
  {
  }

  lemma AckNext(offered: seq<Delivery>, outcomes: seq<Outcome>, d: Delivery)
    requires AllAcked(offered, outcomes)
    ensures d.acked && OutcomeOf(outcomes, |offered|) == Acknowledged ==> AllAcked(offered + [d], outcomes)
  {
  }

  /** Acknowledged windows, taken together, are the beginning of the bytes, and the line
      carried exactly that. */
  lemma {:induction false} WindowsAreTheBytes(acked: seq<Delivery>, data: seq<Byte>, limit: nat)
    requires InOrder(acked, data, limit)
    requires forall i :: 0 <= i < |acked| ==> acked[i].acked && DeliveryOk(acked[i])
    ensures AckedBytes(acked) == data[..Progress(|data|, limit, |acked|)]
    ensures Joined(Carried(acked)) == AckedBytes(acked)
  {
    if acked == [] {
    } else {
      hide Cuts, Progress, WindowOf;
      var front, last := acked[..|acked| - 1], acked[|acked| - 1];
      WindowsAreTheBytes(front, data, limit);
      assert DeliveryOk(last);
      JoinedConcat(Carried(front), last.frames);
      assert last.window == WindowOf(data, limit, |front|);
    }
  }

  lemma {:induction false} JoinedConcat(left: seq<Frame>, right: seq<Frame>)
    ensures Joined(left + right) == Joined(left) + Joined(right)
  {
    hide Joined;
    if right == [] {
      assert left + right == left;
      NoFrames();
    } else {
      var front, last := right[..|right| - 1], right[|right| - 1];
      JoinedConcat(left, front);
      assert right == front + [last] && left + right == left + front + [last];
      JoinedAppend(front, last);
      JoinedAppend(left + front, last);
    }
  }

  /** The tests on the header of a frame that arrives while a window is read. */
  predicate Follows(part: Reply, wanted: nat, received: nat, total: nat)
    requires part.Part?
  {
    && part.headerOk
    && 0 < |part.frame.data|
    && (part.frame.isStart <==> received == 0)
    && part.frame.offset == received
    && 0 < part.total <= wanted
    && (total == 0 || part.total == total)
    && part.frame.offset <= part.total
    && |part.frame.data| <= part.total - part.frame.offset
    && (part.frame.isEnd <==> received + |part.frame.data| == part.total)
  }

  predicate Ended(frames: seq<Frame>) {
    frames != [] && frames[|frames| - 1].isEnd
  }

  /** Why a window that has these frames so far ends with the next answer. */
  ghost predicate StopsWell(frames: seq<Frame>, replies: seq<Reply>) {
    if Ended(frames) then |frames| <= |replies| && replies[|frames| - 1].Part? && replies[|frames| - 1].crcOk
    else |frames| < |replies| && replies[|frames|].EndOfFile?
  }

  ghost predicate StopsBadly(frames: seq<Frame>, replies: seq<Reply>, wanted: nat) {
    if Ended(frames) then |frames| <= |replies| && replies[|frames| - 1].Part? && !replies[|frames| - 1].crcOk
    else if |frames| < |replies| then
      match replies[|frames|]
      case EndOfFile => false
      case Refused => true
      case Part(_, _, _, _) => !Follows(replies[|frames|], wanted, |Joined(frames)|, TotalOf(replies, |frames|))
    else true
  }

  /** Every accepted frame has the right flags and sequence number and some data, and announces the one
      length of the window, which is no more than was asked for and is reached exactly by the last. */
  ghost predicate Announced(replies: seq<Reply>, frames: seq<Frame>, wanted: nat) {
    && |frames| <= |replies|
    && (forall i :: 0 <= i < |frames| ==>
          && replies[i].Part? && replies[i].headerOk && frames[i].data != []
          && replies[0].Part? && 0 < replies[i].total == replies[0].total <= wanted)
    && (frames != [] && replies[0].Part? ==>
          |Joined(frames)| <= replies[0].total && (Ended(frames) <==> |Joined(frames)| == replies[0].total))
  }

  /** The announced length of the window, once a first frame was accepted. */
  function TotalOf(replies: seq<Reply>, accepted: nat): nat {
    if 0 < accepted && accepted <= |replies| && replies[0].Part? then replies[0].total else 0
  }

  /** The window so far, from the frames that were accepted. */
  ghost predicate Accepted(replies: seq<Reply>, frames: seq<Frame>, wanted: nat) {
    && Announced(replies, frames, wanted) && Cuts(frames, Joined(frames), Ended(frames))
    && (forall i :: 0 <= i < |frames| ==> replies[i].Part? && frames[i] == replies[i].frame)
    && |Joined(frames)| <= wanted
    && (Joined(frames) == [] <==> frames == []) && (TotalOf(replies, |frames|) == 0 <==> frames == [])
  }

  lemma NoneAccepted(replies: seq<Reply>, wanted: nat)
    ensures Accepted(replies, [], wanted) && !Ended([]) && Joined([]) == []
  {
    hide Joined;
    NoFrames();
  }

  lemma AcceptsOneMore(replies: seq<Reply>, frames: seq<Frame>, wanted: nat)
    requires Accepted(replies, frames, wanted) && !Ended(frames) && |frames| < |replies| && replies[|frames|].Part?
    requires Follows(replies[|frames|], wanted, |Joined(frames)|, TotalOf(replies, |frames|))
    ensures var reply := replies[|frames|];
      var more := frames + [reply.frame];
      && Accepted(replies, more, wanted) && Joined(more) == Joined(frames) + reply.frame.data
      && TotalOf(replies, |more|) == reply.total && (Ended(more) <==> reply.frame.isEnd)
  {
    hide Joined, InPlace;
    var reply := replies[|frames|];
    var more := frames + [reply.frame];
    JoinedAppend(frames, reply.frame);
    CutsExtend(frames, Joined(frames), reply.frame);
    TotalStays(replies, frames, wanted);
    assert |Joined(more)| == |Joined(frames)| + |reply.frame.data|;
    assert Ended(more) <==> reply.frame.isEnd;
    assert Announced(replies, more, wanted);
  }

  lemma TotalStays(replies: seq<Reply>, frames: seq<Frame>, wanted: nat)
    requires Accepted(replies, frames, wanted) && |frames| < |replies| && replies[|frames|].Part?
    requires Follows(replies[|frames|], wanted, |Joined(frames)|, TotalOf(replies, |frames|))
    ensures replies[0].Part? && replies[|frames|].total == replies[0].total
    ensures TotalOf(replies, |frames| + 1) == replies[0].total
  {
    hide Joined, InPlace;
  }

  /** The ring still begins with the queued bytes from a position on. */
  lemma RingStep(queued: seq<Byte>, requested: nat, done: nat, ring: seq<Byte>, length: nat, gone: seq<Byte>)
    requires done + length <= requested <= |queued| && queued[done..] <= ring
    ensures length <= |ring| && ring[..length] == queued[..requested][done..done + length]
    ensures queued[done + length..] <= ring[length..]
    ensures gone + queued[..done] + ring[..length] == gone + queued[..done + length]
  {
    assert ring[..length] == queued[done..][..length] == queued[done..done + length];
    assert queued[..done] + ring[..length] == queued[..done + length];
    assert queued[done + length..] == queued[done..][length..];
    assert ring[..|queued| - done] == queued[done..];
    assert ring[length..][..|queued| - done - length] == ring[..|queued| - done][length..];
  }

  function OutcomeOf(outcomes: seq<Outcome>, i: nat): Outcome {
    if i < |outcomes| then outcomes[i] else Unanswered
  }

  class Pump {
    var networkToVfs: seq<Byte>
    var vfsToNetwork: seq<Byte>
    const capacity: nat
    const fragment: nat
    /** The serial line: every frame handed to it so far. */
    var wire: seq<Frame>
    var writeFailed: bool
    /** History: what core 0 pushed, what left the ring, and the windows offered. */
    ghost var pushed: seq<Byte>
    ghost var dropped: seq<Byte>
    ghost var log: seq<Delivery>

    /** Nothing leaves the ring but bytes of acknowledged windows, in order, and what was
        not acknowledged is still queued. */
    ghost predicate Consistent()
      reads this
    {
      && 0 < fragment
      && |networkToVfs| <= capacity && |vfsToNetwork| <= capacity
      && pushed == dropped + networkToVfs
      && (forall i :: 0 <= i < |log| ==> DeliveryOk(log[i]))
      && dropped <= AckedBytes(log) <= pushed
    }

    /** Between two requests every acknowledged byte has left the ring, and the line has
        carried the windows offered and nothing else. */
    ghost predicate Valid()
      reads this
    {
      Consistent() && dropped == AckedBytes(log) && wire == Carried(log)
    }

    constructor (capacity: nat, fragment: nat)
      requires 0 < fragment
      ensures Valid() && this.capacity == capacity && networkToVfs == [] && vfsToNetwork == []
      ensures wire == [] && log == [] && !writeFailed
    {
      this.capacity, this.fragment := capacity, fragment;
      networkToVfs, vfsToNetwork, wire, writeFailed := [], [], [], false;
      pushed, dropped, log := [], [], [];
    }

    /** writeFromNetwork() by core 0: keeps what fits, behind everything already queued. */
    method Push(data: seq<Byte>) returns (count: nat)
      requires Consistent()
      modifies this`networkToVfs, this`pushed
      ensures Consistent() && count == Minimum(|data|, capacity - |old(networkToVfs)|)
      ensures networkToVfs == old(networkToVfs) + data[..count] && pushed == old(pushed) + data[..count]
    {
      count := Minimum(|data|, capacity - |networkToVfs|);
      networkToVfs := networkToVfs + data[..count];
      pushed := pushed + data[..count];
    }

    method PeekAt(offset: nat, wanted: nat) returns (output: seq<Byte>)
      requires Consistent()
      ensures offset + wanted <= |networkToVfs| ==> output == networkToVfs[offset..offset + wanted]
      ensures |output| <= wanted
    {
      if offset >= |networkToVfs| {
        return [];
      }
      var count := Minimum(wanted, |networkToVfs| - offset);
      return networkToVfs[offset..offset + count];
    }

    /** discard(): only bytes the Z80 has acknowledged may be asked for. */
    method Discard(length: nat) returns (count: nat)
      requires Consistent() && |dropped| + length <= |AckedBytes(log)|
      modifies this`networkToVfs, this`dropped
      ensures Consistent()
      ensures count == Minimum(length, |old(networkToVfs)|)
      ensures networkToVfs == old(networkToVfs)[count..]
      ensures dropped == old(dropped) + old(networkToVfs)[..count]
    {
      count := Minimum(length, |networkToVfs|);
      dropped := dropped + networkToVfs[..count];
      networkToVfs := networkToVfs[count..];
    }

    /** One fragment read at its offset, during which core 0 may push more bytes. */
    method TakeFragment(offset: nat, count: nat, arriving: seq<Byte>, ghost window: seq<Byte>)
      returns (data: seq<Byte>)
      requires Consistent() && offset + count <= |window| && window <= networkToVfs
      modifies this`networkToVfs, this`pushed
      ensures Consistent() && old(networkToVfs) <= networkToVfs
      ensures data == window[offset..offset + count]
    {
      data := PeekAt(offset, count);
      var _ := Push(arriving);
    }

    /** The frames of one window, each taken from the ring at its own offset while core 0
        keeps pushing; the line may refuse one of them. */
    method SendFrames(length: nat, arrivals: seq<seq<Byte>>, outcome: Outcome)
      returns (complete: bool, frames: seq<Frame>)
      requires Consistent() && 0 < length <= |networkToVfs|
      modifies this`networkToVfs, this`pushed, this`wire
      ensures Consistent() && old(networkToVfs) <= networkToVfs
      ensures wire == old(wire) + frames
      ensures complete ==> Cuts(frames, old(networkToVfs)[..length], true)
      ensures CutsBeginning(frames, old(networkToVfs)[..length])
      ensures !complete ==> outcome == LineFails(|frames|)
    {
      frames := [];
      var offset := 0;
      ghost var window := networkToVfs[..length];
      while offset < length
        invariant Consistent() && 0 <= offset <= length
        invariant old(networkToVfs) <= networkToVfs
        invariant wire == old(wire) + frames
        invariant Cuts(frames, window[..offset], offset == length)
        invariant frames == [] <==> offset == 0
      {
        var count := Minimum(length - offset, fragment);
        var arriving := if |frames| < |arrivals| then arrivals[|frames|] else [];
        var data := TakeFragment(offset, count, arriving, window);
        if outcome.LineFails? && |frames| == outcome.after {
          return false, frames;
        }
        var frame := Frame(offset == 0, offset + count == length, offset, data);
        CutsExtend(frames, window[..offset], frame);
        assert window[..offset] + data == window[..offset + count];
        wire := wire + [frame];
        frames := frames + [frame];
        offset := offset + count;
      }
      assert window[..length] == window;
      complete := true;
    }

    /** VfsClient::writeFileWindow: sends the window and waits for the acknowledgement. After
        one failure nothing more is sent until the file is opened again. */
    method WriteFileWindow(length: nat, windowLimit: nat, arrivals: seq<seq<Byte>>, outcome: Outcome)
      returns (ok: bool)
      requires Valid() && 0 < length <= |networkToVfs|
      modifies this`networkToVfs, this`pushed, this`wire, this`log, this`writeFailed
      ensures Consistent() && wire == Carried(log) && old(networkToVfs) <= networkToVfs
      ensures ok <==> !old(writeFailed) && length <= windowLimit && outcome.Acknowledged?
      ensures writeFailed == !ok
      ensures |log| == |old(log)| + 1 && log[..|old(log)|] == old(log)
      ensures log[|old(log)|].window == old(networkToVfs)[..length] && log[|old(log)|].acked == ok
      ensures old(writeFailed) || windowLimit < length ==> wire == old(wire)
      ensures AckedBytes(log) == old(AckedBytes(log)) + (if ok then old(networkToVfs)[..length] else [])
    {
      ghost var window := networkToVfs[..length];
      ghost var before := log;
      if writeFailed || length > windowLimit {
        writeFailed := true;
        Record(before, [], window, false);
        return false;
      }
      var complete, frames := SendFrames(length, arrivals, outcome);
      ok := complete && outcome.Acknowledged?;
      writeFailed := !ok;
      Record(before, frames, window, ok);
    }

    /** History only: enters the offered window into the log. */
    ghost method Record(before: seq<Delivery>, frames: seq<Frame>, window: seq<Byte>, acked: bool)
      requires Consistent() && before == log && dropped == AckedBytes(log)
      requires window <= networkToVfs && DeliveryOk(Delivery(frames, window, acked))
      requires wire == Carried(log) + frames
      modifies this`log
      ensures Consistent() && wire == Carried(log)
      ensures log == before + [Delivery(frames, window, acked)]
      ensures AckedBytes(log) == AckedBytes(before) + (if acked then window else [])
    {
      LogAppend(log, Delivery(frames, window, acked));
      log := log + [Delivery(frames, window, acked)];
    }

    /** One turn of the pump: the window leaves the ring if it was acknowledged, whole, so
        that the error text "ingress-race" is never reported; otherwise it stays. */
    method PumpWindow(length: nat, windowLimit: nat, arrivals: seq<seq<Byte>>, outcome: Outcome)
      returns (error: PumpError, ghost entry: Delivery)
      requires Valid() && 0 < length <= |networkToVfs|
      modifies this`networkToVfs, this`pushed, this`wire, this`log, this`writeFailed, this`dropped
      ensures Valid() && (error == NoError || error == DeviceError)
      ensures error == NoError <==> !old(writeFailed) && length <= windowLimit && outcome == Acknowledged
      ensures writeFailed <==> error == DeviceError
      ensures log == old(log) + [entry]
      ensures entry.window == old(networkToVfs)[..length] && (entry.acked <==> error == NoError)
      ensures error == NoError ==>
                && old(networkToVfs)[length..] <= networkToVfs
                && dropped == old(dropped) + old(networkToVfs)[..length]
      ensures error == DeviceError ==> old(networkToVfs) <= networkToVfs && dropped == old(dropped)
    {
      ghost var ring := networkToVfs;
      var sent := WriteFileWindow(length, windowLimit, arrivals, outcome);
      entry := log[|log| - 1];
      if !sent {
        return DeviceError, entry;
      }
      assert networkToVfs[..length] == ring[..length];
      var gone := Discard(length);
      if gone != length {
        assert false;
        return IngressRace, entry;
      }
      error := NoError;
    }

    /** The loop of processWrite(): window after window, up to the first one that is not
        acknowledged. */
    method PumpWindows(requested: nat, pumpLimit: nat, windowLimit: nat,
                       arrivals: seq<seq<seq<Byte>>>, outcomes: seq<Outcome>)
      returns (error: PumpError, transferred: nat, ghost acked: seq<Delivery>, ghost last: seq<Delivery>)
      requires Valid() && 0 < pumpLimit && requested <= |networkToVfs|
      modifies this`networkToVfs, this`pushed, this`wire, this`log, this`writeFailed, this`dropped
      ensures Valid() && (error == NoError || error == DeviceError)
      ensures log == old(log) + (acked + last) && |last| == if error == NoError then 0 else 1
      ensures InOrder(acked + last, old(networkToVfs)[..requested], pumpLimit)
      ensures AllAcked(acked, outcomes)
      ensures transferred == Progress(requested, pumpLimit, |acked|)
      ensures dropped == old(dropped) + old(networkToVfs)[..transferred]
      ensures old(networkToVfs)[transferred..] <= networkToVfs
      ensures error == NoError <==> transferred == requested
      ensures error == DeviceError ==>
                && !last[0].acked
                && (old(writeFailed) || OutcomeOf(outcomes, |acked|) != Acknowledged
                    || windowLimit < |last[0].window|)
    {
      hide Valid, Consistent, AllAcked, Joined, Carried, AckedBytes, DeliveryOk, Progress, WindowOf, InOrder;
      error, transferred, acked, last := NoError, 0, [], [];
      ghost var queued, before, data := networkToVfs, log, networkToVfs[..requested];
      NothingOffered(data, pumpLimit, outcomes);
      var number := 0;
      while transferred < requested
        invariant Valid() && transferred <= requested && number == |acked|
        invariant error == NoError && last == []
        invariant transferred == Progress(requested, pumpLimit, |acked|)
        invariant dropped == old(dropped) + queued[..transferred]
        invariant queued[transferred..] <= networkToVfs
        invariant log == before + acked
        invariant InOrder(acked, data, pumpLimit) && AllAcked(acked, outcomes)
        invariant writeFailed == old(writeFailed)
        decreases requested - transferred
      {
        var window := Minimum(requested - transferred, pumpLimit);
        var arriving := if number < |arrivals| then arrivals[number] else [];
        RingStep(queued, requested, transferred, networkToVfs, window, old(dropped));
        NextWindow(data, pumpLimit, |acked|);
        ghost var entry: Delivery;
        error, entry := PumpWindow(window, windowLimit, arriving, OutcomeOf(outcomes, number));
        OfferNext(acked, data, pumpLimit, entry);
        AckNext(acked, outcomes, entry);
        LogNext(before, acked, entry);
        if error != NoError {
          last := [entry];
          return;
        }
        transferred := transferred + window;
        number := number + 1;
        acked := acked + [entry];
      }
      assert acked + last == acked;
    }

    /** processWrite(): sends min(value, available) bytes window by window. A byte leaves the
        ring only after the Z80 acknowledged its window, and the request stops at the first
        window that is not acknowledged, so an error loses and repeats nothing. */
    method ProcessWrite(value: nat, pumpLimit: nat, windowLimit: nat,
                        arrivals: seq<seq<seq<Byte>>>, outcomes: seq<Outcome>)
      returns (error: PumpError, transferred: nat, wouldBlock: bool,
               ghost acked: seq<Delivery>, ghost last: seq<Delivery>)
      requires Valid() && 0 < pumpLimit
      modifies this`networkToVfs, this`pushed, this`wire, this`log, this`writeFailed, this`dropped
      ensures Valid() && (error == NoError || error == DeviceError)
      ensures log == old(log) + (acked + last) && |last| == if error == NoError then 0 else 1
      ensures InOrder(acked + last, old(networkToVfs)[..Minimum(value, |old(networkToVfs)|)], pumpLimit)
      ensures AllAcked(acked, outcomes)
      ensures transferred == Progress(Minimum(value, |old(networkToVfs)|), pumpLimit, |acked|)
      ensures dropped == old(dropped) + old(networkToVfs)[..transferred]
      ensures old(networkToVfs)[transferred..] <= networkToVfs
      ensures error == NoError <==> transferred == Minimum(value, |old(networkToVfs)|)
      ensures error == DeviceError ==>
                && !last[0].acked
                && (old(writeFailed) || OutcomeOf(outcomes, |acked|) != Acknowledged
                    || windowLimit < |last[0].window|)
      ensures wouldBlock <==> old(networkToVfs) == []
    {
      wouldBlock := false;
      var requested := Minimum(value, |networkToVfs|);
      if requested == 0 {
        NothingOffered([], pumpLimit, outcomes);
        wouldBlock := |networkToVfs| == 0;
        error, transferred, acked, last := NoError, 0, [], [];
        assert networkToVfs[..requested] == [];
        return;
      }
      error, transferred, acked, last := PumpWindows(requested, pumpLimit, windowLimit, arrivals, outcomes);
    }

    /** The sink of a window that is read: writes to the ring of the network core. */
    method WriteNetworkWindow(data: seq<Byte>) returns (ok: bool)
      requires Valid()
      modifies this`vfsToNetwork
      ensures Valid() && vfsToNetwork == old(vfsToNetwork) + data[..Minimum(|data|, capacity - |old(vfsToNetwork)|)]
      ensures ok <==> |data| <= capacity - |old(vfsToNetwork)|
    {
      var count := Minimum(|data|, capacity - |vfsToNetwork|);
      vfsToNetwork := vfsToNetwork + data[..count];
      ok := count == |data|;
    }

    /** VfsClient::readFileWindow: whatever the Z80 answers, the ring receives the data of the
        frames that fit together, in order, never more than was asked for. The sink cannot
        refuse them, as there is room for the whole window. */
    method ReadFileWindow(wanted: nat, windowLimit: nat, replies: seq<Reply>)
      returns (ok: bool, received: nat, ghost frames: seq<Frame>)
      requires Valid() && wanted <= capacity - |vfsToNetwork|
      modifies this`vfsToNetwork
      ensures Valid() && vfsToNetwork == old(vfsToNetwork) + Joined(frames)
      ensures received == |Joined(frames)| <= wanted && (received == 0 <==> frames == [])
      ensures |frames| <= |replies|
           && forall i :: 0 <= i < |frames| ==> replies[i].Part? && frames[i] == replies[i].frame
      ensures Announced(replies, frames, wanted)
      ensures Cuts(frames, Joined(frames), Ended(frames))
      ensures 0 < wanted <= windowLimit && ok ==> StopsWell(frames, replies)
      ensures 0 < wanted <= windowLimit && !ok ==> StopsBadly(frames, replies, wanted)
      ensures !(0 < wanted <= windowLimit) ==> !ok && frames == []
    {
      hide Joined, Consistent, Cuts, Announced, Follows, Ended, TotalOf;
      NoneAccepted(replies, wanted);
      received, frames := 0, [];
      if wanted == 0 || wanted > windowLimit {
        return false, 0, [];
      }
      var total, number := 0, 0;
      while number < |replies|
        invariant Valid() && number == |frames| <= |replies| && !Ended(frames)
        invariant Accepted(replies, frames, wanted) && received == |Joined(frames)|
        invariant vfsToNetwork == old(vfsToNetwork) + Joined(frames)
        invariant total == TotalOf(replies, |frames|)
        decreases |replies| - number
      {
        var reply := replies[number];
        if reply.EndOfFile? {
          return true, received, frames;
        }
        if reply.Refused? || !Follows(reply, wanted, received, total) {
          return false, received, frames;
        }
        total := reply.total;
        AcceptsOneMore(replies, frames, wanted);
        var stored := WriteNetworkWindow(reply.frame.data);
        if !stored {
          assert false;
          return false, received, frames;
        }
        received := received + |reply.frame.data|;
        number := number + 1;
        frames := frames + [reply.frame];
        if reply.frame.isEnd {
          return reply.crcOk, received, frames;
        }
      }
      ok := false;
    }

    /** processRead(): asks the Z80 for no more than the read ring has room for. */
    method ProcessRead(value: nat, pumpLimit: nat, windowLimit: nat, replies: seq<Reply>)
      returns (error: PumpError, wanted: nat, transferred: nat, wouldBlock: bool, atEnd: bool,
               ghost frames: seq<Frame>)
      requires Valid()
      modifies this`vfsToNetwork
      ensures Valid() && vfsToNetwork == old(vfsToNetwork) + Joined(frames)
      ensures wanted == Minimum(Minimum(value, pumpLimit), capacity - |old(vfsToNetwork)|)
      ensures |Joined(frames)| <= wanted && Cuts(frames, Joined(frames), Ended(frames)) && Announced(replies, frames, wanted)
      ensures wouldBlock <==> |old(vfsToNetwork)| == capacity
      ensures wanted == 0 ==> error == NoError && frames == [] && transferred == 0 && !atEnd
      ensures 0 < wanted && error == NoError ==>
                && StopsWell(frames, replies)
                && transferred == |Joined(frames)|
                && (atEnd <==> frames == [])
      ensures 0 < wanted && error == DeviceError ==>
                && (windowLimit < wanted || StopsBadly(frames, replies, wanted))
                && transferred == 0 && !atEnd
      ensures error == NoError || error == DeviceError
    {
      error, transferred, wouldBlock, atEnd, frames := NoError, 0, false, false, [];
      var room := capacity - |vfsToNetwork|;
      wanted := Minimum(Minimum(value, pumpLimit), room);
      if wanted == 0 {
        wouldBlock := room == 0;
        return;
      }
      var success, received;
      success, received, frames := ReadFileWindow(wanted, windowLimit, replies);
      if !success {
        error := DeviceError;
        return;
      }
      transferred := received;
      atEnd := received == 0;
    }
  }
}

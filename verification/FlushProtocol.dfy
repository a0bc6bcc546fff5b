/** The flushes of the monitor transport, over every interleaving.

    Producers call `send` on any thread.  A task is one run of `_do_flush`: an explicit `flush()`,
    or the main loop's own flush on its timer or an error wake-up.  It looks at the hold-off window,
    then queues on the flush lock, then takes the whole buffer as a batch and posts it, with pauses
    between failed attempts, and holds the lock until its batch is done with. */
module FlushProtocol {
  import opened Prelude
  import opened MonitorTransport
  import opened EventLedger

  datatype Stage =
    | Called                                  // not yet looked at the window
    | Queued                                  // passed the check; waits for the flush lock
    | Posting(batch: nat, attempt: nat)       // holds the lock; a POST is outstanding
    | Pausing(batch: nat, attempt: nat)       // holds the lock; between two attempts
    | HeldOff                                 // returned: the window was open
    | Flushed                                 // returned after the lock

  /** `mark` events had been sent when the flush was called; it passed the check at time `checkedAt`,
      when the window had been moved `epoch` times, and took its batch at `tookAt`, `tookEpoch`. */
  datatype Task = Task(mark: nat, stage: Stage, checkedAt: real, epoch: nat, tookAt: real, tookEpoch: nat) {
    predicate InFlight() {
      stage.Posting? || stage.Pausing?
    }
  }

  datatype State = State(
    ledger: Ledger<MonitorEvent>,
    tasks: seq<Task>,
    lock: Option<nat>,          // which task holds the flush lock
    finished: nat,              // batches whose _send_batch_with_retry has returned
    hold: HoldOff,
    epoch: nat,                 // how often the window has been moved
    answers: seq<Arrived>,      // history: every answer so far
    now: real,
    reported: nat,              // _dropped_reported
    reports: seq<nat>           // the positive amounts reported so far
  )

  predicate Init(s: State) {
    && s.ledger == Empty(s.ledger.cap) && s.tasks == [] && s.lock == None && s.finished == 0
    && s.hold == HoldOff(0.0, None) && s.epoch == 0 && s.answers == []
    && 0.0 <= s.now && s.reported == 0 && s.reports == []
  }

  datatype Event =
    | Produce(event: MonitorEvent)
    | Call
    | Check(task: nat)
    | Take(task: nat)
    | Answer(task: nat, response: Response)
    | PauseOver(task: nat)
    | ReportDrops
    | Tick(to: real)

  predicate At(s: State, t: nat, stage: Stage) {
    t < |s.tasks| && s.tasks[t].stage == stage
  }

  ghost predicate Enabled(s: State, e: Event) {
    match e
    case Produce(_) => Valid(s.ledger)
    case Call => true
    case Check(t) => At(s, t, Called)
    case Take(t) => At(s, t, Queued) && s.lock == None && Valid(s.ledger)
    case Answer(t, _) => t < |s.tasks| && s.tasks[t].stage.Posting?
    case PauseOver(t) => t < |s.tasks| && s.tasks[t].stage.Pausing?
    case ReportDrops => s.reported <= s.ledger.dropped
    case Tick(to) => s.now <= to
  }

  function Move(s: State, t: nat, stage: Stage): State
    requires t < |s.tasks|
  {
    s.(tasks := s.tasks[t := s.tasks[t].(stage := stage)])
  }

  function Finish(s: State, t: nat): State
    requires t < |s.tasks|
  {
    Move(s, t, Flushed).(lock := None, finished := s.finished + 1)
  }

  ghost function Step(s: State, e: Event): State
    requires Enabled(s, e)
  {
    match e
    case Produce(event) => s.(ledger := Send(s.ledger, event))
    case Call => s.(tasks := s.tasks + [Task(|s.ledger.sent|, Called, 0.0, 0, 0.0, 0)])
    case Check(t) =>
      if s.hold.Open(s.now) then Move(s, t, HeldOff)
      else s.(tasks := s.tasks[t := s.tasks[t].(stage := Queued, checkedAt := s.now, epoch := s.epoch)])
    case Take(t) =>
      if s.ledger.buffer == [] then Move(s, t, Flushed)
      else
        var taken := s.tasks[t].(stage := Posting(|s.ledger.batches|, 1), tookAt := s.now, tookEpoch := s.epoch);
        s.(tasks := s.tasks[t := taken], ledger := Drain(s.ledger), lock := Some(t))
    case Answer(t, response) =>
      var (done, hold) := s.hold.Answered(response, s.now);
      var s' := s.(hold := hold, epoch := if hold.until != s.hold.until then s.epoch + 1 else s.epoch,
                   answers := s.answers + [Arrived(response, s.now)]);
      var Posting(batch, attempt) := s.tasks[t].stage;
      if done || attempt >= MAX_RETRY_ATTEMPTS then Finish(s', t) else Move(s', t, Pausing(batch, attempt))
    case PauseOver(t) =>
      var Pausing(batch, attempt) := s.tasks[t].stage;
      Move(s, t, Posting(batch, attempt + 1))
    case ReportDrops =>
      var newly := s.ledger.dropped - s.reported;
      s.(reported := s.ledger.dropped, reports := if newly > 0 then s.reports + [newly] else s.reports)
    case Tick(to) => s.(now := to)
  }

  ghost predicate Reaches(s: State, trace: seq<Event>, t: State)
    decreases |trace|
  {
    if trace == [] then s == t
    else Enabled(s, trace[0]) && Reaches(Step(s, trace[0]), trace[1..], t)
  }

  function Sum(xs: seq<nat>): nat {
    if xs == [] then 0 else Sum(xs[..|xs| - 1]) + xs[|xs| - 1]
  }

  // ---------------------------------------------------------------- invariant

  /** At most one task is between taking a batch and being done with it: the holder of the lock. */
  ghost predicate LockRight(s: State) {
    && (forall t :: 0 <= t < |s.tasks| && s.tasks[t].InFlight() ==> s.lock == Some(t))
    && match s.lock
       case None => s.finished == |s.ledger.batches|
       case Some(t) =>
         && t < |s.tasks| && s.tasks[t].InFlight()
         && s.finished + 1 == |s.ledger.batches|
         && s.tasks[t].stage.batch == s.finished
         && 1 <= s.tasks[t].stage.attempt <= MAX_RETRY_ATTEMPTS
         && (s.tasks[t].stage.Pausing? ==> s.tasks[t].stage.attempt < MAX_RETRY_ATTEMPTS)
  }

  /** The first `mark` events have all been evicted or are in batches that are done with. */
  ghost predicate Settled(s: State, mark: nat) {
    && mark <= |s.ledger.fates|
    && forall i :: 0 <= i < mark ==>
         || s.ledger.fates[i].Evicted?
         || (s.ledger.fates[i].InBatch? && s.ledger.fates[i].batch < s.finished)
  }

  ghost predicate MarksRight(s: State) {
    forall t :: 0 <= t < |s.tasks| ==>
      && s.tasks[t].mark <= |s.ledger.sent|
      && (s.tasks[t].InFlight() ==> s.tasks[t].mark <= Gone(s.ledger))
      && (s.tasks[t].stage.Flushed? ==> Settled(s, s.tasks[t].mark))
  }

  predicate PassedCheck(t: Task) {
    t.stage.Queued? || t.stage.Posting? || t.stage.Pausing?
  }

  ghost predicate WindowRight(s: State) {
    && 0.0 <= s.now
    && s.hold.until <= s.now + MAX_RETRY_AFTER_SECONDS
    && WindowTells(s.hold, s.answers)
    && forall t :: 0 <= t < |s.tasks| && PassedCheck(s.tasks[t]) ==>
         && s.tasks[t].checkedAt <= s.now
         && s.tasks[t].epoch <= s.epoch
         && (s.tasks[t].epoch == s.epoch ==> !s.hold.Open(s.tasks[t].checkedAt))
         && (s.tasks[t].InFlight() ==>
               s.tasks[t].tookEpoch == s.epoch && s.tasks[t].checkedAt <= s.tasks[t].tookAt <= s.now)
  }

  ghost predicate ReportsRight(s: State) {
    && Sum(s.reports) == s.reported <= s.ledger.dropped
    && forall i :: 0 <= i < |s.reports| ==> s.reports[i] > 0
  }

  ghost predicate Inv(s: State) {
    Valid(s.ledger) && LockRight(s) && MarksRight(s) && WindowRight(s) && ReportsRight(s)
  }

  lemma ProduceKeepsInv(s: State, e: Event)
    requires Inv(s) && Enabled(s, e) && e.Produce?
    ensures Inv(Step(s, e))
  {
    SendKeepsValid(s.ledger, e.event);
    var s' := Step(s, e);
    assert Gone(s.ledger) <= Gone(s'.ledger);
    forall i | 0 <= i < |s.ledger.fates| && !s.ledger.fates[i].Buffered?
      ensures s'.ledger.fates[i] == s.ledger.fates[i]
    {
    }
    forall t | 0 <= t < |s.tasks| && s.tasks[t].stage.Flushed?
      ensures Settled(s', s.tasks[t].mark)
    {
      assert Settled(s, s.tasks[t].mark);
    }
  }

  lemma TakeKeepsInv(s: State, t: nat)
    requires Inv(s) && Enabled(s, Take(t))
    ensures Inv(Step(s, Take(t)))
  {
    var s' := Step(s, Take(t));
    DrainKeepsValid(s.ledger);
    if s.ledger.buffer == [] {
      assert Settled(s', s.tasks[t].mark);
    }
    forall u | 0 <= u < |s.tasks| && s.tasks[u].stage.Flushed?
      ensures Settled(s', s.tasks[u].mark)
    {
      assert Settled(s, s.tasks[u].mark);
      assert forall i :: 0 <= i < s.tasks[u].mark ==> s'.ledger.fates[i] == s.ledger.fates[i];
    }
  }

  lemma AnswerKeepsInv(s: State, e: Event)
    requires Inv(s) && Enabled(s, e) && e.Answer?
    ensures Inv(Step(s, e))
  {
    var s' := Step(s, e);
    WindowAfterAnswer(s.hold, e.response, s.now);
    AnswerKeepsTelling(s.hold, s.answers, Arrived(e.response, s.now));
    assert s.lock == Some(e.task);
    if s'.tasks[e.task].stage.Flushed? {
      assert Settled(s', s.tasks[e.task].mark);
    }
    forall u | 0 <= u < |s.tasks| && s.tasks[u].stage.Flushed?
      ensures Settled(s', s.tasks[u].mark)
    {
      assert Settled(s, s.tasks[u].mark);
    }
  }

  /** Nothing that concerns a flush that has returned is touched. */
  lemma SettledStays(s: State, t: State)
    requires MarksRight(s) && t.ledger.fates == s.ledger.fates && t.finished == s.finished
    ensures forall u :: 0 <= u < |s.tasks| && s.tasks[u].stage.Flushed? ==> Settled(t, s.tasks[u].mark)
  {
    forall u | 0 <= u < |s.tasks| && s.tasks[u].stage.Flushed?
      ensures Settled(t, s.tasks[u].mark)
    {
      assert Settled(s, s.tasks[u].mark);
    }
  }

  lemma CheckKeepsInv(s: State, t: nat)
    requires Inv(s) && Enabled(s, Check(t))
    ensures Inv(Step(s, Check(t)))
  {
    var s' := Step(s, Check(t));
    SettledStays(s, s');
    assert !s.tasks[t].InFlight() && !s'.tasks[t].InFlight() && !s'.tasks[t].stage.Flushed?;
    assert s' == s.(tasks := s.tasks[t := s'.tasks[t]]);
  }

  lemma CallKeepsInv(s: State)
    requires Inv(s)
    ensures Inv(Step(s, Call))
  {
    SettledStays(s, Step(s, Call));
  }

  lemma PauseOverKeepsInv(s: State, t: nat)
    requires Inv(s) && Enabled(s, PauseOver(t))
    ensures Inv(Step(s, PauseOver(t)))
  {
    SettledStays(s, Step(s, PauseOver(t)));
  }

  lemma OthersKeepInv(s: State, e: Event)
    requires Inv(s) && Enabled(s, e) && (e.ReportDrops? || e.Tick?)
    ensures Inv(Step(s, e))
  {
    var s' := Step(s, e);
    assert e.ReportDrops? && s'.reports != s.reports ==> s'.reports[..|s.reports|] == s.reports;
    SettledStays(s, s');
  }

  lemma StepKeepsInv(s: State, e: Event)
    requires Inv(s) && Enabled(s, e)
    ensures Inv(Step(s, e))
  {
    match e {
      case Produce(_) => ProduceKeepsInv(s, e);
      case Take(t) => TakeKeepsInv(s, t);
      case Answer(_, _) => AnswerKeepsInv(s, e);
      case ReportDrops => OthersKeepInv(s, e);
      case Tick(_) => OthersKeepInv(s, e);
      case Call => CallKeepsInv(s);
      case Check(t) => CheckKeepsInv(s, t);
      case PauseOver(t) => PauseOverKeepsInv(s, t);
    }
  }

  lemma {:induction false} RunKeepsInv(s: State, trace: seq<Event>, t: State)
    requires Inv(s) && Reaches(s, trace, t)
    ensures Inv(t)
    decreases |trace|
  {
    if trace != [] {
      StepKeepsInv(s, trace[0]);
      RunKeepsInv(Step(s, trace[0]), trace[1..], t);
    }
  }

  lemma ReachableInv(s: State, trace: seq<Event>, t: State)
    requires Init(s) && Reaches(s, trace, t)
    ensures Inv(t)
  {
    assert Valid(s.ledger);
    assert forall now: real :: !HeldBy([], now) && !s.hold.Open(now);
    RunKeepsInv(s, trace, t);
  }

  // ---------------------------------------------------------------- results

  /** The guarantee of `flush()`: when a flush that passed the hold-off check returns, every event
      sent before the flush was called has been evicted, or sits in a batch that is done with. */
  lemma FlushGuarantee(s: State, trace: seq<Event>, t: State, flush: nat, event: nat)
    requires Init(s) && Reaches(s, trace, t)
    requires At(t, flush, Flushed) && event < t.tasks[flush].mark
    ensures event < |t.ledger.sent| == |t.ledger.fates|
    ensures match t.ledger.fates[event]
            case Evicted => true
            case Buffered => false
            case InBatch(k) => k < t.finished <= |t.ledger.batches| && t.ledger.sent[event] in t.ledger.batches[k]
  {
    ReachableInv(s, trace, t);
    assert Settled(t, t.tasks[flush].mark);
    var l := t.ledger;
    if l.fates[event].InBatch? {
      InBatchIsMember(l.sent[..Gone(l)], l.fates[..Gone(l)], event, l.fates[event].batch);
    }
  }

  lemma {:induction false} MarkStays(s: State, trace: seq<Event>, t: State, c: nat)
    requires Reaches(s, trace, t) && c < |s.tasks|
    ensures c < |t.tasks| && t.tasks[c].mark == s.tasks[c].mark
    decreases |trace|
  {
    if trace != [] {
      MarkStays(Step(s, trace[0]), trace[1..], t, c);
    }
  }

  lemma {:induction false} SentStays(s: State, trace: seq<Event>, t: State)
    requires Reaches(s, trace, t)
    ensures s.ledger.sent <= t.ledger.sent
    decreases |trace|
  {
    if trace != [] {
      SentStays(Step(s, trace[0]), trace[1..], t);
    }
  }

  lemma OneMoreStep(s: State, e: Event, rest: seq<Event>, t: State)
    requires Enabled(s, e) && Reaches(Step(s, e), rest, t)
    ensures Reaches(s, [e] + rest, t)
  {
    assert ([e] + rest)[1..] == rest;
  }

  lemma {:induction false} ReachesInTwo(s: State, first: seq<Event>, t: State, second: seq<Event>, u: State)
    requires Reaches(s, first, t) && Reaches(t, second, u)
    ensures Reaches(s, first + second, u)
    decreases |first|
  {
    if first == [] {
      assert first + second == second;
    } else {
      ReachesInTwo(Step(s, first[0]), first[1..], t, second, u);
      OneMoreStep(s, first[0], first[1..] + second, u);
      assert [first[0]] + (first[1..] + second) == first + second;
    }
  }

  /** The same, said of the call: once a flush called at `t` has gone through the lock and returned, each event sent
      before the call has been evicted, or sits in a batch that is done with. */
  lemma FlushedSinceCall(s: State, before: seq<Event>, t: State, after: seq<Event>, u: State, event: nat)
    requires Init(s) && Reaches(s, before, t) && Reaches(Step(t, Call), after, u)
    requires At(u, |t.tasks|, Flushed) && event < |t.ledger.sent|
    ensures event < |u.ledger.sent| == |u.ledger.fates| && u.ledger.sent[event] == t.ledger.sent[event]
    ensures match u.ledger.fates[event]
            case Evicted => true
            case Buffered => false
            case InBatch(k) => k < u.finished <= |u.ledger.batches| && t.ledger.sent[event] in u.ledger.batches[k]
  {
    var called := Step(t, Call);
    MarkStays(called, after, u, |t.tasks|);
    SentStays(called, after, u);
    OneMoreStep(t, Call, after, u);
    ReachesInTwo(s, before, t, [Call] + after, u);
    FlushGuarantee(s, before + ([Call] + after), u, |t.tasks|, event);
  }

  /** At every moment at most one batch has been taken and is not yet done with, and its task alone
      holds the lock; what has been sent is conserved and in order. */
  lemma OneBatchInFlight(s: State, trace: seq<Event>, t: State)
    requires Init(s) && Reaches(s, trace, t)
    ensures t.finished <= |t.ledger.batches| <= t.finished + 1
    ensures forall a, b :: 0 <= a < |t.tasks| && 0 <= b < |t.tasks| ==>
              t.tasks[a].InFlight() && t.tasks[b].InFlight() ==> a == b
    ensures |t.ledger.sent| == |t.ledger.fates|
    ensures Flatten(t.ledger.batches) + t.ledger.buffer == Kept(t.ledger.sent, t.ledger.fates)
    ensures |t.ledger.sent| == t.ledger.dropped + |Flatten(t.ledger.batches)| + |t.ledger.buffer|
    ensures |t.ledger.buffer| <= t.ledger.cap
    ensures |t.ledger.buffer| <= |t.ledger.sent|
    ensures t.ledger.buffer == t.ledger.sent[|t.ledger.sent| - |t.ledger.buffer|..]
  {
    ReachableInv(s, trace, t);
    Conservation(t.ledger);
  }

  /** A flush that finds the window open leaves the buffer and everything else alone; a flush that has returned is
      not moved. */
  lemma HeldOffTouchesNothing(s: State, e: Event)
    requires Enabled(s, e)
    ensures e.Check? && s.hold.Open(s.now) ==>
              Step(s, e) == s.(tasks := s.tasks[e.task := s.tasks[e.task].(stage := HeldOff)])
    ensures forall t: nat :: At(s, t, HeldOff) || At(s, t, Flushed) ==>
              t < |Step(s, e).tasks| && Step(s, e).tasks[t] == s.tasks[t]
  {
  }

  /** A flush that looks at the window is held off exactly when the answers so far hold it off at that time: a 429
      with its Retry-After not yet over, or a success on an exhausted quota within 300 s, and no later 429 with a
      Retry-After of its own. Otherwise it queues for the lock. */
  lemma HeldOffExactly(s: State, trace: seq<Event>, t: State, c: nat)
    requires Init(s) && Reaches(s, trace, t) && At(t, c, Called)
    ensures Enabled(t, Check(c))
    ensures At(Step(t, Check(c)), c, HeldOff) <==> HeldBy(t.answers, t.now)
    ensures At(Step(t, Check(c)), c, Queued) <==> !HeldBy(t.answers, t.now)
  {
    ReachableInv(s, trace, t);
    assert t.hold.Open(t.now) <==> HeldBy(t.answers, t.now);
  }

  /** A flush that is not held off, with the lock free and events in the buffer, takes all of them and posts them. */
  lemma FlushPostsAll(s: State, trace: seq<Event>, t: State, c: nat)
    requires Init(s) && Reaches(s, trace, t) && At(t, c, Called) && !HeldBy(t.answers, t.now)
    requires t.lock == None && t.ledger.buffer != []
    ensures var queued := Step(t, Check(c));
            && At(queued, c, Queued) && Enabled(queued, Take(c))
            && var posting := Step(queued, Take(c));
               && At(posting, c, Posting(|t.ledger.batches|, 1)) && posting.lock == Some(c)
               && posting.ledger.batches == t.ledger.batches + [t.ledger.buffer] && posting.ledger.buffer == []
  {
    ReachableInv(s, trace, t);
    HeldOffExactly(s, trace, t, c);
  }

  lemma HourOldAnswersHoldNothing(answers: seq<Arrived>, now: real)
    requires forall i :: 0 <= i < |answers| ==> answers[i].at + 3600.0 <= now
    ensures !HeldBy(answers, now)
  {
  }

  /** In particular any flush, when all answers are an hour old. */
  lemma FlushPostsAfterAnHour(s: State, trace: seq<Event>, t: State, c: nat)
    requires Init(s) && Reaches(s, trace, t) && At(t, c, Called) && t.lock == None && t.ledger.buffer != []
    requires forall i :: 0 <= i < |t.answers| ==> t.answers[i].at + 3600.0 <= t.now
    ensures var queued := Step(t, Check(c));
            && At(queued, c, Queued) && Enabled(queued, Take(c))
            && var posting := Step(queued, Take(c));
               && At(posting, c, Posting(|t.ledger.batches|, 1)) && posting.lock == Some(c)
               && posting.ledger.batches == t.ledger.batches + [t.ledger.buffer] && posting.ledger.buffer == []
  {
    HourOldAnswersHoldNothing(t.answers, t.now);
    FlushPostsAll(s, trace, t, c);
  }

  /** An answer ends a flush exactly when it is final for the batch or was the third; otherwise the same batch is
      posted once more after a pause. */
  lemma AnswerDecides(s: State, c: nat, response: Response)
    requires Enabled(s, Answer(c, response))
    ensures var batch, attempt := s.tasks[c].stage.batch, s.tasks[c].stage.attempt;
            var t := Step(s, Answer(c, response));
            if Settles(response) || attempt >= 3 then
              At(t, c, Flushed) && t.lock == None && t.finished == s.finished + 1
            else
              && At(t, c, Pausing(batch, attempt)) && t.lock == s.lock && t.finished == s.finished
              && Enabled(t, PauseOver(c)) && At(Step(t, PauseOver(c)), c, Posting(batch, attempt + 1))
  {
    WindowAfterAnswer(s.hold, response, s.now);
  }

  /** How many steps of its own a flush has still to make, at most. */
  function Left(task: Task): nat {
    match task.stage
    case Called => 7
    case Queued => 6
    case Posting(_, attempt) => if attempt < 3 then 2 * (3 - attempt) + 1 else 1
    case Pausing(_, attempt) => if attempt < 3 then 2 * (3 - attempt) else 0
    case _ => 0
  }

  predicate StepOf(e: Event, c: nat) {
    match e
    case Check(t) => t == c
    case Take(t) => t == c
    case Answer(t, _) => t == c
    case PauseOver(t) => t == c
    case _ => false
  }

  lemma OwnStepLeavesFewer(s: State, c: nat, e: Event)
    requires Inv(s) && c < |s.tasks| && Enabled(s, e) && StepOf(e, c)
    ensures c < |Step(s, e).tasks| && Left(Step(s, e).tasks[c]) < Left(s.tasks[c])
  {
    match e {
      case Answer(_, response) => AnswerDecides(s, c, response);
      case _ =>
    }
  }

  lemma OthersLeaveFlushAlone(s: State, c: nat, e: Event)
    requires Inv(s) && c < |s.tasks| && Enabled(s, e) && !StepOf(e, c)
    ensures c < |Step(s, e).tasks| && Step(s, e).tasks[c] == s.tasks[c]
  {
  }

  /** Every flush comes to its end: a step of its own leaves it fewer, those of others as many; and until it has
      returned it has a next step, for which it waits at most for the lock, the network or a pause. */
  lemma FlushMakesProgress(s: State, trace: seq<Event>, t: State, c: nat, e: Event)
    requires Init(s) && Reaches(s, trace, t) && c < |t.tasks| && Enabled(t, e)
    ensures c < |Step(t, e).tasks|
    ensures StepOf(e, c) ==> Left(Step(t, e).tasks[c]) < Left(t.tasks[c])
    ensures !StepOf(e, c) ==> Step(t, e).tasks[c] == t.tasks[c]
    ensures match t.tasks[c].stage
            case Called => Enabled(t, Check(c))
            case Queued => t.lock == None ==> Enabled(t, Take(c))
            case Posting(_, _) => forall r :: Enabled(t, Answer(c, r))
            case Pausing(_, _) => Enabled(t, PauseOver(c))
            case _ => Left(t.tasks[c]) == 0
  {
    ReachableInv(s, trace, t);
    if StepOf(e, c) {
      OwnStepLeavesFewer(t, c, e);
    } else {
      OthersLeaveFlushAlone(t, c, e);
    }
  }

  /** The run without flush `c` looking at the window. */
  function Unlooked(trace: seq<Event>, c: nat): seq<Event> {
    if trace == [] then []
    else (if trace[0] == Check(c) then [] else [trace[0]]) + Unlooked(trace[1..], c)
  }

  /** While flush `c` has not gone beyond looking, whether it was held off makes no difference to any other step. */
  lemma HeldOffMakesNoDifference(s: State, c: nat, e: Event)
    requires Enabled(s, e) && At(s, c, HeldOff)
    ensures e != Check(c) && Enabled(Move(s, c, Called), e)
    ensures At(Step(s, e), c, HeldOff) && Step(Move(s, c, Called), e) == Move(Step(s, e), c, Called)
  {
    HeldOffTouchesNothing(s, e);
    var t, u := Step(s, e), Step(Move(s, c, Called), e);
    assert u.tasks == Move(t, c, Called).tasks;
  }

  lemma {:induction false} RunWithoutHeldOff(s: State, trace: seq<Event>, t: State, c: nat)
    requires Reaches(s, trace, t) && At(s, c, HeldOff)
    ensures At(t, c, HeldOff) && Reaches(Move(s, c, Called), Unlooked(trace, c), Move(t, c, Called))
    decreases |trace|
  {
    if trace != [] {
      HeldOffMakesNoDifference(s, c, trace[0]);
      RunWithoutHeldOff(Step(s, trace[0]), trace[1..], t, c);
      assert Unlooked(trace, c)[1..] == Unlooked(trace[1..], c);
    }
  }

  /** A flush that has passed the check, or returned otherwise, is never held off later. */
  lemma {:induction false} NeverHeldOffLater(s: State, trace: seq<Event>, t: State, c: nat)
    requires Reaches(s, trace, t) && c < |s.tasks| && !At(s, c, Called) && !At(s, c, HeldOff)
    ensures c < |t.tasks| && !At(t, c, HeldOff)
    decreases |trace|
  {
    if trace != [] {
      NeverHeldOffLater(Step(s, trace[0]), trace[1..], t, c);
    }
  }

  /** A flush that the window holds off takes part in nothing: without its look the same run leads to the same
      state, but for the flush itself, which has then not looked. */
  lemma {:induction false} HeldOffFlushIsInvisible(s: State, trace: seq<Event>, t: State, c: nat)
    requires Reaches(s, trace, t) && At(s, c, Called) && At(t, c, HeldOff)
    ensures Reaches(s, Unlooked(trace, c), Move(t, c, Called))
    decreases |trace|
  {
    var e, next := trace[0], Step(s, trace[0]);
    if e == Check(c) {
      if s.hold.Open(s.now) {
        RunWithoutHeldOff(next, trace[1..], t, c);
        assert Move(next, c, Called).tasks == s.tasks;
        assert [] + Unlooked(trace[1..], c) == Unlooked(trace[1..], c);
      } else {
        NeverHeldOffLater(next, trace[1..], t, c);
      }
    } else {
      HeldOffFlushIsInvisible(next, trace[1..], t, c);
      assert Unlooked(trace, c)[1..] == Unlooked(trace[1..], c);
    }
  }

  /** A POST started while the window is open, first attempt or retry, belongs to a flush that passed its check
      before the window was moved to where it stands; it was moved while the flush was queued, and the batch was
      already taken inside it. */
  lemma PostInsideWindow(s: State, trace: seq<Event>, t: State, e: Event)
    requires Init(s) && Reaches(s, trace, t) && Enabled(t, e) && (e.Take? || e.PauseOver?)
    requires Step(t, e).tasks[e.task].stage.Posting? && t.hold.Open(t.now)
    ensures var task := Step(t, e).tasks[e.task];
            && task.epoch < task.tookEpoch == t.epoch
            && task.checkedAt <= task.tookAt <= t.now && t.hold.Open(task.tookAt)
  {
    assert WindowRight(t) by {
      ReachableInv(s, trace, t);
    }
  }

  /** The window never reaches further than an hour ahead, so a flush called later is not held off. */
  lemma HoldOffIsBounded(s: State, trace: seq<Event>, t: State, later: real)
    requires Init(s) && Reaches(s, trace, t) && t.now + 3600.0 <= later
    ensures !t.hold.Open(later)
  {
    ReachableInv(s, trace, t);
  }

  /** No drop is reported twice, and none that did not happen. */
  lemma DropsReportedOnce(s: State, trace: seq<Event>, t: State)
    requires Init(s) && Reaches(s, trace, t)
    ensures Sum(t.reports) == t.reported <= t.ledger.dropped
    ensures Sum(Step(t, ReportDrops).reports) == t.ledger.dropped
  {
    ReachableInv(s, trace, t);
    StepKeepsInv(t, ReportDrops);
  }
}

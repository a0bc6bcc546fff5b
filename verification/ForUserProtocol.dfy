/** `for_user` calls on any number of coroutines and threads, over every interleaving.

    A call looks into the cache (one step under the cache lock); on a miss it starts a resolve
    request, and when that is answered it puts the answer and returns (one step).  `step` counts
    the steps taken and serves as the order of events. */
module ForUserProtocol {
  import opened Prelude
  import opened TimedStore
  import opened UserSnapshotCache

  /** An answer to the request that call `resolver` started for `forUser` at step `startedAt`. */
  datatype Snapshot = Snapshot(forUser: Key, resolver: nat, startedAt: nat, content: string)

  datatype Stage = Called | Resolving(startedAt: nat) | Returned(snapshot: Snapshot, cached: bool, at: real)

  datatype Call = Call(user: Key, ttl: real, calledAt: nat, stage: Stage)

  datatype State = State(max: nat, d: Store<Snapshot>, calls: seq<Call>, step: nat, now: real)

  predicate Init(s: State) {
    s.d == [] && s.calls == []
  }

  datatype Event =
    | Begin(user: Key, ttl: real)
    | Look(call: nat)
    | Answer(call: nat, content: string)
    | Invalidate(user: Key)
    | Clear
    | Tick(to: real)

  predicate Enabled(s: State, e: Event) {
    match e
    case Look(c) => c < |s.calls| && s.calls[c].stage.Called?
    case Answer(c, _) => c < |s.calls| && s.calls[c].stage.Resolving?
    case Tick(to) => s.now <= to
    case _ => true
  }

  function Move(s: State, c: nat, stage: Stage): State
    requires c < |s.calls|
  {
    s.(calls := s.calls[c := s.calls[c].(stage := stage)])
  }

  function Effect(s: State, e: Event): State
    requires Enabled(s, e)
  {
    match e
    case Begin(user, ttl) => s.(calls := s.calls + [Call(user, ttl, s.step, Called)])
    case Look(c) =>
      var (d, hit) := Fetch(s.d, s.calls[c].user, s.now);
      Move(s.(d := d), c, if hit.Some? then Returned(hit.value, true, s.now) else Resolving(s.step))
    case Answer(c, content) =>
      var snapshot := Snapshot(s.calls[c].user, c, s.calls[c].stage.startedAt, content);
      var entry := Entry(s.calls[c].user, snapshot, s.now + s.calls[c].ttl);
      Move(s.(d := PutEntry(s.max, s.d, entry, s.now)), c, Returned(snapshot, false, s.now))
    case Invalidate(user) => s.(d := Without(s.d, user))
    case Clear => s.(d := [])
    case Tick(to) => s.(now := to)
  }

  function Step(s: State, e: Event): State
    requires Enabled(s, e)
  {
    Effect(s, e).(step := s.step + 1)
  }

  predicate Reaches(s: State, trace: seq<Event>, t: State)
    decreases |trace|
  {
    if trace == [] then s == t
    else Enabled(s, trace[0]) && Reaches(Step(s, trace[0]), trace[1..], t)
  }

  // ---------------------------------------------------------------- invariants

  /** Call `b` resolved this snapshot for this user, and has returned it. */
  predicate Resolved(s: State, b: nat, user: Key, snapshot: Snapshot) {
    && b < |s.calls| && s.calls[b].user == user && s.calls[b].stage.Returned?
    && !s.calls[b].stage.cached && s.calls[b].stage.snapshot == snapshot
  }

  predicate EntryRight(s: State, e: Entry<Snapshot>) {
    var b := e.value.resolver;
    && e.value.forUser == e.key && Resolved(s, b, e.key, e.value)
    && s.calls[b].stage.at <= s.now && e.expiry == s.calls[b].stage.at + s.calls[b].ttl
  }

  /** What call `c` returned was resolved for its user: by itself, or no longer than the other call's ttl ago. */
  predicate ReturnRight(s: State, c: nat)
    requires c < |s.calls| && s.calls[c].stage.Returned?
  {
    var stage := s.calls[c].stage;
    var b := stage.snapshot.resolver;
    && stage.snapshot.forUser == s.calls[c].user && Resolved(s, b, s.calls[c].user, stage.snapshot)
    && if stage.cached then s.calls[b].stage.at <= stage.at < s.calls[b].stage.at + s.calls[b].ttl else b == c
  }

  ghost predicate Inv(s: State) {
    && Distinct(s.d) && |s.d| <= s.max
    && (forall e :: e in s.d ==> EntryRight(s, e))
    && (forall c :: 0 <= c < |s.calls| && s.calls[c].stage.Returned? ==> ReturnRight(s, c))
    && (forall c :: 0 <= c < |s.calls| ==> s.calls[c].calledAt < s.step)
    && (forall c :: 0 <= c < |s.calls| && s.calls[c].stage.Resolving? ==> s.calls[c].stage.startedAt < s.step)
  }

  /** A resolve for `user` is in flight whose answer could be stored and served. */
  predicate Serveable(s: State, user: Key, c: nat) {
    && c < |s.calls| && s.calls[c].user == user && s.calls[c].stage.Resolving?
    && 0 < s.max && s.calls[c].ttl > 0.0
  }

  /** What was asked for about `user` before step `since` can no longer be served: not from an entry, not from
      a resolve in flight, and not to a call begun since. */
  ghost predicate Fresh(s: State, user: Key, since: nat) {
    && since <= s.step
    && (forall e :: e in s.d && e.key == user && e.value.startedAt < since ==> e.expiry <= s.now)
    && (forall c: nat :: Serveable(s, user, c) ==> since <= s.calls[c].stage.startedAt)
    && (forall c :: 0 <= c < |s.calls| && s.calls[c].user == user && since <= s.calls[c].calledAt ==>
          && (s.calls[c].stage.Resolving? ==> since <= s.calls[c].stage.startedAt)
          && (s.calls[c].stage.Returned? ==> since <= s.calls[c].stage.snapshot.startedAt))
  }

  ghost predicate Kept(s: State, t: State, user: Key, since: nat) {
    Inv(t) && (Fresh(s, user, since) ==> Fresh(t, user, since))
  }

  /** Helper: a hit is an entry of that user before its deadline. */
  lemma HitIsEntry(s: Store<Snapshot>, key: Key, now: real)
    requires Fetch(s, key, now).1.Some?
    ensures var e := Entry(key, Fetch(s, key, now).1.value, Lookup(s, key).value.expiry); e in s && now < e.expiry
  {
    var e := Lookup(s, key).value;
    assert e in s && e == Entry(key, e.value, e.expiry);
  }

  /** A call that has returned is not touched again, so what rests on it still does. */
  lemma RightStaysRight(s: State, t: State, c: nat)
    requires |s.calls| <= |t.calls| && s.now <= t.now
    requires forall b :: 0 <= b < |s.calls| && s.calls[b].stage.Returned? ==> t.calls[b] == s.calls[b]
    ensures forall e :: EntryRight(s, e) ==> EntryRight(t, e)
    ensures c < |s.calls| && s.calls[c].stage.Returned? && ReturnRight(s, c) ==> ReturnRight(t, c)
  {
  }

  lemma LookKeepsInv(s: State, c: nat)
    requires Inv(s) && Enabled(s, Look(c))
    ensures Inv(Step(s, Look(c)))
  {
    var user, t := s.calls[c].user, Step(s, Look(c));
    FetchFacts(s.d, user, s.now);
    forall b | 0 <= b < |s.calls| && t.calls[b].stage.Returned?
      ensures ReturnRight(t, b)
    {
      RightStaysRight(s, t, b);
      if b == c {
        HitIsEntry(s.d, user, s.now);
        assert EntryRight(s, Entry(user, t.calls[c].stage.snapshot, Lookup(s.d, user).value.expiry));
      }
    }
    RightStaysRight(s, t, c);
  }

  lemma LookKeeps(s: State, c: nat, user: Key, since: nat)
    requires Inv(s) && Enabled(s, Look(c))
    ensures Kept(s, Step(s, Look(c)), user, since)
  {
    LookKeepsInv(s, c);
    FetchFacts(s.d, s.calls[c].user, s.now);
    if Fetch(s.d, s.calls[c].user, s.now).1.Some? {
      HitIsEntry(s.d, s.calls[c].user, s.now);
    }
  }

  lemma AnswerKeepsInv(s: State, c: nat, content: string)
    requires Inv(s) && Enabled(s, Answer(c, content))
    ensures Inv(Step(s, Answer(c, content)))
  {
    var t := Step(s, Answer(c, content));
    var snapshot := Snapshot(s.calls[c].user, c, s.calls[c].stage.startedAt, content);
    var entry := Entry(s.calls[c].user, snapshot, s.now + s.calls[c].ttl);
    PutFacts(s.max, s.d, entry, s.now);
    assert t.d == PutEntry(s.max, s.d, entry, s.now);
    assert EntryRight(t, entry);
    forall b | 0 <= b < |s.calls| && t.calls[b].stage.Returned?
      ensures ReturnRight(t, b)
    {
      RightStaysRight(s, t, b);
    }
    RightStaysRight(s, t, c);
  }

  lemma AnswerKeepsFresh(s: State, c: nat, content: string, user: Key, since: nat)
    requires Inv(s) && Enabled(s, Answer(c, content)) && Fresh(s, user, since)
    ensures Fresh(Step(s, Answer(c, content)), user, since)
  {
    var t := Step(s, Answer(c, content));
    var snapshot := Snapshot(s.calls[c].user, c, s.calls[c].stage.startedAt, content);
    var entry := Entry(s.calls[c].user, snapshot, s.now + s.calls[c].ttl);
    assert t.d == PutEntry(s.max, s.d, entry, s.now);
    PutFacts(s.max, s.d, entry, s.now);
    assert forall b: nat :: Serveable(t, user, b) ==> Serveable(s, user, b);
  }

  lemma AnswerKeeps(s: State, c: nat, content: string, user: Key, since: nat)
    requires Inv(s) && Enabled(s, Answer(c, content))
    ensures Kept(s, Step(s, Answer(c, content)), user, since)
  {
    AnswerKeepsInv(s, c, content);
    if Fresh(s, user, since) {
      AnswerKeepsFresh(s, c, content, user, since);
    }
  }

  lemma ForgettingKeeps(s: State, e: Event, user: Key, since: nat)
    requires Inv(s) && (e.Invalidate? || e.Clear?)
    ensures Kept(s, Step(s, e), user, since)
  {
    var t := Step(s, e);
    if e.Invalidate? {
      WithoutFacts(s.d, e.user);
      WithoutElements(s.d, e.user);
    }
    RightStaysRight(s, t, 0);
    forall b | 0 <= b < |s.calls| && s.calls[b].stage.Returned?
      ensures ReturnRight(t, b)
    {
      RightStaysRight(s, t, b);
    }
  }

  lemma OthersKeep(s: State, e: Event, user: Key, since: nat)
    requires Inv(s) && Enabled(s, e) && (e.Begin? || e.Tick?)
    ensures Kept(s, Step(s, e), user, since)
  {
    var t := Step(s, e);
    RightStaysRight(s, t, 0);
    forall b | 0 <= b < |s.calls| && s.calls[b].stage.Returned?
      ensures ReturnRight(t, b)
    {
      RightStaysRight(s, t, b);
    }
  }

  lemma StepKeeps(s: State, e: Event, user: Key, since: nat)
    requires Inv(s) && Enabled(s, e)
    ensures Kept(s, Step(s, e), user, since)
  {
    match e {
      case Look(c) => LookKeeps(s, c, user, since);
      case Answer(c, content) => AnswerKeeps(s, c, content, user, since);
      case Invalidate(_) => ForgettingKeeps(s, e, user, since);
      case Clear => ForgettingKeeps(s, e, user, since);
      case _ => OthersKeep(s, e, user, since);
    }
  }

  lemma {:induction false} RunKeeps(s: State, trace: seq<Event>, t: State, user: Key, since: nat)
    requires Inv(s) && Reaches(s, trace, t)
    ensures Kept(s, t, user, since)
    decreases |trace|
  {
    if trace != [] {
      StepKeeps(s, trace[0], user, since);
      RunKeeps(Step(s, trace[0]), trace[1..], t, user, since);
    }
  }

  // ---------------------------------------------------------------- results

  /** Every call returns what was resolved for its own user; the cache stays within its bound. */
  lemma ResultIsForTheUser(s: State, trace: seq<Event>, t: State, c: nat)
    requires Init(s) && Reaches(s, trace, t)
    requires c < |t.calls| && t.calls[c].stage.Returned?
    ensures t.calls[c].stage.snapshot.forUser == t.calls[c].user
    ensures |t.d| <= t.max
  {
    RunKeeps(s, trace, t, "", 0);
  }

  /** A result from the cache is what another call for the same user resolved, and was given out before that
      call's ttl had passed since it returned. */
  lemma CachedWithinTtl(s: State, trace: seq<Event>, t: State, c: nat)
    requires Init(s) && Reaches(s, trace, t)
    requires c < |t.calls| && t.calls[c].stage.Returned? && t.calls[c].stage.cached
    ensures var b := t.calls[c].stage.snapshot.resolver;
            && b < |t.calls| && b != c && t.calls[b].user == t.calls[c].user
            && t.calls[b].stage.Returned? && !t.calls[b].stage.cached
            && t.calls[b].stage.snapshot == t.calls[c].stage.snapshot
            && t.calls[b].stage.at <= t.calls[c].stage.at < t.calls[b].stage.at + t.calls[b].ttl
  {
    RunKeeps(s, trace, t, "", 0);
    assert ReturnRight(t, c);
  }

  /** `invalidate_user`, for this user or for everyone. */
  predicate Forgets(e: Event, user: Key) {
    e == Invalidate(user) || e == Clear
  }

  /** A resolve with a positive ttl is in flight for the user, and the cache can hold anything. */
  ghost predicate AtRisk(s: State, user: Key) {
    exists c: nat :: Serveable(s, user, c)
  }

  /** After `e` at `t`, call `c` is begun and given an answer to a request that was started before. */
  predicate Overrun(t: State, e: Event, user: Key, after: seq<Event>, u: State, c: nat)
    requires Enabled(t, e)
  {
    && Reaches(Step(t, e), after, u)
    && c < |u.calls| && u.calls[c].user == user && t.step < u.calls[c].calledAt
    && u.calls[c].stage.Returned? && u.calls[c].stage.snapshot.startedAt <= t.step
  }

  lemma ForgottenIsFresh(t: State, e: Event, user: Key)
    requires Inv(t) && Forgets(e, user) && !AtRisk(t, user)
    ensures Fresh(Step(t, e), user, t.step + 1)
  {
    var cleared := Step(t, e);
    WithoutFacts(t.d, user);
    WithoutElements(t.d, user);
    assert forall c: nat :: Serveable(cleared, user, c) ==> Serveable(t, user, c);
  }

  /** With nothing at risk no call begun later is given an answer to a request that was started earlier; in
      particular the next call resolves again. */
  lemma InvalidateIsEffective(
    s: State, before: seq<Event>, t: State, e: Event, user: Key, after: seq<Event>, u: State, c: nat)
    requires Init(s) && Reaches(s, before, t) && Forgets(e, user) && !AtRisk(t, user)
    requires Reaches(Step(t, e), after, u)
    requires c < |u.calls| && u.calls[c].user == user && u.calls[c].stage.Returned? && t.step < u.calls[c].calledAt
    ensures t.step < u.calls[c].stage.snapshot.startedAt
  {
    RunKeeps(s, before, t, user, 0);
    StepKeeps(t, e, user, 0);
    ForgottenIsFresh(t, e, user);
    RunKeeps(Step(t, e), after, u, user, t.step + 1);
  }

  lemma NextCallResolves(t: State, e: Event, user: Key, ttl: real)
    requires Inv(t) && Forgets(e, user)
    ensures var called := Step(Step(t, e), Begin(user, ttl));
            Step(called, Look(|t.calls|)).calls[|t.calls|].stage == Resolving(called.step)
  {
    WithoutFacts(t.d, user);
  }

  lemma AnswerIsStored(s: State, c: nat, content: string)
    requires s.d == [] && 0 < s.max && Enabled(s, Answer(c, content))
    ensures var user := s.calls[c].user;
            var snapshot := Snapshot(user, c, s.calls[c].stage.startedAt, content);
            Step(s, Answer(c, content)).d == [Entry(user, snapshot, s.now + s.calls[c].ttl)]
  {
  }

  lemma LookHits(s: State, c: nat, e: Entry<Snapshot>)
    requires Enabled(s, Look(c)) && s.d == [e] && e.key == s.calls[c].user && s.now < e.expiry
    ensures var t := Step(s, Look(c));
            && |t.calls| == |s.calls| && t.now == s.now
            && t.calls[c] == s.calls[c].(stage := Returned(e.value, true, s.now))
  {
    assert Lookup(s.d, e.key) == Some(e);
  }

  lemma ReachesMore(s: State, e: Event, rest: seq<Event>, t: State) returns (trace: seq<Event>)
    requires Enabled(s, e) && Reaches(Step(s, e), rest, t)
    ensures Reaches(s, trace, t)
  {
    trace := [e] + rest;
    assert trace[1..] == rest;
  }

  /** The condition is needed: with such a resolve in flight, even in a full cache, an invalidate can be followed
      by a call that is given the answer to that earlier request. */
  lemma InvalidateCanBeOverrun(t: State, e: Event, user: Key, c: nat, content: string)
    returns (after: seq<Event>, u: State)
    requires Inv(t) && Forgets(e, user) && Serveable(t, user, c)
    ensures Overrun(t, e, user, after, u, |t.calls|)
    ensures u.calls[|t.calls|].stage == Returned(Snapshot(user, c, t.calls[c].stage.startedAt, content), true, u.now)
  {
    var invalidated := Step(t, e);
    var cleared := Step(invalidated, Clear);
    AnswerIsStored(cleared, c, content);
    var answered := Step(cleared, Answer(c, content));
    var called := Step(answered, Begin(user, 0.0));
    LookHits(called, |t.calls|, answered.d[0]);
    u := Step(called, Look(|t.calls|));
    after := ReachesMore(called, Look(|t.calls|), [], u);
    after := ReachesMore(answered, Begin(user, 0.0), after, u);
    after := ReachesMore(cleared, Answer(c, content), after, u);
    after := ReachesMore(invalidated, Clear, after, u);
  }

  /** Exactly then: after an invalidate some later call can be given an older answer if and only if a resolve for
      that user with a positive ttl is in flight and the cache can hold anything. */
  lemma OverrunExactly(s: State, before: seq<Event>, t: State, e: Event, user: Key)
    requires Init(s) && Reaches(s, before, t) && Forgets(e, user)
    ensures (exists after, u, c :: Overrun(t, e, user, after, u, c)) <==> AtRisk(t, user)
  {
    RunKeeps(s, before, t, user, 0);
    if AtRisk(t, user) {
      var c: nat :| Serveable(t, user, c);
      var after, u := InvalidateCanBeOverrun(t, e, user, c, "");
    }
    if exists after, u, c :: Overrun(t, e, user, after, u, c) {
      var after, u, c :| Overrun(t, e, user, after, u, c);
      if !AtRisk(t, user) {
        InvalidateIsEffective(s, before, t, e, user, after, u, c);
      }
    }
  }

  // ---------------------------------------------------------------- what is kept

  /** The cache is full of entries of others, none with an earlier deadline than `e`. */
  ghost predicate Crowded(s: State, e: Entry<Snapshot>) {
    |s.d| == s.max && forall f :: f in s.d ==> f.key != e.key && e.expiry <= f.expiry
  }

  /** Some state that the run passes through, the last one included, is crowded. */
  ghost predicate CrowdedOnTheWay(s: State, trace: seq<Event>, e: Entry<Snapshot>)
    decreases |trace|
  {
    || Crowded(s, e)
    || (trace != [] && Enabled(s, trace[0]) && CrowdedOnTheWay(Step(s, trace[0]), trace[1..], e))
  }

  /** The step takes away or replaces what is stored for the user. */
  predicate Replaces(s: State, event: Event, user: Key)
    requires Enabled(s, event)
  {
    Forgets(event, user) || (event.Answer? && s.calls[event.call].user == user)
  }

  ghost predicate NeverReplaced(s: State, trace: seq<Event>, user: Key)
    decreases |trace|
  {
    trace != [] && Enabled(s, trace[0]) ==>
      !Replaces(s, trace[0], user) && NeverReplaced(Step(s, trace[0]), trace[1..], user)
  }

  lemma AnswerEvictsLast(s: State, c: nat, content: string, e: Entry<Snapshot>)
    requires Inv(s) && Enabled(s, Answer(c, content)) && e in s.d && s.now < e.expiry && s.calls[c].user != e.key
    ensures var t := Step(s, Answer(c, content)); e in t.d || Crowded(t, e)
  {
    var t := Step(s, Answer(c, content));
    var snapshot := Snapshot(s.calls[c].user, c, s.calls[c].stage.startedAt, content);
    var entry := Entry(s.calls[c].user, snapshot, s.now + s.calls[c].ttl);
    assert t.d == PutEntry(s.max, s.d, entry, s.now);
    PutEvictsLast(s.max, s.d, entry, s.now, e);
  }

  lemma StepKeepsEntry(s: State, event: Event, e: Entry<Snapshot>)
    requires Inv(s) && Enabled(s, event) && e in s.d && s.now < e.expiry && !Replaces(s, event, e.key)
    ensures var t := Step(s, event); e in t.d || Crowded(t, e)
  {
    match event {
      case Look(c) => FetchLeaves(s.d, s.calls[c].user, s.now);
      case Answer(c, content) => AnswerEvictsLast(s, c, content, e);
      case Invalidate(user) => WithoutElements(s.d, user);
      case _ =>
    }
  }

  lemma {:induction false} TimeGoesOn(s: State, trace: seq<Event>, t: State)
    requires Reaches(s, trace, t)
    ensures s.now <= t.now
    decreases |trace|
  {
    if trace != [] {
      TimeGoesOn(Step(s, trace[0]), trace[1..], t);
    }
  }

  /** Whatever is looked up, resolved and invalidated for others: an entry that is neither forgotten nor replaced is
      still stored at any time before its deadline, unless at some moment the cache was full of entries of others with
      no earlier deadline. */
  lemma {:induction false} EntryIsKept(s: State, trace: seq<Event>, t: State, e: Entry<Snapshot>)
    requires Inv(s) && Reaches(s, trace, t) && e in s.d && t.now < e.expiry && NeverReplaced(s, trace, e.key)
    ensures e in t.d || CrowdedOnTheWay(s, trace, e)
    decreases |trace|
  {
    if trace != [] {
      var next := Step(s, trace[0]);
      TimeGoesOn(next, trace[1..], t);
      TimeGoesOn(s, [trace[0]], next) by {
        assert [trace[0]][1..] == [];
      }
      StepKeepsEntry(s, trace[0], e);
      StepKeeps(s, trace[0], "", 0);
      if e in next.d {
        EntryIsKept(next, trace[1..], t, e);
      } else {
        assert CrowdedOnTheWay(next, trace[1..], e);
      }
    }
  }

  /** So the user's next call is served from the cache, with what the earlier call resolved. */
  lemma NextCallIsServed(s: State, trace: seq<Event>, t: State, e: Entry<Snapshot>, c: nat)
    requires Inv(s) && Reaches(s, trace, t) && e in s.d && t.now < e.expiry && NeverReplaced(s, trace, e.key)
    requires !CrowdedOnTheWay(s, trace, e)
    requires c < |t.calls| && t.calls[c].stage == Called && t.calls[c].user == e.key
    ensures Step(t, Look(c)).calls[c].stage == Returned(e.value, true, t.now)
  {
    EntryIsKept(s, trace, t, e);
    RunKeeps(s, trace, t, "", 0);
    FetchLeaves(t.d, e.key, t.now);
    HitIsEntry(t.d, e.key, t.now);
    SameKeySameEntry(t.d);
  }
}

/** The identity-generation protocol: any number of `identify()` calls on user threads
    against the one background consumer (Event Stream or polling).

    A step is what runs without being interleaved with another actor that could notice:
    the body of one cache method under the cache lock, one access under the user lock,
    one callback of the consumer's loop, one stretch of the consumer between two awaits.
    `identify` is cut at every point where another thread can look: taking the user lock,
    writing the user id, bumping the generation, releasing the lock, posting the signal. */
module IdentityProtocol {
  import opened Prelude
  import opened FeatureCache

  type User = Option<string>

  /** The backend's content: the features it holds for a user at a configuration version. */
  type Catalogue = (User, int) -> Features

  datatype Strategy = EventStream | Polling

  /** The `identify` call that holds the user lock, if any, and how far it has come. */
  datatype Holder =
    | Nobody
    | Entered(target: User)                  // lock taken, nothing written
    | Wrote(target: User, changed: bool)     // user id written, generation not yet bumped
    | Published                              // generation bumped (or no change); lock still held

  datatype Consumer =
    | Top                                                // head of the loop
    | Viewed(gen: nat, since: int)                       // request_view returned
    | Requested(gen: nat, since: int, user: User)        // request sent, no answer yet
    | Listening(gen: nat, since: int, user: User)        // stream open: the frame wait
    | Left                                               // connection given up
    | Backoff                                            // reconnect delay
    | Waiting(gen: nat, user: User)                      // polling: the interval wait
    | Stopped

  datatype State = State(
    strategy: Strategy,
    userId: User,
    holder: Holder,
    unsignalled: nat,        // identify calls past the lock, before signal_user_change
    callbacks: nat,          // force_reconnect / poll_now callbacks queued on the loop
    wake: bool,              // _reconnect_signal / _wake
    stop: bool,
    cache: Store,
    consumer: Consumer,
    wire: seq<Answer>,       // answers sent on the current request, not yet received
    serverVersion: int,
    owners: seq<User>,       // history: the identity each generation was begun for
    begunAt: seq<int>,       // history: the backend's version when it was begun
    source: Option<User>     // history: whose request's answer this generation last accepted
  )

  predicate Init(s: State) {
    && s.userId == None && s.holder == Nobody && s.unsignalled == 0 && s.callbacks == 0
    && !s.wake && !s.stop && s.cache == EMPTY && s.consumer == Top && s.wire == []
    && s.serverVersion >= 0 && s.owners == [None] && s.begunAt == [s.serverVersion] && s.source == None
  }

  /** `Rogue` is any answer whatever; the other three are those of a backend that keeps its word. */
  datatype Reply = FullSnapshot | NothingNew | Unusable | Rogue(answer: FeatureCache.Answer)

  datatype Event =
    // identify()
    | Enter(target: User) | Write | Bump | Keep | Release | Signal
    // the consumer's loop
    | RunCallback | StopCalled | WatchdogFires
    // the backend
    | Advance(to: int) | Send(reply: Reply)
    // the consumer
    | ReadView | ReadUser | HeadersArrive | Receive | Disconnect | Reject | Observe | Resume | BackoffOver
    | IntervalOver

  predicate Enabled(s: State, e: Event) {
    match e
    case Enter(_) => s.holder.Nobody?
    case Write => s.holder.Entered?
    case Bump => s.holder.Wrote? && s.holder.changed
    case Keep => s.holder.Wrote? && !s.holder.changed
    case Release => s.holder.Published?
    case Signal => s.unsignalled > 0
    case RunCallback => s.callbacks > 0
    case StopCalled => true
    case WatchdogFires => s.strategy.EventStream?
    case Advance(to) => to > s.serverVersion
    case Send(reply) =>
      && (s.consumer.Requested? || s.consumer.Listening?)
      && (reply.NothingNew? ==> s.consumer.since == s.serverVersion)
    case ReadView => s.consumer.Top?
    case ReadUser => s.consumer.Viewed? && s.holder.Nobody?
    case HeadersArrive => s.strategy.EventStream? && s.consumer.Requested?
    case Receive =>
      && s.wire != []
      && if s.strategy.EventStream? then s.consumer.Listening? else s.consumer.Requested?
    case Disconnect => s.consumer.Requested? || s.consumer.Listening?
    case Reject => s.strategy.EventStream? && s.consumer.Requested?
    case Observe => s.consumer.Listening? && s.wake
    case Resume => s.consumer.Left?
    case BackoffOver => s.consumer.Backoff?
    case IntervalOver => s.consumer.Waiting?
  }

  /** What the backend says on the outstanding request. It knows the request's user and version. */
  function Answer(catalogue: Catalogue, s: State, reply: Reply): FeatureCache.Answer
    requires s.consumer.Requested? || s.consumer.Listening?
  {
    match reply
    case FullSnapshot => Snapshot(catalogue(s.consumer.user, s.serverVersion), s.serverVersion)
    case NothingNew => UpToDate
    case Unusable => Noise
    case Rogue(answer) => answer
  }

  /** The next Receive will take effect: `apply` or `confirm` returns True. */
  predicate Accepts(s: State)
    requires Enabled(s, Receive)
  {
    !s.wire[0].Noise? && s.consumer.gen == s.cache.generation
  }

  function Step(catalogue: Catalogue, s: State, e: Event): State
    requires Enabled(s, e)
  {
    match e
    case Enter(target) => s.(holder := Entered(target))
    case Write => s.(userId := s.holder.target, holder := Wrote(s.holder.target, s.holder.target != s.userId))
    case Bump =>
      s.(cache := s.cache.BeginIdentity(), owners := s.owners + [s.userId],
         begunAt := s.begunAt + [s.serverVersion], source := None, holder := Published)
    case Keep => s.(holder := Published)
    case Release => s.(holder := Nobody, unsignalled := s.unsignalled + 1)
    case Signal =>
      s.(unsignalled := s.unsignalled - 1, callbacks := if s.consumer.Stopped? then s.callbacks else s.callbacks + 1)
    case RunCallback => s.(callbacks := s.callbacks - 1, wake := true)
    case StopCalled => s.(stop := true, wake := true)
    case WatchdogFires => s.(wake := true)
    case Advance(to) => s.(serverVersion := to)
    case Send(reply) => s.(wire := s.wire + [Answer(catalogue, s, reply)])
    case ReadView =>
      s.(consumer := if s.stop then Stopped else Viewed(s.cache.generation, s.cache.version))
    case ReadUser => s.(consumer := Requested(s.consumer.gen, s.consumer.since, s.userId), wire := [])
    case HeadersArrive => s.(consumer := Listening(s.consumer.gen, s.consumer.since, s.consumer.user))
    case Receive =>
      s.(cache := s.cache.Handle(s.wire[0], s.consumer.gen), wire := s.wire[1..],
         source := if Accepts(s) then Some(s.consumer.user) else s.source,
         consumer := if s.strategy.EventStream? then s.consumer else Waiting(s.consumer.gen, s.consumer.user))
    case Disconnect =>
      s.(consumer := if s.strategy.EventStream? then Left else Waiting(s.consumer.gen, s.consumer.user))
    case Reject => s.(consumer := Stopped)
    case Observe => s.(consumer := Left)
    case Resume =>
      if s.stop then s.(consumer := Stopped)
      else if s.wake then s.(wake := false, consumer := Top)
      else s.(consumer := Backoff)
    case BackoffOver => s.(consumer := Top)
    case IntervalOver => s.(wake := false, consumer := Top)
  }

  /** `trace` leads from `s` to `t`. */
  predicate Reaches(catalogue: Catalogue, s: State, trace: seq<Event>, t: State)
    decreases |trace|
  {
    if trace == [] then s == t
    else Enabled(s, trace[0]) && Reaches(catalogue, Step(catalogue, s, trace[0]), trace[1..], t)
  }

  /** Before any configuration is published a user has no features. */
  ghost predicate EmptyAtZero(catalogue: Catalogue) {
    forall u: User :: catalogue(u, 0) == map[]
  }

  // ---------------------------------------------------------------- invariant

  /** Some `identify` call has bumped but not yet signalled, or its signal is under way or has arrived. */
  predicate WakePending(s: State) {
    s.holder.Published? || s.unsignalled > 0 || s.callbacks > 0 || s.wake
  }

  /** The generation the consumer's current request or wait is bound to. */
  function BoundTo(c: Consumer): Option<nat> {
    match c
    case Viewed(gen, _) => Some(gen)
    case Requested(gen, _, _) => Some(gen)
    case Listening(gen, _, _) => Some(gen)
    case Waiting(gen, _) => Some(gen)
    case _ => None
  }

  predicate OwnersRight(s: State) {
    && |s.owners| == |s.begunAt| == s.cache.generation + 1
    && match s.holder
       case Wrote(target, changed) => s.userId == target && (changed <==> s.owners[s.cache.generation] != target)
       case _ => s.owners[s.cache.generation] == s.userId
  }

  predicate BoundRight(s: State) {
    match BoundTo(s.consumer)
    case Some(gen) => gen <= s.cache.generation && (gen < s.cache.generation ==> WakePending(s))
    case None => true
  }

  /** A request of the current generation was made for that generation's identity. */
  predicate UserRight(s: State)
    requires |s.owners| == s.cache.generation + 1
  {
    match s.consumer
    case Requested(gen, _, user) => gen == s.cache.generation ==> user == s.owners[gen]
    case Listening(gen, _, user) => gen == s.cache.generation ==> user == s.owners[gen]
    case Waiting(gen, user) => gen == s.cache.generation ==> user == s.owners[gen]
    case _ => true
  }

  predicate SourceRight(s: State)
    requires |s.owners| == s.cache.generation + 1
  {
    && (s.source.Some? ==> s.source.value == s.owners[s.cache.generation])
    && (s.source.None? ==> s.cache.features == map[] && s.cache.version == 0 && !s.cache.ready)
  }

  /** What holds whatever the backend answers. */
  predicate Inv(s: State) {
    && OwnersRight(s) && BoundRight(s) && UserRight(s) && SourceRight(s)
    && (s.consumer.Listening? ==> s.strategy.EventStream?)
  }

  predicate SinceRight(s: State) {
    match s.consumer
    case Viewed(gen, since) => gen == s.cache.generation ==> since == s.cache.version
    case Requested(gen, since, _) => gen == s.cache.generation ==> since <= s.cache.version
    case Listening(gen, since, _) => gen == s.cache.generation ==> since <= s.cache.version
    case _ => true
  }

  /** An answer on the wire is what the backend held for this user, no older than `low`. */
  predicate AnswerRight(catalogue: Catalogue, a: FeatureCache.Answer, user: User, since: int, low: int, high: int) {
    match a
    case Snapshot(features, version) => low <= version <= high && features == catalogue(user, version)
    case UpToDate => low <= since <= high
    case Noise => true
  }

  /** The version that an answer to a request since `since` leaves in a cache now at `before`. */
  function VersionAfter(a: FeatureCache.Answer, since: int, before: int): int {
    match a
    case Snapshot(_, version) => version
    case UpToDate => since
    case Noise => before
  }

  /** The wire carries answers to this request in version order, none older than the cache. */
  predicate WireRight(catalogue: Catalogue, s: State)
    requires |s.begunAt| == s.cache.generation + 1
  {
    (s.consumer.Requested? || s.consumer.Listening?) && s.consumer.gen == s.cache.generation ==>
      var since := s.consumer.since;
      && (forall i :: 0 <= i < |s.wire| ==>
            && AnswerRight(catalogue, s.wire[i], s.consumer.user, since, s.cache.version, s.serverVersion)
            && s.begunAt[s.cache.generation] <= VersionAfter(s.wire[i], since, s.serverVersion))
      && (forall i, j :: 0 <= i < j < |s.wire| && !s.wire[i].Noise? && !s.wire[j].Noise? ==>
            VersionAfter(s.wire[i], since, 0) <= VersionAfter(s.wire[j], since, 0))
  }

  predicate ContentRight(catalogue: Catalogue, s: State)
    requires |s.owners| == |s.begunAt| == s.cache.generation + 1
  {
    var g := s.cache.generation;
    && s.cache.features == NormalizeAll(catalogue(s.owners[g], s.cache.version))
    && s.cache.version <= s.serverVersion
    && s.begunAt[g] <= s.serverVersion
    && (s.cache.ready ==> s.begunAt[g] <= s.cache.version)
  }

  /** What holds besides when the backend keeps its word. */
  ghost predicate HonestInv(catalogue: Catalogue, s: State) {
    && Inv(s)
    && 0 <= s.serverVersion
    && SinceRight(s) && WireRight(catalogue, s) && ContentRight(catalogue, s)
  }

  predicate Honest(trace: seq<Event>) {
    forall i :: 0 <= i < |trace| ==> !(trace[i].Send? && trace[i].reply.Rogue?)
  }

  predicate ByIdentify(e: Event) {
    e.Enter? || e.Write? || e.Bump? || e.Keep? || e.Release? || e.Signal?
  }

  predicate ByConsumer(e: Event) {
    || e.ReadView? || e.ReadUser? || e.HeadersArrive? || e.Disconnect? || e.Reject? || e.Observe?
    || e.Resume? || e.BackoffOver? || e.IntervalOver?
  }

  lemma IdentifyKeepsInv(catalogue: Catalogue, s: State, e: Event)
    requires Inv(s) && Enabled(s, e) && ByIdentify(e)
    ensures Inv(Step(catalogue, s, e))
  {
  }

  lemma ConsumerKeepsInv(catalogue: Catalogue, s: State, e: Event)
    requires Inv(s) && Enabled(s, e) && ByConsumer(e)
    ensures Inv(Step(catalogue, s, e))
  {
  }

  lemma ReceiveKeepsInv(catalogue: Catalogue, s: State)
    requires Inv(s) && Enabled(s, Receive)
    ensures Inv(Step(catalogue, s, Receive))
  {
  }

  lemma StepKeepsInv(catalogue: Catalogue, s: State, e: Event)
    requires Inv(s) && Enabled(s, e)
    ensures Inv(Step(catalogue, s, e))
  {
    if ByIdentify(e) {
      IdentifyKeepsInv(catalogue, s, e);
    } else if ByConsumer(e) {
      ConsumerKeepsInv(catalogue, s, e);
    } else if e == Receive {
      ReceiveKeepsInv(catalogue, s);
    }
  }

  lemma {:induction false} RunKeepsInv(catalogue: Catalogue, s: State, trace: seq<Event>, t: State)
    requires Inv(s) && Reaches(catalogue, s, trace, t)
    ensures Inv(t)
    decreases |trace|
  {
    if trace != [] {
      StepKeepsInv(catalogue, s, trace[0]);
      RunKeepsInv(catalogue, Step(catalogue, s, trace[0]), trace[1..], t);
    }
  }

  lemma IdentifyKeepsHonestInv(catalogue: Catalogue, s: State, e: Event)
    requires EmptyAtZero(catalogue) && HonestInv(catalogue, s) && Enabled(s, e) && ByIdentify(e)
    ensures HonestInv(catalogue, Step(catalogue, s, e))
  {
    IdentifyKeepsInv(catalogue, s, e);
    if e.Bump? {
      assert catalogue(s.userId, 0) == map[];
    }
  }

  lemma ReceiveKeepsWire(catalogue: Catalogue, s: State)
    requires HonestInv(catalogue, s) && Enabled(s, Receive) && s.consumer.gen == s.cache.generation
    ensures var t := Step(catalogue, s, Receive);
            |t.begunAt| == t.cache.generation + 1 && WireRight(catalogue, t)
  {
    var t := Step(catalogue, s, Receive);
    assert AnswerRight(
      catalogue, s.wire[0], s.consumer.user, s.consumer.since, s.cache.version, s.serverVersion);
    assert forall i :: 0 <= i < |t.wire| ==> t.wire[i] == s.wire[i + 1];
  }

  lemma ReceiveKeepsHonestInv(catalogue: Catalogue, s: State)
    requires HonestInv(catalogue, s) && Enabled(s, Receive)
    ensures HonestInv(catalogue, Step(catalogue, s, Receive))
  {
    ReceiveKeepsInv(catalogue, s);
    if s.consumer.gen == s.cache.generation {
      assert AnswerRight(
        catalogue, s.wire[0], s.consumer.user, s.consumer.since, s.cache.version, s.serverVersion);
      ReceiveKeepsWire(catalogue, s);
    }
  }

  lemma ConsumerKeepsHonestInv(catalogue: Catalogue, s: State, e: Event)
    requires HonestInv(catalogue, s) && Enabled(s, e) && ByConsumer(e)
    ensures HonestInv(catalogue, Step(catalogue, s, e))
  {
    ConsumerKeepsInv(catalogue, s, e);
  }

  /** An answer goes onto the wire behind those already there, none of which is newer. */
  lemma SendKeepsHonestInv(catalogue: Catalogue, s: State, reply: Reply)
    requires HonestInv(catalogue, s) && Enabled(s, Send(reply)) && !reply.Rogue?
    ensures HonestInv(catalogue, Step(catalogue, s, Send(reply)))
  {
    StepKeepsInv(catalogue, s, Send(reply));
    var t := Step(catalogue, s, Send(reply));
    assert forall i :: 0 <= i < |s.wire| ==> t.wire[i] == s.wire[i];
  }

  lemma HonestStepKeepsInv(catalogue: Catalogue, s: State, e: Event)
    requires EmptyAtZero(catalogue) && HonestInv(catalogue, s) && Enabled(s, e) && Honest([e])
    ensures HonestInv(catalogue, Step(catalogue, s, e))
  {
    if ByIdentify(e) {
      IdentifyKeepsHonestInv(catalogue, s, e);
    } else if ByConsumer(e) {
      ConsumerKeepsHonestInv(catalogue, s, e);
    } else if e == Receive {
      ReceiveKeepsHonestInv(catalogue, s);
    } else if e.Send? {
      assert !([e][0].Send? && [e][0].reply.Rogue?);
      SendKeepsHonestInv(catalogue, s, e.reply);
    } else {
      StepKeepsInv(catalogue, s, e);
    }
  }

  lemma VersionMonotone(catalogue: Catalogue, s: State, e: Event)
    requires HonestInv(catalogue, s) && Enabled(s, e)
    ensures var t := Step(catalogue, s, e);
            && s.cache.generation <= t.cache.generation
            && (s.cache.generation == t.cache.generation ==> s.cache.version <= t.cache.version)
  {
    if e == Receive && s.consumer.gen == s.cache.generation {
      assert AnswerRight(catalogue, s.wire[0], s.consumer.user, s.consumer.since, s.cache.version, s.serverVersion);
    }
  }

  /** Along an honest run the invariant is kept, and within one generation the version never falls. */
  lemma {:induction false} HonestRunKeepsInv(catalogue: Catalogue, s: State, trace: seq<Event>, t: State)
    requires EmptyAtZero(catalogue) && HonestInv(catalogue, s) && Reaches(catalogue, s, trace, t) && Honest(trace)
    ensures HonestInv(catalogue, t)
    ensures s.cache.generation <= t.cache.generation
    ensures s.cache.generation == t.cache.generation ==> s.cache.version <= t.cache.version
    decreases |trace|
  {
    if trace != [] {
      assert Honest([trace[0]]);
      HonestStepKeepsInv(catalogue, s, trace[0]);
      VersionMonotone(catalogue, s, trace[0]);
      HonestRunKeepsInv(catalogue, Step(catalogue, s, trace[0]), trace[1..], t);
    }
  }

  // ---------------------------------------------------------------- results

  /** Whatever the backend answers: an answer that `apply` or `confirm` accepts was requested for the
      identity of the generation it lands in, however often identities were switched and switched back. */
  lemma AcceptedForOwner(catalogue: Catalogue, s: State, trace: seq<Event>, t: State)
    requires Init(s) && Reaches(catalogue, s, trace, t) && Enabled(t, Receive) && Accepts(t)
    ensures t.cache.generation < |t.owners| && t.consumer.user == t.owners[t.cache.generation]
  {
    RunKeepsInv(catalogue, s, trace, t);
  }

  /** Every non-empty snapshot, every non-zero version and every set ready flag comes from an answer to a
      request made for the identity of the current generation, accepted since that generation was begun. */
  lemma ServedForOwner(catalogue: Catalogue, s: State, trace: seq<Event>, t: State)
    requires Init(s) && Reaches(catalogue, s, trace, t)
    requires t.cache.features != map[] || t.cache.version != 0 || t.cache.ready
    ensures t.cache.generation < |t.owners| && t.source == Some(t.owners[t.cache.generation])
  {
    RunKeepsInv(catalogue, s, trace, t);
  }

  /** The current generation's identity is the user id that `_get_user_id` would return, except
      exactly between the write of a changed user id and the bump, inside the user lock. */
  lemma OwnerIsUserId(catalogue: Catalogue, s: State, trace: seq<Event>, t: State)
    requires Init(s) && Reaches(catalogue, s, trace, t)
    ensures t.cache.generation < |t.owners|
    ensures t.owners[t.cache.generation] == t.userId <==> !(t.holder.Wrote? && t.holder.changed)
  {
    RunKeepsInv(catalogue, s, trace, t);
  }

  /** No lost wake-up: a consumer parked in its frame wait or its interval wait for an older
      generation has a wake-up coming to it. */
  lemma NoLostWakeUp(catalogue: Catalogue, s: State, trace: seq<Event>, t: State)
    requires Init(s) && Reaches(catalogue, s, trace, t)
    requires t.consumer.Listening? || t.consumer.Waiting?
    ensures t.consumer.gen <= t.cache.generation
    ensures t.consumer.gen < t.cache.generation ==>
              t.holder.Published? || t.unsignalled > 0 || t.callbacks > 0 || t.wake
  {
    RunKeepsInv(catalogue, s, trace, t);
  }

  /** Once all `identify` calls have returned and the loop has run their callbacks, a consumer that
      is parked and has not been woken is parked on a request for the present user id. */
  lemma QuietMeansCurrent(catalogue: Catalogue, s: State, trace: seq<Event>, t: State)
    requires Init(s) && Reaches(catalogue, s, trace, t)
    requires t.holder.Nobody? && t.unsignalled == 0 && t.callbacks == 0 && !t.wake
    requires t.consumer.Listening? || t.consumer.Waiting?
    ensures t.consumer.gen == t.cache.generation && t.consumer.user == t.userId
  {
    RunKeepsInv(catalogue, s, trace, t);
  }

  /** Against a backend that keeps its word: the cache always holds the owner's features at the
      cached version, and when ready is set that version is one the backend had when, or after,
      the owner became the identity. */
  lemma CacheIsOwnersSnapshot(catalogue: Catalogue, s: State, trace: seq<Event>, t: State)
    requires EmptyAtZero(catalogue) && Init(s) && Reaches(catalogue, s, trace, t) && Honest(trace)
    ensures var g := t.cache.generation;
            && |t.owners| == |t.begunAt| == g + 1
            && t.cache.features == NormalizeAll(catalogue(t.owners[g], t.cache.version))
            && (forall name :: name in t.cache.features <==> name in catalogue(t.owners[g], t.cache.version))
            && (forall name :: name in t.cache.features && catalogue(t.owners[g], t.cache.version)[name].Object? ==>
                  t.cache.features[name] == catalogue(t.owners[g], t.cache.version)[name].fields)
            && (t.cache.ready ==> t.begunAt[g] <= t.cache.version <= t.serverVersion)
  {
    assert catalogue(None, 0) == map[];
    HonestRunKeepsInv(catalogue, s, trace, t);
  }

  /** ... and, while no `identify` call is inside the user lock, that owner is the present user id: what is served
      for each feature is what the backend holds for that user at the cached version, and no other is served. */
  lemma NeverServesPreviousIdentity(catalogue: Catalogue, s: State, trace: seq<Event>, t: State)
    requires EmptyAtZero(catalogue) && Init(s) && Reaches(catalogue, s, trace, t) && Honest(trace)
    requires t.holder.Nobody?
    ensures t.cache.features == NormalizeAll(catalogue(t.userId, t.cache.version))
    ensures var held := catalogue(t.userId, t.cache.version);
            && (forall name :: name in t.cache.features <==> name in held)
            && (forall name :: name in held && held[name].Object? ==> t.cache.features[name] == held[name].fields)
            && (forall name :: name in held && !held[name].Object? ==>
                  t.cache.features[name] == map["status" := Text(held[name].text)])
  {
    CacheIsOwnersSnapshot(catalogue, s, trace, t);
    OwnerIsUserId(catalogue, s, trace, t);
    StoredForEach(catalogue(t.userId, t.cache.version));
  }

  lemma {:induction false} ReachesInTwo(
    catalogue: Catalogue, s: State, first: seq<Event>, t: State, second: seq<Event>, u: State)
    requires Reaches(catalogue, s, first, t) && Reaches(catalogue, t, second, u)
    ensures Reaches(catalogue, s, first + second, u)
    decreases |first|
  {
    if first == [] {
      assert first + second == second;
    } else {
      assert (first + second)[1..] == first[1..] + second;
      ReachesInTwo(catalogue, Step(catalogue, s, first[0]), first[1..], t, second, u);
    }
  }

  lemma {:induction false} BeginningsStay(catalogue: Catalogue, s: State, trace: seq<Event>, t: State)
    requires Reaches(catalogue, s, trace, t)
    ensures s.begunAt <= t.begunAt
    decreases |trace|
  {
    if trace != [] {
      BeginningsStay(catalogue, Step(catalogue, s, trace[0]), trace[1..], t);
    }
  }

  lemma Prepend(catalogue: Catalogue, s: State, e: Event, rest: seq<Event>, t: State) returns (trace: seq<Event>)
    requires Enabled(s, e) && Reaches(catalogue, Step(catalogue, s, e), rest, t)
    ensures trace == [e] + rest && Reaches(catalogue, s, trace, t)
  {
    trace := [e] + rest;
    assert trace[1..] == rest;
  }

  /** Freshness, said of the bump: as long as the identity begun at `t` lasts, ready means that the cache holds a
      version that the backend had no earlier than then. */
  lemma ReadySinceIdentity(catalogue: Catalogue, s: State, before: seq<Event>, t: State, after: seq<Event>, u: State)
    requires EmptyAtZero(catalogue) && Init(s) && Honest(before) && Honest(after)
    requires Reaches(catalogue, s, before, t) && Enabled(t, Bump)
    requires Reaches(catalogue, Step(catalogue, t, Bump), after, u)
    requires u.cache.generation == t.cache.generation + 1 && u.cache.ready
    ensures t.serverVersion <= u.cache.version <= u.serverVersion
  {
    var begun := Step(catalogue, t, Bump);
    RunKeepsInv(catalogue, s, before, t);
    BeginningsStay(catalogue, begun, after, u);
    var rest := Prepend(catalogue, t, Bump, after, u);
    ReachesInTwo(catalogue, s, before, t, rest, u);
    CacheIsOwnersSnapshot(catalogue, s, before + rest, u);
  }

  /** Within one generation the cached version never decreases. */
  lemma VersionNeverDecreases(catalogue: Catalogue, s: State, before: seq<Event>, t: State, after: seq<Event>, u: State)
    requires EmptyAtZero(catalogue) && Init(s) && Honest(before) && Honest(after)
    requires Reaches(catalogue, s, before, t) && Reaches(catalogue, t, after, u)
    ensures t.cache.generation <= u.cache.generation
    ensures t.cache.generation == u.cache.generation ==> t.cache.version <= u.cache.version
  {
    assert catalogue(None, 0) == map[];
    HonestRunKeepsInv(catalogue, s, before, t);
    HonestRunKeepsInv(catalogue, t, after, u);
  }

  /** Three steps from an open stream with an answer on it: the user lock is taken, the user id is
      written, the answer arrives. */
  lemma ArrivesInside(catalogue: Catalogue, s: State, other: string)
    returns (trace: seq<Event>, t: State)
    requires s.strategy.EventStream? && s.holder.Nobody? && s.consumer.Listening? && s.wire != []
    requires s.wire[0].Snapshot? && s.consumer.gen == s.cache.generation
    ensures Reaches(catalogue, s, trace, t) && trace == [Enter(Some(other)), Write, Receive]
    ensures t.userId == Some(other) && t.source == Some(s.consumer.user)
    ensures t.cache == s.cache.Apply(s.wire[0].features, s.wire[0].version, s.consumer.gen)
  {
    var entered := Step(catalogue, s, Enter(Some(other)));
    var wrote := Step(catalogue, entered, Write);
    t := Step(catalogue, wrote, Receive);
    trace := Prepend(catalogue, wrote, Receive, [], t);
    trace := Prepend(catalogue, entered, Write, trace, t);
    trace := Prepend(catalogue, s, Enter(Some(other)), trace, t);
  }

  /** The exception in OwnerIsUserId is real: an answer for the anonymous identity is accepted, and
      ready is set for it, when `_user_id` already names another user. */
  lemma LateAnswerAccepted(catalogue: Catalogue, s: State, other: string)
    returns (trace: seq<Event>, t: State)
    requires Init(s) && s.strategy == EventStream
    ensures Reaches(catalogue, s, trace, t) && Honest(trace)
    ensures t.userId == Some(other) && t.cache.ready && t.source == Some(None)
    ensures t.cache.features == NormalizeAll(catalogue(None, t.cache.version))
  {
    var viewed := Step(catalogue, s, ReadView);
    var requested := Step(catalogue, viewed, ReadUser);
    var answered := Step(catalogue, requested, Send(FullSnapshot));
    var streaming := Step(catalogue, answered, HeadersArrive);
    trace, t := ArrivesInside(catalogue, streaming, other);
    trace := Prepend(catalogue, answered, HeadersArrive, trace, t);
    trace := Prepend(catalogue, requested, Send(FullSnapshot), trace, t);
    trace := Prepend(catalogue, viewed, ReadUser, trace, t);
    trace := Prepend(catalogue, s, ReadView, trace, t);
  }

  /** The steps that carry a wake-up through: no backend answer and no timer is among them. */
  predicate CarriesWakeUp(e: Event) {
    e.Release? || e.Signal? || e.RunCallback? || e.Observe? || e.Resume? || e.IntervalOver? || e.ReadView?
  }

  /** A woken consumer that is parked goes on to a request view of the current generation. */
  lemma WokenGoesOn(catalogue: Catalogue, s: State) returns (trace: seq<Event>, t: State)
    requires s.wake && !s.stop && (s.consumer.Listening? || s.consumer.Waiting?)
    ensures Reaches(catalogue, s, trace, t) && forall i :: 0 <= i < |trace| ==> CarriesWakeUp(trace[i])
    ensures t.consumer == Viewed(s.cache.generation, s.cache.version) && t.cache == s.cache
  {
    var first := if s.consumer.Waiting? then IntervalOver else Observe;
    var parked := Step(catalogue, s, first);
    var top := if s.consumer.Waiting? then parked else Step(catalogue, parked, Resume);
    t := Step(catalogue, top, ReadView);
    trace := Prepend(catalogue, top, ReadView, [], t);
    if s.consumer.Listening? {
      trace := Prepend(catalogue, parked, Resume, trace, t);
    }
    trace := Prepend(catalogue, s, first, trace, t);
  }

  /** A pending wake-up does its work: it takes a parked consumer to a fresh request view of the
      current generation. */
  lemma {:induction false} WakeUpArrives(catalogue: Catalogue, s: State) returns (trace: seq<Event>, t: State)
    requires WakePending(s) && !s.stop && (s.consumer.Listening? || s.consumer.Waiting?)
    ensures Reaches(catalogue, s, trace, t) && forall i :: 0 <= i < |trace| ==> CarriesWakeUp(trace[i])
    ensures t.consumer == Viewed(s.cache.generation, s.cache.version) && t.cache == s.cache
    decreases !s.wake, s.callbacks == 0, s.unsignalled == 0
  {
    if s.wake {
      trace, t := WokenGoesOn(catalogue, s);
    } else {
      var e := if s.callbacks > 0 then RunCallback else if s.unsignalled > 0 then Signal else Release;
      var next := Step(catalogue, s, e);
      trace, t := WakeUpArrives(catalogue, next);
      trace := Prepend(catalogue, s, e, trace, t);
    }
  }

  // ---------------------------------------------------------------- progress of a wake-up

  /** The consumer is parked with a wake-up pending, or already on its way to a fresh request view. */
  predicate OnItsWay(s: State) {
    || s.consumer.Left? || s.consumer.Backoff? || s.consumer.Top?
    || (s.consumer.Listening? && s.strategy.EventStream? && WakePending(s))
    || (s.consumer.Waiting? && WakePending(s))
  }

  /** The step that brings it nearer: the nearest wake-up moves on, or the woken consumer does. */
  function Urgent(s: State): Event {
    if s.consumer.Top? then ReadView
    else if s.consumer.Backoff? then BackoffOver
    else if s.consumer.Left? then Resume
    else if s.wake then (if s.consumer.Waiting? then IntervalOver else Observe)
    else if s.callbacks > 0 then RunCallback
    else if s.unsignalled > 0 then Signal
    else Release
  }

  /** How many urgent steps it is away, at most. */
  function Distance(s: State): nat {
    if s.consumer.Top? then 1
    else if s.consumer.Backoff? then 2
    else if s.consumer.Left? then 3
    else if s.wake then 4
    else if s.callbacks > 0 then 5
    else if s.unsignalled > 0 then 6
    else 7
  }

  /** A fresh request view was read, or the consumer has stopped for good. */
  predicate Arrived(s: State) {
    s.consumer.Stopped? || s.consumer == Viewed(s.cache.generation, s.cache.version)
  }

  /** No step whatever undoes a pending wake-up or takes the consumer farther from a fresh view; the urgent step is
      always possible, brings it nearer, and stays the urgent one until it comes nearer. */
  lemma NothingUndoesWakeUp(catalogue: Catalogue, s: State, e: Event)
    requires OnItsWay(s) && Enabled(s, e)
    ensures Enabled(s, Urgent(s))
    ensures var t := Step(catalogue, s, e);
            || Arrived(t)
            || (&& OnItsWay(t) && Distance(t) <= Distance(s)
                && (e == Urgent(s) ==> Distance(t) < Distance(s))
                && (Distance(t) == Distance(s) ==> Urgent(t) == Urgent(s)))
  {
  }

  /** `trace` leads from `s` to `t` without arriving anywhere on the way, and `n` of its steps are urgent ones. */
  predicate Approaches(catalogue: Catalogue, s: State, trace: seq<Event>, t: State, n: nat)
    decreases |trace|
  {
    if trace == [] then s == t && n == 0
    else
      && Enabled(s, trace[0])
      && var next := Step(catalogue, s, trace[0]);
         && !Arrived(next)
         && if trace[0] != Urgent(s) then Approaches(catalogue, next, trace[1..], t, n)
            else n > 0 && Approaches(catalogue, next, trace[1..], t, n - 1)
  }

  /** So in any run, whatever else happens in it, a pending wake-up needs fewer than seven urgent steps before the
      consumer has read a fresh view or stopped. */
  lemma {:induction false} WakeUpGetsThrough(catalogue: Catalogue, s: State, trace: seq<Event>, t: State, n: nat)
    requires OnItsWay(s) && Approaches(catalogue, s, trace, t, n)
    ensures OnItsWay(t) && n + Distance(t) <= Distance(s) <= 7
    decreases |trace|
  {
    if trace != [] {
      NothingUndoesWakeUp(catalogue, s, trace[0]);
      var next := Step(catalogue, s, trace[0]);
      WakeUpGetsThrough(catalogue, next, trace[1..], t, if trace[0] == Urgent(s) then n - 1 else n);
    }
  }

  /** A consumer parked for an older generation is such a one, in every reachable state. */
  lemma StaleConsumerIsOnItsWay(catalogue: Catalogue, s: State, trace: seq<Event>, t: State)
    requires Init(s) && Reaches(catalogue, s, trace, t)
    requires (t.consumer.Listening? || t.consumer.Waiting?) && t.consumer.gen != t.cache.generation
    ensures OnItsWay(t)
  {
    RunKeepsInv(catalogue, s, trace, t);
  }

  // ---------------------------------------------------------------- the consumer goes on

  /** The consumer stops only when it is told to, or when the backend rejects the key on a stream. */
  lemma {:induction false} StopsOnlyWhenTold(catalogue: Catalogue, s: State, trace: seq<Event>, t: State)
    requires Reaches(catalogue, s, trace, t) && !s.consumer.Stopped? && !s.stop && t.consumer.Stopped?
    ensures StopCalled in trace || Reject in trace
    decreases |trace|
  {
    var next := Step(catalogue, s, trace[0]);
    if trace[0] != StopCalled && trace[0] != Reject {
      StopsOnlyWhenTold(catalogue, next, trace[1..], t);
    }
  }

  /** From wherever it is, it can come back to the head of its loop without touching the cache. */
  lemma ToTop(catalogue: Catalogue, s: State) returns (trace: seq<Event>, t: State)
    requires !s.consumer.Stopped? && !s.stop && s.holder.Nobody?
    requires s.consumer.Listening? ==> s.strategy.EventStream?
    ensures Reaches(catalogue, s, trace, t) && Honest(trace) && t.consumer == Top && !t.stop && t.holder.Nobody?
    ensures t.cache == s.cache && t.userId == s.userId && t.serverVersion == s.serverVersion && t.strategy == s.strategy
    decreases match s.consumer
              case Top => 0
              case Backoff => 1
              case Waiting(_, _) => 1
              case Left => 2
              case Listening(_, _, _) => 3
              case Requested(_, _, _) => 3
              case _ => 4
  {
    if s.consumer.Top? {
      trace, t := [], s;
    } else {
      var e := match s.consumer
               case Backoff => BackoffOver
               case Waiting(_, _) => IntervalOver
               case Left => Resume
               case Viewed(_, _) => ReadUser
               case _ => Disconnect;
      trace, t := ToTop(catalogue, Step(catalogue, s, e));
      trace := Prepend(catalogue, s, e, trace, t);
    }
  }

  /** The answer to a request of the current generation, once sent, arrives and is taken. */
  lemma AnswerArrives(catalogue: Catalogue, s: State) returns (trace: seq<Event>, t: State)
    requires s.consumer.Requested? && s.consumer.gen == s.cache.generation && s.wire != [] && s.wire[0].Snapshot?
    ensures Reaches(catalogue, s, trace, t) && Honest(trace)
    ensures t.cache == Store(NormalizeAll(s.wire[0].features), s.wire[0].version, s.cache.generation, true)
  {
    var open := if s.strategy.EventStream? then Step(catalogue, s, HeadersArrive) else s;
    t := Step(catalogue, open, Receive);
    trace := Prepend(catalogue, open, Receive, [], t);
    if s.strategy.EventStream? {
      trace := Prepend(catalogue, s, HeadersArrive, trace, t);
    }
  }

  /** One more round of the loop, answered in full, puts the present user's features into the cache. */
  lemma RoundServes(catalogue: Catalogue, s: State) returns (trace: seq<Event>, t: State)
    requires s.consumer == Top && !s.stop && s.holder.Nobody?
    ensures Reaches(catalogue, s, trace, t) && Honest(trace)
    ensures t.cache == Store(
              NormalizeAll(catalogue(s.userId, s.serverVersion)), s.serverVersion, s.cache.generation, true)
  {
    var viewed := Step(catalogue, s, ReadView);
    var requested := Step(catalogue, viewed, ReadUser);
    var sent := Step(catalogue, requested, Send(FullSnapshot));
    trace, t := AnswerArrives(catalogue, sent);
    trace := Prepend(catalogue, requested, Send(FullSnapshot), trace, t);
    trace := Prepend(catalogue, viewed, ReadUser, trace, t);
    trace := Prepend(catalogue, s, ReadView, trace, t);
  }

  /** Nothing that can have happened keeps the consumer from serving the present user: from every reachable state in
      which it has not stopped and nobody is inside the user lock, the backend can bring ready and, for each feature,
      what it now holds for the present user id. */
  lemma PresentUserCanBeServed(catalogue: Catalogue, s: State, before: seq<Event>, t: State)
    returns (trace: seq<Event>, u: State)
    requires Init(s) && Reaches(catalogue, s, before, t)
    requires !t.consumer.Stopped? && !t.stop && t.holder.Nobody?
    ensures Reaches(catalogue, t, trace, u) && Honest(trace)
    ensures var held := catalogue(t.userId, t.serverVersion);
            && u.cache.ready && u.cache.version == t.serverVersion
            && (forall name :: name in u.cache.features <==> name in held)
            && (forall name :: name in held && held[name].Object? ==> u.cache.features[name] == held[name].fields)
  {
    RunKeepsInv(catalogue, s, before, t);
    var up, top := ToTop(catalogue, t);
    var round;
    round, u := RoundServes(catalogue, top);
    trace := up + round;
    ReachesInTwo(catalogue, t, up, top, round, u);
    StoredForEach(catalogue(t.userId, t.serverVersion));
  }
}

/** The objects behind the steps of the identity protocol: a client and a consumer that share a cache follow the
    protocol, call for call, and so have what is proved of its runs. */
module ConsumerSteps {
  import opened Prelude
  import opened FeatureCache
  import opened ConsumerAnswers
  import opened IdentifyCall
  import opened IdentityProtocol

  /** The stream consumer and its cache are as in protocol state `s`. */
  ghost predicate StreamFollows(c: SSEConsumer, s: State)
    reads c, c.cache, c.firstEvent
  {
    && s.strategy.EventStream? && c.cache.Value(c.firstEvent) == s.cache
    && match BoundTo(s.consumer)
       case Some(gen) => c.generation == Some(gen)
       case None => true
  }

  ghost predicate PollFollows(c: PollingConsumer, s: State)
    reads c, c.cache, c.firstEvent
  {
    s.strategy.Polling? && c.cache.Value(c.firstEvent) == s.cache
  }

  /** The steps that concern the objects. */
  predicate ConcernsObjects(e: IdentityProtocol.Event) {
    e.Bump? || e.ReadView? || e.Receive?
  }

  /** Only beginning an identity, reading a view and receiving an answer concern the objects. */
  lemma OtherStepsTouchNothing(catalogue: Catalogue, s: State, e: IdentityProtocol.Event)
    requires Enabled(s, e) && !ConcernsObjects(e)
    ensures var t := Step(catalogue, s, e);
            && t.cache == s.cache && t.strategy == s.strategy
            && (BoundTo(t.consumer).None? || BoundTo(t.consumer) == BoundTo(s.consumer))
  {
  }

  /** Whatever else happens in between, by the loop, the backend, other callers or the consumer, objects that follow
      go on following. */
  lemma {:induction false} StreamGoesOnFollowing(
    c: SSEConsumer, catalogue: Catalogue, s: State, trace: seq<IdentityProtocol.Event>, t: State)
    requires StreamFollows(c, s) && Reaches(catalogue, s, trace, t)
    requires forall i :: 0 <= i < |trace| ==> !ConcernsObjects(trace[i])
    ensures StreamFollows(c, t)
    decreases |trace|
  {
    if trace != [] {
      OtherStepsTouchNothing(catalogue, s, trace[0]);
      StreamGoesOnFollowing(c, catalogue, Step(catalogue, s, trace[0]), trace[1..], t);
    }
  }

  lemma {:induction false} PollGoesOnFollowing(
    c: PollingConsumer, catalogue: Catalogue, s: State, trace: seq<IdentityProtocol.Event>, t: State)
    requires PollFollows(c, s) && Reaches(catalogue, s, trace, t)
    requires forall i :: 0 <= i < |trace| ==> !ConcernsObjects(trace[i])
    ensures PollFollows(c, t)
    decreases |trace|
  {
    if trace != [] {
      OtherStepsTouchNothing(catalogue, s, trace[0]);
      PollGoesOnFollowing(c, catalogue, Step(catalogue, s, trace[0]), trace[1..], t);
    }
  }

  /** `_connect_and_consume` begins with the step ReadView. */
  method StreamReadsView(c: SSEConsumer, ghost catalogue: Catalogue, ghost s: State) returns (since: int)
    requires StreamFollows(c, s) && Enabled(s, ReadView) && !s.stop
    modifies c`generation
    ensures StreamFollows(c, Step(catalogue, s, ReadView))
    ensures c.generation.Some? && Step(catalogue, s, ReadView).consumer == Viewed(c.generation.value, since)
  {
    since := c.Bind();
  }

  /** `_handle_event` is the step Receive, for an answer that says what the event says. */
  method StreamReceives(
    c: SSEConsumer, event: string, data: Payload, ghost catalogue: Catalogue, ghost s: State)
    requires StreamFollows(c, s) && Enabled(s, Receive) && s.wire[0] == StreamAnswer(event, data)
    modifies c, c.cache, c.firstEvent
    ensures StreamFollows(c, Step(catalogue, s, Receive))
  {
    c.HandleEvent(event, data);
  }

  /** `_poll_once` begins with the step ReadView. */
  method PollReadsView(c: PollingConsumer, ghost catalogue: Catalogue, ghost s: State)
    returns (generation: nat, since: int)
    requires PollFollows(c, s) && Enabled(s, ReadView) && !s.stop
    ensures PollFollows(c, Step(catalogue, s, ReadView))
    ensures Step(catalogue, s, ReadView).consumer == Viewed(generation, since)
  {
    generation, since := c.cache.RequestView();
  }

  /** ... and ends with the step Receive, for an answer that says what the response says. */
  method PollReceives(
    c: PollingConsumer, response: PollResponse, generation: nat, ghost catalogue: Catalogue, ghost s: State)
    requires PollFollows(c, s) && Enabled(s, Receive) && s.wire[0] == PollAnswer(response)
    requires s.consumer.gen == generation
    modifies c, c.cache, c.firstEvent
    ensures PollFollows(c, Step(catalogue, s, Receive))
  {
    c.HandleResponse(response, generation);
  }

  /** The five steps of an accepted `identify` call. */
  function IdentifySteps(s: State, target: User): seq<IdentityProtocol.Event> {
    [Enter(target), Write, if target != s.userId then Bump else Keep, Release, Signal]
  }

  lemma PublishedRuns(catalogue: Catalogue, s: State) returns (t: State)
    requires s.holder.Published?
    ensures Reaches(catalogue, s, [Release, Signal], t)
    ensures t.userId == s.userId && t.holder.Nobody? && t.cache == s.cache
    ensures t.consumer == s.consumer && t.strategy == s.strategy
  {
    var released := Step(catalogue, s, Release);
    t := Step(catalogue, released, Signal);
    var trace := Prepend(catalogue, released, Signal, [], t);
    trace := Prepend(catalogue, s, Release, trace, t);
    assert trace == [Release, Signal];
  }

  lemma IdentifyRuns(catalogue: Catalogue, s: State, target: User) returns (t: State)
    requires s.holder.Nobody?
    ensures Reaches(catalogue, s, IdentifySteps(s, target), t)
    ensures t.userId == target && t.holder.Nobody? && t.consumer == s.consumer && t.strategy == s.strategy
    ensures t.cache == if target != s.userId then s.cache.BeginIdentity() else s.cache
  {
    var entered := Step(catalogue, s, Enter(target));
    var wrote := Step(catalogue, entered, Write);
    var e := if target != s.userId then Bump else Keep;
    var published := Step(catalogue, wrote, e);
    t := PublishedRuns(catalogue, published);
    var trace := Prepend(catalogue, wrote, e, [Release, Signal], t);
    trace := Prepend(catalogue, entered, Write, trace, t);
    trace := Prepend(catalogue, s, Enter(target), trace, t);
    assert trace == IdentifySteps(s, target);
  }

  /** `identify`, undisturbed, is those five steps; the consumer that shares the cache goes on following. */
  method IdentifyFollows(
    o: Onelo, c: SSEConsumer, target: User, now: real, ghost catalogue: Catalogue, ghost s: State)
    returns (ok: bool, ghost t: State)
    requires o.cache == c.cache && o.firstEvent == c.firstEvent
    requires StreamFollows(c, s) && s.holder.Nobody? && s.userId == o.userId
    modifies o, o.cache, o.firstEvent
    ensures ok <==> target == None || o.secretKey
    ensures StreamFollows(c, t) && t.userId == o.userId
    ensures if ok then Reaches(catalogue, s, IdentifySteps(s, target), t) else t == s
  {
    var warn;
    ok, warn := o.Identify(target, now);
    if ok {
      t := IdentifyRuns(catalogue, s, target);
    } else {
      t := s;
    }
  }

  /** The same with a polling consumer. */
  method IdentifyFollowsPoll(
    o: Onelo, c: PollingConsumer, target: User, now: real, ghost catalogue: Catalogue, ghost s: State)
    returns (ok: bool, ghost t: State)
    requires o.cache == c.cache && o.firstEvent == c.firstEvent
    requires PollFollows(c, s) && s.holder.Nobody? && s.userId == o.userId
    modifies o, o.cache, o.firstEvent
    ensures ok <==> target == None || o.secretKey
    ensures PollFollows(c, t) && t.userId == o.userId
    ensures if ok then Reaches(catalogue, s, IdentifySteps(s, target), t) else t == s
  {
    var warn;
    ok, warn := o.Identify(target, now);
    if ok {
      t := IdentifyRuns(catalogue, s, target);
    } else {
      t := s;
    }
  }

  /** Whatever the backend sends, in any run: a stream event that changes the cache was received on a connection
      opened for the current generation and its identity, and it is a well-formed snapshot or an up-to-date
      notice. */
  lemma EventLandsOnOwner(
    catalogue: Catalogue, s: State, trace: seq<IdentityProtocol.Event>, t: State, event: string, data: Payload)
    requires Init(s) && Reaches(catalogue, s, trace, t) && Enabled(t, Receive) && t.wire[0] == StreamAnswer(event, data)
    requires Step(catalogue, t, Receive).cache != t.cache
    ensures t.consumer.gen == t.cache.generation < |t.owners| && t.consumer.user == t.owners[t.cache.generation]
    ensures event == "up_to_date" || (event in {"connected", "features_updated"} && WellFormed(data))
  {
    StreamTakesEffect(t.cache, event, data, t.consumer.gen);
    AcceptedForOwner(catalogue, s, trace, t);
  }

  /** The same of a poll response. */
  lemma ResponseLandsOnOwner(
    catalogue: Catalogue, s: State, trace: seq<IdentityProtocol.Event>, t: State, response: PollResponse)
    requires Init(s) && Reaches(catalogue, s, trace, t) && Enabled(t, Receive) && t.wire[0] == PollAnswer(response)
    requires Step(catalogue, t, Receive).cache != t.cache
    ensures t.consumer.gen == t.cache.generation < |t.owners| && t.consumer.user == t.owners[t.cache.generation]
    ensures response.Status? && (response.code == 304 || (response.code == 200 && response.body.Fields?))
  {
    PollTakesEffect(t.cache, response, t.consumer.gen);
    AcceptedForOwner(catalogue, s, trace, t);
  }
}

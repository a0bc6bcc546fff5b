/** How the two consumers turn what the backend says into cache calls: `_handle_event` of
    src/onelo/_sse.py and the second half of `_poll_once` of src/onelo/_polling.py. */
module ConsumerAnswers {
  import opened Prelude
  import opened FeatureCache

  datatype FeaturesField = Absent | NotAMapping | Mapping(features: Features)

  /** A body after `json.loads`, as far as the consumers look into it. */
  datatype Payload =
    | NotJson
    | NotAnObject
    | Fields(features: FeaturesField, version: Option<int>, upToDate: bool, discovery: bool)

  predicate WellFormed(p: Payload) {
    p.Fields? && p.features.Mapping? && p.version.Some?
  }

  function SnapshotOf(p: Payload): Answer
    requires WellFormed(p)
  {
    Snapshot(p.features.features, p.version.value)
  }

  /** What one stream event says. */
  function StreamAnswer(event: string, p: Payload): Answer {
    if event == "up_to_date" then UpToDate
    else if event in {"connected", "features_updated"} && WellFormed(p) then SnapshotOf(p)
    else Noise
  }

  /** How one poll ends. */
  datatype PollResponse = Failed | Status(code: int, body: Payload)

  /** What one poll says. */
  function PollAnswer(r: PollResponse): Answer {
    match r
    case Failed => Noise
    case Status(code, body) =>
      if code == 304 then UpToDate
      else if code != 200 || !body.Fields? then Noise
      else if body.upToDate || body.features.Absent? then UpToDate
      else if WellFormed(body) then SnapshotOf(body)
      else Noise
  }

  // ---------------------------------------------------------------- the objects

  class SSEConsumer {
    const cache: ThreadSafeCache
    const firstEvent: ReadyEvent
    var generation: Option<nat>
    var discoveries: nat             // calls of on_discovery_requested

    constructor (cache: ThreadSafeCache, firstEvent: ReadyEvent)
      ensures this.cache == cache && this.firstEvent == firstEvent && generation == None && discoveries == 0
    {
      this.cache, this.firstEvent, generation, discoveries := cache, firstEvent, None, 0;
    }

    /** The start of `_connect_and_consume`. */
    method Bind() returns (sinceVersion: int)
      modifies this`generation
      ensures generation == Some(cache.generation) && sinceVersion == cache.configVersion
    {
      var atGeneration, since := cache.RequestView();
      generation := Some(atGeneration);
      return since;
    }

    method HandleEvent(event: string, data: Payload)
      modifies this`discoveries, cache, firstEvent
      ensures cache.Value(firstEvent) ==
              old(cache.Value(firstEvent)).Handle(
                StreamAnswer(event, data),
                if generation.Some? then generation.value else old(cache.generation))
      ensures discoveries == old(discoveries) + if event == "discovery_requested" then 1 else 0
    {
      var bound := if generation.Some? then generation.value else cache.generation;
      if event == "up_to_date" {
        var _ := cache.Confirm(bound, firstEvent);
        return;
      }
      if event in {"connected", "features_updated"} {
        if WellFormed(data) {
          var _ := cache.Apply(data.features.features, data.version.value, bound, firstEvent);
        }
        return;
      }
      if event == "discovery_requested" {
        discoveries := discoveries + 1;
      }
    }
  }

  class PollingConsumer {
    const cache: ThreadSafeCache
    const firstEvent: ReadyEvent
    var discoveries: nat

    constructor (cache: ThreadSafeCache, firstEvent: ReadyEvent)
      ensures this.cache == cache && this.firstEvent == firstEvent && discoveries == 0
    {
      this.cache, this.firstEvent, discoveries := cache, firstEvent, 0;
    }

    /** `_poll_once` from the response on, for a request made at `generation`. A discovery request in the
        body is heard only if the body is good, and with a snapshot only if that is accepted. */
    method HandleResponse(response: PollResponse, generation: nat)
      modifies this`discoveries, cache, firstEvent
      ensures var answer := PollAnswer(response);
              && cache.Value(firstEvent) == old(cache.Value(firstEvent)).Handle(answer, generation)
              && discoveries == old(discoveries) +
                 if && response.Status? && response.code == 200 && !answer.Noise? && response.body.discovery
                    && (answer.Snapshot? ==> generation == old(cache.generation)) then 1 else 0
    {
      if response.Failed? {
        return;
      }
      if response.code == 304 {
        var _ := cache.Confirm(generation, firstEvent);
      }
      if response.code == 200 {
        if response.body.NotJson? || response.body.NotAnObject? {
          return;
        }
        var data := response.body;
        if data.upToDate || data.features.Absent? {
          var _ := cache.Confirm(generation, firstEvent);
          MaybeRequestDiscovery(data);
          return;
        }
        if !WellFormed(data) {
          return;
        }
        var ok := cache.Apply(data.features.features, data.version.value, generation, firstEvent);
        if ok {
          MaybeRequestDiscovery(data);
        }
      }
    }

    method MaybeRequestDiscovery(data: Payload)
      requires data.Fields?
      modifies this`discoveries
      ensures discoveries == old(discoveries) + if data.discovery then 1 else 0
    {
      if data.discovery {
        discoveries := discoveries + 1;
      }
    }
  }

  // ---------------------------------------------------------------- results

  /** The stored features or version move only on a well-formed payload of the right event, received for the
      current generation, and then all of it is stored; ready is set only by such a payload or by an
      up-to-date notice for the current generation. */
  lemma StreamTakesEffect(s: Store, event: string, p: Payload, bound: nat)
    ensures var t := s.Handle(StreamAnswer(event, p), bound);
            var good := event in {"connected", "features_updated"} && WellFormed(p) && bound == s.generation;
            && (good ==> t == Store(NormalizeAll(p.features.features), p.version.value, s.generation, true))
            && (!good ==> t == s.(ready := s.ready || (event == "up_to_date" && bound == s.generation)))
  {
  }

  /** The same of a poll: a 200 with a well-formed body not marked up to date, for the current generation; a 304,
      or a 200 with an object that is so marked or leaves the features out, confirms. */
  lemma PollTakesEffect(s: Store, r: PollResponse, bound: nat)
    ensures var t := s.Handle(PollAnswer(r), bound);
            var current := r.Status? && bound == s.generation;
            var good := current && r.code == 200 && WellFormed(r.body) && !r.body.upToDate;
            var confirms :=
              && current
              && (r.code == 304
                  || (r.code == 200 && r.body.Fields? && (r.body.upToDate || r.body.features.Absent?)));
            && (good ==> t == Store(NormalizeAll(r.body.features.features), r.body.version.value, s.generation, true))
            && (!good ==> t == s.(ready := s.ready || confirms))
  {
  }

  /** `stored` is the snapshot `features` as `get_state` serves it: each object as it is, a bare value as its
      status, and no name besides. */
  ghost predicate Serves(stored: map<string, WireState>, features: Features) {
    && (forall name :: name in stored <==> name in features)
    && forall name :: name in features ==>
         match features[name]
         case Object(fields) => stored[name] == fields
         case Text(text) => stored[name] == map["status" := Text(text)]
         case Scalar(text) => stored[name] == map["status" := Text(text)]
  }

  /** After a well-formed stream snapshot for the current generation the cache serves that snapshot. */
  lemma StreamSnapshotIsServed(s: Store, event: string, p: Payload)
    requires event == "connected" || event == "features_updated"
    requires p.Fields? && p.features.Mapping? && p.version.Some?
    ensures var t := s.Handle(StreamAnswer(event, p), s.generation);
            t.ready && t.version == p.version.value && Serves(t.features, p.features.features)
  {
  }

  /** So it does after a poll that brought one. */
  lemma PollSnapshotIsServed(s: Store, p: Payload)
    requires p.Fields? && p.features.Mapping? && p.version.Some? && !p.upToDate
    ensures var t := s.Handle(PollAnswer(Status(200, p)), s.generation);
            t.ready && t.version == p.version.value && Serves(t.features, p.features.features)
  {
  }

  /** Reading a feature after such an event: the object that the payload holds for it, the status alone for a bare
      value, and hidden for a name that the payload does not hold. */
  method ReadAfterEvent(c: SSEConsumer, event: string, data: Payload, name: string) returns (state: WireState)
    requires event == "connected" || event == "features_updated"
    requires data.Fields? && data.features.Mapping? && data.version.Some?
    requires c.generation == None || c.generation == Some(c.cache.generation)
    modifies c, c.cache, c.firstEvent
    ensures var features := data.features.features;
            state == if name !in features then map["status" := Text("hidden")]
                     else if features[name].Object? then features[name].fields
                     else map["status" := Text(features[name].text)]
  {
    c.HandleEvent(event, data);
    state := c.cache.GetState(name);
  }

  /** The same after a poll. */
  method ReadAfterPoll(c: PollingConsumer, data: Payload, name: string) returns (state: WireState)
    requires data.Fields? && data.features.Mapping? && data.version.Some? && !data.upToDate
    modifies c, c.cache, c.firstEvent
    ensures var features := data.features.features;
            state == if name !in features then map["status" := Text("hidden")]
                     else if features[name].Object? then features[name].fields
                     else map["status" := Text(features[name].text)]
  {
    c.HandleResponse(Status(200, data), c.cache.generation);
    state := c.cache.GetState(name);
  }

  /** A late answer, whatever it says, does nothing once the identity has changed. */
  lemma LateAnswerIsDropped(s: Store, answer: Answer, bound: nat)
    requires bound <= s.generation
    ensures s.BeginIdentity().Handle(answer, bound) == s.BeginIdentity()
    ensures !s.BeginIdentity().ready && s.BeginIdentity().features == map[]
  {
  }

  /** The two consumers read the same body alike exactly when it does not call itself up to date and does not
      leave the features out: a poll takes that as confirmation, a stream event as malformed. */
  lemma PollReadsLikeStream(p: Payload)
    ensures PollAnswer(Status(200, p)) == StreamAnswer("features_updated", p) <==>
              !(p.Fields? && (p.upToDate || p.features.Absent?))
  {
  }
}

/** The debounced auto-discovery ping: `_DiscoveredNames` of src/onelo/_features.py and the chain
    `_schedule_batch_ping`, `_reset_pending_ping_task`, `_debounced_batch_ping` of src/onelo/_client.py.

    `feature()` and `declare()` run on any thread; resets, timers and pings run on the backend's loop.
    A reset cancels the pending task, be it asleep or in the middle of its POST. */
module BatchPing {

  lemma GrowsWithSize(a: set<string>, b: set<string>)
    requires a <= b
    ensures |b| > |a| <==> a != b
  {
    assert b == a + (b - a);
  }

  class DiscoveredNames {
    var names: set<string>

    constructor ()
      ensures names == {}
    {
      names := {};
    }

    method Add(name: string) returns (added: bool)
      modifies this
      ensures names == old(names) + {name} && added == (names != old(names))
    {
      if name in names {
        return false;
      }
      names := names + {name};
      return true;
    }

    /** Compares sizes, as the source does. */
    method AddMany(more: set<string>) returns (added: bool)
      modifies this
      ensures names == old(names) + more && added == (names != old(names))
    {
      var before := |names|;
      var all := names + more;
      GrowsWithSize(names, all);
      names := all;
      return |names| > before;
    }
  }

  datatype Task = Idle | Sleeping | Posting(snapshot: set<string>)

  datatype State = State(
    names: set<string>,        // everything ever asked about
    callers: nat,              // calls that added a name and have not yet scheduled
    resets: nat,               // reset callbacks queued on the loop
    loopUp: bool,              // the backend has a running loop
    task: Task,                // the pending ping task
    direct: seq<set<string>>,  // pings fired at once by discovery_requested, under way
    attempted: set<string>,    // history: names in some finished, uncancelled ping
    orphaned: set<string>,     // history: names known at a dropped schedule that no schedule came after
    grew: nat, ran: nat, dropped: nat   // history: calls that added a name, resets run, schedules dropped
  )

  predicate Init(s: State) {
    s == State({}, 0, 0, s.loopUp, Idle, [], {}, {}, 0, 0, 0)
  }

  datatype Event =
    | Ask(asked: set<string>)      // feature(name) or declare(names)
    | Schedule
    | LoopStarts
    | Reset
    | TimerFires
    | PingEnds
    | DiscoveryRequested
    | DirectPingEnds(i: nat)

  predicate Enabled(s: State, e: Event) {
    match e
    case Schedule => s.callers > 0
    case Reset => s.resets > 0 && s.loopUp
    case TimerFires => s.task.Sleeping?
    case PingEnds => s.task.Posting?
    case DirectPingEnds(i) => i < |s.direct|
    case _ => true
  }

  function Step(s: State, e: Event): State
    requires Enabled(s, e)
  {
    match e
    case Ask(asked) =>
      if asked <= s.names then s else s.(names := s.names + asked, callers := s.callers + 1, grew := s.grew + 1)
    case Schedule =>
      if s.loopUp then s.(callers := s.callers - 1, resets := s.resets + 1, orphaned := {})
      else s.(callers := s.callers - 1, dropped := s.dropped + 1, orphaned := s.names)
    case LoopStarts => s.(loopUp := true)
    case Reset => s.(resets := s.resets - 1, ran := s.ran + 1, task := Sleeping)
    case TimerFires => s.(task := if s.names == {} then Idle else Posting(s.names))
    case PingEnds => s.(task := Idle, attempted := s.attempted + s.task.snapshot)
    case DiscoveryRequested => if s.names == {} || !s.loopUp then s else s.(direct := s.direct + [s.names])
    case DirectPingEnds(i) =>
      s.(attempted := s.attempted + s.direct[i], direct := s.direct[..i] + s.direct[i + 1..])
  }

  predicate Reaches(s: State, trace: seq<Event>, t: State)
    decreases |trace|
  {
    if trace == [] then s == t
    else Enabled(s, trace[0]) && Reaches(Step(s, trace[0]), trace[1..], t)
  }

  /** A future ping is already arranged, and will carry all names. */
  predicate PingArranged(s: State) {
    s.callers > 0 || s.resets > 0 || s.task.Sleeping?
  }

  function Outstanding(s: State): set<string> {
    if s.task.Posting? then s.task.snapshot else {}
  }

  predicate Inv(s: State) {
    && (PingArranged(s) || s.names <= s.attempted + Outstanding(s) + s.orphaned)
    && s.orphaned <= s.names && (s.dropped == 0 ==> s.orphaned == {})
    && s.attempted <= s.names && Outstanding(s) <= s.names
    && (forall i :: 0 <= i < |s.direct| ==> s.direct[i] <= s.names)
    && s.grew == s.callers + s.resets + s.ran + s.dropped
    && (s.loopUp || s.resets == 0)
  }

  lemma StepKeepsInv(s: State, e: Event)
    requires Inv(s) && Enabled(s, e)
    ensures Inv(Step(s, e))
  {
  }

  lemma {:induction false} RunKeepsInv(s: State, trace: seq<Event>, t: State)
    requires Inv(s) && Reaches(s, trace, t)
    ensures Inv(t)
    decreases |trace|
  {
    if trace != [] {
      StepKeepsInv(s, trace[0]);
      RunKeepsInv(Step(s, trace[0]), trace[1..], t);
    }
  }

  /** Every discovered name is covered, although a reset may cancel a ping in the middle of its POST: by a
      caller about to schedule, a queued reset, a sleeping timer, an outstanding ping that carries it, or a
      finished one that did; unless it was known when a schedule was dropped and none came after. */
  lemma EveryNameIsCovered(s: State, trace: seq<Event>, t: State, name: string)
    requires Init(s) && Reaches(s, trace, t) && name in t.names
    ensures || t.callers > 0 || t.resets > 0 || t.task.Sleeping?
            || (t.task.Posting? && name in t.task.snapshot) || name in t.attempted || name in t.orphaned
    ensures t.dropped == 0 ==> t.orphaned == {}
  {
    RunKeepsInv(s, trace, t);
  }

  lemma {:induction false} LoopStaysUp(s: State, trace: seq<Event>, t: State)
    requires s.loopUp && Reaches(s, trace, t)
    ensures t.loopUp && t.dropped == s.dropped
    decreases |trace|
  {
    if trace != [] {
      LoopStaysUp(Step(s, trace[0]), trace[1..], t);
    }
  }

  /** When everything has come to rest, a name has been in a finished ping, or it is orphaned. */
  lemma AtRestAllAttempted(s: State, trace: seq<Event>, t: State)
    requires Init(s) && Reaches(s, trace, t) && t.callers == 0 && t.resets == 0 && t.task.Idle?
    ensures t.names - t.orphaned <= t.attempted <= t.names
    ensures s.loopUp ==> t.names == t.attempted
  {
    RunKeepsInv(s, trace, t);
    if s.loopUp {
      LoopStaysUp(s, trace, t);
    }
  }

  /** A reset is run at most once for each call that added a new name. */
  lemma ResetsBounded(s: State, trace: seq<Event>, t: State)
    requires Init(s) && Reaches(s, trace, t)
    ensures t.ran + t.resets + t.callers + t.dropped == t.grew
  {
    RunKeepsInv(s, trace, t);
  }

  // ---------------------------------------------------------------- orphaned names

  predicate AtRest(s: State) {
    !PingArranged(s) && s.task.Idle? && s.direct == []
  }

  /** Asking again about known names never arranges a ping. */
  lemma {:induction false} KnownNamesArrangeNothing(s: State, trace: seq<Event>, t: State)
    requires Reaches(s, trace, t) && AtRest(s)
    requires forall i :: 0 <= i < |trace| ==>
               trace[i] != DiscoveryRequested && (trace[i].Ask? ==> trace[i].asked <= s.names)
    ensures t == s.(loopUp := t.loopUp)
    decreases |trace|
  {
    if trace != [] {
      assert trace[0].Ask? || trace[0].LoopStarts?;
      KnownNamesArrangeNothing(Step(s, trace[0]), trace[1..], t);
    }
  }

  lemma {:induction false} HistoryGrows(s: State, trace: seq<Event>, t: State)
    requires Reaches(s, trace, t)
    ensures s.names <= t.names && s.attempted <= t.attempted && s.grew <= t.grew
    decreases |trace|
  {
    if trace != [] {
      HistoryGrows(Step(s, trace[0]), trace[1..], t);
    }
  }

  /** As long as nothing new is asked and no discovery requested, nothing but the loop starting happens. */
  lemma {:induction false} NothingNewNothingDone(s: State, trace: seq<Event>, t: State)
    requires Reaches(s, trace, t) && AtRest(s)
    requires s.grew == t.grew && DiscoveryRequested !in trace
    ensures t == s.(loopUp := t.loopUp)
    decreases |trace|
  {
    if trace != [] {
      assert trace[0] in trace;
      HistoryGrows(Step(s, trace[0]), trace[1..], t);
      NothingNewNothingDone(Step(s, trace[0]), trace[1..], t);
    }
  }

  /** With the loop up, a ping that will carry all names is arranged, or the outstanding one and the finished
      ones carry them. */
  predicate CaughtUp(s: State) {
    s.loopUp && (PingArranged(s) || s.names <= s.attempted + Outstanding(s))
  }

  lemma {:induction false} StaysCaughtUp(s: State, trace: seq<Event>, t: State)
    requires CaughtUp(s) && Reaches(s, trace, t)
    ensures CaughtUp(t)
    decreases |trace|
  {
    if trace != [] {
      StaysCaughtUp(Step(s, trace[0]), trace[1..], t);
    }
  }

  /** With the loop up, whatever comes after a call for a new name: once all is at rest, every name ever asked
      about has been in a finished ping, orphaned ones included. */
  lemma NewNameCatchesUp(s: State, asked: set<string>, trace: seq<Event>, t: State)
    requires s.loopUp && !(asked <= s.names) && Reaches(Step(s, Ask(asked)), trace, t)
    requires !PingArranged(t) && t.task.Idle?
    ensures t.names <= t.attempted
  {
    StaysCaughtUp(Step(s, Ask(asked)), trace, t);
  }

  /** `names` are in a finished ping or in one fired at once. */
  predicate OnTheWay(s: State, names: set<string>) {
    names <= s.attempted || exists i :: 0 <= i < |s.direct| && names <= s.attempted + s.direct[i]
  }

  lemma {:induction false} StaysOnTheWay(s: State, names: set<string>, trace: seq<Event>, t: State)
    requires OnTheWay(s, names) && Reaches(s, trace, t)
    ensures OnTheWay(t, names)
    decreases |trace|
  {
    if trace != [] {
      var u := Step(s, trace[0]);
      if !(names <= s.attempted) {
        var i :| 0 <= i < |s.direct| && names <= s.attempted + s.direct[i];
        var gone := if trace[0].DirectPingEnds? then trace[0].i else |s.direct|;
        if i != gone {
          var j := if i < gone then i else i - 1;
          assert u.direct[j] == s.direct[i];
        }
      }
      StaysOnTheWay(u, names, trace[1..], t);
    }
  }

  /** With the loop up, whatever comes after a discovery request: once the pings fired at once have ended, every
      name known at the request has been in a finished ping. */
  lemma DiscoveryCatchesUp(s: State, trace: seq<Event>, t: State)
    requires s.loopUp && Reaches(Step(s, DiscoveryRequested), trace, t) && t.direct == []
    ensures s.names <= t.attempted
  {
    var u := Step(s, DiscoveryRequested);
    assert u.direct != s.direct ==> u.direct[|s.direct|] == s.names;
    StaysOnTheWay(u, s.names, trace, t);
  }

  /** Cuts a run at its first discovery request, or at its first call for a new name. */
  lemma {:induction false} FirstOccasion(s: State, trace: seq<Event>, t: State)
    returns (u: State, e: Event, rest: seq<Event>)
    requires s.loopUp && Reaches(s, trace, t) && (s.grew < t.grew || DiscoveryRequested in trace)
    ensures u.loopUp && s.names <= u.names && Enabled(u, e) && Reaches(Step(u, e), rest, t)
    ensures e == DiscoveryRequested || (e.Ask? && !(e.asked <= u.names))
    decreases |trace|
  {
    e := trace[0];
    if e == DiscoveryRequested || (e.Ask? && !(e.asked <= s.names)) {
      u, rest := s, trace[1..];
    } else {
      var next := Step(s, e);
      assert DiscoveryRequested in trace ==> DiscoveryRequested in trace[1..];
      u, e, rest := FirstOccasion(next, trace[1..], t);
    }
  }

  /** From rest to rest with the loop up, a name that no finished ping has carried yet is carried by one if and
      only if a new name was asked about or a discovery requested in between. */
  lemma OrphanIsCaughtUpExactly(s: State, trace: seq<Event>, t: State, name: string)
    requires s.loopUp && AtRest(s) && Reaches(s, trace, t) && AtRest(t)
    requires name in s.names && name !in s.attempted
    ensures name in t.attempted <==> s.grew < t.grew || DiscoveryRequested in trace
  {
    HistoryGrows(s, trace, t);
    if s.grew < t.grew || DiscoveryRequested in trace {
      var u, e, rest := FirstOccasion(s, trace, t);
      if e == DiscoveryRequested {
        DiscoveryCatchesUp(u, rest, t);
      } else {
        NewNameCatchesUp(u, e.asked, rest, t);
        HistoryGrows(Step(u, e), rest, t);
      }
    } else {
      NothingNewNothingDone(s, trace, t);
    }
  }

  /** Such a name exists: the loop was not up when its only schedule came. */
  lemma OrphanExists(s: State, name: string) returns (trace: seq<Event>, t: State)
    requires Init(s) && !s.loopUp
    ensures Reaches(s, trace, t) && name in t.names && name !in t.attempted && AtRest(t)
  {
    trace := [Ask({name}), Schedule];
    var asked := Step(s, trace[0]);
    t := Step(asked, Schedule);
    assert trace[1..] == [Schedule] && trace[1..][1..] == [];
    assert Reaches(asked, trace[1..], t);
  }

  // ---------------------------------------------------------------- what is known, and coming to rest

  /** Every name that was ever asked about is known from then on, and no other. */
  lemma {:induction false} KnownAreAsked(s: State, trace: seq<Event>, t: State, name: string)
    requires Reaches(s, trace, t)
    ensures name in t.names <==>
              name in s.names || exists i :: 0 <= i < |trace| && trace[i].Ask? && name in trace[i].asked
    decreases |trace|
  {
    if trace != [] {
      var next := Step(s, trace[0]);
      KnownAreAsked(next, trace[1..], t, name);
      assert name in next.names <==> name in s.names || (trace[0].Ask? && name in trace[0].asked);
      if exists i :: 0 <= i < |trace[1..]| && trace[1..][i].Ask? && name in trace[1..][i].asked {
        var i :| 0 <= i < |trace[1..]| && trace[1..][i].Ask? && name in trace[1..][i].asked;
        assert trace[i + 1].Ask? && name in trace[i + 1].asked;
      }
      if exists i :: 0 <= i < |trace| && trace[i].Ask? && name in trace[i].asked {
        var i :| 0 <= i < |trace| && trace[i].Ask? && name in trace[i].asked;
        assert i > 0 ==> trace[1..][i - 1] == trace[i];
      }
    }
  }

  /** How many steps are arranged, at most. */
  function Arranged(s: State): nat {
    5 * s.callers + 4 * s.resets + |s.direct| + match s.task case Idle => 0 case Posting(_) => 1 case Sleeping => 2
  }

  /** The steps that were arranged by earlier ones. */
  predicate CarriesOn(e: Event) {
    e.Schedule? || e.Reset? || e.TimerFires? || e.PingEnds? || e.DirectPingEnds?
  }

  /** A call for known names, or the loop starting, arranges nothing; and every arranged step leaves fewer to come. */
  lemma ArrangedStepsRunOut(s: State, e: Event)
    requires Enabled(s, e)
    ensures CarriesOn(e) ==> Arranged(Step(s, e)) < Arranged(s)
    ensures e == LoopStarts || (e.Ask? && e.asked <= s.names) ==> Arranged(Step(s, e)) == Arranged(s)
    ensures Arranged(s) == 0 <==> AtRest(s)
  {
  }

  /** With the loop up, whatever happened before, carrying on with what is arranged, and nothing else, comes to rest,
      with every name ever asked about in a finished ping or orphaned. */
  lemma {:induction false} ComesToRest(s: State) returns (trace: seq<Event>, t: State)
    requires Inv(s) && s.loopUp
    ensures Reaches(s, trace, t) && AtRest(t) && forall i :: 0 <= i < |trace| ==> CarriesOn(trace[i])
    ensures t.names == s.names && t.names <= t.attempted + t.orphaned
    decreases Arranged(s)
  {
    if AtRest(s) {
      trace, t := [], s;
    } else {
      var e := if s.callers > 0 then Schedule
               else if s.resets > 0 then Reset
               else if s.task.Sleeping? then TimerFires
               else if s.task.Posting? then PingEnds
               else DirectPingEnds(0);
      ArrangedStepsRunOut(s, e);
      StepKeepsInv(s, e);
      var rest;
      rest, t := ComesToRest(Step(s, e));
      trace := [e] + rest;
      assert trace[1..] == rest;
    }
  }
}

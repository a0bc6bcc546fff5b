/** `Onelo.identify` of src/onelo/_client.py as one call, and its detector of per-request misuse:
    five identity switches within a minute are warned about, once per process. */
module IdentifyCall {
  import opened Prelude
  import opened FeatureCache

  const CHURN_WINDOW := 60.0
  const CHURN_THRESHOLD: nat := 5

  /** The times of the recent switches, oldest first, until the warning has been given. */
  datatype Churn = Churn(switches: seq<real>, warned: bool)

  /** popleft while the head is older than `cutoff`. */
  function DropStale(times: seq<real>, cutoff: real): seq<real>
    decreases |times|
  {
    if times != [] && times[0] < cutoff then DropStale(times[1..], cutoff) else times
  }

  function Switch(c: Churn, now: real): Churn {
    if c.warned then c
    else
      var recent := DropStale(c.switches + [now], now - CHURN_WINDOW);
      if |recent| >= CHURN_THRESHOLD then Churn([], true) else Churn(recent, false)
  }

  /** The process-global identity, and what is remembered of its switches. */
  datatype Identity = Identity(userId: Option<string>, churn: Churn)

  /** One call: refused when it names a user without a secret key, counted when it changes to a user. */
  function Call(i: Identity, secretKey: bool, target: Option<string>, now: real): Identity {
    if target.Some? && !secretKey then i
    else Identity(target, if target != i.userId && target.Some? then Switch(i.churn, now) else i.churn)
  }

  class Onelo {
    const secretKey: bool
    const cache: ThreadSafeCache
    const firstEvent: ReadyEvent
    var userId: Option<string>
    var identifySwitches: seq<real>
    var identifyChurnWarned: bool
    var signals: nat                 // calls of signal_user_change

    constructor (secretKey: bool, cache: ThreadSafeCache, firstEvent: ReadyEvent)
      ensures this.secretKey == secretKey && this.cache == cache && this.firstEvent == firstEvent
      ensures userId == None && Misuse() == Churn([], false) && signals == 0
    {
      this.secretKey, this.cache, this.firstEvent := secretKey, cache, firstEvent;
      userId, identifySwitches, identifyChurnWarned, signals := None, [], false, 0;
    }

    ghost function Misuse(): Churn
      reads this
    {
      Churn(identifySwitches, identifyChurnWarned)
    }

    /** `ok` is false when ValueError is raised: a user is named without a secret key. */
    method Identify(target: Option<string>, now: real) returns (ok: bool, warn: bool)
      modifies this, cache, firstEvent
      ensures ok <==> target == None || secretKey
      ensures !ok ==> unchanged(this) && unchanged(cache) && unchanged(firstEvent) && !warn
      ensures ok ==> userId == target && signals == old(signals) + 1
      ensures ok ==> cache.Value(firstEvent) ==
                     if target != old(userId) then old(cache.Value(firstEvent)).BeginIdentity()
                     else old(cache.Value(firstEvent))
      ensures Identity(userId, Misuse()) == Call(Identity(old(userId), old(Misuse())), secretKey, target, now)
      ensures warn <==> identifyChurnWarned && !old(identifyChurnWarned)
    {
      warn := false;
      if target.Some? && !secretKey {
        return false, false;
      }
      var changed := target != userId;
      var switched := changed && target.Some?;
      userId := target;
      if changed {
        cache.BeginIdentity(firstEvent);
      }
      if switched && !identifyChurnWarned {
        identifySwitches := identifySwitches + [now];
        var cutoff := now - CHURN_WINDOW;
        ghost var goal := DropStale(identifySwitches, cutoff);
        while identifySwitches != [] && identifySwitches[0] < cutoff
          invariant DropStale(identifySwitches, cutoff) == goal
          invariant !identifyChurnWarned && userId == target && signals == old(signals)
          invariant cache.Value(firstEvent) == old(cache.Value(firstEvent)).BeginIdentity()
          decreases |identifySwitches|
        {
          identifySwitches := identifySwitches[1..];
        }
        if |identifySwitches| >= CHURN_THRESHOLD {
          identifyChurnWarned := true;
          identifySwitches := [];
          warn := true;
        }
      }
      signals := signals + 1;
      ok := true;
    }
  }

  // ---------------------------------------------------------------- when the warning comes

  function Switches(times: seq<real>): Churn {
    if times == [] then Churn([], false) else Switch(Switches(times[..|times| - 1]), times[|times| - 1])
  }

  predicate Ascending(times: seq<real>) {
    forall i, j :: 0 <= i < j < |times| ==> times[i] <= times[j]
  }

  predicate BurstAt(times: seq<real>, i: int) {
    0 <= i && i + 5 <= |times| && times[i + 4] - times[i] <= 60.0
  }

  /** Some five switches in a row fit into the window. */
  ghost predicate Burst(times: seq<real>) {
    exists i :: BurstAt(times, i)
  }

  lemma {:induction false} DropStaleIsSuffix(times: seq<real>, cutoff: real) returns (k: nat)
    requires Ascending(times)
    ensures k <= |times| && DropStale(times, cutoff) == times[k..]
    ensures forall i :: 0 <= i < |times| ==> (times[i] < cutoff <==> i < k)
    decreases |times|
  {
    if times != [] && times[0] < cutoff {
      var k' := DropStaleIsSuffix(times[1..], cutoff);
      k := k' + 1;
      assert forall i :: 0 < i < |times| ==> times[i] == times[1..][i - 1];
    } else {
      k := 0;
    }
  }

  lemma BurstEnds(times: seq<real>)
    requires times != []
    ensures Burst(times) <==> Burst(times[..|times| - 1]) || BurstAt(times, |times| - 5)
  {
    var before := times[..|times| - 1];
    assert forall i :: BurstAt(before, i) ==> BurstAt(times, i);
    assert forall i :: BurstAt(times, i) && i + 5 < |times| ==> BurstAt(before, i);
  }

  /** The switches from `k` on are those of the last minute. */
  ghost predicate RecentFrom(times: seq<real>, now: real, k: nat) {
    k <= |times| && forall i :: 0 <= i < |times| ==> (times[i] < now - 60.0 <==> i < k)
  }

  lemma SwitchRemembers(times: seq<real>, k0: nat) returns (k: nat)
    requires Ascending(times) && times != [] && k0 < |times|
    requires forall i :: 0 <= i < k0 ==> times[i] < times[|times| - 1] - 60.0
    ensures RecentFrom(times, times[|times| - 1], k)
    ensures DropStale(times[k0..], times[|times| - 1] - 60.0) == times[k..]
  {
    var tail := times[k0..];
    var k1 := DropStaleIsSuffix(tail, times[|times| - 1] - 60.0);
    k := k0 + k1;
    assert tail[k1..] == times[k..];
    assert forall i :: k0 <= i < |times| ==> times[i] == tail[i - k0];
  }

  lemma RecentCount(times: seq<real>, k: nat)
    requires times != [] && RecentFrom(times, times[|times| - 1], k)
    ensures BurstAt(times, |times| - 5) <==> |times| - k >= 5
  {
    if |times| >= 5 {
      var i := |times| - 5;
      assert times[i] < times[|times| - 1] - 60.0 <==> i < k;
    }
  }

  /** What is remembered after the switches at `times`: those of the last minute, until some burst. */
  ghost predicate Remembers(times: seq<real>, c: Churn, k: nat) {
    && k <= |times|
    && (times != [] && !Burst(times) ==> RecentFrom(times, times[|times| - 1], k))
    && if Burst(times) then c.warned else c == Churn(times[k..], false)
  }

  lemma LastSwitch(times: seq<real>, c: Churn, k0: nat) returns (k: nat)
    requires Ascending(times) && times != [] && k0 < |times|
    requires forall i :: 0 <= i < k0 ==> times[i] < times[|times| - 1] - 60.0
    requires c == Churn(times[..|times| - 1][k0..], false)
    ensures RecentFrom(times, times[|times| - 1], k)
    ensures Switch(c, times[|times| - 1]) ==
            if BurstAt(times, |times| - 5) then Churn([], true) else Churn(times[k..], false)
  {
    k := SwitchRemembers(times, k0);
    RecentCount(times, k);
    assert c.switches + [times[|times| - 1]] == times[k0..];
  }

  /** What was too old at one switch is too old at the next. */
  lemma OldStaysOld(times: seq<real>, k0: nat)
    requires Ascending(times) && |times| >= 2 && RecentFrom(times[..|times| - 1], times[|times| - 2], k0)
    ensures k0 < |times| && forall i :: 0 <= i < k0 ==> times[i] < times[|times| - 1] - 60.0
  {
    var before := times[..|times| - 1];
    forall i | 0 <= i < k0
      ensures times[i] < times[|times| - 1] - 60.0
    {
      assert before[i] < times[|times| - 2] - 60.0;
    }
  }

  lemma RemembersOneMore(times: seq<real>, c: Churn, k0: nat) returns (k: nat)
    requires Ascending(times) && times != [] && Remembers(times[..|times| - 1], c, k0)
    ensures Remembers(times, Switch(c, times[|times| - 1]), k)
  {
    k := 0;
    assert Burst(times) <==> Burst(times[..|times| - 1]) || BurstAt(times, |times| - 5) by {
      BurstEnds(times);
    }
    if Burst(times[..|times| - 1]) {
      assert Switch(c, times[|times| - 1]).warned;
    } else {
      if |times| >= 2 {
        OldStaysOld(times, k0);
      }
      k := LastSwitch(times, c, k0);
    }
  }

  /** Until the warning, exactly the switches of the last minute are remembered. */
  lemma {:induction false} RememberedSwitches(times: seq<real>) returns (k: nat)
    requires Ascending(times)
    ensures Remembers(times, Switches(times), k)
    decreases |times|
  {
    if times == [] {
      k := 0;
      assert Switches(times) == Churn(times[0..], false) && !Burst(times);
    } else {
      var k0 := RememberedSwitches(times[..|times| - 1]);
      k := RemembersOneMore(times, Switches(times[..|times| - 1]), k0);
    }
  }

  /** The warning has been given exactly when some five switches in a row came within a minute. */
  lemma SwitchesWarnOnBurst(times: seq<real>)
    requires Ascending(times)
    ensures Switches(times).warned <==> exists i :: BurstAt(times, i)
  {
    var k := RememberedSwitches(times);
  }

  // ---------------------------------------------------------------- runs of calls

  datatype Request = Request(target: Option<string>, now: real)

  function Calls(secretKey: bool, requests: seq<Request>): Identity {
    if requests == [] then Identity(None, Churn([], false))
    else
      var last := requests[|requests| - 1];
      Call(Calls(secretKey, requests[..|requests| - 1]), secretKey, last.target, last.now)
  }

  /** A change of the user id to a user. */
  datatype Switched = Switched(user: string, at: real)

  function SwitchedIn(secretKey: bool, requests: seq<Request>): seq<Switched> {
    if requests == [] then []
    else
      var before, last := requests[..|requests| - 1], requests[|requests| - 1];
      SwitchedIn(secretKey, before) +
      if secretKey && last.target.Some? && last.target != Calls(secretKey, before).userId
      then [Switched(last.target.value, last.now)] else []
  }

  function Times(switched: seq<Switched>): (times: seq<real>)
    ensures |times| == |switched| && forall i :: 0 <= i < |times| ==> times[i] == switched[i].at
  {
    seq(|switched|, i requires 0 <= i < |switched| => switched[i].at)
  }

  predicate InOrder(requests: seq<Request>) {
    forall i, j :: 0 <= i < j < |requests| ==> requests[i].now <= requests[j].now
  }

  /** What is remembered depends on the calls only through the times of their switches. */
  lemma {:induction false} CallsRememberSwitches(secretKey: bool, requests: seq<Request>)
    ensures Calls(secretKey, requests).churn == Switches(Times(SwitchedIn(secretKey, requests)))
    decreases |requests|
  {
    if requests == [] {
      assert Times([]) == [];
    } else {
      var before := requests[..|requests| - 1];
      CallsRememberSwitches(secretKey, before);
      var earlier, later := Times(SwitchedIn(secretKey, before)), Times(SwitchedIn(secretKey, requests));
      if |later| == |earlier| {
        assert later == earlier;
      } else {
        assert later[..|later| - 1] == earlier;
      }
    }
  }

  lemma {:induction false} SwitchesInOrder(secretKey: bool, requests: seq<Request>)
    requires InOrder(requests)
    ensures Ascending(Times(SwitchedIn(secretKey, requests)))
    ensures forall i :: 0 <= i < |SwitchedIn(secretKey, requests)| ==>
              requests != [] && SwitchedIn(secretKey, requests)[i].at <= requests[|requests| - 1].now
    decreases |requests|
  {
    if requests != [] {
      SwitchesInOrder(secretKey, requests[..|requests| - 1]);
    }
  }

  /** Over any run of calls the warning has been given if and only if some five switches in a row came within a
      minute. */
  lemma WarnedExactlyOnBurst(secretKey: bool, requests: seq<Request>)
    requires InOrder(requests)
    ensures Calls(secretKey, requests).churn.warned <==>
              exists i :: BurstAt(Times(SwitchedIn(secretKey, requests)), i)
  {
    CallsRememberSwitches(secretKey, requests);
    SwitchesInOrder(secretKey, requests);
    SwitchesWarnOnBurst(Times(SwitchedIn(secretKey, requests)));
  }

  // ---------------------------------------------------------------- how many user ids that takes

  /** A user and somebody else, or nobody, in turn, all at once. */
  function InTurn(a: string, b: Option<string>, n: nat): (requests: seq<Request>)
    ensures |requests| == n
  {
    if n == 0 then [] else InTurn(a, b, n - 1) + [Request(if (n - 1) % 2 == 0 then Some(a) else b, 0.0)]
  }

  lemma OneMoreRequest(requests: seq<Request>, r: Request)
    ensures Calls(true, requests + [r]) == Call(Calls(true, requests), true, r.target, r.now)
    ensures SwitchedIn(true, requests + [r]) ==
            SwitchedIn(true, requests) +
            if r.target.Some? && r.target != Calls(true, requests).userId then [Switched(r.target.value, r.now)] else []
  {
    assert (requests + [r])[..|requests|] == requests;
  }

  lemma {:induction false} InTurnTargets(a: string, b: Option<string>, n: nat)
    ensures forall i :: 0 <= i < n ==> InTurn(a, b, n)[i].target in {Some(a), b} && InTurn(a, b, n)[i].now == 0.0
    decreases n
  {
    if n > 0 {
      InTurnTargets(a, b, n - 1);
    }
  }

  /** What `n` turns have come to. */
  predicate TurnsTaken(requests: seq<Request>, a: string, b: Option<string>, n: nat) {
    && Calls(true, requests).userId == (if n == 0 then None else if n % 2 == 1 then Some(a) else b)
    && |SwitchedIn(true, requests)| == (if b.Some? then n else (n + 1) / 2)
    && forall i :: 0 <= i < |SwitchedIn(true, requests)| ==> SwitchedIn(true, requests)[i].at == 0.0
  }

  lemma OneMoreTurn(requests: seq<Request>, r: Request, a: string, b: Option<string>, n: nat)
    requires b != Some(a) && TurnsTaken(requests, a, b, n)
    requires r == Request(if n % 2 == 0 then Some(a) else b, 0.0)
    ensures TurnsTaken(requests + [r], a, b, n + 1)
  {
    OneMoreRequest(requests, r);
  }

  lemma {:induction false} InTurnSwitches(a: string, b: Option<string>, n: nat)
    requires b != Some(a)
    ensures TurnsTaken(InTurn(a, b, n), a, b, n)
    decreases n
  {
    if n > 0 {
      InTurnSwitches(a, b, n - 1);
      OneMoreTurn(InTurn(a, b, n - 1), Request(if (n - 1) % 2 == 0 then Some(a) else b, 0.0), a, b, n - 1);
    }
  }

  lemma FiveAtOnceWarn(requests: seq<Request>)
    requires |SwitchedIn(true, requests)| >= 5
    requires forall i :: 0 <= i < |requests| ==> requests[i].now == 0.0
    requires forall i :: 0 <= i < |SwitchedIn(true, requests)| ==> SwitchedIn(true, requests)[i].at == 0.0
    ensures Calls(true, requests).churn.warned
  {
    WarnedExactlyOnBurst(true, requests);
    assert BurstAt(Times(SwitchedIn(true, requests)), 0);
  }

  lemma InTurnWarns(a: string, b: Option<string>, n: nat)
    requires b != Some(a) && 5 <= if b.Some? then n else (n + 1) / 2
    ensures Calls(true, InTurn(a, b, n)).churn.warned
  {
    var requests := InTurn(a, b, n);
    assert TurnsTaken(requests, a, b, n) by {
      InTurnSwitches(a, b, n);
    }
    assert forall i :: 0 <= i < |requests| ==> requests[i].now == 0.0 by {
      InTurnTargets(a, b, n);
    }
    FiveAtOnceWarn(requests);
  }

  /** The warning speaks of five distinct user ids, but two are enough, taking turns five times. */
  lemma TwoIdsSuffice(a: string, b: string)
    requires a != b
    ensures Calls(true, InTurn(a, Some(b), 5)).churn.warned
    ensures forall r :: r in InTurn(a, Some(b), 5) ==> r.target in {Some(a), Some(b)}
  {
    InTurnWarns(a, Some(b), 5);
    InTurnTargets(a, Some(b), 5);
  }

  /** So is one, taking turns with nobody. */
  lemma OneIdSuffices(a: string)
    ensures Calls(true, InTurn(a, None, 9)).churn.warned
    ensures forall r :: r in InTurn(a, None, 9) ==> r.target in {Some(a), None}
  {
    InTurnWarns(a, None, 9);
    InTurnTargets(a, None, 9);
  }

  /** The burst at which the warning is given. */
  predicate FirstBurst(times: seq<real>, i: nat) {
    BurstAt(times, i) && forall j :: 0 <= j < i ==> !BurstAt(times, j)
  }

  /** The users switched to in the minute up to the warning. */
  function UsersInWindow(switched: seq<Switched>, i: nat): set<string>
    requires i + 5 <= |switched|
  {
    var last := i + 4;
    set k | 0 <= k <= last && switched[last].at - switched[k].at <= 60.0 :: switched[k].user
  }

  predicate AllDistinct(users: seq<string>) {
    forall i, j :: 0 <= i < j < |users| ==> users[i] != users[j]
  }

  function SetOf(users: seq<string>): (all: set<string>)
    ensures forall u :: u in all <==> u in users
  {
    if users == [] then {} else SetOf(users[..|users| - 1]) + {users[|users| - 1]}
  }

  lemma DistinctWithLast(users: seq<string>)
    requires users != []
    ensures var front, last := users[..|users| - 1], users[|users| - 1];
            AllDistinct(users) <==> AllDistinct(front) && last !in front
  {
    var n := |users| - 1;
    var front := users[..n];
    if AllDistinct(users) {
      forall i | 0 <= i < n
        ensures front[i] != users[n]
      {
        assert users[i] != users[n];
      }
    }
    if AllDistinct(front) && users[n] !in front {
      forall i, j | 0 <= i < j < |users|
        ensures users[i] != users[j]
      {
        assert users[i] == front[i] && front[i] in front;
        assert j < n ==> users[j] == front[j];
      }
    }
  }

  lemma SetWithLast(users: seq<string>)
    requires users != []
    ensures var front, last := SetOf(users[..|users| - 1]), users[|users| - 1];
            |SetOf(users)| == |front| + if last in front then 0 else 1
  {
    var front, last := SetOf(users[..|users| - 1]), users[|users| - 1];
    assert last in front ==> front + {last} == front;
  }

  lemma {:induction false} CountDistinct(users: seq<string>)
    ensures |SetOf(users)| <= |users|
    ensures |SetOf(users)| == |users| <==> AllDistinct(users)
    decreases |users|
  {
    if users != [] {
      CountDistinct(users[..|users| - 1]);
      DistinctWithLast(users);
      SetWithLast(users);
    }
  }

  function BurstUsers(switched: seq<Switched>, i: nat): (users: seq<string>)
    requires i + 5 <= |switched|
    ensures |users| == 5
    ensures forall k :: 0 <= k < 5 ==> users[k] == switched[i + k].user
  {
    seq(5, k requires 0 <= k < 5 => switched[i + k].user)
  }

  /** When the warning is given, exactly the five switches of the burst lie in the last minute. */
  lemma WindowIsBurst(switched: seq<Switched>, i: nat)
    requires Ascending(Times(switched)) && FirstBurst(Times(switched), i)
    ensures UsersInWindow(switched, i) == SetOf(BurstUsers(switched, i))
  {
    var times, last, users := Times(switched), i + 4, BurstUsers(switched, i);
    assert times[last] - times[i] <= 60.0;
    forall k | 0 <= k <= last
      ensures switched[last].at - switched[k].at <= 60.0 <==> i <= k
    {
      if k < i {
        assert !BurstAt(times, i - 1);
        assert times[last - 1] - times[i - 1] > 60.0;
        assert times[k] <= times[i - 1] && times[last - 1] <= times[last];
      } else {
        assert times[i] <= times[k];
      }
    }
    forall u
      ensures u in UsersInWindow(switched, i) <==> u in users
    {
      if u in users {
        var k :| 0 <= k < |users| && users[k] == u;
        assert switched[i + k].user == u;
      }
      if u in UsersInWindow(switched, i) {
        var k :| i <= k <= last && switched[k].user == u;
        assert users[k - i] == u;
      }
    }
  }

  /** When the warning is given, at most five users were switched to in the last minute; they are five, as it
      says, exactly when the five switches of the burst were to different users. */
  lemma WarningIsRightExactly(secretKey: bool, requests: seq<Request>, i: nat)
    requires InOrder(requests) && FirstBurst(Times(SwitchedIn(secretKey, requests)), i)
    ensures var switched := SwitchedIn(secretKey, requests);
            && |UsersInWindow(switched, i)| <= 5
            && (|UsersInWindow(switched, i)| == 5 <==> AllDistinct(BurstUsers(switched, i)))
  {
    SwitchesInOrder(secretKey, requests);
    WindowIsBurst(SwitchedIn(secretKey, requests), i);
    CountDistinct(BurstUsers(SwitchedIn(secretKey, requests), i));
  }
}

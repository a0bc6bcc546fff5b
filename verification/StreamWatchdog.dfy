/** The zombie detector of src/onelo/_sse.py, for an open stream: every frame, comment or handshake sets
    `_last_event_at`; a healthcheck that wakes every 30 s raises the reconnect signal when nothing has been
    heard for more than 90 s, and resets the clock as it does so. */
module StreamWatchdog {

  const STALE_THRESHOLD := 90.0

  /** Something heard, or a wake-up of the healthcheck. */
  datatype Tick = Tick(wake: bool, at: real)

  function Next(last: real, t: Tick): real {
    if !t.wake || t.at - last > STALE_THRESHOLD then t.at else last
  }

  class Watchdog {
    var lastEventAt: real
    var reconnectSignal: bool

    constructor (now: real)
      ensures lastEventAt == now && !reconnectSignal
    {
      lastEventAt, reconnectSignal := now, false;
    }

    method Heard(now: real)
      modifies this`lastEventAt
      ensures lastEventAt == Next(old(lastEventAt), Tick(false, now)) == now
    {
      lastEventAt := now;
    }

    method Wake(now: real)
      modifies this
      ensures lastEventAt == Next(old(lastEventAt), Tick(true, now))
      ensures reconnectSignal == (old(reconnectSignal) || now - old(lastEventAt) > 90.0)
      ensures lastEventAt == if now - old(lastEventAt) > 90.0 then now else old(lastEventAt)
    {
      var elapsed := now - lastEventAt;
      if elapsed > STALE_THRESHOLD {
        lastEventAt := now;
        reconnectSignal := true;
      }
    }
  }

  /** `_last_event_at` after a trace that begins at `start`. */
  function Last(start: real, trace: seq<Tick>): real {
    if trace == [] then start else Next(Last(start, trace[..|trace| - 1]), trace[|trace| - 1])
  }

  /** The watchdog raises the signal at tick `i`. */
  predicate Fires(start: real, trace: seq<Tick>, i: nat)
    requires i < |trace|
  {
    trace[i].wake && trace[i].at - Last(start, trace[..i]) > 90.0
  }

  /** When anything was last heard, whatever the watchdog did. */
  function LastHeard(start: real, trace: seq<Tick>): real {
    if trace == [] then start
    else if !trace[|trace| - 1].wake then trace[|trace| - 1].at
    else LastHeard(start, trace[..|trace| - 1])
  }

  function Wakes(trace: seq<Tick>): nat {
    if trace == [] then 0 else Wakes(trace[..|trace| - 1]) + if trace[|trace| - 1].wake then 1 else 0
  }

  function Time(start: real, trace: seq<Tick>): real {
    if trace == [] then start else trace[|trace| - 1].at
  }

  /** Time does not run backwards, and the wake-ups are exactly one interval apart. */
  predicate WellTimed(start: real, trace: seq<Tick>) {
    trace != [] ==>
      var before, t := trace[..|trace| - 1], trace[|trace| - 1];
      && WellTimed(start, before)
      && Time(start, before) <= t.at
      && (t.wake ==> t.at == start + 30.0 * (Wakes(before) + 1) as real)
  }

  // ---------------------------------------------------------------- facts about traces

  lemma {:induction false} Prefixes(start: real, trace: seq<Tick>, n: nat)
    requires WellTimed(start, trace) && n <= |trace|
    ensures WellTimed(start, trace[..n])
    ensures Last(start, trace[..n]) <= Last(start, trace) <= Time(start, trace)
    ensures start <= Time(start, trace[..n]) <= Time(start, trace)
    ensures Wakes(trace[..n]) <= Wakes(trace)
    decreases |trace|
  {
    if n < |trace| {
      var m := |trace| - 1;
      Prefixes(start, trace[..m], n);
      Prefixes(start, trace[..m], m);
      assert trace[..m][..n] == trace[..n] && trace[..m][..m] == trace[..m];
    } else {
      assert trace[..n] == trace;
      if trace != [] {
        Prefixes(start, trace[..n - 1], n - 1);
        assert trace[..n - 1][..n - 1] == trace[..n - 1];
      }
    }
  }

  lemma TickAt(start: real, trace: seq<Tick>, i: nat)
    requires WellTimed(start, trace) && i < |trace|
    ensures WellTimed(start, trace[..i]) && Time(start, trace[..i]) <= trace[i].at
    ensures trace[i].wake ==> trace[i].at == start + 30.0 * (Wakes(trace[..i]) + 1) as real
    ensures Last(start, trace[..i + 1]) == Next(Last(start, trace[..i]), trace[i])
    ensures Wakes(trace[..i + 1]) == Wakes(trace[..i]) + if trace[i].wake then 1 else 0
  {
    Prefixes(start, trace, i + 1);
    assert trace[..i + 1][..i] == trace[..i];
  }

  lemma {:induction false} LastWake(start: real, trace: seq<Tick>, bound: real)
    requires WellTimed(start, trace)
    requires start <= bound && forall j :: 0 <= j < |trace| && trace[j].wake ==> trace[j].at <= bound
    ensures start + 30.0 * Wakes(trace) as real <= bound
    decreases |trace|
  {
    if trace != [] && !trace[|trace| - 1].wake {
      LastWake(start, trace[..|trace| - 1], bound);
    }
  }

  /** The previous wake-up, or the start, was one interval earlier. */
  lemma OneIntervalEarlier(start: real, trace: seq<Tick>, i: nat, bound: real)
    requires WellTimed(start, trace) && i < |trace| && trace[i].wake
    requires start <= bound && forall j :: 0 <= j < i && trace[j].wake ==> trace[j].at <= bound
    ensures trace[i].at <= bound + 30.0
  {
    TickAt(start, trace, i);
    LastWake(start, trace[..i], bound);
  }

  // ---------------------------------------------------------------- results

  predicate Silent(silence: seq<Tick>) {
    forall j :: 0 <= j < |silence| ==> silence[j].wake
  }

  predicate AllBy(ticks: seq<Tick>, bound: real) {
    forall j :: 0 <= j < |ticks| ==> ticks[j].at <= bound
  }

  lemma {:induction false} ClockStandsStill(start: real, before: seq<Tick>, silence: seq<Tick>)
    requires Silent(silence) && AllBy(silence, Last(start, before) + 90.0)
    ensures Last(start, before + silence) == Last(start, before)
    decreases |silence|
  {
    if silence == [] {
      assert before + silence == before;
    } else {
      var n := |silence| - 1;
      ClockStandsStill(start, before, silence[..n]);
      assert (before + silence)[..|before| + n] == before + silence[..n];
    }
  }

  lemma BeforeTime(start: real, trace: seq<Tick>, j: nat)
    requires WellTimed(start, trace) && j < |trace|
    ensures trace[j].at <= Time(start, trace)
  {
    Prefixes(start, trace, j + 1);
  }

  /** The clock is never more than the threshold old when a trace ends. */
  lemma TimeNearLast(start: real, trace: seq<Tick>)
    requires WellTimed(start, trace)
    ensures Time(start, trace) <= Last(start, trace) + 90.0
  {
  }

  /** With nothing heard after `before`, which left the clock at `l`: as long as no wake-up later than
      l + 90 has come, none fires; the first that comes later fires, and it comes by l + 120. */
  lemma SilenceIsDetected(start: real, before: seq<Tick>, silence: seq<Tick>, i: nat)
    requires WellTimed(start, before + silence) && i < |silence| && Silent(silence)
    requires AllBy(silence[..i], Last(start, before) + 90.0)
    ensures var l := Last(start, before);
            && Last(start, before + silence[..i]) == l
            && (Fires(start, before + silence, |before| + i) <==> silence[i].at > l + 90.0)
            && silence[i].at <= l + 120.0
  {
    var trace, n, bound := before + silence, |before| + i, Last(start, before) + 90.0;
    ClockStandsStill(start, before, silence[..i]);
    assert trace[..n] == before + silence[..i];
    assert WellTimed(start, before) && start <= bound by {
      Prefixes(start, trace, |before|);
      assert trace[..|before|] == before;
      Prefixes(start, before, 0);
    }
    forall j | 0 <= j < n && trace[j].wake
      ensures trace[j].at <= bound
    {
      if j < |before| {
        BeforeTime(start, before, j);
        TimeNearLast(start, before);
      } else {
        assert trace[j] == silence[..i][j - |before|];
      }
    }
    OneIntervalEarlier(start, trace, n, bound);
  }

  lemma {:induction false} QuietSoFar(start: real, trace: seq<Tick>, n: nat)
    requires n <= |trace| && forall i :: 0 <= i < n ==> !Fires(start, trace, i)
    ensures Last(start, trace[..n]) == LastHeard(start, trace[..n])
    decreases n
  {
    if n > 0 {
      QuietSoFar(start, trace, n - 1);
      assert trace[..n][..n - 1] == trace[..n - 1];
      assert !Fires(start, trace, n - 1);
    }
  }

  lemma {:induction false} HeardSoFar(start: real, trace: seq<Tick>, n: nat)
    requires n <= |trace|
    requires forall i :: 0 <= i < n && trace[i].wake ==> trace[i].at - LastHeard(start, trace[..i]) <= 90.0
    ensures Last(start, trace[..n]) == LastHeard(start, trace[..n])
    decreases n
  {
    if n > 0 {
      HeardSoFar(start, trace, n - 1);
      assert trace[..n][..n - 1] == trace[..n - 1];
    }
  }

  /** The watchdog stays quiet exactly when at every wake-up something was heard no more than 90 s ago. */
  lemma QuietExactlyWhenHeard(start: real, trace: seq<Tick>)
    requires WellTimed(start, trace)
    ensures (forall i :: 0 <= i < |trace| ==> !Fires(start, trace, i)) <==>
            (forall i :: 0 <= i < |trace| && trace[i].wake ==>
               trace[i].at - LastHeard(start, trace[..i]) <= 90.0)
  {
    if forall i :: 0 <= i < |trace| ==> !Fires(start, trace, i) {
      forall i | 0 <= i < |trace| && trace[i].wake
        ensures trace[i].at - LastHeard(start, trace[..i]) <= 90.0
      {
        QuietSoFar(start, trace, i);
        assert !Fires(start, trace, i);
      }
    }
    if forall i :: 0 <= i < |trace| && trace[i].wake ==> trace[i].at - LastHeard(start, trace[..i]) <= 90.0 {
      forall i | 0 <= i < |trace|
        ensures !Fires(start, trace, i)
      {
        HeardSoFar(start, trace, i);
      }
    }
  }

  /** Two firings are at least four intervals apart. */
  lemma FiringsFarApart(start: real, trace: seq<Tick>, i: nat, j: nat)
    requires WellTimed(start, trace) && i < j < |trace| && Fires(start, trace, i) && Fires(start, trace, j)
    ensures trace[j].at - trace[i].at >= 120.0
  {
    TickAt(start, trace, i);
    TickAt(start, trace, j);
    Prefixes(start, trace[..j], i + 1);
    assert trace[..j][..i + 1] == trace[..i + 1];
    var apart := Wakes(trace[..j]) - Wakes(trace[..i]);
    assert trace[j].at - trace[i].at == 30.0 * apart as real;
    assert apart > 3;
  }
}

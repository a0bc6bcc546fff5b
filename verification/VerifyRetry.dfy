/** Verifying a token with retries: `_map_response` and `verify_token_sync` of src/onelo/auth.py. */
module VerifyRetry {
  // ---------------------------------------------------------------- one attempt

  datatype Body = NotJson | NotAnObject | User(id: string)

  datatype Response = NetworkError | Status(code: int, body: Body)

  datatype Outcome = Verified(id: string) | InvalidToken | Forbidden | RateLimited | Unavailable

  function MapResponse(r: Response): Outcome {
    match r
    case NetworkError => Unavailable
    case Status(code, body) =>
      if code == 200 then (if body.User? && body.id != "" then Verified(body.id) else Unavailable)
      else if code == 401 then InvalidToken
      else if code == 403 then Forbidden
      else if code == 429 then RateLimited
      else Unavailable
  }

  // ---------------------------------------------------------------- runs

  function Power(n: nat): real {
    if n == 0 then 1.0 else 2.0 * Power(n - 1)
  }

  /** The pause after attempt `n`, counted from 0, if it is not cut to what is left of the time: 0.1 s times 2^n. */
  function Backoff(n: nat): real {
    0.1 * Power(n)
  }

  /** The sum of the first `n` of them. */
  function AllBackoffs(n: nat): real {
    0.1 * (Power(n) - 1.0)
  }

  function Min(a: real, b: real): real {
    if a <= b then a else b
  }

  function Sum(xs: seq<real>): real {
    if xs == [] then 0.0 else Sum(xs[..|xs| - 1]) + xs[|xs| - 1]
  }

  /** What the world does with one attempt: the answer, and the clock before and after the pause. */
  datatype Turn = Turn(response: Response, checked: real, woken: real)

  datatype Result = BadArguments | Finished(outcome: Outcome)

  /** The answers that settle the matter; all others are reported as unavailable. */
  predicate Definite(r: Response) {
    r.Status? && (r.code in {401, 403, 429} || (r.code == 200 && r.body.User? && r.body.id != ""))
  }

  /** A pause is requested after turn `i`. */
  predicate PausesAfter(world: seq<Turn>, attempts: int, deadline: real, i: nat)
    requires i < |world|
  {
    MapResponse(world[i].response) == Unavailable && i + 1 < attempts && world[i].checked < deadline
  }

  /** Turn `i` is not the last: a pause follows it, and there is time left after the pause. */
  predicate GoesOn(world: seq<Turn>, attempts: int, deadline: real, i: nat)
    requires i < |world|
  {
    PausesAfter(world, attempts, deadline, i) && world[i].woken < deadline
  }

  /** The pauses requested in the first turns. */
  predicate Pauses(world: seq<Turn>, deadline: real, pauses: seq<real>) {
    && |pauses| <= |world|
    && forall i :: 0 <= i < |pauses| ==>
         && world[i].checked < deadline
         && pauses[i] == Min(Backoff(i), deadline - world[i].checked)
  }

  /** With so many attempts allowed and so much time, a call in this world makes `made` attempts and requests
      these pauses. */
  predicate IsRun(world: seq<Turn>, attempts: int, start: real, totalTimeout: real, made: nat, pauses: seq<real>) {
    var deadline := start + totalTimeout;
    && 1 <= made <= attempts <= |world|
    && (forall i :: 0 <= i < made - 1 ==> GoesOn(world, attempts, deadline, i))
    && !GoesOn(world, attempts, deadline, made - 1)
    && Pauses(world, deadline, pauses)
    && |pauses| == if PausesAfter(world, attempts, deadline, made - 1) then made else made - 1
  }

  // ---------------------------------------------------------------- how long it takes

  /** When attempt `i` begins. */
  function BeginsAt(start: real, world: seq<Turn>, i: nat): real
    requires i <= |world|
  {
    if i == 0 then start else world[i - 1].woken
  }

  /** The clock does not run backwards. */
  predicate Monotone(start: real, world: seq<Turn>) {
    forall i {:trigger BeginsAt(start, world, i)} :: 0 <= i < |world| ==>
      BeginsAt(start, world, i) <= world[i].checked <= world[i].woken
  }

  /** The clock does not run backwards, and a pause lasts at least as long as was asked. */
  predicate ClockRuns(start: real, world: seq<Turn>, pauses: seq<real>) {
    && |pauses| <= |world|
    && forall i {:trigger BeginsAt(start, world, i)} :: 0 <= i < |pauses| ==>
         BeginsAt(start, world, i) <= world[i].checked && world[i].checked + pauses[i] <= world[i].woken
  }

  lemma {:induction false} SumBelowPowers(world: seq<Turn>, deadline: real, pauses: seq<real>)
    requires Pauses(world, deadline, pauses)
    ensures Sum(pauses) <= AllBackoffs(|pauses|)
    decreases |pauses|
  {
    if pauses != [] {
      SumBelowPowers(world, deadline, pauses[..|pauses| - 1]);
    }
  }

  lemma {:induction false} SumBelowClock(world: seq<Turn>, start: real, deadline: real, pauses: seq<real>)
    requires Pauses(world, deadline, pauses) && ClockRuns(start, world, pauses)
    ensures Sum(pauses) <= if pauses == [] then 0.0 else world[|pauses| - 1].woken - start
    ensures pauses != [] ==> Sum(pauses) <= deadline - start
    decreases |pauses|
  {
    if pauses != [] {
      var n := |pauses| - 1;
      SumBelowClock(world, start, deadline, pauses[..n]);
      assert BeginsAt(start, world, n) <= world[n].checked;
      assert world[n].checked + pauses[n] <= world[n].woken;
      assert pauses[n] <= deadline - world[n].checked;
    }
  }

  /** All the pauses together stay below the geometric sum, and below the total timeout as long as pauses
      are not cut short. */
  lemma PausesBounded(world: seq<Turn>, start: real, totalTimeout: real, pauses: seq<real>)
    requires Pauses(world, start + totalTimeout, pauses) && 0.0 < totalTimeout
    ensures Sum(pauses) <= AllBackoffs(|pauses|)
    ensures ClockRuns(start, world, pauses) ==> Sum(pauses) <= totalTimeout
  {
    SumBelowPowers(world, start + totalTimeout, pauses);
    if ClockRuns(start, world, pauses) {
      SumBelowClock(world, start, start + totalTimeout, pauses);
    }
  }

  /** Helper: what the loop has when it ends. */
  lemma RunEnds(
    world: seq<Turn>, attempts: int, start: real, totalTimeout: real, deadline: real, made: nat, pauses: seq<real>)
    requires 0.0 < totalTimeout && deadline == start + totalTimeout && 1 <= made <= attempts <= |world|
    requires forall i :: 0 <= i < made - 1 ==> GoesOn(world, attempts, deadline, i)
    requires !GoesOn(world, attempts, deadline, made - 1)
    requires Pauses(world, deadline, pauses)
    requires |pauses| == if PausesAfter(world, attempts, deadline, made - 1) then made else made - 1
    ensures IsRun(world, attempts, start, totalTimeout, made, pauses)
    ensures Sum(pauses) <= AllBackoffs(|pauses|)
    ensures ClockRuns(start, world, pauses) ==> Sum(pauses) <= totalTimeout
  {
    PausesBounded(world, start, totalTimeout, pauses);
  }

  // ---------------------------------------------------------------- the loop

  /** `made` attempts are made, and the result is that of the last one. */
  method VerifyTokenSync(attempts: int, totalTimeout: real, start: real, world: seq<Turn>)
    returns (result: Result, made: nat, pauses: seq<real>)
    requires attempts <= |world|
    ensures result == BadArguments <==> attempts < 1 || totalTimeout <= 0.0
    ensures result == BadArguments ==> made == 0 && pauses == []
    ensures result != BadArguments ==>
              && IsRun(world, attempts, start, totalTimeout, made, pauses)
              && result == Finished(MapResponse(world[made - 1].response))
    ensures Sum(pauses) <= AllBackoffs(|pauses|)
    ensures result != BadArguments && ClockRuns(start, world, pauses) ==> Sum(pauses) <= totalTimeout
  {
    pauses, made := [], 0;
    if attempts < 1 || totalTimeout <= 0.0 {
      return BadArguments, 0, [];
    }
    var deadline := start + totalTimeout;
    var last := Unavailable;
    for attempt := 0 to attempts
      invariant attempt < attempts && made == attempt == |pauses|
      invariant forall i :: 0 <= i < attempt ==> GoesOn(world, attempts, deadline, i)
      invariant Pauses(world, deadline, pauses)
      invariant attempt > 0 ==> last == MapResponse(world[attempt - 1].response)
    {
      made := attempt + 1;
      var outcome := MapResponse(world[attempt].response);
      if !outcome.Unavailable? && !outcome.RateLimited? {
        RunEnds(world, attempts, start, totalTimeout, deadline, made, pauses);
        return Finished(outcome), made, pauses;
      }
      assert MapResponse(world[attempt].response) == outcome;
      last := outcome;
      if outcome.RateLimited? {
        break;
      }
      if attempt + 1 >= attempts {
        break;
      }
      var backoff := Backoff(attempt);
      var remaining := deadline - world[attempt].checked;
      if remaining <= 0.0 {
        break;
      }
      pauses := pauses + [Min(backoff, remaining)];
      if world[attempt].woken >= deadline {
        break;
      }
    }
    RunEnds(world, attempts, start, totalTimeout, deadline, made, pauses);
    result := Finished(last);
  }

  // ---------------------------------------------------------------- the answer that counts

  /** A caller is given the first definite answer, if it comes while attempts and time last; a definite answer
      is never retried, and a token is verified only if that answer is a 200 with this non-empty user id. */
  lemma FirstDefiniteAnswer(
    world: seq<Turn>, attempts: int, start: real, totalTimeout: real, made: nat, pauses: seq<real>, k: nat)
    requires IsRun(world, attempts, start, totalTimeout, made, pauses)
    requires k < attempts && forall i :: 0 <= i < k ==> !Definite(world[i].response)
    ensures forall i :: 0 <= i < made - 1 ==> !Definite(world[i].response)
    ensures Definite(world[made - 1].response) <==> MapResponse(world[made - 1].response) != Unavailable
    ensures var outcome := MapResponse(world[made - 1].response);
            var last := world[made - 1].response;
            && (outcome.Verified? ==> outcome.id != "" && last == Status(200, User(outcome.id)))
            && (outcome.InvalidToken? ==> last.Status? && last.code == 401)
            && (outcome.Forbidden? ==> last.Status? && last.code == 403)
            && (outcome.RateLimited? ==> last.Status? && last.code == 429)
    ensures Definite(world[k].response) ==>
              (made == k + 1 <==>
                 forall i :: 0 <= i < k ==>
                   world[i].checked < start + totalTimeout && world[i].woken < start + totalTimeout)
  {
    var deadline := start + totalTimeout;
    forall i | 0 <= i < made - 1
      ensures !Definite(world[i].response) && world[i].checked < deadline && world[i].woken < deadline
    {
      assert GoesOn(world, attempts, deadline, i);
    }
    if k < made - 1 {
      assert !Definite(world[k].response);
    } else if made - 1 < k {
      assert !Definite(world[made - 1].response);
      assert !PausesAfter(world, attempts, deadline, made - 1) || world[made - 1].woken >= deadline;
    }
  }

  // ---------------------------------------------------------------- the total timeout, for pauses

  lemma {:induction false} PowerGrows(m: nat, n: nat)
    requires m <= n
    ensures 1.0 <= Power(m) <= Power(n)
    decreases n
  {
    if m < n {
      PowerGrows(m, n - 1);
    } else if m > 0 {
      PowerGrows(m - 1, m - 1);
    }
  }

  /** Pauses that end at once, from time 0 on. */
  function FrozenPauses(totalTimeout: real, n: nat): (pauses: seq<real>)
    ensures |pauses| == n
  {
    if n == 0 then [] else FrozenPauses(totalTimeout, n - 1) + [Min(Backoff(n - 1), totalTimeout)]
  }

  lemma {:induction false} FrozenPausesAt(totalTimeout: real, n: nat, i: nat)
    requires i < n
    ensures FrozenPauses(totalTimeout, n)[i] == Min(Backoff(i), totalTimeout)
    decreases n
  {
    if i < n - 1 {
      FrozenPausesAt(totalTimeout, n - 1, i);
    }
  }

  /** A sum of powers of two, or one that a capped pause has brought to the total timeout. */
  predicate FullOrCapped(totalTimeout: real, n: nat, sum: real) {
    || sum == AllBackoffs(n)
    || (n >= 1 && sum >= totalTimeout && (n >= 2 ==> sum > totalTimeout))
  }

  lemma OneMorePause(totalTimeout: real, n: nat, sum: real)
    requires 0.0 < totalTimeout && FullOrCapped(totalTimeout, n, sum)
    ensures FullOrCapped(totalTimeout, n + 1, sum + Min(Backoff(n), totalTimeout))
  {
    assert Power(n) >= 1.0 && (n >= 1 ==> Power(n) >= 2.0) by {
      PowerGrows(0, n);
      if n >= 1 {
        PowerGrows(1, n);
      }
    }
  }

  function FrozenTotal(totalTimeout: real, n: nat): real {
    if n == 0 then 0.0 else FrozenTotal(totalTimeout, n - 1) + Min(Backoff(n - 1), totalTimeout)
  }

  lemma {:induction false} FrozenTotalIsSum(totalTimeout: real, n: nat)
    ensures Sum(FrozenPauses(totalTimeout, n)) == FrozenTotal(totalTimeout, n)
    decreases n
  {
    if n > 0 {
      FrozenTotalIsSum(totalTimeout, n - 1);
      assert FrozenPauses(totalTimeout, n)[..n - 1] == FrozenPauses(totalTimeout, n - 1);
    }
  }

  lemma {:induction false} FrozenSum(totalTimeout: real, n: nat)
    requires 0.0 < totalTimeout
    ensures FullOrCapped(totalTimeout, n, FrozenTotal(totalTimeout, n))
    decreases n
  {
    if n == 0 {
      assert AllBackoffs(0) == 0.0;
    } else {
      FrozenSum(totalTimeout, n - 1);
      OneMorePause(totalTimeout, n - 1, FrozenTotal(totalTimeout, n - 1));
    }
  }

  /** A world in which nothing is reached and the clock stands still. */
  function FrozenWorld(n: nat): seq<Turn> {
    seq(n, i requires 0 <= i < n => Turn(NetworkError, 0.0, 0.0))
  }

  lemma FrozenRun(attempts: nat, totalTimeout: real)
    requires attempts >= 1 && 0.0 < totalTimeout
    ensures Monotone(0.0, FrozenWorld(attempts))
    ensures var pauses := FrozenPauses(totalTimeout, attempts - 1);
            IsRun(FrozenWorld(attempts), attempts, 0.0, totalTimeout, attempts, pauses)
  {
    forall i: nat | i < attempts - 1
      ensures FrozenPauses(totalTimeout, attempts - 1)[i] == Min(Backoff(i), totalTimeout)
    {
      FrozenPausesAt(totalTimeout, attempts - 1, i);
    }
  }

  /** The clock alone keeps the pauses of every run within the total timeout. */
  ghost predicate CapHolds(attempts: nat, totalTimeout: real) {
    forall world, start, made, pauses ::
      IsRun(world, attempts, start, totalTimeout, made, pauses) && Monotone(start, world) ==>
        Sum(pauses) <= totalTimeout
  }

  lemma RunWithinCap(
    world: seq<Turn>, attempts: nat, start: real, totalTimeout: real, made: nat, pauses: seq<real>)
    requires IsRun(world, attempts, start, totalTimeout, made, pauses) && Monotone(start, world)
    requires attempts <= 2 || AllBackoffs(attempts - 1) <= totalTimeout
    requires 0.0 < totalTimeout
    ensures Sum(pauses) <= totalTimeout
  {
    assert |pauses| <= attempts - 1;
    if attempts <= 2 {
      if |pauses| == 1 {
        assert BeginsAt(start, world, 0) <= world[0].checked;
        assert Sum(pauses) == Sum(pauses[..0]) + pauses[0];
      }
    } else {
      SumBelowPowers(world, start + totalTimeout, pauses);
      PowerGrows(|pauses|, attempts - 1);
    }
  }

  lemma CapHoldsIf(attempts: nat, totalTimeout: real)
    requires attempts >= 1 && 0.0 < totalTimeout
    requires attempts <= 2 || AllBackoffs(attempts - 1) <= totalTimeout
    ensures CapHolds(attempts, totalTimeout)
  {
    forall world, start, made, pauses
      | IsRun(world, attempts, start, totalTimeout, made, pauses) && Monotone(start, world)
      ensures Sum(pauses) <= totalTimeout
    {
      RunWithinCap(world, attempts, start, totalTimeout, made, pauses);
    }
  }

  lemma CapFailsIf(attempts: nat, totalTimeout: real)
    requires attempts > 2 && 0.0 < totalTimeout < AllBackoffs(attempts - 1)
    ensures !CapHolds(attempts, totalTimeout)
  {
    FrozenRun(attempts, totalTimeout);
    FrozenSum(totalTimeout, attempts - 1);
    FrozenTotalIsSum(totalTimeout, attempts - 1);
    assert Sum(FrozenPauses(totalTimeout, attempts - 1)) > totalTimeout;
  }

  /** For clocks that merely do not run backwards, the pauses of every run stay within the total timeout exactly
      when at most one pause is possible or the whole geometric sum fits. */
  lemma CapHoldsExactly(attempts: nat, totalTimeout: real)
    requires attempts >= 1 && 0.0 < totalTimeout
    ensures CapHolds(attempts, totalTimeout) <==> attempts <= 2 || AllBackoffs(attempts - 1) <= totalTimeout
  {
    if attempts <= 2 || AllBackoffs(attempts - 1) <= totalTimeout {
      CapHoldsIf(attempts, totalTimeout);
    } else {
      CapFailsIf(attempts, totalTimeout);
    }
  }

  /** The defaults, 3 attempts and 2 s, meet the condition. */
  lemma DefaultsKeepTheCap()
    ensures CapHolds(3, 2.0)
  {
    CapHoldsExactly(3, 2.0);
    assert Power(0) == 1.0 && Power(1) == 2.0 && Power(2) == 4.0;
  }

  /** With the defaults, when nothing answers, the pauses are 0.1 s and 0.2 s. */
  lemma DefaultPauses()
    ensures IsRun(FrozenWorld(3), 3, 0.0, 2.0, 3, [0.1, 0.2])
  {
    FrozenRun(3, 2.0);
    assert Power(0) == 1.0 && Power(1) == 2.0;
    assert FrozenPauses(2.0, 0) == [] && FrozenPauses(2.0, 1) == [] + [0.1];
    assert FrozenPauses(2.0, 2) == [0.1, 0.2];
  }

  /** 3 attempts and 0.15 s do not: a run on a clock that does not move requests 0.25 s of pauses. With pauses that
      last as long as asked, PausesBounded keeps every setting within its total timeout. */
  lemma PausesCutShort() returns (world: seq<Turn>, pauses: seq<real>)
    ensures Monotone(0.0, world) && IsRun(world, 3, 0.0, 0.15, 3, pauses)
    ensures pauses == [0.1, 0.15] && Sum(pauses) > 0.15
    ensures !CapHolds(3, 0.15)
  {
    world, pauses := FrozenWorld(3), FrozenPauses(0.15, 2);
    FrozenRun(3, 0.15);
    FrozenSum(0.15, 2);
    FrozenTotalIsSum(0.15, 2);
    assert Power(0) == 1.0 && Power(1) == 2.0 && Power(2) == 4.0;
    assert FrozenPauses(0.15, 0) == [] && FrozenPauses(0.15, 1) == [] + [0.1];
    assert pauses == [0.1, 0.15];
  }

  // ---------------------------------------------------------------- the total timeout, for the whole call

  /** The clock when the call returns. */
  function EndsAt(world: seq<Turn>, made: nat, pauses: seq<real>): real
    requires 1 <= made <= |world|
  {
    if |pauses| == made then world[made - 1].woken else world[made - 1].checked
  }

  /** No setting caps the call by the clock: a request may be answered as late as one likes. */
  lemma RequestOverruns(attempts: nat, totalTimeout: real, late: real) returns (world: seq<Turn>)
    requires attempts >= 1 && 0.0 < totalTimeout && 0.0 < late
    ensures Monotone(0.0, world) && IsRun(world, attempts, 0.0, totalTimeout, 1, [])
    ensures EndsAt(world, 1, []) == totalTimeout + late
  {
    var turn := Turn(NetworkError, totalTimeout + late, totalTimeout + late);
    world := seq(attempts, i requires 0 <= i < attempts => turn);
  }

  /** But only one request can: every attempt after the first begins before the deadline, so if pauses end when
      they should and no request takes longer than `longest`, the call ends by `longest` after the deadline. */
  lemma OneRequestOverruns(
    world: seq<Turn>, attempts: int, start: real, totalTimeout: real, made: nat, pauses: seq<real>, longest: real)
    requires IsRun(world, attempts, start, totalTimeout, made, pauses) && 0.0 < totalTimeout && 0.0 <= longest
    requires forall i {:trigger BeginsAt(start, world, i)} :: 0 <= i < made ==>
               world[i].checked <= BeginsAt(start, world, i) + longest
    requires forall i :: 0 <= i < |pauses| ==> world[i].woken <= world[i].checked + pauses[i]
    ensures forall i :: 0 < i < made ==> BeginsAt(start, world, i) < start + totalTimeout
    ensures EndsAt(world, made, pauses) <= start + totalTimeout + longest
  {
    forall i | 0 < i < made
      ensures BeginsAt(start, world, i) < start + totalTimeout
    {
      assert GoesOn(world, attempts, start + totalTimeout, i - 1);
    }
    if |pauses| == made {
      assert pauses[made - 1] <= start + totalTimeout - world[made - 1].checked;
    } else {
      assert world[made - 1].checked <= BeginsAt(start, world, made - 1) + longest;
    }
  }

  // ---------------------------------------------------------------- the call, for requests of bounded length

  /** `n` requests of length `longest`. */
  function Requests(n: nat, longest: real): real {
    if n == 0 then 0.0 else Requests(n - 1, longest) + longest
  }

  /** No request takes longer than `longest`, and every pause lasts exactly as long as was asked. */
  predicate Prompt(start: real, world: seq<Turn>, made: nat, pauses: seq<real>, longest: real) {
    && made <= |world| && |pauses| <= |world|
    && (forall i {:trigger BeginsAt(start, world, i)} :: 0 <= i < made ==>
          BeginsAt(start, world, i) <= world[i].checked <= BeginsAt(start, world, i) + longest)
    && (forall i :: 0 <= i < |pauses| ==> world[i].woken == world[i].checked + pauses[i])
  }

  ghost predicate CallCapHolds(attempts: nat, totalTimeout: real, longest: real) {
    forall world, start, made, pauses ::
      IsRun(world, attempts, start, totalTimeout, made, pauses) && Prompt(start, world, made, pauses, longest) ==>
        EndsAt(world, made, pauses) <= start + totalTimeout
  }

  /** Every attempt that the pauses leave time for can come after requests as long as they can be, and be one. */
  predicate RequestsFit(attempts: nat, totalTimeout: real, longest: real) {
    forall k: nat :: k < attempts && AllBackoffs(k) < totalTimeout ==>
      Requests(k + 1, longest) + AllBackoffs(k) <= totalTimeout
  }

  /** From attempt `i` to the next: a request, and a pause that is not cut short. */
  predicate Paced(start: real, world: seq<Turn>, longest: real, i: nat)
    requires i < |world|
  {
    0.0 <= BeginsAt(start, world, i + 1) - BeginsAt(start, world, i) - Backoff(i) <= longest
  }

  lemma NextBegins(
    world: seq<Turn>, attempts: int, start: real, totalTimeout: real, made: nat, pauses: seq<real>, longest: real,
    i: nat)
    requires IsRun(world, attempts, start, totalTimeout, made, pauses) && i + 1 < made
    requires Prompt(start, world, made, pauses, longest)
    ensures Paced(start, world, longest, i) && BeginsAt(start, world, i + 1) < start + totalTimeout
  {
    assert GoesOn(world, attempts, start + totalTimeout, i);
    assert world[i].woken == world[i].checked + pauses[i];
    assert pauses[i] == Backoff(i);
  }

  /** After all the pauses before attempt `i`, none cut short, and after its requests. */
  predicate InBounds(begin: real, start: real, longest: real, i: nat) {
    start + AllBackoffs(i) <= begin <= start + AllBackoffs(i) + Requests(i, longest)
  }

  lemma NextInBounds(begin: real, next: real, start: real, longest: real, i: nat)
    requires InBounds(begin, start, longest, i) && 0.0 <= next - begin - Backoff(i) <= longest
    ensures InBounds(next, start, longest, i + 1)
  {
    assert AllBackoffs(i + 1) == AllBackoffs(i) + Backoff(i);
  }

  lemma {:induction false} BeginsInBounds(start: real, world: seq<Turn>, longest: real, i: nat)
    requires i < |world| && forall j: nat :: j < i ==> Paced(start, world, longest, j)
    ensures InBounds(BeginsAt(start, world, i), start, longest, i)
    decreases i
  {
    if i > 0 {
      BeginsInBounds(start, world, longest, i - 1);
      assert Paced(start, world, longest, i - 1);
      NextInBounds(BeginsAt(start, world, i - 1), BeginsAt(start, world, i), start, longest, i - 1);
    }
  }

  lemma LastInBounds(
    world: seq<Turn>, attempts: int, start: real, totalTimeout: real, made: nat, pauses: seq<real>, longest: real)
    requires IsRun(world, attempts, start, totalTimeout, made, pauses)
    requires Prompt(start, world, made, pauses, longest)
    ensures InBounds(BeginsAt(start, world, made - 1), start, longest, made - 1)
    ensures made > 1 ==> BeginsAt(start, world, made - 1) < start + totalTimeout
  {
    forall j: nat | j < made - 1
      ensures Paced(start, world, longest, j)
    {
      NextBegins(world, attempts, start, totalTimeout, made, pauses, longest, j);
    }
    BeginsInBounds(start, world, longest, made - 1);
    if made > 1 {
      NextBegins(world, attempts, start, totalTimeout, made, pauses, longest, made - 2);
    }
  }

  lemma LastFits(begin: real, attempts: nat, start: real, totalTimeout: real, longest: real, k: nat)
    requires k < attempts && 0.0 < totalTimeout && RequestsFit(attempts, totalTimeout, longest)
    requires InBounds(begin, start, longest, k) && (k > 0 ==> begin < start + totalTimeout)
    ensures begin + longest <= start + totalTimeout
  {
    assert AllBackoffs(0) == 0.0;
    assert AllBackoffs(k) < totalTimeout;
    assert Requests(k + 1, longest) == Requests(k, longest) + longest;
  }

  lemma RunEndsBy(
    world: seq<Turn>, attempts: int, start: real, totalTimeout: real, made: nat, pauses: seq<real>, longest: real)
    requires IsRun(world, attempts, start, totalTimeout, made, pauses)
    requires Prompt(start, world, made, pauses, longest)
    requires BeginsAt(start, world, made - 1) + longest <= start + totalTimeout
    ensures EndsAt(world, made, pauses) <= start + totalTimeout
  {
    assert world[made - 1].checked <= BeginsAt(start, world, made - 1) + longest;
    if |pauses| == made {
      assert pauses[made - 1] <= start + totalTimeout - world[made - 1].checked;
    }
  }

  lemma RunFits(
    world: seq<Turn>, attempts: nat, start: real, totalTimeout: real, made: nat, pauses: seq<real>, longest: real)
    requires IsRun(world, attempts, start, totalTimeout, made, pauses) && 0.0 < totalTimeout
    requires Prompt(start, world, made, pauses, longest) && RequestsFit(attempts, totalTimeout, longest)
    ensures EndsAt(world, made, pauses) <= start + totalTimeout
  {
    LastInBounds(world, attempts, start, totalTimeout, made, pauses, longest);
    LastFits(BeginsAt(start, world, made - 1), attempts, start, totalTimeout, longest, made - 1);
    RunEndsBy(world, attempts, start, totalTimeout, made, pauses, longest);
  }

  /** The time spent in the first `i` requests when they are as long as they can be until `budget` is used up. */
  function Spent(i: nat, longest: real, budget: real): real {
    Min(Requests(i, longest), budget)
  }

  lemma {:induction false} SpentGrows(i: nat, j: nat, longest: real, budget: real)
    requires i <= j && 0.0 <= longest && 0.0 <= budget
    ensures 0.0 <= Requests(i, longest) <= Requests(j, longest)
    ensures 0.0 <= Spent(i, longest, budget) <= Spent(j, longest, budget)
    decreases j
  {
    if i < j {
      SpentGrows(i, j - 1, longest, budget);
    } else if i > 0 {
      SpentGrows(i - 1, i - 1, longest, budget);
    }
  }

  /** Attempt `k` begins when the budget is used up, and takes as long as it can. */
  function SlowTurn(i: nat, k: nat, longest: real, budget: real): Turn {
    if i < k then
      var spent := Spent(i + 1, longest, budget);
      Turn(NetworkError, spent + AllBackoffs(i), spent + AllBackoffs(i + 1))
    else
      var end := Spent(k, longest, budget) + AllBackoffs(k) + longest;
      Turn(NetworkError, end, end)
  }

  function SlowWorld(n: nat, k: nat, longest: real, budget: real): (world: seq<Turn>)
    ensures |world| == n && forall i :: 0 <= i < n ==> world[i] == SlowTurn(i, k, longest, budget)
  {
    seq(n, i requires 0 <= i < n => SlowTurn(i, k, longest, budget))
  }

  function FullPauses(k: nat): (pauses: seq<real>)
    ensures |pauses| == k && forall i :: 0 <= i < k ==> pauses[i] == Backoff(i)
  {
    seq(k, i requires 0 <= i < k => Backoff(i))
  }

  lemma SlowBegins(n: nat, k: nat, longest: real, budget: real, i: nat)
    requires i <= k < n && 0.0 <= longest && 0.0 <= budget
    ensures BeginsAt(0.0, SlowWorld(n, k, longest, budget), i) == Spent(i, longest, budget) + AllBackoffs(i)
  {
    assert AllBackoffs(0) == 0.0;
  }

  lemma SlowTurnIsPrompt(n: nat, k: nat, longest: real, budget: real, i: nat)
    requires i <= k < n && 0.0 <= longest && 0.0 <= budget
    ensures var world := SlowWorld(n, k, longest, budget);
            && BeginsAt(0.0, world, i) <= world[i].checked <= BeginsAt(0.0, world, i) + longest
            && (i < k ==> world[i].woken == world[i].checked + Backoff(i))
  {
    SlowBegins(n, k, longest, budget, i);
    SpentGrows(i, i + 1, longest, budget);
    assert AllBackoffs(i + 1) == AllBackoffs(i) + Backoff(i);
  }

  lemma SlowIsPrompt(n: nat, k: nat, longest: real, budget: real)
    requires k < n && 0.0 <= longest && 0.0 <= budget
    ensures Prompt(0.0, SlowWorld(n, k, longest, budget), k + 1, FullPauses(k), longest)
  {
    forall i | 0 <= i < k + 1
      ensures var world := SlowWorld(n, k, longest, budget);
              && BeginsAt(0.0, world, i) <= world[i].checked <= BeginsAt(0.0, world, i) + longest
              && (i < k ==> world[i].woken == world[i].checked + FullPauses(k)[i])
    {
      SlowTurnIsPrompt(n, k, longest, budget, i);
    }
  }

  lemma SlowRun(n: nat, k: nat, longest: real, budget: real, totalTimeout: real)
    requires k < n && 0.0 <= longest && 0.0 <= budget
    requires var begun := Spent(k, longest, budget) + AllBackoffs(k); begun < totalTimeout < begun + longest
    ensures IsRun(SlowWorld(n, k, longest, budget), n, 0.0, totalTimeout, k + 1, FullPauses(k))
  {
    var world := SlowWorld(n, k, longest, budget);
    forall i | 0 <= i < k
      ensures GoesOn(world, n, totalTimeout, i)
      ensures FullPauses(k)[i] == Min(Backoff(i), totalTimeout - world[i].checked)
    {
      SpentGrows(i + 1, k, longest, budget);
      PowerGrows(i, i + 1);
      PowerGrows(i + 1, k);
      assert AllBackoffs(i + 1) == AllBackoffs(i) + Backoff(i);
    }
    assert world[k].checked > totalTimeout;
  }

  lemma CallOverruns(attempts: nat, totalTimeout: real, longest: real, k: nat)
    requires k < attempts && 0.0 < longest
    requires AllBackoffs(k) < totalTimeout < Requests(k + 1, longest) + AllBackoffs(k)
    ensures !CallCapHolds(attempts, totalTimeout, longest)
  {
    var left := totalTimeout - AllBackoffs(k);
    var budget := if Requests(k, longest) < left then Requests(k, longest)
                  else if left < longest / 2.0 then 0.0 else left - longest / 2.0;
    SpentGrows(0, k, longest, 0.0);
    assert Spent(k, longest, budget) == budget;
    SlowRun(attempts, k, longest, budget, totalTimeout);
    SlowIsPrompt(attempts, k, longest, budget);
    assert EndsAt(SlowWorld(attempts, k, longest, budget), k + 1, FullPauses(k)) > totalTimeout;
  }

  /** With requests of bounded length and pauses as long as asked, every call ends by the deadline exactly when each
      attempt that the pauses leave time for fits in with the longest requests before it and its own. */
  lemma CallCapHoldsExactly(attempts: nat, totalTimeout: real, longest: real)
    requires attempts >= 1 && 0.0 < totalTimeout && 0.0 < longest
    ensures CallCapHolds(attempts, totalTimeout, longest) <==> RequestsFit(attempts, totalTimeout, longest)
  {
    if RequestsFit(attempts, totalTimeout, longest) {
      forall world, start, made, pauses
        | IsRun(world, attempts, start, totalTimeout, made, pauses) && Prompt(start, world, made, pauses, longest)
        ensures EndsAt(world, made, pauses) <= start + totalTimeout
      {
        RunFits(world, attempts, start, totalTimeout, made, pauses, longest);
      }
    } else {
      var k: nat :| k < attempts && AllBackoffs(k) < totalTimeout < Requests(k + 1, longest) + AllBackoffs(k);
      CallOverruns(attempts, totalTimeout, longest, k);
    }
  }
}

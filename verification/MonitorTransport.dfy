/** The monitor transport of src/onelo/monitor/_transport.py: the drop-oldest buffer, the answers
    to a batch and the hold-off window they open, the bounded retries, the drop report. */
module MonitorTransport {
  import opened Prelude

  datatype MonitorEvent = MonitorEvent(ok: bool, source: string, payload: string)

  // ---------------------------------------------------------------- the buffer

  /** deque(maxlen=cap).append: a full buffer loses its oldest element. */
  function Push<E>(cap: nat, buffer: seq<E>, e: E): (r: seq<E>)
    requires |buffer| <= cap
    ensures |r| <= cap
  {
    if |buffer| == cap then (buffer + [e])[1..] else buffer + [e]
  }

  // ---------------------------------------------------------------- answers and the hold-off window

  const MAX_RETRY_ATTEMPTS: nat := 3
  const QUOTA_EXHAUSTED_HOLDOFF := 300.0
  const MAX_RETRY_AFTER_SECONDS := 3600.0

  /** A Retry-After header after `float()`. */
  datatype RetryAfter = Missing | Unreadable | NotANumber | Infinite(positive: bool) | Seconds(value: real)

  function ParseRetryAfter(h: RetryAfter): (seconds: real)
    ensures 0.0 <= seconds <= MAX_RETRY_AFTER_SECONDS
  {
    match h
    case Seconds(v) => if v < 0.0 then 0.0 else if v > MAX_RETRY_AFTER_SECONDS then MAX_RETRY_AFTER_SECONDS else v
    case Infinite(positive) => if positive then MAX_RETRY_AFTER_SECONDS else 0.0
    case _ => 0.0
  }

  /** An X-Onelo-Quota-Remaining header. */
  datatype Quota = Absent | Unlimited | Garbled | Remaining(count: int)

  /** How one POST ends. `Failed` is a network error or any other exception. */
  datatype Response = Failed | Status(code: int, quota: Quota, retryAfter: RetryAfter)

  /** `until` is 0 as long as no window was ever opened. */
  datatype HoldOff = HoldOff(until: real, quotaRemaining: Option<int>) {
    predicate Open(now: real) {
      until != 0.0 && now < until
    }

    function NoteQuota(quota: Quota, now: real): HoldOff {
      match quota
      case Unlimited => this.(quotaRemaining := None)
      case Remaining(count) =>
        var hold := now + QUOTA_EXHAUSTED_HOLDOFF;
        HoldOff(if count <= 0 && until < hold then hold else until, Some(count))
      case _ => this
    }

    /** `_send_once`: whether the batch is done with, and the window afterwards. */
    function Answered(r: Response, now: real): (bool, HoldOff) {
      match r
      case Failed => (false, this)
      case Status(code, quota, retryAfter) =>
        if 200 <= code < 300 then (true, NoteQuota(quota, now))
        else if code == 429 then
          var wait := ParseRetryAfter(retryAfter);
          (true, if wait > 0.0 then this.(until := now + wait) else this)
        else (400 <= code < 500, this)
    }
  }

  /** How long a Retry-After header asks to wait, up to an hour. */
  function RetrySeconds(h: RetryAfter): real {
    match h
    case Seconds(v) => if v < 0.0 then 0.0 else if v < 3600.0 then v else 3600.0
    case Infinite(positive) => if positive then 3600.0 else 0.0
    case _ => 0.0
  }

  /** The answers that are final for a batch: it was taken, or sending it again is pointless. */
  predicate Settles(r: Response) {
    r.Status? && (200 <= r.code < 300 || 400 <= r.code < 500)
  }

  /** The answers that tell to wait. */
  predicate TellsToWait(r: Response) {
    r.Status? && r.code == 429 && RetrySeconds(r.retryAfter) > 0.0
  }

  /** The answers that tell that nothing is left of the quota. */
  predicate TellsExhausted(r: Response) {
    r.Status? && 200 <= r.code < 300 && r.quota.Remaining? && r.quota.count <= 0
  }

  /** What an answer does to the window: a batch that must be retried leaves it alone; a 2xx never shortens it and
      lengthens it only to 300 s from now, on an exhausted quota; a 429 with a positive Retry-After replaces it, be
      it longer or shorter, by at most an hour from now. */
  lemma WindowAfterAnswer(h: HoldOff, r: Response, now: real)
    ensures var (done, h') := h.Answered(r, now);
            && (done <==> Settles(r))
            && (TellsToWait(r) ==> now < h'.until == now + RetrySeconds(r.retryAfter) <= now + 3600.0)
            && (TellsExhausted(r) ==>
                  h'.until >= h.until && h'.until >= now + 300.0 && (h'.until == h.until || h'.until == now + 300.0))
            && (!TellsToWait(r) && !TellsExhausted(r) ==> h'.until == h.until)
  {
  }

  /** What is known of the quota afterwards: only a 2xx that says something changes it. */
  lemma QuotaAfterAnswer(h: HoldOff, r: Response, now: real)
    ensures var known := h.Answered(r, now).1.quotaRemaining;
            if r.Status? && 200 <= r.code < 300 && r.quota.Remaining? then known == Some(r.quota.count)
            else if r.Status? && 200 <= r.code < 300 && r.quota.Unlimited? then known == None
            else known == h.quotaRemaining
  {
  }

  // ---------------------------------------------------------------- the window, by its history

  /** An answer and when it came. */
  datatype Arrived = Arrived(response: Response, at: real)

  /** This answer alone would hold off a flush at `now`. */
  predicate Holds(a: Arrived, now: real) {
    || (TellsToWait(a.response) && now < a.at + RetrySeconds(a.response.retryAfter))
    || (TellsExhausted(a.response) && now < a.at + 300.0)
  }

  predicate HeldByAt(answers: seq<Arrived>, now: real, j: int) {
    && 0 <= j < |answers| && Holds(answers[j], now)
    && forall k :: j < k < |answers| ==> !TellsToWait(answers[k].response)
  }

  /** Some answer holds off a flush at `now`, and no later one that tells to wait has taken its place. */
  ghost predicate HeldBy(answers: seq<Arrived>, now: real) {
    exists j :: HeldByAt(answers, now, j)
  }

  lemma HeldByMore(answers: seq<Arrived>, a: Arrived, now: real)
    ensures HeldBy(answers + [a], now) <==> Holds(a, now) || (!TellsToWait(a.response) && HeldBy(answers, now))
  {
    var more := answers + [a];
    if HeldBy(more, now) {
      var j :| HeldByAt(more, now, j);
      assert more[|answers|] == a;
      if j < |answers| {
        assert forall k :: j < k < |answers| ==> answers[k] == more[k];
        assert HeldByAt(answers, now, j);
      }
    }
    if Holds(a, now) {
      assert HeldByAt(more, now, |answers|);
    }
    if !TellsToWait(a.response) && HeldBy(answers, now) {
      var j :| HeldByAt(answers, now, j);
      assert HeldByAt(more, now, j);
    }
  }

  /** The window says of every time what the answers so far say. */
  ghost predicate WindowTells(h: HoldOff, answers: seq<Arrived>) {
    0.0 <= h.until && forall now: real :: h.Open(now) <==> HeldBy(answers, now)
  }

  lemma AnswerKeepsTelling(h: HoldOff, answers: seq<Arrived>, a: Arrived)
    requires WindowTells(h, answers) && 0.0 <= a.at
    ensures WindowTells(h.Answered(a.response, a.at).1, answers + [a])
  {
    var h' := h.Answered(a.response, a.at).1;
    WindowAfterAnswer(h, a.response, a.at);
    forall now: real
      ensures h'.Open(now) <==> HeldBy(answers + [a], now)
    {
      HeldByMore(answers, a, now);
      assert h.Open(now) <==> HeldBy(answers, now);
    }
  }

  // ---------------------------------------------------------------- the object

  class MonitorTransport {
    const cap: nat
    var buffer: seq<MonitorEvent>
    var dropped: nat
    var droppedReported: nat
    var retryAfterUntil: real
    var quotaRemaining: Option<int>

    ghost predicate Valid()
      reads this
    {
      |buffer| <= cap && droppedReported <= dropped
    }

    ghost function Window(): HoldOff
      reads this
    {
      HoldOff(retryAfterUntil, quotaRemaining)
    }

    constructor (bufferSize: nat)
      ensures Valid() && cap == bufferSize
      ensures buffer == [] && dropped == 0 && droppedReported == 0 && Window() == HoldOff(0.0, None)
    {
      cap := bufferSize;
      buffer, dropped, droppedReported, retryAfterUntil, quotaRemaining := [], 0, 0, 0.0, None;
    }

    /** `wake` tells whether the loop is to be woken: errors are flushed at once. */
    method Send(event: MonitorEvent) returns (wake: bool)
      requires Valid()
      modifies this`buffer, this`dropped
      ensures Valid()
      ensures buffer == Push(cap, old(buffer), event)
      ensures dropped == old(dropped) + |old(buffer)| + 1 - |buffer|
      ensures wake <==> !event.ok || event.source == "global_error"
    {
      if |buffer| == cap {
        dropped := dropped + 1;
        buffer := (buffer + [event])[1..];
      } else {
        buffer := buffer + [event];
      }
      wake := !event.ok || event.source == "global_error";
    }

    /** The part of `_do_flush` under the flush lock that takes the batch. */
    method TakeBatch() returns (batch: seq<MonitorEvent>)
      requires Valid()
      modifies this`buffer
      ensures Valid() && batch == old(buffer) && buffer == []
    {
      batch := buffer;
      buffer := [];
    }

    method NoteQuota(quota: Quota, now: real)
      requires Valid()
      modifies this`retryAfterUntil, this`quotaRemaining
      ensures Window() == old(Window()).NoteQuota(quota, now)
    {
      match quota {
        case Unlimited =>
          quotaRemaining := None;
        case Remaining(count) =>
          quotaRemaining := Some(count);
          if count <= 0 {
            var hold := now + QUOTA_EXHAUSTED_HOLDOFF;
            if retryAfterUntil < hold {
              retryAfterUntil := hold;
            }
          }
        case _ =>
      }
    }

    method SendOnce(response: Response, now: real) returns (done: bool)
      requires Valid()
      modifies this`retryAfterUntil, this`quotaRemaining
      ensures (done, Window()) == old(Window()).Answered(response, now)
    {
      match response {
        case Failed =>
          done := false;
        case Status(code, quota, retryAfter) =>
          if 200 <= code < 300 {
            NoteQuota(quota, now);
            return true;
          }
          if code == 429 {
            var wait := ParseRetryAfter(retryAfter);
            if wait > 0.0 {
              retryAfterUntil := now + wait;
            }
            return true;
          }
          done := 400 <= code < 500;
      }
    }

    /** Against the responses that the three possible attempts would get, at the times they would get
        them: attempts stop with the first that is done with the batch, only that one can move the
        window, and the pauses in between are 0.5 s and 1 s. */
    method SendBatchWithRetry(responses: seq<Response>, times: seq<real>)
      returns (attempts: nat, pauses: seq<real>)
      requires Valid() && |responses| == |times| == 3
      modifies this`retryAfterUntil, this`quotaRemaining
      ensures 1 <= attempts <= 3 && pauses == [0.5, 1.0][..attempts - 1]
      ensures forall i :: 0 <= i < attempts - 1 ==> !Settles(responses[i])
      ensures attempts < 3 ==> Settles(responses[attempts - 1])
      ensures Window() == old(Window()).Answered(responses[attempts - 1], times[attempts - 1]).1
    {
      var backoff := 0.5;
      pauses := [];
      attempts := 0;
      while attempts < MAX_RETRY_ATTEMPTS
        invariant 0 <= attempts <= 3 && Window() == old(Window())
        invariant forall i :: 0 <= i < attempts ==> !Settles(responses[i])
        invariant attempts > 0 ==> Window() == old(Window()).Answered(responses[attempts - 1], times[attempts - 1]).1
        invariant pauses == [0.5, 1.0][..if attempts < 2 then attempts else 2]
        invariant attempts == 0 ==> backoff == 0.5
        invariant attempts == 1 ==> backoff == 1.0
      {
        attempts := attempts + 1;
        WindowAfterAnswer(Window(), responses[attempts - 1], times[attempts - 1]);
        var done := SendOnce(responses[attempts - 1], times[attempts - 1]);
        if done {
          return;
        }
        if attempts < MAX_RETRY_ATTEMPTS {
          pauses := pauses + [backoff];
          backoff := backoff * 2.0;
        }
      }
    }

    /** The number of drops not yet reported, which are reported now. */
    method MaybeReportDrops() returns (newly: nat)
      requires Valid()
      modifies this`droppedReported
      ensures Valid()
      ensures newly == dropped - old(droppedReported) && droppedReported == dropped
    {
      newly := dropped - droppedReported;
      droppedReported := dropped;
    }
  }
}

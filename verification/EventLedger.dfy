/** The monitor buffer with its whole history: every event ever sent, and what became of it. */
module EventLedger {
  import opened Prelude
  import opened MonitorTransport

  datatype Fate = Buffered | Evicted | InBatch(batch: nat)

  /** `batches` are the drained batches in order; `fates[i]` tells what became of `sent[i]`. */
  datatype Ledger<E> = Ledger(
    cap: nat, buffer: seq<E>, dropped: nat, batches: seq<seq<E>>, sent: seq<E>, fates: seq<Fate>)

  function Empty<E>(cap: nat): Ledger<E> {
    Ledger(cap, [], 0, [], [], [])
  }

  /** `send`: the oldest event of a full buffer is evicted. */
  function Send<E>(l: Ledger<E>, e: E): Ledger<E>
    requires |l.buffer| <= l.cap && |l.buffer| <= |l.sent| == |l.fates|
  {
    var full := |l.buffer| == l.cap;
    var fates := l.fates + [Buffered];
    l.(buffer := Push(l.cap, l.buffer, e),
       dropped := if full then l.dropped + 1 else l.dropped,
       sent := l.sent + [e],
       fates := if full then fates[|l.sent| - |l.buffer| := Evicted] else fates)
  }

  function Repeat<T>(x: T, n: nat): (r: seq<T>)
    ensures |r| == n && forall i :: 0 <= i < n ==> r[i] == x
  {
    if n == 0 then [] else Repeat(x, n - 1) + [x]
  }

  /** The drain in `_do_flush`. */
  function Drain<E>(l: Ledger<E>): Ledger<E>
    requires |l.buffer| <= |l.sent| == |l.fates|
  {
    l.(buffer := [], batches := l.batches + [l.buffer],
       fates := l.fates[..|l.sent| - |l.buffer|] + Repeat(InBatch(|l.batches|), |l.buffer|))
  }

  // ---------------------------------------------------------------- readings of a history

  function Drops(fates: seq<Fate>): nat {
    if fates == [] then 0 else Drops(fates[..|fates| - 1]) + if fates[|fates| - 1].Evicted? then 1 else 0
  }

  /** The sent events without the evicted ones. */
  function Kept<E>(sent: seq<E>, fates: seq<Fate>): seq<E>
    requires |sent| == |fates|
  {
    if sent == [] then []
    else
      var n := |sent| - 1;
      Kept(sent[..n], fates[..n]) + if fates[n].Evicted? then [] else [sent[n]]
  }

  /** The sent events that went into batch `k`. */
  function Members<E>(sent: seq<E>, fates: seq<Fate>, k: nat): seq<E>
    requires |sent| == |fates|
  {
    if sent == [] then []
    else
      var n := |sent| - 1;
      Members(sent[..n], fates[..n], k) + if fates[n] == InBatch(k) then [sent[n]] else []
  }

  /** How many of the sent events have left the buffer. */
  function Gone<E>(l: Ledger<E>): int {
    |l.sent| - |l.buffer|
  }

  /** The buffer is the newest suffix of what was sent, and only that is still buffered. */
  ghost predicate Placed<E>(l: Ledger<E>) {
    && |l.buffer| <= l.cap && |l.buffer| <= |l.sent| == |l.fates|
    && l.buffer == l.sent[Gone(l)..]
    && forall i :: 0 <= i < |l.fates| ==> (l.fates[i].Buffered? <==> Gone(l) <= i)
  }

  /** Batches are numbered in the order of the events in them. */
  ghost predicate Numbered(fates: seq<Fate>, batches: nat) {
    && (forall i :: 0 <= i < |fates| && fates[i].InBatch? ==> fates[i].batch < batches)
    && (forall i, j :: 0 <= i < j < |fates| && fates[i].InBatch? && fates[j].InBatch? ==>
          fates[i].batch <= fates[j].batch)
  }

  /** The counter and the batches tell exactly what became of the events that are gone. */
  ghost predicate Accounts<E>(sent: seq<E>, fates: seq<Fate>, dropped: nat, batches: seq<seq<E>>)
    requires |sent| == |fates|
  {
    && dropped == Drops(fates)
    && Flatten(batches) == Kept(sent, fates)
    && forall k :: 0 <= k < |batches| ==> batches[k] == Members(sent, fates, k)
  }

  ghost predicate Valid<E>(l: Ledger<E>) {
    && Placed(l)
    && Numbered(l.fates, |l.batches|)
    && Accounts(l.sent[..Gone(l)], l.fates[..Gone(l)], l.dropped, l.batches)
  }

  lemma OneMoreEvicted<E>(sent: seq<E>, fates: seq<Fate>, e: E, dropped: nat, batches: seq<seq<E>>)
    requires |sent| == |fates| && Accounts(sent, fates, dropped, batches)
    ensures Accounts(sent + [e], fates + [Evicted], dropped + 1, batches)
  {
    var sent', fates' := sent + [e], fates + [Evicted];
    assert sent'[..|sent|] == sent && fates'[..|sent|] == fates;
    forall k | 0 <= k < |batches|
      ensures batches[k] == Members(sent', fates', k)
    {
      assert Members(sent', fates', k) == Members(sent, fates, k) + [];
    }
    assert Kept(sent', fates') == Kept(sent, fates) + [];
  }

  lemma SendPlaced<E>(l: Ledger<E>, e: E)
    requires Placed(l)
    ensures Placed(Send(l, e))
    ensures Gone(Send(l, e)) == Gone(l) + if |l.buffer| == l.cap then 1 else 0
  {
  }

  lemma SendNumbered<E>(l: Ledger<E>, e: E)
    requires Placed(l) && Numbered(l.fates, |l.batches|)
    ensures Numbered(Send(l, e).fates, |l.batches|)
  {
    var fates := Send(l, e).fates;
    assert forall i :: 0 <= i < |fates| && fates[i].InBatch? ==> i < |l.fates| && fates[i] == l.fates[i];
  }

  lemma SendAccounts<E>(l: Ledger<E>, e: E)
    requires Valid(l)
    ensures var l' := Send(l, e);
            |l'.buffer| <= |l'.sent| == |l'.fates| &&
            Accounts(l'.sent[..Gone(l')], l'.fates[..Gone(l')], l'.dropped, l'.batches)
  {
    var l', g := Send(l, e), Gone(l);
    if |l.buffer| == l.cap {
      assert l'.sent[..g + 1] == l.sent[..g] + [l'.sent[g]];
      assert l'.fates[..g + 1] == l.fates[..g] + [Evicted];
      OneMoreEvicted(l.sent[..g], l.fates[..g], l'.sent[g], l.dropped, l.batches);
    } else {
      assert l'.sent[..g] == l.sent[..g] && l'.fates[..g] == l.fates[..g];
    }
  }

  lemma SendKeepsValid<E>(l: Ledger<E>, e: E)
    requires Valid(l)
    ensures Valid(Send(l, e))
  {
    SendPlaced(l, e);
    SendNumbered(l, e);
    SendAccounts(l, e);
  }

  lemma OneMoreInBatch<E>(sent: seq<E>, fates: seq<Fate>, e: E, k: nat, j: nat)
    requires |sent| == |fates|
    ensures Drops(fates + [InBatch(k)]) == Drops(fates)
    ensures Kept(sent + [e], fates + [InBatch(k)]) == Kept(sent, fates) + [e]
    ensures Members(sent + [e], fates + [InBatch(k)], j) == Members(sent, fates, j) + if j == k then [e] else []
  {
    assert (sent + [e])[..|sent|] == sent && (fates + [InBatch(k)])[..|fates|] == fates;
  }

  lemma AppendLast<T>(a: seq<T>, b: seq<T>, x: T)
    ensures a + (b + [x]) == a + b + [x]
  {
  }

  lemma {:induction false} TailInBatch<E>(sent: seq<E>, fates: seq<Fate>, tail: seq<E>, k: nat, j: nat)
    requires |sent| == |fates|
    ensures Drops(fates + Repeat(InBatch(k), |tail|)) == Drops(fates)
    ensures Kept(sent + tail, fates + Repeat(InBatch(k), |tail|)) == Kept(sent, fates) + tail
    ensures Members(sent + tail, fates + Repeat(InBatch(k), |tail|), j) ==
            Members(sent, fates, j) + if j == k then tail else []
    decreases |tail|
  {
    if tail == [] {
      assert sent + tail == sent && fates + Repeat(InBatch(k), 0) == fates;
    } else {
      var n := |tail| - 1;
      var front, last := tail[..n], tail[n];
      TailInBatch(sent, fates, front, k, j);
      OneMoreInBatch(sent + front, fates + Repeat(InBatch(k), n), last, k, j);
      assert tail == front + [last];
      AppendLast(sent, front, last);
      AppendLast(fates, Repeat(InBatch(k), n), InBatch(k));
      AppendLast(Kept(sent, fates), front, last);
      AppendLast(Members(sent, fates, j), front, last);
    }
  }

  lemma {:induction false} NoMembers<E>(sent: seq<E>, fates: seq<Fate>, k: nat)
    requires |sent| == |fates|
    requires forall i :: 0 <= i < |fates| ==> fates[i] != InBatch(k)
    ensures Members(sent, fates, k) == []
    decreases |sent|
  {
    if sent != [] {
      NoMembers(sent[..|sent| - 1], fates[..|sent| - 1], k);
    }
  }

  lemma FlattenLast<E>(batches: seq<seq<E>>, batch: seq<E>)
    ensures Flatten(batches + [batch]) == Flatten(batches) + batch
  {
    assert (batches + [batch])[..|batches|] == batches;
  }

  lemma BatchAccounted<E>(sent: seq<E>, fates: seq<Fate>, dropped: nat, batches: seq<seq<E>>, batch: seq<E>)
    requires |sent| == |fates| && dropped == Drops(fates) && Flatten(batches) + batch == Kept(sent, fates)
    requires forall j :: 0 <= j < |batches| ==> batches[j] == Members(sent, fates, j)
    requires batch == Members(sent, fates, |batches|)
    ensures Accounts(sent, fates, dropped, batches + [batch])
  {
    FlattenLast(batches, batch);
  }

  lemma OtherBatchesStay<E>(sent: seq<E>, fates: seq<Fate>, batch: seq<E>, k: nat, j: nat)
    requires |sent| == |fates| && j != k
    ensures Members(sent + batch, fates + Repeat(InBatch(k), |batch|), j) == Members(sent, fates, j)
  {
    TailInBatch(sent, fates, batch, k, j);
  }

  lemma NewBatchIsTail<E>(sent: seq<E>, fates: seq<Fate>, batch: seq<E>, k: nat)
    requires |sent| == |fates| && Numbered(fates, k)
    ensures Members(sent + batch, fates + Repeat(InBatch(k), |batch|), k) == batch
  {
    TailInBatch(sent, fates, batch, k, k);
    NoMembers(sent, fates, k);
  }

  lemma OneMoreBatch<E>(sent: seq<E>, fates: seq<Fate>, dropped: nat, batches: seq<seq<E>>, batch: seq<E>)
    requires |sent| == |fates| && Accounts(sent, fates, dropped, batches) && Numbered(fates, |batches|)
    ensures Accounts(sent + batch, fates + Repeat(InBatch(|batches|), |batch|), dropped, batches + [batch])
  {
    var k := |batches|;
    var sent', fates' := sent + batch, fates + Repeat(InBatch(k), |batch|);
    NewBatchIsTail(sent, fates, batch, k);
    forall j | 0 <= j < k
      ensures batches[j] == Members(sent', fates', j)
    {
      OtherBatchesStay(sent, fates, batch, k, j);
    }
    assert dropped == Drops(fates') && Flatten(batches) + batch == Kept(sent', fates') by {
      TailInBatch(sent, fates, batch, k, k);
    }
    BatchAccounted(sent', fates', dropped, batches, batch);
  }

  lemma DrainPlaced<E>(l: Ledger<E>)
    requires Placed(l) && Numbered(l.fates, |l.batches|)
    ensures Placed(Drain(l)) && Gone(Drain(l)) == |l.sent|
    ensures Numbered(Drain(l).fates, |l.batches| + 1)
  {
  }

  lemma DrainKeepsValid<E>(l: Ledger<E>)
    requires Valid(l)
    ensures Valid(Drain(l))
  {
    var l', g := Drain(l), Gone(l);
    DrainPlaced(l);
    assert Numbered(l.fates[..g], |l.batches|);
    OneMoreBatch(l.sent[..g], l.fates[..g], l.dropped, l.batches, l.buffer);
    assert l'.sent[..Gone(l')] == l.sent[..g] + l.buffer;
    assert l'.fates[..Gone(l')] == l'.fates;
  }

  // ---------------------------------------------------------------- consequences

  lemma {:induction false} KeptTail<E>(sent: seq<E>, fates: seq<Fate>, from: nat)
    requires |sent| == |fates| && from <= |sent|
    requires forall i :: from <= i < |fates| ==> fates[i].Buffered?
    ensures Kept(sent, fates) == Kept(sent[..from], fates[..from]) + sent[from..]
    ensures Drops(fates) == Drops(fates[..from])
    decreases |sent|
  {
    if from == |sent| {
      assert sent[..from] == sent && fates[..from] == fates && sent[from..] == [];
    } else {
      var n := |sent| - 1;
      KeptTail(sent[..n], fates[..n], from);
      assert sent[..n][..from] == sent[..from] && fates[..n][..from] == fates[..from];
      assert sent[..n][from..] + [sent[n]] == sent[from..];
    }
  }

  lemma {:induction false} KeptLength<E>(sent: seq<E>, fates: seq<Fate>)
    requires |sent| == |fates|
    ensures |Kept(sent, fates)| + Drops(fates) == |sent|
    decreases |sent|
  {
    if sent != [] {
      KeptLength(sent[..|sent| - 1], fates[..|sent| - 1]);
    }
  }

  /** Order and conservation: the batches in order, then the buffer, are the sent events without the
      evicted ones; nothing else is lost, nothing is sent twice; the buffer is the newest suffix. */
  lemma Conservation<E>(l: Ledger<E>)
    requires Valid(l)
    ensures Flatten(l.batches) + l.buffer == Kept(l.sent, l.fates)
    ensures |l.sent| == l.dropped + |Flatten(l.batches)| + |l.buffer|
    ensures |l.buffer| <= l.cap && l.buffer == l.sent[|l.sent| - |l.buffer|..]
  {
    KeptTail(l.sent, l.fates, Gone(l));
    KeptLength(l.sent, l.fates);
  }

  lemma {:induction false} InBatchIsMember<E>(sent: seq<E>, fates: seq<Fate>, i: nat, k: nat)
    requires |sent| == |fates| && i < |sent| && fates[i] == InBatch(k)
    ensures sent[i] in Members(sent, fates, k)
    decreases |sent|
  {
    var n := |sent| - 1;
    if i < n {
      InBatchIsMember(sent[..n], fates[..n], i, k);
    }
  }
}

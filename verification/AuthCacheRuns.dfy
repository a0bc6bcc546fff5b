/** Runs of the LRU-with-TTL cache: against a plain map, and against a larger cache. */
module AuthCacheRuns {
  import opened Prelude
  import opened TimedStore
  import opened AuthCache

  datatype Op<U> =
    | GetOp(key: Key, now: real)
    | SetOp(key: Key, user: U, ttl: real, now: real)
    | InvalidateOp(key: Key)

  function Do<U>(max: nat, s: Store<U>, op: Op<U>): Store<U> {
    match op
    case GetOp(key, now) => Fetch(s, key, now).0
    case SetOp(key, user, ttl, now) => Put(max, s, Entry(key, user, now + ttl), ttl)
    case InvalidateOp(key) => Without(s, key)
  }

  function Run<U>(max: nat, s: Store<U>, ops: seq<Op<U>>): Store<U> {
    if ops == [] then s else Do(max, Run(max, s, ops[..|ops| - 1]), ops[|ops| - 1])
  }

  lemma FetchKeepsValid<U>(s: Store<U>, key: Key, now: real)
    requires Distinct(s)
    ensures Distinct(Fetch(s, key, now).0) && |Fetch(s, key, now).0| <= |s|
  {
    WithoutFacts(s, key);
    match Lookup(s, key) {
      case None =>
      case Some(e) => TouchFacts(s, e);
    }
  }

  lemma PutKeepsValid<U>(max: nat, s: Store<U>, e: Entry<U>, ttl: real)
    requires Distinct(s) && |s| <= max
    ensures Distinct(Put(max, s, e, ttl)) && |Put(max, s, e, ttl)| <= max
  {
    TouchFacts(s, e);
    if |Touch(s, e)| > max {
      SuffixFacts(Touch(s, e), |Touch(s, e)| - max);
    }
  }

  lemma SetKeepsValid<U>(max: nat, s: Store<U>, op: Op<U>)
    requires Distinct(s) && |s| <= max && op.SetOp?
    ensures Distinct(Do(max, s, op)) && |Do(max, s, op)| <= max
  {
    var e := Entry(op.key, op.user, op.now + op.ttl);
    PutKeepsValid(max, s, e, op.ttl);
  }

  lemma DoKeepsValid<U>(max: nat, s: Store<U>, op: Op<U>)
    requires Distinct(s) && |s| <= max
    ensures Distinct(Do(max, s, op)) && |Do(max, s, op)| <= max
  {
    if op.SetOp? {
      SetKeepsValid(max, s, op);
    } else if op.GetOp? {
      FetchKeepsValid(s, op.key, op.now);
    } else {
      WithoutFacts(s, op.key);
    }
  }

  lemma {:induction false} RunKeepsValid<U>(max: nat, s: Store<U>, ops: seq<Op<U>>)
    requires Distinct(s) && |s| <= max
    ensures Distinct(Run(max, s, ops)) && |Run(max, s, ops)| <= max
    decreases |ops|
  {
    if ops != [] {
      RunKeepsValid(max, s, ops[..|ops| - 1]);
      DoKeepsValid(max, Run(max, s, ops[..|ops| - 1]), ops[|ops| - 1]);
    }
  }

  /** A look-up serves exactly an entry before its expiry, and leaves every entry in place but an expired one of the key
      asked for, which goes; the entry served is then the most recently used one. */
  lemma GetLeaves<U(!new)>(s: Store<U>, key: Key, now: real)
    requires Distinct(s)
    ensures var (d, hit) := Fetch(s, key, now);
            && (hit.Some? <==> Lookup(s, key).Some? && now < Lookup(s, key).value.expiry)
            && (hit.Some? ==> d != [] && d[|d| - 1] == Lookup(s, key).value && hit.value == Lookup(s, key).value.value)
            && (forall e :: e in d <==> e in s && (e.key == key ==> now < e.expiry))
  {
    WithoutElements(s, key);
    match Lookup(s, key) {
      case None => KeysOfElements(s);
      case Some(e) =>
        SameKeySameEntry(s);
        assert e in s && e.key == key;
    }
  }

  // ---------------------------------------------------------------- the plain map

  type Plain<U> = map<Key, Entry<U>>

  /** A map that never expires and never evicts: it keeps the last `set` with a positive ttl since any
      invalidate. */
  function PlainDo<U>(p: Plain<U>, op: Op<U>): Plain<U> {
    match op
    case GetOp(_, _) => p
    case SetOp(key, user, ttl, now) => if ttl <= 0.0 then p else p[key := Entry(key, user, now + ttl)]
    case InvalidateOp(key) => p - {key}
  }

  function PlainRun<U>(ops: seq<Op<U>>): Plain<U> {
    if ops == [] then map[] else PlainDo(PlainRun(ops[..|ops| - 1]), ops[|ops| - 1])
  }

  /** Every stored entry is the plain map's. */
  ghost predicate Agrees<U>(s: Store<U>, p: Plain<U>)
    decreases |s|
  {
    s == [] || (s[0].key in p && p[s[0].key] == s[0] && Agrees(s[1..], p))
  }

  lemma {:induction false} AgreesLookup<U>(s: Store<U>, p: Plain<U>, key: Key)
    requires Agrees(s, p)
    ensures match Lookup(s, key) case None => true case Some(e) => key in p && p[key] == e
    decreases |s|
  {
    if s != [] {
      AgreesLookup(s[1..], p, key);
    }
  }

  lemma {:induction false} WithoutAgrees<U>(s: Store<U>, p: Plain<U>, key: Key)
    requires Agrees(s, p)
    ensures Agrees(Without(s, key), p - {key}) && Agrees(Without(s, key), p)
    decreases |s|
  {
    if s != [] {
      WithoutAgrees(s[1..], p, key);
      assert ([s[0]] + Without(s[1..], key))[1..] == Without(s[1..], key);
    }
  }

  lemma {:induction false} AppendAgrees<U>(s: Store<U>, p: Plain<U>, e: Entry<U>)
    requires Agrees(s, p - {e.key})
    ensures Agrees(s + [e], p[e.key := e])
    decreases |s|
  {
    if s == [] {
      assert s + [e] == [e] && [e][1..] == [];
    } else {
      assert (s + [e])[1..] == s[1..] + [e];
      AppendAgrees(s[1..], p, e);
    }
  }

  lemma {:induction false} SuffixAgrees<U>(s: Store<U>, p: Plain<U>, n: nat)
    requires Agrees(s, p) && n <= |s|
    ensures Agrees(s[n..], p)
    decreases n
  {
    if n == 0 {
      assert s[0..] == s;
    } else {
      SuffixAgrees(s[1..], p, n - 1);
      assert s[1..][n - 1..] == s[n..];
    }
  }

  lemma TouchAgrees<U>(s: Store<U>, p: Plain<U>, e: Entry<U>)
    requires Agrees(s, p)
    ensures Agrees(Touch(s, e), p[e.key := e])
  {
    WithoutAgrees(s, p, e.key);
    AppendAgrees(Without(s, e.key), p, e);
  }

  lemma FetchAgrees<U>(s: Store<U>, p: Plain<U>, key: Key, now: real)
    requires Agrees(s, p)
    ensures Agrees(Fetch(s, key, now).0, p)
  {
    AgreesLookup(s, p, key);
    WithoutAgrees(s, p, key);
    match Lookup(s, key) {
      case None =>
      case Some(e) =>
        TouchAgrees(s, p, e);
        assert p[key := e] == p;
    }
  }

  lemma EvictAgrees<U>(max: nat, s: Store<U>, p: Plain<U>)
    requires Agrees(s, p)
    ensures Agrees(Evict(max, s), p)
  {
    if |s| > max {
      SuffixAgrees(s, p, |s| - max);
    }
  }

  lemma PutAgrees<U>(max: nat, s: Store<U>, p: Plain<U>, e: Entry<U>, ttl: real)
    requires Agrees(s, p)
    ensures Agrees(Put(max, s, e, ttl), if ttl <= 0.0 then p else p[e.key := e])
  {
    TouchAgrees(s, p, e);
    EvictAgrees(max, Touch(s, e), p[e.key := e]);
  }

  lemma SetAgrees<U>(max: nat, s: Store<U>, p: Plain<U>, op: Op<U>)
    requires Agrees(s, p) && op.SetOp?
    ensures Agrees(Do(max, s, op), PlainDo(p, op))
  {
    PutAgrees(max, s, p, Entry(op.key, op.user, op.now + op.ttl), op.ttl);
  }

  lemma DoAgrees<U>(max: nat, s: Store<U>, p: Plain<U>, op: Op<U>)
    requires Agrees(s, p)
    ensures Agrees(Do(max, s, op), PlainDo(p, op))
  {
    if op.SetOp? {
      SetAgrees(max, s, p, op);
    } else if op.GetOp? {
      FetchAgrees(s, p, op.key, op.now);
    } else {
      WithoutAgrees(s, p, op.key);
    }
  }

  lemma {:induction false} RunAgrees<U>(max: nat, ops: seq<Op<U>>)
    ensures Agrees(Run(max, [], ops), PlainRun(ops))
    decreases |ops|
  {
    if ops != [] {
      RunAgrees(max, ops[..|ops| - 1]);
      DoAgrees(max, Run(max, [], ops[..|ops| - 1]), PlainRun(ops[..|ops| - 1]), ops[|ops| - 1]);
    }
  }

  /** A hit returns the user of the last `set` with a positive ttl since any invalidate of that key,
      and strictly before that entry's expiry. */
  lemma HitIsLastSet<U>(max: nat, ops: seq<Op<U>>, key: Key, now: real)
    ensures match Fetch(Run(max, [], ops), key, now).1
            case Some(user) =>
              key in PlainRun(ops) && PlainRun(ops)[key].value == user && now < PlainRun(ops)[key].expiry
            case None => true
  {
    RunAgrees(max, ops);
    AgreesLookup(Run(max, [], ops), PlainRun(ops), key);
  }

  // ---------------------------------------------------------------- retention

  /** `op` makes its key the most recently used one of `s`. */
  predicate Uses<U>(s: Store<U>, op: Op<U>) {
    match op
    case GetOp(key, now) => Lookup(s, key).Some? && now < Lookup(s, key).value.expiry
    case SetOp(_, _, ttl, _) => ttl > 0.0
    case InvalidateOp(_) => false
  }

  /** The keys that were set or hit in a run. */
  function Used<U>(max: nat, s: Store<U>, ops: seq<Op<U>>): set<Key> {
    if ops == [] then {}
    else
      var before, op := ops[..|ops| - 1], ops[|ops| - 1];
      Used(max, s, before) + if Uses(Run(max, s, before), op) then {op.key} else {}
  }

  /** The keys more recently used than `key`. */
  function KeysAfter<U>(s: Store<U>, key: Key): set<Key>
    decreases |s|
  {
    if s == [] then {} else if s[0].key == key then Keys(s[1..]) else KeysAfter(s[1..], key)
  }

  lemma {:induction false} AfterWithout<U>(s: Store<U>, key: Key, other: Key)
    requires key != other
    ensures KeysAfter(Without(s, other), key) <= KeysAfter(s, key)
    ensures Lookup(Without(s, other), key) == Lookup(s, key)
    decreases |s|
  {
    if s != [] {
      AfterWithout(s[1..], key, other);
      WithoutFacts(s[1..], other);
      assert ([s[0]] + Without(s[1..], other))[1..] == Without(s[1..], other);
    }
  }

  lemma {:induction false} AfterAppend<U>(s: Store<U>, key: Key, e: Entry<U>)
    ensures KeysAfter(s + [e], key) <= KeysAfter(s, key) + (if key in Keys(s) then {e.key} else {})
    ensures key in Keys(s) ==> Lookup(s + [e], key) == Lookup(s, key)
    decreases |s|
  {
    if s == [] {
      assert s + [e] == [e] && [e][1..] == [];
    } else {
      assert (s + [e])[1..] == s[1..] + [e];
      AfterAppend(s[1..], key, e);
      AppendFacts(s[1..], e);
    }
  }

  lemma {:induction false} KeysCount<U>(s: Store<U>)
    requires Distinct(s)
    ensures |Keys(s)| == |s|
    decreases |s|
  {
    if s != [] {
      KeysCount(s[1..]);
    }
  }

  lemma SubsetSmaller<T>(a: set<T>, b: set<T>)
    requires a <= b
    ensures |a| <= |b|
  {
    assert b == a + (b - a);
  }

  /** The entry `e` is still stored, behind keys from `others` only. */
  predicate Held<U(==)>(s: Store<U>, e: Entry<U>, others: set<Key>) {
    Distinct(s) && Lookup(s, e.key) == Some(e) && KeysAfter(s, e.key) <= others
  }

  lemma EvictHolds<U>(max: nat, s: Store<U>, e: Entry<U>, others: set<Key>)
    requires Held(s, e, others) && |s| <= max + 1 && |others| < max
    ensures Held(Evict(max, s), e, others)
  {
    if |s| == max + 1 {
      if s[0].key == e.key {
        KeysCount(s[1..]);
        SubsetSmaller(Keys(s[1..]), others);
        assert false;
      }
      assert Evict(max, s) == s[1..];
    }
  }

  lemma {:induction false} AfterItself<U>(s: Store<U>, e: Entry<U>)
    requires e.key !in Keys(s)
    ensures KeysAfter(s + [e], e.key) == {}
    decreases |s|
  {
    if s == [] {
      assert s + [e] == [e] && [e][1..] == [];
    } else {
      assert (s + [e])[1..] == s[1..] + [e];
      AfterItself(s[1..], e);
    }
  }

  lemma TouchHolds<U>(s: Store<U>, t: Entry<U>, e: Entry<U>, others: set<Key>)
    requires Held(s, e, others)
    requires if t.key == e.key then t == e else t.key in others
    ensures Held(Touch(s, t), e, others)
  {
    TouchFacts(s, t);
    WithoutFacts(s, t.key);
    AppendFacts(Without(s, t.key), t);
    if t == e {
      AfterItself(Without(s, e.key), e);
    } else {
      AfterWithout(s, e.key, t.key);
      AfterAppend(Without(s, t.key), e.key, t);
    }
  }

  lemma WithoutHolds<U>(s: Store<U>, key: Key, e: Entry<U>, others: set<Key>)
    requires Held(s, e, others) && key != e.key
    ensures Held(Without(s, key), e, others)
  {
    WithoutFacts(s, key);
    AfterWithout(s, e.key, key);
  }

  lemma GetHolds<U>(max: nat, s: Store<U>, op: Op<U>, e: Entry<U>, others: set<Key>)
    requires Held(s, e, others) && op.GetOp? && op.now < e.expiry
    requires Uses(s, op) && op.key != e.key ==> op.key in others
    ensures Held(Do(max, s, op), e, others)
  {
    match Lookup(s, op.key) {
      case None =>
      case Some(found) =>
        if op.now >= found.expiry {
          WithoutHolds(s, op.key, e, others);
        } else {
          TouchHolds(s, found, e, others);
        }
    }
  }

  lemma PutHolds<U>(max: nat, s: Store<U>, added: Entry<U>, ttl: real, e: Entry<U>, others: set<Key>)
    requires Held(s, e, others) && |s| <= max && |others| < max
    requires ttl > 0.0 ==> added.key != e.key && added.key in others
    ensures Held(Put(max, s, added, ttl), e, others)
  {
    if ttl > 0.0 {
      TouchFacts(s, added);
      TouchHolds(s, added, e, others);
      EvictHolds(max, Touch(s, added), e, others);
    }
  }

  lemma SetHolds<U>(max: nat, s: Store<U>, op: Op<U>, e: Entry<U>, others: set<Key>)
    requires Held(s, e, others) && |s| <= max && |others| < max
    requires op.SetOp? && (op.ttl > 0.0 ==> op.key != e.key && op.key in others)
    ensures Held(Do(max, s, op), e, others)
  {
    PutHolds(max, s, Entry(op.key, op.user, op.now + op.ttl), op.ttl, e, others);
  }

  lemma StepHolds<U>(max: nat, s: Store<U>, op: Op<U>, e: Entry<U>, others: set<Key>)
    requires Held(s, e, others) && |s| <= max && |others| < max
    requires op.key == e.key ==> op.GetOp? || (op.SetOp? && op.ttl <= 0.0)
    requires op.GetOp? ==> op.now < e.expiry
    requires Uses(s, op) && op.key != e.key ==> op.key in others
    ensures Held(Do(max, s, op), e, others)
  {
    if op.GetOp? {
      GetHolds(max, s, op, e, others);
    } else if op.SetOp? {
      SetHolds(max, s, op, e, others);
    } else {
      WithoutHolds(s, op.key, e, others);
    }
  }

  lemma {:induction false} RunHolds<U>(
    max: nat, s: Store<U>, ops: seq<Op<U>>, e: Entry<U>, others: set<Key>, now: real)
    requires Held(s, e, others) && |s| <= max && |others| < max && now < e.expiry
    requires forall i :: 0 <= i < |ops| && ops[i].key == e.key ==>
               ops[i].GetOp? || (ops[i].SetOp? && ops[i].ttl <= 0.0)
    requires forall i :: 0 <= i < |ops| && ops[i].GetOp? ==> ops[i].now <= now
    requires Used(max, s, ops) - {e.key} <= others
    ensures Held(Run(max, s, ops), e, others)
    decreases |ops|
  {
    if ops != [] {
      var before, op := ops[..|ops| - 1], ops[|ops| - 1];
      RunHolds(max, s, before, e, others, now);
      RunKeepsValid(max, s, before);
      StepHolds(max, Run(max, s, before), op, e, others);
    }
  }

  /** `e` is the most recently used entry. */
  predicate EndsIn<U(==)>(s: Store<U>, e: Entry<U>) {
    s != [] && s[|s| - 1] == e
  }

  lemma {:induction false} LastIsHeld<U>(s: Store<U>, e: Entry<U>)
    requires Distinct(s) && EndsIn(s, e)
    ensures e.key in Keys(s) && Held(s, e, {})
    decreases |s|
  {
    if |s| > 1 {
      LastIsHeld(s[1..], e);
    } else {
      assert s[1..] == [];
    }
  }

  /** A key that was just used hits again, with its user, as long as it has not expired, has not been
      set anew or invalidated, and fewer than `max` distinct other keys have been set or hit since. */
  lemma RetainedWhileFewOthers<U>(max: nat, s: Store<U>, e: Entry<U>, ops: seq<Op<U>>, now: real)
    requires EndsIn(s, e) && Distinct(s) && |s| <= max
    requires forall i :: 0 <= i < |ops| && ops[i].key == e.key ==>
               ops[i].GetOp? || (ops[i].SetOp? && ops[i].ttl <= 0.0)
    requires forall i :: 0 <= i < |ops| && ops[i].GetOp? ==> ops[i].now <= now
    requires now < e.expiry
    requires |Used(max, s, ops) - {e.key}| < max
    ensures Fetch(Run(max, s, ops), e.key, now).1 == Some(e.value)
  {
    var others := Used(max, s, ops) - {e.key};
    assert Held(s, e, others) by {
      LastIsHeld(s, e);
    }
    RunHolds(max, s, ops, e, others, now);
  }

  /** ... and its entry is the plain map's. */
  ghost predicate EndsInPlain<U>(s: Store<U>, p: Plain<U>, key: Key) {
    key in p && p[key].key == key && EndsIn(s, p[key])
  }

  lemma HitPutsLast<U>(max: nat, s: Store<U>, p: Plain<U>, op: Op<U>)
    requires Agrees(s, p) && Uses(s, op) && op.GetOp?
    ensures EndsInPlain(Do(max, s, op), PlainDo(p, op), op.key)
  {
    AgreesLookup(s, p, op.key);
  }

  lemma PutPutsLast<U>(max: nat, s: Store<U>, e: Entry<U>, ttl: real)
    requires 1 <= max && 0.0 < ttl
    ensures EndsIn(Put(max, s, e, ttl), e)
  {
    var all := Touch(s, e);
    assert EndsIn(all, e);
    assert |Evict(max, all)| >= 1;
  }

  lemma SetPutsLast<U>(max: nat, s: Store<U>, p: Plain<U>, op: Op<U>)
    requires 1 <= max && op.SetOp? && 0.0 < op.ttl
    ensures EndsInPlain(Do(max, s, op), PlainDo(p, op), op.key)
  {
    PutPutsLast(max, s, Entry(op.key, op.user, op.now + op.ttl), op.ttl);
  }

  /** A set or a hit leaves its key, with the plain map's entry, at the most recently used end. */
  lemma UsePutsLast<U>(max: nat, s: Store<U>, p: Plain<U>, op: Op<U>)
    requires 1 <= max && Agrees(s, p) && Uses(s, op)
    ensures EndsInPlain(Do(max, s, op), PlainDo(p, op), op.key)
  {
    if op.GetOp? {
      HitPutsLast(max, s, p, op);
    } else {
      SetPutsLast(max, s, p, op);
    }
  }

  lemma RunOneMore<U>(max: nat, s: Store<U>, before: seq<Op<U>>, op: Op<U>)
    ensures Run(max, s, before + [op]) == Do(max, Run(max, s, before), op)
    ensures PlainRun(before + [op]) == PlainDo(PlainRun(before), op)
  {
    assert (before + [op])[..|before|] == before;
  }

  lemma UsedKeyIsLast<U>(max: nat, before: seq<Op<U>>, op: Op<U>)
    requires 1 <= max && Uses(Run(max, [], before), op)
    ensures EndsInPlain(Run(max, [], before + [op]), PlainRun(before + [op]), op.key)
  {
    RunOneMore(max, [], before, op);
    RunAgrees(max, before);
    UsePutsLast(max, Run(max, [], before), PlainRun(before), op);
  }

  /** Against the plain map: a key that was set or hit at `op` hits until its expiry with the user of its last
      `set`, unless it is set anew or invalidated or `max` distinct other keys are set or hit in between. */
  lemma UnexpiredKeyHits<U>(max: nat, before: seq<Op<U>>, op: Op<U>, after: seq<Op<U>>, now: real)
    requires 1 <= max && Uses(Run(max, [], before), op)
    requires forall i :: 0 <= i < |after| && after[i].key == op.key ==>
               after[i].GetOp? || (after[i].SetOp? && after[i].ttl <= 0.0)
    requires forall i :: 0 <= i < |after| && after[i].GetOp? ==> after[i].now <= now
    requires |Used(max, Run(max, [], before + [op]), after) - {op.key}| < max
    ensures op.key in PlainRun(before + [op])
    ensures var e := PlainRun(before + [op])[op.key];
            now < e.expiry ==> Fetch(Run(max, Run(max, [], before + [op]), after), op.key, now).1 == Some(e.value)
  {
    var u := Run(max, [], before + [op]);
    assert Distinct(u) && |u| <= max by {
      RunKeepsValid(max, [], before + [op]);
    }
    UsedKeyIsLast(max, before, op);
    var e := PlainRun(before + [op])[op.key];
    if now < e.expiry {
      RetainedWhileFewOthers(max, u, e, after, now);
    }
  }

  // ---------------------------------------------------------------- a larger cache

  /** `a` is a subsequence of `b`: the same entries, users and expiries included, in the same order. */
  predicate SubSeq<U(==)>(a: Store<U>, b: Store<U>)
    decreases |b|
  {
    if a == [] then true
    else if b == [] then false
    else if a[0] == b[0] then SubSeq(a[1..], b[1..])
    else SubSeq(a, b[1..])
  }

  lemma {:induction false} SubSeqTail<U>(a: Store<U>, b: Store<U>)
    requires SubSeq(a, b) && a != []
    ensures SubSeq(a[1..], b)
    decreases |b|, 1
  {
    if a[0] == b[0] {
      SubSeqWider(a[1..], b[1..], b[0]);
      assert [b[0]] + b[1..] == b;
    } else {
      SubSeqTail(a, b[1..]);
      SubSeqWider(a[1..], b[1..], b[0]);
      assert [b[0]] + b[1..] == b;
    }
  }

  lemma {:induction false} SubSeqWider<U>(a: Store<U>, b: Store<U>, e: Entry<U>)
    requires SubSeq(a, b)
    ensures SubSeq(a, [e] + b)
    decreases |b|, 2
  {
    assert ([e] + b)[1..] == b;
    if a != [] && a[0] == e {
      SubSeqTail(a, b);
    }
  }

  lemma {:induction false} SubSeqWithout<U>(a: Store<U>, b: Store<U>, key: Key)
    requires SubSeq(a, b)
    ensures SubSeq(Without(a, key), Without(b, key))
    decreases |b|
  {
    if a != [] {
      var small, large := Without(a, key), Without(b[1..], key);
      if a[0] == b[0] {
        SubSeqWithout(a[1..], b[1..], key);
        if a[0].key != key {
          assert ([a[0]] + Without(a[1..], key))[1..] == Without(a[1..], key);
          assert ([b[0]] + large)[1..] == large;
        }
      } else {
        SubSeqWithout(a, b[1..], key);
        SubSeqWider(small, large, b[0]);
      }
    }
  }

  lemma {:induction false} SubSeqAppend<U>(a: Store<U>, b: Store<U>, e: Entry<U>)
    requires SubSeq(a, b)
    ensures SubSeq(a + [e], b + [e]) && SubSeq(a, b + [e])
    decreases |b|
  {
    if b == [] {
      assert a + [e] == [e] && b + [e] == [e] && [e][1..] == [];
    } else {
      assert (b + [e])[1..] == b[1..] + [e];
      if a == [] {
        SubSeqAppend(a, b[1..], e);
        assert a + [e] == [e];
        SubSeqWider([e], b[1..] + [e], b[0]);
        assert [b[0]] + (b[1..] + [e]) == b + [e];
      } else {
        assert (a + [e])[1..] == a[1..] + [e];
        SubSeqAppend(if a[0] == b[0] then a[1..] else a, b[1..], e);
      }
    }
  }

  lemma SubSeqDropBoth<U>(a: Store<U>, b: Store<U>)
    requires SubSeq(a, b) && a != []
    ensures SubSeq(a[1..], b[1..])
  {
    if a[0] != b[0] {
      SubSeqTail(a, b[1..]);
    }
  }

  lemma {:induction false} SubSeqFacts<U>(a: Store<U>, b: Store<U>)
    requires SubSeq(a, b)
    ensures |a| <= |b| && Keys(a) <= Keys(b)
    ensures Distinct(b) ==> Distinct(a) && forall key :: key in Keys(a) ==> Lookup(a, key) == Lookup(b, key)
    decreases |b|
  {
    if a != [] {
      SubSeqFacts(if a[0] == b[0] then a[1..] else a, b[1..]);
    }
  }

  /** The relation between the two runs. The last conjunct is what makes it inductive. */
  predicate Included<U(==)>(m: nat, M: nat, a: Store<U>, b: Store<U>) {
    SubSeq(a, b) && Distinct(b) && |a| <= m && |b| <= M && |b| - |a| <= M - m
  }

  lemma EvictOne<U>(max: nat, s: Store<U>)
    requires |s| <= max + 1
    ensures Evict(max, s) == if |s| == max + 1 then s[1..] else s
  {
  }

  lemma EvictKeepsSubSeq<U>(m: nat, M: nat, a: Store<U>, b: Store<U>)
    requires m <= M && SubSeq(a, b) && Distinct(b) && |a| <= m + 1 && |b| <= M + 1 && |b| - |a| <= M - m
    ensures SubSeq(Evict(m, a), Evict(M, b)) && |a| <= |b|
  {
    EvictOne(m, a);
    EvictOne(M, b);
    SubSeqFacts(a, b);
    if |b| == M + 1 {
      SubSeqDropBoth(a, b);
    } else if |a| == m + 1 {
      SubSeqTail(a, b);
    }
  }

  lemma EvictKeepsDistinct<U>(max: nat, s: Store<U>)
    requires Distinct(s) && |s| <= max + 1
    ensures Distinct(Evict(max, s)) && |Evict(max, s)| == if |s| == max + 1 then max else |s|
  {
    EvictOne(max, s);
  }

  lemma EvictIncluded<U>(m: nat, M: nat, a: Store<U>, b: Store<U>)
    requires m <= M && SubSeq(a, b) && Distinct(a) && Distinct(b)
    requires |a| <= m + 1 && |b| <= M + 1 && |b| - |a| <= M - m
    ensures Included(m, M, Evict(m, a), Evict(M, b))
  {
    EvictKeepsDistinct(m, a);
    EvictKeepsDistinct(M, b);
    EvictKeepsSubSeq(m, M, a, b);
  }

  lemma WithoutIncluded<U>(m: nat, M: nat, a: Store<U>, b: Store<U>, key: Key)
    requires Included(m, M, a, b)
    ensures Included(m, M, Without(a, key), Without(b, key))
  {
    SubSeqFacts(a, b);
    SubSeqWithout(a, b, key);
    WithoutFacts(a, key);
    WithoutFacts(b, key);
  }

  /** An entry touched in the larger cache, and in the smaller one too unless it is not there. */
  lemma TouchIncluded<U>(a: Store<U>, b: Store<U>, e: Entry<U>)
    requires SubSeq(a, b) && Distinct(b)
    ensures SubSeq(Touch(a, e), Touch(b, e)) && Distinct(Touch(b, e))
    ensures |Touch(b, e)| - |Touch(a, e)| <= |b| - |a|
    ensures e.key !in Keys(a) ==> SubSeq(a, Touch(b, e))
  {
    SubSeqFacts(a, b);
    SubSeqWithout(a, b, e.key);
    SubSeqAppend(Without(a, e.key), Without(b, e.key), e);
    WithoutFacts(a, e.key);
    TouchFacts(a, e);
    TouchFacts(b, e);
  }

  lemma GetIncluded<U>(m: nat, M: nat, a: Store<U>, b: Store<U>, op: Op<U>)
    requires m <= M && Included(m, M, a, b) && op.GetOp?
    ensures Included(m, M, Do(m, a, op), Do(M, b, op))
  {
    SubSeqFacts(a, b);
    match Lookup(b, op.key) {
      case None =>
      case Some(e) =>
        if op.now >= e.expiry {
          WithoutIncluded(m, M, a, b, op.key);
          WithoutFacts(a, op.key);
        } else {
          TouchIncluded(a, b, e);
          TouchFacts(a, e);
          TouchFacts(b, e);
        }
    }
  }

  lemma PutIncluded<U>(m: nat, M: nat, a: Store<U>, b: Store<U>, e: Entry<U>, ttl: real)
    requires m <= M && Included(m, M, a, b)
    ensures Included(m, M, Put(m, a, e, ttl), Put(M, b, e, ttl))
  {
    SubSeqFacts(a, b);
    TouchIncluded(a, b, e);
    TouchFacts(a, e);
    TouchFacts(b, e);
    EvictIncluded(m, M, Touch(a, e), Touch(b, e));
  }

  lemma SetIncluded<U>(m: nat, M: nat, a: Store<U>, b: Store<U>, op: Op<U>)
    requires m <= M && Included(m, M, a, b) && op.SetOp?
    ensures Included(m, M, Do(m, a, op), Do(M, b, op))
  {
    PutIncluded(m, M, a, b, Entry(op.key, op.user, op.now + op.ttl), op.ttl);
  }

  lemma StepIncluded<U>(m: nat, M: nat, a: Store<U>, b: Store<U>, op: Op<U>)
    requires m <= M && Included(m, M, a, b)
    ensures Included(m, M, Do(m, a, op), Do(M, b, op))
  {
    if op.GetOp? {
      GetIncluded(m, M, a, b, op);
    } else if op.SetOp? {
      SetIncluded(m, M, a, b, op);
    } else {
      WithoutIncluded(m, M, a, b, op.key);
    }
  }

  lemma {:induction false} RunsIncluded<U>(m: nat, M: nat, ops: seq<Op<U>>)
    requires m <= M
    ensures Included(m, M, Run(m, [], ops), Run(M, [], ops))
    decreases |ops|
  {
    if ops != [] {
      var before := ops[..|ops| - 1];
      RunsIncluded(m, M, before);
      StepIncluded(m, M, Run(m, [], before), Run(M, [], before), ops[|ops| - 1]);
    }
  }

  /** Enlarging the cache never loses a hit: after the same operations at the same times, the smaller
      cache is a subsequence of the larger one, and what hits in it hits in the larger one alike. */
  lemma LargerCacheHitsToo<U>(m: nat, M: nat, ops: seq<Op<U>>, key: Key, now: real)
    requires m <= M
    ensures SubSeq(Run(m, [], ops), Run(M, [], ops))
    ensures var hit := Fetch(Run(m, [], ops), key, now).1;
            hit.Some? ==> Fetch(Run(M, [], ops), key, now).1 == hit
  {
    RunsIncluded(m, M, ops);
    SubSeqFacts(Run(m, [], ops), Run(M, [], ops));
  }
}

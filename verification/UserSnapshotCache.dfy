/** The per-user snapshot cache of src/onelo/_features.py: entries with a deadline, in insertion
    order, bounded by purging the expired ones and then the ones closest to their deadline. */
module UserSnapshotCache {
  import opened Prelude
  import opened TimedStore

  /** d[key] = ...: a present key keeps its place. */
  function Assign<V>(s: Store<V>, e: Entry<V>): Store<V>
    decreases |s|
  {
    if s == [] then [e]
    else if s[0].key == e.key then [e] + s[1..]
    else [s[0]] + Assign(s[1..], e)
  }

  /** The entries that have not expired. */
  function Purge<V>(s: Store<V>, now: real): Store<V>
    decreases |s|
  {
    if s == [] then [] else (if s[0].expiry <= now then [] else [s[0]]) + Purge(s[1..], now)
  }

  /** The first entry with the least deadline: the head of the list sorted by deadline. */
  function Soonest<V>(s: Store<V>): Entry<V>
    requires s != []
    decreases |s|
  {
    if |s| == 1 || s[0].expiry <= Soonest(s[1..]).expiry then s[0] else Soonest(s[1..])
  }

  /** Deletes the first `n` entries of the list sorted by deadline. */
  function DropSoonest<V>(s: Store<V>, n: nat): Store<V>
    decreases n
  {
    if n == 0 || s == [] then s else DropSoonest(Without(s, Soonest(s).key), n - 1)
  }

  function Excess(max: nat, size: nat): nat {
    if size > max then size - max else 0
  }

  function Evict<V>(max: nat, s: Store<V>, now: real): Store<V> {
    var live := Purge(s, now);
    DropSoonest(live, Excess(max, |live|))
  }

  /** `put`; `later` is the second reading of the clock, inside the eviction. */
  function PutEntry<V>(max: nat, s: Store<V>, e: Entry<V>, later: real): Store<V> {
    var all := Assign(s, e);
    if |all| > max then Evict(max, all, later) else all
  }

  function Fetch<V>(s: Store<V>, key: Key, now: real): (Store<V>, Option<V>) {
    match Lookup(s, key)
    case None => (s, None)
    case Some(e) => if e.expiry > now then (s, Some(e.value)) else (Without(s, key), None)
  }

  // ---------------------------------------------------------------- facts

  lemma FetchFacts<V(!new)>(s: Store<V>, key: Key, now: real)
    requires Distinct(s)
    ensures var d := Fetch(s, key, now).0; Distinct(d) && |d| <= |s| && forall e :: e in d ==> e in s
  {
    WithoutFacts(s, key);
    WithoutElements(s, key);
  }

  /** A look-up serves exactly an entry before its deadline, and leaves everything as it is but for an expired entry
      of the key asked for, which goes. */
  lemma FetchLeaves<V(!new)>(s: Store<V>, key: Key, now: real)
    requires Distinct(s)
    ensures var (d, hit) := Fetch(s, key, now);
            && (hit.Some? <==> exists e :: e in s && e.key == key && now < e.expiry)
            && (hit.Some? ==> d == s)
            && (forall e :: e in d <==> e in s && (e.key == key ==> now < e.expiry))
  {
    WithoutElements(s, key);
    KeysOfElements(s);
    SameKeySameEntry(s);
    match Lookup(s, key) {
      case None =>
      case Some(e) => assert e in s && e.key == key;
    }
  }

  lemma {:induction false} AssignFacts<V(!new)>(s: Store<V>, e: Entry<V>)
    requires Distinct(s)
    ensures Keys(Assign(s, e)) == Keys(s) + {e.key} && Distinct(Assign(s, e))
    ensures |Assign(s, e)| == |s| + if e.key in Keys(s) then 0 else 1
    ensures forall f :: f in Assign(s, e) <==> f == e || (f in s && f.key != e.key)
    decreases |s|
  {
    if s == [] {
      assert [e][1..] == [];
    } else {
      var r := Assign(s, e);
      assert s == [s[0]] + s[1..];
      if s[0].key == e.key {
        assert r[1..] == s[1..];
        KeysOfElements(s[1..]);
      } else {
        assert r[1..] == Assign(s[1..], e);
        AssignFacts(s[1..], e);
      }
    }
  }

  lemma {:induction false} PurgeFacts<V(!new)>(s: Store<V>, now: real)
    requires Distinct(s)
    ensures Keys(Purge(s, now)) <= Keys(s) && Distinct(Purge(s, now)) && |Purge(s, now)| <= |s|
    ensures forall e :: e in Purge(s, now) <==> e in s && now < e.expiry
    decreases |s|
  {
    if s != [] {
      PurgeFacts(s[1..], now);
      assert s == [s[0]] + s[1..];
      assert ([s[0]] + Purge(s[1..], now))[1..] == Purge(s[1..], now);
      assert [] + Purge(s[1..], now) == Purge(s[1..], now);
    }
  }

  /** One entry more is looked at. */
  lemma PurgeFrom<V>(s: Store<V>, now: real, i: nat, live: Store<V>)
    requires i < |s|
    ensures live + Purge(s[i..], now) == (if s[i].expiry > now then live + [s[i]] else live) + Purge(s[i + 1..], now)
  {
    var rest := Purge(s[i + 1..], now);
    assert s[i..][1..] == s[i + 1..];
    assert live + ([s[i]] + rest) == (live + [s[i]]) + rest;
    assert live + ([] + rest) == live + rest;
  }

  lemma {:induction false} SoonestFacts<V(!new)>(s: Store<V>)
    requires s != []
    ensures Soonest(s) in s && forall f :: f in s ==> Soonest(s).expiry <= f.expiry
    decreases |s|
  {
    assert s == [s[0]] + s[1..];
    if |s| > 1 {
      SoonestFacts(s[1..]);
    }
  }

  /** Deleting the soonest entry deletes nothing else. */
  lemma WithoutSoonest<V(!new)>(s: Store<V>)
    requires Distinct(s) && s != []
    ensures var rest := Without(s, Soonest(s).key);
            && Distinct(rest) && |rest| == |s| - 1
            && forall e :: e in s <==> e in rest || e == Soonest(s)
  {
    SoonestFacts(s);
    KeysOfElements(s);
    WithoutFacts(s, Soonest(s).key);
    WithoutElements(s, Soonest(s).key);
    SameKeySameEntry(s);
  }

  /** `r` keeps entries of `s`, and none of them has an earlier deadline than one that is left out. */
  ghost predicate KeepsLatest<V(!new)>(s: Store<V>, r: Store<V>) {
    && (forall e :: e in r ==> e in s)
    && forall e, f :: e in s && e !in r && f in r ==> e.expiry <= f.expiry
  }

  lemma KeepsLatestStep<V(!new)>(s: Store<V>, soonest: Entry<V>, rest: Store<V>, r: Store<V>)
    requires forall e :: e in s <==> e in rest || e == soonest
    requires forall e :: e in s ==> soonest.expiry <= e.expiry
    requires KeepsLatest(rest, r)
    ensures KeepsLatest(s, r)
  {
  }

  lemma {:induction false} DropSoonestSize<V(!new)>(s: Store<V>, n: nat)
    requires Distinct(s) && n <= |s|
    ensures Distinct(DropSoonest(s, n)) && |DropSoonest(s, n)| == |s| - n
    decreases n
  {
    if n > 0 {
      var rest := Without(s, Soonest(s).key);
      assert Distinct(rest) && |rest| == |s| - 1 by {
        WithoutSoonest(s);
      }
      DropSoonestSize(rest, n - 1);
    }
  }

  lemma KeepsLatestWithSoonest<V(!new)>(s: Store<V>, r: Store<V>)
    requires Distinct(s) && s != []
    requires KeepsLatest(Without(s, Soonest(s).key), r)
    ensures KeepsLatest(s, r)
  {
    WithoutSoonest(s);
    SoonestFacts(s);
    KeepsLatestStep(s, Soonest(s), Without(s, Soonest(s).key), r);
  }

  lemma {:induction false} DropSoonestKeepsLatest<V(!new)>(s: Store<V>, n: nat)
    requires Distinct(s) && n <= |s|
    ensures KeepsLatest(s, DropSoonest(s, n))
    decreases n
  {
    if n == 0 {
      assert DropSoonest(s, n) == s;
    } else {
      var rest := Without(s, Soonest(s).key);
      var kept := DropSoonest(rest, n - 1);
      assert DropSoonest(s, n) == kept;
      assert KeepsLatest(s, kept) by {
        assert KeepsLatest(rest, kept) by {
          WithoutSoonest(s);
          DropSoonestKeepsLatest(rest, n - 1);
        }
        KeepsLatestWithSoonest(s, kept);
      }
    }
  }

  lemma DropSoonestFacts<V(!new)>(s: Store<V>, n: nat)
    requires Distinct(s) && n <= |s|
    ensures Distinct(DropSoonest(s, n)) && |DropSoonest(s, n)| == |s| - n && KeepsLatest(s, DropSoonest(s, n))
  {
    DropSoonestSize(s, n);
    DropSoonestKeepsLatest(s, n);
  }

  /** The entries of `s` updated with `e` that are still live at `later`. */
  ghost function Live<V(!new)>(s: Store<V>, e: Entry<V>, later: real): set<Entry<V>> {
    set f | f in s + [e] && (f == e || f.key != e.key) && later < f.expiry
  }

  lemma {:induction false} CountEntries<V(!new)>(s: Store<V>, all: set<Entry<V>>)
    requires Distinct(s) && forall f :: f in all <==> f in s
    ensures |all| == |s|
    decreases |s|
  {
    if s == [] {
      assert all == {};
    } else {
      KeysOfElements(s[1..]);
      assert s == [s[0]] + s[1..];
      assert s[0] !in s[1..];
      CountEntries(s[1..], all - {s[0]});
    }
  }

  lemma LiveIsPurged<V(!new)>(s: Store<V>, e: Entry<V>, later: real)
    requires Distinct(s)
    ensures |Live(s, e, later)| == |Purge(Assign(s, e), later)|
  {
    AssignFacts(s, e);
    PurgeFacts(Assign(s, e), later);
    CountEntries(Purge(Assign(s, e), later), Live(s, e, later));
  }

  lemma {:induction false} KeyOfSome<V(!new)>(s: Store<V>, key: Key)
    ensures key in Keys(s) <==> exists f :: f in s && f.key == key
    decreases |s|
  {
    if s != [] {
      KeyOfSome(s[1..], key);
      assert s == [s[0]] + s[1..];
      assert s[0] in s;
    }
  }

  /** How much a `put` leaves: everything if that is within the bound, else as much of what is still live as the bound
      allows. */
  lemma PutSize<V(!new)>(max: nat, s: Store<V>, e: Entry<V>, later: real)
    requires Distinct(s) && |s| <= max
    ensures var r, live := PutEntry(max, s, e, later), |Live(s, e, later)|;
            var size := |s| + if exists f :: f in s && f.key == e.key then 0 else 1;
            |r| == if size <= max then size else if live < max then live else max
  {
    AssignFacts(s, e);
    KeyOfSome(s, e.key);
    PurgeFacts(Assign(s, e), later);
    LiveIsPurged(s, e, later);
    var live := Purge(Assign(s, e), later);
    DropSoonestFacts(live, Excess(max, |live|));
  }

  /** What a `put` does to a cache within its bound: it stays within; only the written key changes its
      entry; if purging the expired entries suffices, no unexpired one is lost; and an unexpired entry that
      is lost, be it the written one, has a deadline no later than every entry that is kept. */
  lemma PutFacts<V(!new)>(max: nat, s: Store<V>, e: Entry<V>, later: real)
    requires Distinct(s) && |s| <= max
    ensures var r := PutEntry(max, s, e, later);
            var all := Assign(s, e);
            && Distinct(r) && |r| <= max
            && (forall f :: f in r ==> f == e || (f in s && f.key != e.key))
            && (forall f :: (f == e || (f in s && f.key != e.key)) && f !in r && later < f.expiry ==>
                  |Purge(all, later)| > max && forall g :: g in r ==> f.expiry <= g.expiry && later < g.expiry)
            && (|all| <= max || |Purge(all, later)| <= max ==>
                  forall f: Entry<V> :: later < f.expiry && (f == e || (f in s && f.key != e.key)) ==> f in r)
  {
    AssignFacts(s, e);
    var all := Assign(s, e);
    PurgeFacts(all, later);
    var live := Purge(all, later);
    DropSoonestFacts(live, Excess(max, |live|));
  }

  /** A live entry is lost to a `put` for another key only if afterwards the cache is full of entries of other keys,
      none with an earlier deadline. */
  lemma PutEvictsLast<V(!new)>(max: nat, s: Store<V>, e: Entry<V>, later: real, f: Entry<V>)
    requires Distinct(s) && |s| <= max && f in s && f.key != e.key && later < f.expiry
    ensures var r := PutEntry(max, s, e, later);
            f in r || (|r| == max && forall g :: g in r ==> g.key != f.key && f.expiry <= g.expiry)
  {
    var r := PutEntry(max, s, e, later);
    if f !in r {
      assert |Purge(Assign(s, e), later)| > max && forall g :: g in r ==> f.expiry <= g.expiry by {
        PutFacts(max, s, e, later);
      }
      assert |r| == max by {
        PutSize(max, s, e, later);
        LiveIsPurged(s, e, later);
        AssignFacts(s, e);
        PurgeFacts(Assign(s, e), later);
      }
      forall g | g in r
        ensures g.key != f.key
      {
        PutFacts(max, s, e, later);
        SameKeySameEntry(s);
      }
    }
  }

  // ---------------------------------------------------------------- the object

  class UserSnapshotCache<V(!new)> {
    const maxEntries: nat
    var d: Store<V>

    ghost predicate Valid()
      reads this
    {
      Distinct(d) && |d| <= maxEntries
    }

    constructor (max: nat)
      ensures Valid() && maxEntries == max && d == []
    {
      maxEntries := max;
      d := [];
    }

    method Get(userId: Key, now: real) returns (snapshot: Option<V>)
      requires Valid()
      modifies this
      ensures Valid() && (d, snapshot) == Fetch(old(d), userId, now)
    {
      var entry := Lookup(d, userId);
      if entry.None? {
        return None;
      }
      if entry.value.expiry > now {
        return Some(entry.value.value);
      }
      WithoutFacts(d, userId);
      d := Without(d, userId);
      return None;
    }

    method Put(userId: Key, snapshot: V, ttl: real, now: real, later: real)
      requires Valid()
      modifies this
      ensures Valid() && d == PutEntry(maxEntries, old(d), Entry(userId, snapshot, now + ttl), later)
    {
      PutFacts(maxEntries, d, Entry(userId, snapshot, now + ttl), later);
      AssignFacts(d, Entry(userId, snapshot, now + ttl));
      d := Assign(d, Entry(userId, snapshot, now + ttl));
      if |d| > maxEntries {
        EvictLocked(later);
      }
    }

    method EvictLocked(now: real)
      requires Distinct(d)
      modifies this
      ensures d == Evict(maxEntries, old(d), now)
    {
      PurgeFacts(d, now);
      PurgeExpired(now);
      DropToBound();
    }

    method PurgeExpired(now: real)
      modifies this
      ensures d == Purge(old(d), now)
    {
      var live: Store<V> := [];
      assert d[0..] == d;
      for i := 0 to |d|
        invariant d == old(d) && Purge(d, now) == live + Purge(d[i..], now)
      {
        PurgeFrom(d, now, i, live);
        if d[i].expiry > now {
          live := live + [d[i]];
        }
      }
      d := live;
    }

    method DropToBound()
      requires Distinct(d)
      modifies this
      ensures d == DropSoonest(old(d), Excess(maxEntries, |old(d)|))
      ensures |d| == if |old(d)| <= maxEntries then |old(d)| else maxEntries
    {
      while |d| > maxEntries
        invariant Distinct(d)
        invariant DropSoonest(old(d), Excess(maxEntries, |old(d)|)) == DropSoonest(d, Excess(maxEntries, |d|))
        invariant |d| == |old(d)| || maxEntries <= |d| < |old(d)|
        decreases |d|
      {
        WithoutSoonest(d);
        d := Without(d, Soonest(d).key);
      }
    }

    method Invalidate(userId: Key)
      requires Valid()
      modifies this
      ensures Valid() && d == Without(old(d), userId)
    {
      WithoutFacts(d, userId);
      d := Without(d, userId);
    }

    method Clear()
      modifies this
      ensures d == []
    {
      d := [];
    }
  }
}

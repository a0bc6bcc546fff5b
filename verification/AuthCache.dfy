/** The LRU-with-TTL cache of verified users of src/onelo/_auth_cache.py.

    The ordered dictionary is the sequence of its entries, least recently used first. */
module AuthCache {
  import opened Prelude
  import opened TimedStore

  function Fetch<U>(s: Store<U>, key: Key, now: real): (Store<U>, Option<U>) {
    match Lookup(s, key)
    case None => (s, None)
    case Some(e) =>
      if now >= e.expiry then (Without(s, key), None)
      else (Touch(s, e), Some(e.value))
  }

  /** The newest `max` entries. */
  function Evict<U>(max: nat, s: Store<U>): (r: Store<U>)
    ensures |r| <= max && |r| <= |s| && r == s[|s| - |r|..]
  {
    if |s| > max then s[|s| - max..] else s
  }

  function Put<U>(max: nat, s: Store<U>, e: Entry<U>, ttl: real): Store<U> {
    if ttl <= 0.0 then s else Evict(max, Touch(s, e))
  }

  // ---------------------------------------------------------------- the object

  class InProcessSyncAuthCache<U(==)> {
    const maxSize: nat
    var store: Store<U>

    ghost predicate Valid()
      reads this
    {
      1 <= maxSize && |store| <= maxSize && Distinct(store)
    }

    constructor (max: nat)
      requires 1 <= max
      ensures Valid() && maxSize == max && store == []
    {
      maxSize := max;
      store := [];
    }

    method Get(key: Key, now: real) returns (user: Option<U>)
      requires Valid()
      modifies this
      ensures Valid() && (store, user) == Fetch(old(store), key, now)
    {
      var entry := Lookup(store, key);
      if entry.None? {
        return None;
      }
      WithoutFacts(store, key);
      if now >= entry.value.expiry {
        store := Without(store, key);
        return None;
      }
      TouchFacts(store, entry.value);
      store := Without(store, key) + [entry.value];
      return Some(entry.value.value);
    }

    method Set(key: Key, user: U, ttl: real, now: real)
      requires Valid()
      modifies this
      ensures Valid() && store == Put(maxSize, old(store), Entry(key, user, now + ttl), ttl)
    {
      if ttl <= 0.0 {
        return;
      }
      TouchFacts(store, Entry(key, user, now + ttl));
      store := Without(store, key) + [Entry(key, user, now + ttl)];
      ghost var all := store;
      while |store| > maxSize
        invariant |store| <= |all| && store == all[|all| - |store|..] && Distinct(store)
        invariant |store| >= maxSize || store == all
        decreases |store|
      {
        store := store[1..];
      }
    }

    method Invalidate(key: Key)
      requires Valid()
      modifies this
      ensures Valid() && store == Without(old(store), key)
    {
      WithoutFacts(store, key);
      store := Without(store, key);
    }
  }
}

/** A store of entries that expire, in a definite order: Python's ordered dictionaries. */
module TimedStore {
  import opened Prelude

  type Key = string

  datatype Entry<+V> = Entry(key: Key, value: V, expiry: real)

  type Store<+V> = seq<Entry<V>>

  function Keys<V>(s: Store<V>): set<Key>
    decreases |s|
  {
    if s == [] then {} else {s[0].key} + Keys(s[1..])
  }

  predicate Distinct<V>(s: Store<V>)
    decreases |s|
  {
    s == [] || (s[0].key !in Keys(s[1..]) && Distinct(s[1..]))
  }

  /** dict.get */
  function Lookup<V>(s: Store<V>, key: Key): (r: Option<Entry<V>>)
    ensures r.Some? ==> r.value in s && r.value.key == key
    ensures r.None? <==> key !in Keys(s)
    decreases |s|
  {
    if s == [] then None else if s[0].key == key then Some(s[0]) else Lookup(s[1..], key)
  }

  /** dict.pop */
  function Without<V>(s: Store<V>, key: Key): (r: Store<V>)
    ensures |r| <= |s|
    decreases |s|
  {
    if s == [] then []
    else if s[0].key == key then Without(s[1..], key)
    else [s[0]] + Without(s[1..], key)
  }

  /** An entry written, or moved, to the most recently used end. */
  function Touch<V>(s: Store<V>, e: Entry<V>): Store<V> {
    Without(s, e.key) + [e]
  }

  // ---------------------------------------------------------------- popping a key

  lemma {:induction false} WithoutFacts<V>(s: Store<V>, key: Key)
    ensures Keys(Without(s, key)) == Keys(s) - {key}
    ensures Distinct(s) ==> Distinct(Without(s, key))
    ensures key !in Keys(s) ==> Without(s, key) == s
    ensures Distinct(s) ==> |Without(s, key)| == |s| - if key in Keys(s) then 1 else 0
    ensures key in Keys(s) ==> |Without(s, key)| < |s|
    decreases |s|
  {
    if s != [] {
      WithoutFacts(s[1..], key);
      assert ([s[0]] + Without(s[1..], key))[1..] == Without(s[1..], key);
      assert s == [s[0]] + s[1..];
    }
  }

  lemma {:induction false} AppendFacts<V>(s: Store<V>, e: Entry<V>)
    ensures Keys(s + [e]) == Keys(s) + {e.key}
    ensures Distinct(s) && e.key !in Keys(s) ==> Distinct(s + [e])
    ensures Lookup(s + [e], e.key) == if e.key in Keys(s) then Lookup(s, e.key) else Some(e)
    decreases |s|
  {
    if s == [] {
      assert s + [e] == [e] && [e][1..] == [];
    } else {
      assert (s + [e])[1..] == s[1..] + [e];
      AppendFacts(s[1..], e);
    }
  }

  lemma TouchFacts<V>(s: Store<V>, e: Entry<V>)
    requires Distinct(s)
    ensures Keys(Touch(s, e)) == Keys(s) + {e.key} && Distinct(Touch(s, e))
    ensures |Touch(s, e)| == |s| + if e.key in Keys(s) then 0 else 1
  {
    WithoutFacts(s, e.key);
    AppendFacts(Without(s, e.key), e);
  }

  lemma {:induction false} SuffixFacts<V>(s: Store<V>, n: nat)
    requires n <= |s|
    ensures Keys(s[n..]) <= Keys(s)
    ensures Distinct(s) ==> Distinct(s[n..])
    decreases n
  {
    if n == 0 {
      assert s[0..] == s;
    } else {
      SuffixFacts(s[1..], n - 1);
      assert s[1..][n - 1..] == s[n..];
    }
  }

  // ---------------------------------------------------------------- the entries of a store

  lemma {:induction false} WithoutElements<V(!new)>(s: Store<V>, key: Key)
    ensures forall e :: e in Without(s, key) <==> e in s && e.key != key
    decreases |s|
  {
    if s != [] {
      WithoutElements(s[1..], key);
      assert s == [s[0]] + s[1..];
    }
  }

  lemma {:induction false} KeysOfElements<V(!new)>(s: Store<V>)
    ensures forall e :: e in s ==> e.key in Keys(s)
    decreases |s|
  {
    if s != [] {
      KeysOfElements(s[1..]);
      assert s == [s[0]] + s[1..];
    }
  }

  lemma {:induction false} SameKeySameEntry<V(!new)>(s: Store<V>)
    requires Distinct(s)
    ensures forall e: Entry<V>, f: Entry<V> :: e in s && f in s && e.key == f.key ==> e == f
    decreases |s|
  {
    if s != [] {
      SameKeySameEntry(s[1..]);
      KeysOfElements(s[1..]);
      assert s == [s[0]] + s[1..];
    }
  }
}

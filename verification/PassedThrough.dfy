/** What the metadata scrubber of src/onelo/monitor/_scrub.py lets through under its own report key, and so when an
    output is free of secrets altogether. */
module PassedThrough {
  import opened MetaScrubber

  // ---------------------------------------------------------------- no exception

  /** MetaScrubber.Safe without its exception: values under the report key are looked at like all others. */
  predicate Strict(p: Policy, leaf: string -> bool, v: Value)
    decreases v, 1
  {
    match v
    case Text(text) => leaf(text)
    case Dict(items) => ItemsStrict(p, leaf, items)
    case List(es) => AllStrict(p, leaf, es)
    case Tuple(es) => AllStrict(p, leaf, es)
    case NamedTuple(es) => AllStrict(p, leaf, es)
    case Scalar(_) => true
  }

  predicate ItemStrict(p: Policy, leaf: string -> bool, item: Item)
    decreases item, 2
  {
    if p.Redacts(item.key) then item.value == Text(REDACTED) else Strict(p, leaf, item.value)
  }

  predicate ItemsStrict(p: Policy, leaf: string -> bool, items: seq<Item>)
    decreases items, 0
  {
    items == [] || (ItemStrict(p, leaf, items[0]) && ItemsStrict(p, leaf, items[1..]))
  }

  predicate AllStrict(p: Policy, leaf: string -> bool, es: seq<Value>)
    decreases es, 0
  {
    es == [] || (Strict(p, leaf, es[0]) && AllStrict(p, leaf, es[1..]))
  }

  // ---------------------------------------------------------------- what stands under the report key

  /** In the input, every value under the report key that is met within the depth limit, and under no redacted key,
      is itself free of secrets; and if a dictionary is met at the limit, the marker's name is not secret. */
  predicate Harmless(p: Policy, leaf: string -> bool, v: Value, depth: nat)
    decreases v, 1
  {
    match v
    case Dict(items) => if depth >= MAX_DEPTH then !p.isPiiKey(DEPTH_MARKER) else ItemsHarmless(p, leaf, items, depth)
    case List(es) => depth >= MAX_DEPTH || AllHarmless(p, leaf, es, depth + 1)
    case Tuple(es) => depth >= MAX_DEPTH || AllHarmless(p, leaf, es, depth + 1)
    case NamedTuple(es) => depth >= MAX_DEPTH || AllHarmless(p, leaf, es, depth + 1)
    case _ => true
  }

  predicate ItemHarmless(p: Policy, leaf: string -> bool, item: Item, depth: nat)
    decreases item, 2
  {
    if item.key == Name(REDACTED_KEY) then Strict(p, leaf, item.value)
    else p.Redacts(item.key) || Harmless(p, leaf, item.value, depth + 1)
  }

  predicate ItemsHarmless(p: Policy, leaf: string -> bool, items: seq<Item>, depth: nat)
    decreases items, 0
  {
    items == [] || (ItemHarmless(p, leaf, items[0], depth) && ItemsHarmless(p, leaf, items[1..], depth))
  }

  predicate AllHarmless(p: Policy, leaf: string -> bool, es: seq<Value>, depth: nat)
    decreases es, 0
  {
    es == [] || (Harmless(p, leaf, es[0], depth) && AllHarmless(p, leaf, es[1..], depth))
  }

  // ---------------------------------------------------------------- exactly then

  lemma TooDeepStrict(p: Policy, leaf: string -> bool)
    ensures Strict(p, leaf, TOO_DEEP) <==> !p.isPiiKey(DEPTH_MARKER)
  {
    var item := Item(Name(DEPTH_MARKER), TRUE);
    assert |DEPTH_MARKER| != |REDACTED_KEY|;
    assert ItemStrict(p, leaf, item) <==> !p.isPiiKey(DEPTH_MARKER);
    assert [item][1..] == [];
    assert ItemsStrict(p, leaf, [item]) <==> ItemStrict(p, leaf, item);
  }

  lemma RedactedStrict(p: Policy, leaf: string -> bool)
    requires leaf(REDACTED)
    ensures AllStrict(p, leaf, [Text(REDACTED)])
  {
    assert [Text(REDACTED)][1..] == [] && Strict(p, leaf, Text(REDACTED));
  }

  lemma {:induction false} StrictExactly(p: Policy, leaf: string -> bool, v: Value, depth: nat)
    requires HoldsOfScrubbed(p, leaf)
    ensures Strict(p, leaf, ScrubValue(p, v, depth)) <==> Harmless(p, leaf, v, depth)
    decreases v, 1
  {
    TooDeepStrict(p, leaf);
    RedactedStrict(p, leaf);
    match v {
      case Dict(items) => ItemsStrictExactly(p, leaf, items, depth);
      case List(es) => AllStrictExactly(p, leaf, es, depth + 1);
      case Tuple(es) => AllStrictExactly(p, leaf, es, depth + 1);
      case NamedTuple(es) => AllStrictExactly(p, leaf, es, depth + 1);
      case _ =>
    }
  }

  lemma {:induction false} ItemsStrictExactly(p: Policy, leaf: string -> bool, items: seq<Item>, depth: nat)
    requires HoldsOfScrubbed(p, leaf)
    ensures ItemsStrict(p, leaf, ScrubItems(p, items, depth)) <==> ItemsHarmless(p, leaf, items, depth)
    decreases items, 0
  {
    if items != [] {
      ItemStrictExactly(p, leaf, items[0], depth);
      ItemsStrictExactly(p, leaf, items[1..], depth);
      var r := ScrubItems(p, items, depth);
      assert r[0] == ScrubItem(p, items[0], depth) && r[1..] == ScrubItems(p, items[1..], depth);
    }
  }

  lemma {:induction false} ItemStrictExactly(p: Policy, leaf: string -> bool, item: Item, depth: nat)
    requires HoldsOfScrubbed(p, leaf)
    ensures ItemStrict(p, leaf, ScrubItem(p, item, depth)) <==> ItemHarmless(p, leaf, item, depth)
    decreases item, 2
  {
    StrictExactly(p, leaf, item.value, depth + 1);
  }

  lemma {:induction false} AllStrictExactly(p: Policy, leaf: string -> bool, es: seq<Value>, depth: nat)
    requires HoldsOfScrubbed(p, leaf)
    ensures AllStrict(p, leaf, ScrubAll(p, es, depth)) <==> AllHarmless(p, leaf, es, depth)
    decreases es, 0
  {
    if es != [] {
      StrictExactly(p, leaf, es[0], depth);
      AllStrictExactly(p, leaf, es[1..], depth);
      var r := ScrubAll(p, es, depth);
      assert r[0] == ScrubValue(p, es[0], depth) && r[1..] == ScrubAll(p, es[1..], depth);
    }
  }

  // ---------------------------------------------------------------- results

  /** The input with the report already in place. */
  ghost function Reported(p: Policy, meta: seq<Item>): seq<Item> {
    var names := ItemNames(p, meta, 0);
    if names == {} then meta else SetItem(meta, Name(REDACTED_KEY), List(TextsOf(Sorted(names))))
  }

  /** For each input: its output is free of secrets, values under the report key included, exactly when the values
      that stand under that key, once the report is in place, are so themselves. */
  lemma OutputStrictExactly(p: Policy, leaf: string -> bool, meta: seq<Item>)
    requires HoldsOfScrubbed(p, leaf)
    ensures ItemsStrict(p, leaf, ScrubMeta(p, meta)) <==> ItemsHarmless(p, leaf, Reported(p, meta), 0)
  {
    ReportPassesThrough(p, meta, List(TextsOf(Sorted(ItemNames(p, meta, 0)))));
    ItemsStrictExactly(p, leaf, Reported(p, meta), 0);
  }

  lemma OneItem(p: Policy, item: Item, depth: nat)
    ensures ScrubItems(p, [item], depth) == [ScrubItem(p, item, depth)]
    ensures ItemNames(p, [item], depth) == NamesOfItem(p, item, depth)
  {
    assert [item][1..] == [];
    assert ScrubItems(p, [], depth) == [] && ItemNames(p, [], depth) == {};
  }

  /** An input, for any value, that comes out as it is: a nested dictionary with that value under the report key. */
  lemma NestedReportComesOut(p: Policy, v: Value)
    requires !p.isPiiKey("a")
    ensures var meta := [Item(Name("a"), Dict([Item(Name(REDACTED_KEY), v)]))]; ScrubMeta(p, meta) == meta
  {
    var inner := Item(Name(REDACTED_KEY), v);
    var outer := Item(Name("a"), Dict([inner]));
    assert |"a"| != |REDACTED_KEY|;
    OneItem(p, inner, 1);
    OneItem(p, outer, 0);
  }
}

/** The recursive scrubber of event metadata, src/onelo/monitor/_scrub.py.

    The text scrubber (a cascade of regular expressions) and the key test are parameters. */
module MetaScrubber {
  import opened Prelude

  const REDACTED := "[REDACTED]"
  const MAX_DEPTH: nat := 10
  const REDACTED_KEY := "_onelo_redacted"
  const DEPTH_MARKER := "_onelo_depth_exceeded"

  datatype Key = Name(text: string) | OtherKey(id: int)

  /** A Python value as far as the scrubber tells it apart; `Scalar` is anything it passes through. */
  datatype Value =
    | Text(text: string)
    | Dict(items: seq<Item>)
    | List(elements: seq<Value>)
    | Tuple(elements: seq<Value>)
    | NamedTuple(elements: seq<Value>)
    | Scalar(id: int)

  datatype Item = Item(key: Key, value: Value)

  const TRUE := Scalar(1)

  datatype Policy = Policy(scrubText: string -> string, isPiiKey: string -> bool) {
    predicate Redacts(key: Key) {
      key.Name? && key.text != REDACTED_KEY && isPiiKey(key.text)
    }
  }

  const TOO_DEEP := Dict([Item(Name(DEPTH_MARKER), TRUE)])

  // ---------------------------------------------------------------- what comes out

  function ScrubValue(p: Policy, v: Value, depth: nat): Value
    decreases v, 1
  {
    match v
    case Text(text) => Text(p.scrubText(text))
    case Dict(items) => if depth >= MAX_DEPTH then TOO_DEEP else Dict(ScrubItems(p, items, depth))
    case List(es) => if depth >= MAX_DEPTH then List([Text(REDACTED)]) else List(ScrubAll(p, es, depth + 1))
    case Tuple(es) => if depth >= MAX_DEPTH then List([Text(REDACTED)]) else Tuple(ScrubAll(p, es, depth + 1))
    case NamedTuple(es) => if depth >= MAX_DEPTH then List([Text(REDACTED)]) else List(ScrubAll(p, es, depth + 1))
    case Scalar(_) => v
  }

  function ScrubItem(p: Policy, item: Item, depth: nat): Item
    decreases item, 2
  {
    if item.key == Name(REDACTED_KEY) then item
    else if p.Redacts(item.key) then Item(item.key, Text(REDACTED))
    else Item(item.key, ScrubValue(p, item.value, depth + 1))
  }

  function ScrubItems(p: Policy, items: seq<Item>, depth: nat): (r: seq<Item>)
    decreases items, 0
  {
    if items == [] then [] else [ScrubItem(p, items[0], depth)] + ScrubItems(p, items[1..], depth)
  }

  function ScrubAll(p: Policy, es: seq<Value>, depth: nat): seq<Value>
    decreases es, 0
  {
    if es == [] then [] else [ScrubValue(p, es[0], depth)] + ScrubAll(p, es[1..], depth)
  }

  // ---------------------------------------------------------------- what is reported

  /** The names that scrubbing `v` adds to the redacted set. */
  function Names(p: Policy, v: Value, depth: nat): set<string>
    decreases v, 1
  {
    match v
    case Dict(items) => if depth >= MAX_DEPTH then {DEPTH_MARKER} else ItemNames(p, items, depth)
    case List(es) => if depth >= MAX_DEPTH then {DEPTH_MARKER} else AllNames(p, es, depth + 1)
    case Tuple(es) => if depth >= MAX_DEPTH then {DEPTH_MARKER} else AllNames(p, es, depth + 1)
    case NamedTuple(es) => if depth >= MAX_DEPTH then {DEPTH_MARKER} else AllNames(p, es, depth + 1)
    case _ => {}
  }

  function NamesOfItem(p: Policy, item: Item, depth: nat): set<string>
    decreases item, 2
  {
    if item.key == Name(REDACTED_KEY) then {}
    else if p.Redacts(item.key) then {item.key.text}
    else Names(p, item.value, depth + 1)
  }

  function ItemNames(p: Policy, items: seq<Item>, depth: nat): set<string>
    decreases items, 0
  {
    if items == [] then {} else NamesOfItem(p, items[0], depth) + ItemNames(p, items[1..], depth)
  }

  function AllNames(p: Policy, es: seq<Value>, depth: nat): set<string>
    decreases es, 0
  {
    if es == [] then {} else Names(p, es[0], depth) + AllNames(p, es[1..], depth)
  }

  /** d[key] = value */
  function SetItem(items: seq<Item>, key: Key, value: Value): seq<Item>
    decreases items
  {
    if items == [] then [Item(key, value)]
    else if items[0].key == key then [Item(key, value)] + items[1..]
    else [items[0]] + SetItem(items[1..], key, value)
  }

  // ---------------------------------------------------------------- sorted()

  predicate Leq(a: string, b: string)
    decreases |a|
  {
    a == [] || (b != [] && (a[0] < b[0] || (a[0] == b[0] && Leq(a[1..], b[1..]))))
  }

  lemma {:induction false} LeqTotal(a: string, b: string)
    ensures Leq(a, b) || Leq(b, a)
    ensures Leq(a, b) && Leq(b, a) ==> a == b
    decreases |a|
  {
    if a != [] && b != [] && a[0] == b[0] {
      LeqTotal(a[1..], b[1..]);
      assert a == [a[0]] + a[1..] && b == [b[0]] + b[1..];
    }
  }

  lemma {:induction false} LeqTransitive(a: string, b: string, c: string)
    requires Leq(a, b) && Leq(b, c)
    ensures Leq(a, c)
    decreases |a|
  {
    if a != [] && a[0] == b[0] && b[0] == c[0] {
      LeqTransitive(a[1..], b[1..], c[1..]);
    }
  }

  predicate IsLeast(m: string, names: set<string>) {
    m in names && forall x :: x in names ==> Leq(m, x)
  }

  lemma {:induction false} LeastExists(names: set<string>) returns (m: string)
    requires names != {}
    ensures IsLeast(m, names)
    decreases |names|
  {
    m :| m in names;
    var rest := names - {m};
    if rest != {} {
      var n := LeastExists(rest);
      LeqTotal(m, n);
      LeqTotal(m, m);
      forall x | x in names
        ensures Leq(if Leq(m, n) then m else n, x)
      {
        if x in rest && Leq(m, n) {
          LeqTransitive(m, n, x);
        }
      }
      m := if Leq(m, n) then m else n;
    } else {
      assert names == {m} + rest;
      LeqTotal(m, m);
    }
  }

  ghost function Sorted(names: set<string>): seq<string>
    decreases |names|
  {
    if names == {} then []
    else
      assert exists m :: IsLeast(m, names) by {
        var m := LeastExists(names);
      }
      var m :| IsLeast(m, names);
      [m] + Sorted(names - {m})
  }

  /** `sorted` puts every name in once, in ascending order. */
  lemma {:induction false} SortedFacts(names: set<string>)
    ensures forall x :: x in Sorted(names) <==> x in names
    ensures |Sorted(names)| == |names|
    ensures forall i, j :: 0 <= i < j < |Sorted(names)| ==> Leq(Sorted(names)[i], Sorted(names)[j])
    decreases |names|
  {
    if names != {} {
      var m := Sorted(names)[0];
      assert IsLeast(m, names) && Sorted(names) == [m] + Sorted(names - {m}) by {
        var l := LeastExists(names);
      }
      SortedFacts(names - {m});
      assert forall i :: 0 < i < |Sorted(names)| ==> Sorted(names)[i] == Sorted(names - {m})[i - 1];
    }
  }

  function TextsOf(names: seq<string>): seq<Value> {
    seq(|names|, i requires 0 <= i < |names| => Text(names[i]))
  }

  /** `scrub_meta` on a dictionary. */
  ghost function ScrubMeta(p: Policy, meta: seq<Item>): seq<Item> {
    var names := ItemNames(p, meta, 0);
    var cleaned := ScrubItems(p, meta, 0);
    if names == {} then cleaned else SetItem(cleaned, Name(REDACTED_KEY), List(TextsOf(Sorted(names))))
  }

  // ---------------------------------------------------------------- nesting

  function Max(a: nat, b: nat): nat {
    if a > b then a else b
  }

  /** How deeply containers are nested; what was passed through under the report key does not count. */
  function Height(v: Value): nat
    decreases v, 1
  {
    match v
    case Dict(items) => 1 + ItemsHeight(items)
    case List(es) => 1 + MaxHeight(es)
    case Tuple(es) => 1 + MaxHeight(es)
    case NamedTuple(es) => 1 + MaxHeight(es)
    case _ => 0
  }

  function ItemsHeight(items: seq<Item>): nat
    decreases items, 0
  {
    if items == [] then 0 else Max(ItemHeight(items[0]), ItemsHeight(items[1..]))
  }

  function ItemHeight(item: Item): nat
    decreases item, 2
  {
    if item.key == Name(REDACTED_KEY) then 0 else Height(item.value)
  }

  function MaxHeight(es: seq<Value>): nat
    decreases es, 0
  {
    if es == [] then 0 else Max(Height(es[0]), MaxHeight(es[1..]))
  }

  /** At depth `d` the output has no more than 11 - d levels of containers. */
  lemma {:induction false} NestingBounded(p: Policy, v: Value, depth: nat)
    ensures Height(ScrubValue(p, v, depth)) <= if depth <= 10 then 11 - depth else 1
    decreases v, 1
  {
    assert [Text(REDACTED)][1..] == [] && [Item(Name(DEPTH_MARKER), TRUE)][1..] == [];
    if depth < MAX_DEPTH {
      match v {
        case Dict(items) => ItemsNestingBounded(p, items, depth);
        case List(es) => AllNestingBounded(p, es, depth + 1);
        case Tuple(es) => AllNestingBounded(p, es, depth + 1);
        case NamedTuple(es) => AllNestingBounded(p, es, depth + 1);
        case _ =>
      }
    } else {
      assert MaxHeight([Text(REDACTED)]) == 0;
      assert ItemsHeight([Item(Name(DEPTH_MARKER), TRUE)]) == 0;
    }
  }

  lemma {:induction false} ItemsNestingBounded(p: Policy, items: seq<Item>, depth: nat)
    requires depth < MAX_DEPTH
    ensures ItemsHeight(ScrubItems(p, items, depth)) <= MAX_DEPTH - depth
    decreases items, 0
  {
    if items != [] {
      ItemNestingBounded(p, items[0], depth);
      ItemsNestingBounded(p, items[1..], depth);
      assert ScrubItems(p, items, depth)[1..] == ScrubItems(p, items[1..], depth);
    }
  }

  lemma {:induction false} ItemNestingBounded(p: Policy, item: Item, depth: nat)
    requires depth < MAX_DEPTH
    ensures ItemHeight(ScrubItem(p, item, depth)) <= MAX_DEPTH - depth
    decreases item, 2
  {
    NestingBounded(p, item.value, depth + 1);
  }

  lemma {:induction false} AllNestingBounded(p: Policy, es: seq<Value>, depth: nat)
    requires depth <= MAX_DEPTH
    ensures MaxHeight(ScrubAll(p, es, depth)) <= MAX_DEPTH + 1 - depth
    decreases es, 0
  {
    if es != [] {
      NestingBounded(p, es[0], depth);
      AllNestingBounded(p, es[1..], depth);
      assert ScrubAll(p, es, depth)[1..] == ScrubAll(p, es[1..], depth);
    }
  }

  /** `n` dictionaries nested under a harmless key. */
  function Chain(n: nat): Value {
    if n == 0 then Scalar(0) else Dict([Item(Name("a"), Chain(n - 1))])
  }

  lemma OneItemHeight(item: Item)
    requires item.key != Name(REDACTED_KEY)
    ensures ItemsHeight([item]) == Height(item.value)
  {
    assert [item][1..] == [];
  }

  /** The bound is met: of a long chain exactly 11 - depth levels are left. */
  lemma {:induction false} NestingBoundIsMet(p: Policy, n: nat, depth: nat)
    requires !p.isPiiKey("a") && depth <= 10
    ensures Height(ScrubValue(p, Chain(n), depth)) == if n <= 11 - depth then n else 11 - depth
    decreases n
  {
    assert ItemsHeight([Item(Name(DEPTH_MARKER), TRUE)]) == 0;
    if n > 0 && depth < MAX_DEPTH {
      NestingBoundIsMet(p, n - 1, depth + 1);
      var item := Item(Name("a"), Chain(n - 1));
      assert [item][1..] == [];
      assert ScrubItems(p, [item], depth) == [ScrubItem(p, item, depth)];
      assert "a" != REDACTED_KEY;
      OneItemHeight(ScrubItem(p, item, depth));
    }
  }

  // ---------------------------------------------------------------- what is left in the output

  /** No secret is left: a PII-named key carries the redaction constant, and every other text is as `leaf`
      says. What was passed through under the report key is not looked at. */
  predicate Safe(p: Policy, leaf: string -> bool, v: Value)
    decreases v, 1
  {
    match v
    case Text(text) => leaf(text)
    case Dict(items) => ItemsSafe(p, leaf, items)
    case List(es) => AllSafe(p, leaf, es)
    case Tuple(es) => AllSafe(p, leaf, es)
    case NamedTuple(es) => AllSafe(p, leaf, es)
    case Scalar(_) => true
  }

  predicate ItemSafe(p: Policy, leaf: string -> bool, item: Item)
    decreases item, 2
  {
    || item.key == Name(REDACTED_KEY)
    || if p.Redacts(item.key) then item.value == Text(REDACTED) else Safe(p, leaf, item.value)
  }

  predicate ItemsSafe(p: Policy, leaf: string -> bool, items: seq<Item>)
    decreases items, 0
  {
    items == [] || (ItemSafe(p, leaf, items[0]) && ItemsSafe(p, leaf, items[1..]))
  }

  predicate AllSafe(p: Policy, leaf: string -> bool, es: seq<Value>)
    decreases es, 0
  {
    es == [] || (Safe(p, leaf, es[0]) && AllSafe(p, leaf, es[1..]))
  }

  ghost predicate IdempotentText(p: Policy) {
    forall text :: p.scrubText(p.scrubText(text)) == p.scrubText(text)
  }

  /** `leaf` holds of whatever the text scrubber returns, and of the redaction constant. */
  ghost predicate HoldsOfScrubbed(p: Policy, leaf: string -> bool) {
    leaf(REDACTED) && forall text :: leaf(p.scrubText(text))
  }

  ghost function AnyText(): string -> bool {
    text => true
  }

  ghost function ScrubbedText(p: Policy): string -> bool {
    text => text == REDACTED || exists raw :: text == p.scrubText(raw)
  }

  ghost function FixedText(p: Policy): string -> bool {
    text => text == REDACTED || p.scrubText(text) == text
  }

  /** The marker of a collapsed sub-tree counts as safe exactly when its own name is not secret. */
  lemma TooDeepSafe(p: Policy, leaf: string -> bool)
    ensures Safe(p, leaf, TOO_DEEP) <==> !p.isPiiKey(DEPTH_MARKER)
  {
    var item := Item(Name(DEPTH_MARKER), TRUE);
    assert |DEPTH_MARKER| != |REDACTED_KEY|;
    assert ItemSafe(p, leaf, item) <==> !p.isPiiKey(DEPTH_MARKER);
    assert [item][1..] == [];
    assert ItemsSafe(p, leaf, [item]) <==> ItemSafe(p, leaf, item);
  }

  lemma {:induction false} OutputSafe(p: Policy, leaf: string -> bool, v: Value, depth: nat)
    requires HoldsOfScrubbed(p, leaf) && !p.isPiiKey(DEPTH_MARKER)
    ensures Safe(p, leaf, ScrubValue(p, v, depth))
    decreases v, 1
  {
    assert AllSafe(p, leaf, [Text(REDACTED)]) by {
      assert [Text(REDACTED)][1..] == [] && Safe(p, leaf, Text(REDACTED));
    }
    TooDeepSafe(p, leaf);
    match v {
      case Dict(items) => ItemsOutputSafe(p, leaf, items, depth);
      case List(es) => AllOutputSafe(p, leaf, es, depth + 1);
      case Tuple(es) => AllOutputSafe(p, leaf, es, depth + 1);
      case NamedTuple(es) => AllOutputSafe(p, leaf, es, depth + 1);
      case _ =>
    }
  }

  lemma {:induction false} ItemsOutputSafe(p: Policy, leaf: string -> bool, items: seq<Item>, depth: nat)
    requires HoldsOfScrubbed(p, leaf) && !p.isPiiKey(DEPTH_MARKER)
    ensures ItemsSafe(p, leaf, ScrubItems(p, items, depth))
    decreases items, 0
  {
    if items != [] {
      ItemOutputSafe(p, leaf, items[0], depth);
      ItemsOutputSafe(p, leaf, items[1..], depth);
      assert ScrubItems(p, items, depth)[1..] == ScrubItems(p, items[1..], depth);
    }
  }

  lemma {:induction false} ItemOutputSafe(p: Policy, leaf: string -> bool, item: Item, depth: nat)
    requires HoldsOfScrubbed(p, leaf) && !p.isPiiKey(DEPTH_MARKER)
    ensures ItemSafe(p, leaf, ScrubItem(p, item, depth))
    decreases item, 2
  {
    OutputSafe(p, leaf, item.value, depth + 1);
  }

  lemma {:induction false} AllOutputSafe(p: Policy, leaf: string -> bool, es: seq<Value>, depth: nat)
    requires HoldsOfScrubbed(p, leaf) && !p.isPiiKey(DEPTH_MARKER)
    ensures AllSafe(p, leaf, ScrubAll(p, es, depth))
    decreases es, 0
  {
    if es != [] {
      OutputSafe(p, leaf, es[0], depth);
      AllOutputSafe(p, leaf, es[1..], depth);
      assert ScrubAll(p, es, depth)[1..] == ScrubAll(p, es[1..], depth);
    }
  }

  lemma {:induction false} SetReportChangesNothing(p: Policy, leaf: string -> bool, items: seq<Item>, report: Value)
    ensures ItemsSafe(p, leaf, items) <==> ItemsSafe(p, leaf, SetItem(items, Name(REDACTED_KEY), report))
    ensures ItemsHeight(SetItem(items, Name(REDACTED_KEY), report)) == ItemsHeight(items)
    decreases items
  {
    if items == [] {
      assert [Item(Name(REDACTED_KEY), report)][1..] == [];
    } else {
      SetReportChangesNothing(p, leaf, items[1..], report);
      var r := SetItem(items, Name(REDACTED_KEY), report);
      assert r[1..] == items[1..] || r[1..] == SetItem(items[1..], Name(REDACTED_KEY), report);
    }
  }

  // ---------------------------------------------------------------- a second pass

  lemma {:induction false} ScrubTwice(p: Policy, v: Value, depth: nat)
    requires IdempotentText(p)
    ensures ScrubValue(p, ScrubValue(p, v, depth), depth) == ScrubValue(p, v, depth)
    ensures Names(p, ScrubValue(p, v, depth), depth) == Names(p, v, depth)
    decreases v, 1
  {
    match v {
      case Dict(items) => ScrubItemsTwice(p, items, depth);
      case List(es) => ScrubAllTwice(p, es, depth + 1);
      case Tuple(es) => ScrubAllTwice(p, es, depth + 1);
      case NamedTuple(es) => ScrubAllTwice(p, es, depth + 1);
      case _ =>
    }
  }

  lemma {:induction false} ScrubItemsTwice(p: Policy, items: seq<Item>, depth: nat)
    requires IdempotentText(p)
    ensures ScrubItems(p, ScrubItems(p, items, depth), depth) == ScrubItems(p, items, depth)
    ensures ItemNames(p, ScrubItems(p, items, depth), depth) == ItemNames(p, items, depth)
    decreases items, 0
  {
    if items != [] {
      ScrubItemTwice(p, items[0], depth);
      ScrubItemsTwice(p, items[1..], depth);
      var once := ScrubItems(p, items, depth);
      assert once[0] == ScrubItem(p, items[0], depth) && once[1..] == ScrubItems(p, items[1..], depth);
    }
  }

  lemma {:induction false} ScrubItemTwice(p: Policy, item: Item, depth: nat)
    requires IdempotentText(p)
    ensures ScrubItem(p, ScrubItem(p, item, depth), depth) == ScrubItem(p, item, depth)
    ensures NamesOfItem(p, ScrubItem(p, item, depth), depth) == NamesOfItem(p, item, depth)
    decreases item, 2
  {
    ScrubTwice(p, item.value, depth + 1);
  }

  lemma {:induction false} ScrubAllTwice(p: Policy, es: seq<Value>, depth: nat)
    requires IdempotentText(p)
    ensures ScrubAll(p, ScrubAll(p, es, depth), depth) == ScrubAll(p, es, depth)
    ensures AllNames(p, ScrubAll(p, es, depth), depth) == AllNames(p, es, depth)
    decreases es, 0
  {
    if es != [] {
      ScrubTwice(p, es[0], depth);
      ScrubAllTwice(p, es[1..], depth);
      var once := ScrubAll(p, es, depth);
      assert once[0] == ScrubValue(p, es[0], depth) && once[1..] == ScrubAll(p, es[1..], depth);
    }
  }

  /** The report is passed through, wherever it stands. */
  lemma {:induction false} ReportPassesThrough(p: Policy, items: seq<Item>, report: Value)
    ensures ScrubItems(p, SetItem(items, Name(REDACTED_KEY), report), 0) ==
            SetItem(ScrubItems(p, items, 0), Name(REDACTED_KEY), report)
    ensures ItemNames(p, SetItem(items, Name(REDACTED_KEY), report), 0) == ItemNames(p, items, 0)
    decreases items
  {
    var key := Name(REDACTED_KEY);
    var set' := SetItem(items, key, report);
    if items == [] {
      assert set'[1..] == [];
      assert ScrubItems(p, [], 0) == [] && ItemNames(p, [], 0) == {};
      assert ScrubItems(p, set', 0) == [Item(key, report)] + [];
    } else {
      ReportPassesThrough(p, items[1..], report);
      var scrubbed := ScrubItems(p, items, 0);
      assert scrubbed[0].key == items[0].key && scrubbed[1..] == ScrubItems(p, items[1..], 0);
      if items[0].key == key {
        assert set'[1..] == items[1..];
        assert ScrubItems(p, set', 0) == [Item(key, report)] + ScrubItems(p, items[1..], 0);
      } else {
        assert set'[1..] == SetItem(items[1..], key, report);
      }
    }
  }

  lemma {:induction false} SetItemTwice(items: seq<Item>, key: Key, value: Value)
    ensures SetItem(SetItem(items, key, value), key, value) == SetItem(items, key, value)
    decreases items
  {
    var once := SetItem(items, key, value);
    if items != [] && items[0].key != key {
      SetItemTwice(items[1..], key, value);
      assert once[1..] == SetItem(items[1..], key, value);
    } else {
      assert once[0] == Item(key, value);
      assert once == [once[0]] + once[1..];
    }
  }

  // ---------------------------------------------------------------- results

  /** Scrubbing is idempotent for any idempotent text scrubber, whatever keys count as secret. */
  lemma ScrubMetaIdempotent(p: Policy, meta: seq<Item>)
    requires IdempotentText(p)
    ensures ScrubMeta(p, ScrubMeta(p, meta)) == ScrubMeta(p, meta)
  {
    var names, cleaned := ItemNames(p, meta, 0), ScrubItems(p, meta, 0);
    var report := List(TextsOf(Sorted(names)));
    ScrubItemsTwice(p, meta, 0);
    ReportPassesThrough(p, cleaned, report);
    SetItemTwice(cleaned, Name(REDACTED_KEY), report);
  }

  /** At most ten levels of containers below the top dictionary. */
  lemma ScrubMetaNesting(p: Policy, meta: seq<Item>)
    ensures ItemsHeight(ScrubMeta(p, meta)) <= 10
  {
    ItemsNestingBounded(p, meta, 0);
    SetReportChangesNothing(p, AnyText(), ScrubItems(p, meta, 0), List(TextsOf(Sorted(ItemNames(p, meta, 0)))));
  }

  /** `n` lists around an empty dictionary. */
  function Lists(n: nat): Value {
    if n == 0 then Dict([]) else List([Lists(n - 1)])
  }

  lemma {:induction false} ListsUnsafe(p: Policy, leaf: string -> bool, n: nat, depth: nat)
    requires p.isPiiKey(DEPTH_MARKER) && n + depth == MAX_DEPTH
    ensures !Safe(p, leaf, ScrubValue(p, Lists(n), depth))
    decreases n
  {
    if n == 0 {
      TooDeepSafe(p, leaf);
    } else {
      ListsUnsafe(p, leaf, n - 1, depth + 1);
      var inner := Lists(n - 1);
      assert [inner][1..] == [] && ScrubAll(p, [], depth + 1) == [];
      assert ScrubAll(p, [inner], depth + 1)[0] == ScrubValue(p, inner, depth + 1);
    }
  }

  /** Every output has its secret keys redacted, and its other texts as `leaf` says, exactly when the depth
      marker's own name does not count as secret. */
  lemma ScrubMetaSafe(p: Policy, leaf: string -> bool)
    requires HoldsOfScrubbed(p, leaf)
    ensures (forall meta :: ItemsSafe(p, leaf, ScrubMeta(p, meta))) <==> !p.isPiiKey(DEPTH_MARKER)
  {
    forall meta
      ensures ItemsSafe(p, leaf, ScrubMeta(p, meta)) <==> ItemsSafe(p, leaf, ScrubItems(p, meta, 0))
    {
      SetReportChangesNothing(p, leaf, ScrubItems(p, meta, 0), List(TextsOf(Sorted(ItemNames(p, meta, 0)))));
    }
    if p.isPiiKey(DEPTH_MARKER) {
      var item := Item(OtherKey(0), Lists(9));
      ListsUnsafe(p, leaf, 9, 1);
      assert [item][1..] == [] && ScrubItems(p, [], 0) == [];
      assert ScrubItems(p, [item], 0)[0] == ScrubItem(p, item, 0);
      assert !ItemsSafe(p, leaf, ScrubMeta(p, [item]));
    } else {
      forall meta
        ensures ItemsSafe(p, leaf, ScrubItems(p, meta, 0))
      {
        ItemsOutputSafe(p, leaf, meta, 0);
      }
    }
  }

  /** For any text scrubber whatever, every output has all its secret keys redacted exactly when the depth
      marker's own name is not secret. */
  lemma SecretKeysAreRedacted(p: Policy)
    ensures (forall meta :: ItemsSafe(p, AnyText(), ScrubMeta(p, meta))) <==> !p.isPiiKey(DEPTH_MARKER)
  {
    ScrubMetaSafe(p, AnyText());
  }

  /** ... and every other text has been through the text scrubber. */
  lemma TextsAreScrubbed(p: Policy)
    ensures (forall meta :: ItemsSafe(p, ScrubbedText(p), ScrubMeta(p, meta))) <==> !p.isPiiKey(DEPTH_MARKER)
  {
    forall text
      ensures ScrubbedText(p)(p.scrubText(text))
    {
    }
    ScrubMetaSafe(p, ScrubbedText(p));
  }

  /** ... and scrubbing it again would find nothing, if the text scrubber is idempotent. */
  lemma TextsAreClean(p: Policy)
    requires IdempotentText(p)
    ensures (forall meta :: ItemsSafe(p, FixedText(p), ScrubMeta(p, meta))) <==> !p.isPiiKey(DEPTH_MARKER)
  {
    ScrubMetaSafe(p, FixedText(p));
  }

  // ---------------------------------------------------------------- the reported names, by paths

  predicate IsContainer(v: Value) {
    v.Dict? || v.List? || v.Tuple? || v.NamedTuple?
  }

  /** One step down, other than under a key that is redacted or passed through. */
  function Child(p: Policy, v: Value, i: nat): Option<Value> {
    match v
    case Dict(items) =>
      if i < |items| && items[i].key != Name(REDACTED_KEY) && !p.Redacts(items[i].key) then Some(items[i].value)
      else None
    case List(es) => if i < |es| then Some(es[i]) else None
    case Tuple(es) => if i < |es| then Some(es[i]) else None
    case NamedTuple(es) => if i < |es| then Some(es[i]) else None
    case _ => None
  }

  function Follow(p: Policy, v: Value, path: seq<nat>): Option<Value>
    decreases |path|
  {
    if path == [] then Some(v)
    else
      match Child(p, v, path[0])
      case None => None
      case Some(child) => Follow(p, child, path[1..])
  }

  predicate HasSecretKey(p: Policy, v: Value, name: string) {
    v.Dict? && exists i :: 0 <= i < |v.items| && p.Redacts(v.items[i].key) && v.items[i].key.text == name
  }

  /** `path` leads to the reason for reporting `name`: a dictionary within the depth limit that has it as
      a secret key, or, for the marker, a container at the limit. */
  predicate Shows(p: Policy, v: Value, depth: nat, path: seq<nat>, name: string) {
    && |path| + depth <= MAX_DEPTH
    && match Follow(p, v, path)
       case None => false
       case Some(w) =>
         if |path| + depth < MAX_DEPTH then HasSecretKey(p, w, name) else IsContainer(w) && name == DEPTH_MARKER
  }

  lemma {:induction false} ItemNamesAt(p: Policy, items: seq<Item>, depth: nat, i: nat)
    requires i < |items|
    ensures NamesOfItem(p, items[i], depth) <= ItemNames(p, items, depth)
    decreases items
  {
    if i > 0 {
      ItemNamesAt(p, items[1..], depth, i - 1);
    }
  }

  lemma {:induction false} ItemNamesFrom(p: Policy, items: seq<Item>, depth: nat, name: string) returns (i: nat)
    requires name in ItemNames(p, items, depth)
    ensures i < |items| && name in NamesOfItem(p, items[i], depth)
    decreases items
  {
    if name in NamesOfItem(p, items[0], depth) {
      i := 0;
    } else {
      var j := ItemNamesFrom(p, items[1..], depth, name);
      i := j + 1;
    }
  }

  lemma {:induction false} AllNamesAt(p: Policy, es: seq<Value>, depth: nat, i: nat)
    requires i < |es|
    ensures Names(p, es[i], depth) <= AllNames(p, es, depth)
    decreases es
  {
    if i > 0 {
      AllNamesAt(p, es[1..], depth, i - 1);
    }
  }

  lemma {:induction false} AllNamesFrom(p: Policy, es: seq<Value>, depth: nat, name: string) returns (i: nat)
    requires name in AllNames(p, es, depth)
    ensures i < |es| && name in Names(p, es[i], depth)
    decreases es
  {
    if name in Names(p, es[0], depth) {
      i := 0;
    } else {
      var j := AllNamesFrom(p, es[1..], depth, name);
      i := j + 1;
    }
  }

  lemma {:induction false} NameHasPath(p: Policy, v: Value, depth: nat, name: string) returns (path: seq<nat>)
    requires depth <= MAX_DEPTH && name in Names(p, v, depth)
    ensures Shows(p, v, depth, path, name)
    decreases MAX_DEPTH - depth
  {
    path := [];
    if depth < MAX_DEPTH {
      var i;
      if v.Dict? {
        i := ItemNamesFrom(p, v.items, depth, name);
        if p.Redacts(v.items[i].key) {
          return;
        }
      } else {
        i := AllNamesFrom(p, v.elements, depth + 1, name);
      }
      var below := NameHasPath(p, Child(p, v, i).value, depth + 1, name);
      path := [i] + below;
      assert path[1..] == below;
    }
  }

  lemma {:induction false} PathGivesName(p: Policy, v: Value, depth: nat, path: seq<nat>, name: string)
    requires Shows(p, v, depth, path, name)
    ensures name in Names(p, v, depth)
    decreases |path|
  {
    if path == [] {
      if depth < MAX_DEPTH {
        var i :| 0 <= i < |v.items| && p.Redacts(v.items[i].key) && v.items[i].key.text == name;
        ItemNamesAt(p, v.items, depth, i);
      }
    } else {
      var i := path[0];
      PathGivesName(p, Child(p, v, i).value, depth + 1, path[1..], name);
      if v.Dict? {
        ItemNamesAt(p, v.items, depth, i);
      } else {
        AllNamesAt(p, v.elements, depth + 1, i);
      }
    }
  }

  lemma {:induction false} SetItemIsIn(items: seq<Item>, key: Key, value: Value)
    ensures Item(key, value) in SetItem(items, key, value)
    decreases items
  {
    if items != [] && items[0].key != key {
      SetItemIsIn(items[1..], key, value);
    }
  }

  /** The list added under the report key holds exactly the secret keys met on a way down from the top
      that crosses no redacted and no passed-through key, and the depth marker exactly when such a way
      reaches a container at the depth limit; without any, no list is added. */
  lemma ReportIsExact(p: Policy, meta: seq<Item>, name: string)
    ensures name in ItemNames(p, meta, 0) <==> exists path :: Shows(p, Dict(meta), 0, path, name)
    ensures name in Sorted(ItemNames(p, meta, 0)) <==> name in ItemNames(p, meta, 0)
    ensures ItemNames(p, meta, 0) == {} ==> ScrubMeta(p, meta) == ScrubItems(p, meta, 0)
    ensures ItemNames(p, meta, 0) != {} ==>
              Item(Name(REDACTED_KEY), List(TextsOf(Sorted(ItemNames(p, meta, 0))))) in ScrubMeta(p, meta)
  {
    SortedFacts(ItemNames(p, meta, 0));
    SetItemIsIn(ScrubItems(p, meta, 0), Name(REDACTED_KEY), List(TextsOf(Sorted(ItemNames(p, meta, 0)))));
    if name in ItemNames(p, meta, 0) {
      var path := NameHasPath(p, Dict(meta), 0, name);
    }
    if exists path :: Shows(p, Dict(meta), 0, path, name) {
      var path :| Shows(p, Dict(meta), 0, path, name);
      PathGivesName(p, Dict(meta), 0, path, name);
    }
  }

  // ---------------------------------------------------------------- the scrubber itself

  lemma ItemsFrom(p: Policy, items: seq<Item>, depth: nat, i: nat)
    requires i < |items|
    ensures ScrubItems(p, items[i..], depth) == [ScrubItem(p, items[i], depth)] + ScrubItems(p, items[i + 1..], depth)
    ensures ItemNames(p, items[i..], depth) == NamesOfItem(p, items[i], depth) + ItemNames(p, items[i + 1..], depth)
  {
    assert items[i..][1..] == items[i + 1..];
  }

  lemma AllFrom(p: Policy, es: seq<Value>, depth: nat, i: nat)
    requires i < |es|
    ensures ScrubAll(p, es[i..], depth) == [ScrubValue(p, es[i], depth)] + ScrubAll(p, es[i + 1..], depth)
    ensures AllNames(p, es[i..], depth) == Names(p, es[i], depth) + AllNames(p, es[i + 1..], depth)
  {
    assert es[i..][1..] == es[i + 1..];
  }

  /** One run of the scrubber: `redacted` is the set that the recursion shares. */
  class Scrubber {
    const p: Policy
    var redacted: set<string>

    constructor (policy: Policy)
      ensures p == policy && redacted == {}
    {
      p := policy;
      redacted := {};
    }

    method CleanDict(items: seq<Item>, depth: nat) returns (out: Value)
      modifies this
      ensures out == ScrubValue(p, Dict(items), depth)
      ensures redacted == old(redacted) + Names(p, Dict(items), depth)
      decreases if depth < MAX_DEPTH then MAX_DEPTH - depth else 0, 1
    {
      if depth >= MAX_DEPTH {
        redacted := redacted + {DEPTH_MARKER};
        return TOO_DEEP;
      }
      var cleaned: seq<Item> := [];
      assert items[0..] == items;
      for i := 0 to |items|
        invariant ScrubItems(p, items, depth) == cleaned + ScrubItems(p, items[i..], depth)
        invariant old(redacted) + ItemNames(p, items, depth) == redacted + ItemNames(p, items[i..], depth)
      {
        ItemsFrom(p, items, depth, i);
        var item := CleanItem(items[i], depth);
        cleaned := cleaned + [item];
      }
      return Dict(cleaned);
    }

    /** The part of the loop body of CleanDict that treats one item. */
    method CleanItem(item: Item, depth: nat) returns (out: Item)
      requires depth < MAX_DEPTH
      modifies this
      ensures out == ScrubItem(p, item, depth)
      ensures redacted == old(redacted) + NamesOfItem(p, item, depth)
      decreases MAX_DEPTH - depth, 0
    {
      if item.key == Name(REDACTED_KEY) {
        return item;
      }
      if item.key.Name? && p.isPiiKey(item.key.text) {
        redacted := redacted + {item.key.text};
        return Item(item.key, Text(REDACTED));
      }
      var value := CleanValue(item.value, depth + 1);
      return Item(item.key, value);
    }

    method CleanValue(v: Value, depth: nat) returns (out: Value)
      modifies this
      ensures out == ScrubValue(p, v, depth)
      ensures redacted == old(redacted) + Names(p, v, depth)
      decreases if depth < MAX_DEPTH then MAX_DEPTH - depth else 0, 2
    {
      if v.Text? {
        return Text(p.scrubText(v.text));
      }
      if v.Dict? {
        out := CleanDict(v.items, depth);
        return;
      }
      if v.Scalar? {
        return v;
      }
      if depth >= MAX_DEPTH {
        redacted := redacted + {DEPTH_MARKER};
        return List([Text(REDACTED)]);
      }
      var cleaned := CleanAll(v.elements, depth + 1);
      return if v.Tuple? then Tuple(cleaned) else List(cleaned);
    }

    /** The generator over the elements of a list or a tuple. */
    method CleanAll(es: seq<Value>, depth: nat) returns (cleaned: seq<Value>)
      requires 0 < depth <= MAX_DEPTH
      modifies this
      ensures cleaned == ScrubAll(p, es, depth)
      ensures redacted == old(redacted) + AllNames(p, es, depth)
      decreases MAX_DEPTH - depth, 3
    {
      cleaned := [];
      assert es[0..] == es;
      for i := 0 to |es|
        invariant ScrubAll(p, es, depth) == cleaned + ScrubAll(p, es[i..], depth)
        invariant old(redacted) + AllNames(p, es, depth) == redacted + AllNames(p, es[i..], depth)
      {
        AllFrom(p, es, depth, i);
        var element := CleanValue(es[i], depth);
        cleaned := cleaned + [element];
      }
    }
  }

  method SortNames(names: set<string>) returns (sorted: seq<string>)
    ensures sorted == Sorted(names)
  {
    sorted := [];
    var rest := names;
    while rest != {}
      invariant Sorted(names) == sorted + Sorted(rest)
      decreases |rest|
    {
      ghost var l := LeastExists(rest);
      var m :| m in rest && forall x :: x in rest ==> Leq(m, x);
      LeqTotal(m, Sorted(rest)[0]);
      sorted := sorted + [m];
      rest := rest - {m};
    }
  }

  method CleanMeta(policy: Policy, meta: Option<seq<Item>>) returns (cleaned: Option<seq<Item>>)
    ensures cleaned == match meta case None => None case Some(items) => Some(ScrubMeta(policy, items))
  {
    if meta.None? {
      return None;
    }
    var scrubber := new Scrubber(policy);
    var out := scrubber.CleanDict(meta.value, 0);
    var items := out.items;
    assert items == ScrubItems(policy, meta.value, 0);
    assert scrubber.redacted == ItemNames(policy, meta.value, 0);
    if scrubber.redacted != {} {
      var sorted := SortNames(scrubber.redacted);
      items := SetItem(items, Name(REDACTED_KEY), List(TextsOf(sorted)));
    }
    assert items == ScrubMeta(policy, meta.value);
    return Some(items);
  }
}

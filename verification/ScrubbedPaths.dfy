/** What becomes of each single value that the metadata scrubber of src/onelo/monitor/_scrub.py meets: the way that
    leads to it in the input leads to its scrubbed form in the output. */
module ScrubbedPaths {
  import opened Prelude
  import opened MetaScrubber

  // ---------------------------------------------------------------- ways in the output

  /** One step down, whatever the key. */
  function Part(v: Value, i: nat): Option<Value> {
    match v
    case Dict(items) => if i < |items| then Some(items[i].value) else None
    case List(es) => if i < |es| then Some(es[i]) else None
    case Tuple(es) => if i < |es| then Some(es[i]) else None
    case NamedTuple(es) => if i < |es| then Some(es[i]) else None
    case _ => None
  }

  function Reach(v: Value, path: seq<nat>): Option<Value>
    decreases |path|
  {
    if path == [] then Some(v)
    else
      match Part(v, path[0])
      case None => None
      case Some(part) => Reach(part, path[1..])
  }

  lemma {:induction false} ItemsLength(p: Policy, items: seq<Item>, depth: nat)
    ensures |ScrubItems(p, items, depth)| == |items|
    decreases items
  {
    if items != [] {
      ItemsLength(p, items[1..], depth);
    }
  }

  lemma {:induction false} ItemAt(p: Policy, items: seq<Item>, depth: nat, i: nat)
    requires i < |items|
    ensures |ScrubItems(p, items, depth)| == |items|
    ensures ScrubItems(p, items, depth)[i] == ScrubItem(p, items[i], depth)
    decreases items
  {
    if i > 0 {
      ItemAt(p, items[1..], depth, i - 1);
    } else {
      ItemsLength(p, items, depth);
    }
  }

  lemma {:induction false} AllLength(p: Policy, es: seq<Value>, depth: nat)
    ensures |ScrubAll(p, es, depth)| == |es|
    decreases es
  {
    if es != [] {
      AllLength(p, es[1..], depth);
    }
  }

  lemma {:induction false} ElementAt(p: Policy, es: seq<Value>, depth: nat, i: nat)
    requires i < |es|
    ensures |ScrubAll(p, es, depth)| == |es| && ScrubAll(p, es, depth)[i] == ScrubValue(p, es[i], depth)
    decreases es
  {
    if i > 0 {
      ElementAt(p, es[1..], depth, i - 1);
    } else {
      AllLength(p, es, depth);
    }
  }

  /** A step down in the input is a step down in the output, to the scrubbed value. */
  lemma PartOfScrubbed(p: Policy, v: Value, depth: nat, i: nat)
    requires depth < MAX_DEPTH && Child(p, v, i).Some?
    ensures Part(ScrubValue(p, v, depth), i) == Some(ScrubValue(p, Child(p, v, i).value, depth + 1))
  {
    match v {
      case Dict(items) => ItemAt(p, items, depth, i);
      case List(es) => ElementAt(p, es, depth + 1, i);
      case Tuple(es) => ElementAt(p, es, depth + 1, i);
      case NamedTuple(es) => ElementAt(p, es, depth + 1, i);
    }
  }

  lemma {:induction false} ReachScrubbed(p: Policy, v: Value, depth: nat, path: seq<nat>)
    requires |path| + depth <= MAX_DEPTH && Follow(p, v, path).Some?
    ensures Reach(ScrubValue(p, v, depth), path) == Some(ScrubValue(p, Follow(p, v, path).value, depth + |path|))
    decreases |path|
  {
    if path != [] {
      PartOfScrubbed(p, v, depth, path[0]);
      ReachScrubbed(p, Child(p, v, path[0]).value, depth + 1, path[1..]);
    }
  }

  // ---------------------------------------------------------------- one value

  /** A string key that the key test takes for a secret's, other than the report key. */
  predicate Secret(p: Policy, key: Key) {
    key.Name? && key.text != "_onelo_redacted" && p.isPiiKey(key.text)
  }

  /** What comes out for one value at a depth: each text scrubbed, each scalar as it is, a container of the same
      size, of the same kind but for named tuples, and with the same keys; at the limit only a marker. */
  predicate ComesOut(p: Policy, v: Value, depth: nat, out: Value) {
    match v
    case Text(text) => out == Text(p.scrubText(text))
    case Scalar(_) => out == v
    case Dict(items) =>
      if depth >= 10 then out == Dict([Item(Name("_onelo_depth_exceeded"), TRUE)])
      else
        && out.Dict? && |out.items| == |items|
        && forall i :: 0 <= i < |items| ==>
             && out.items[i].key == items[i].key
             && (items[i].key == Name("_onelo_redacted") ==> out.items[i] == items[i])
             && (Secret(p, items[i].key) ==> out.items[i].value == Text("[REDACTED]"))
    case List(es) => if depth >= 10 then out == List([Text("[REDACTED]")]) else out.List? && |out.elements| == |es|
    case Tuple(es) => if depth >= 10 then out == List([Text("[REDACTED]")]) else out.Tuple? && |out.elements| == |es|
    case NamedTuple(es) =>
      if depth >= 10 then out == List([Text("[REDACTED]")]) else out.List? && |out.elements| == |es|
  }

  lemma ScrubbedComesOut(p: Policy, v: Value, depth: nat)
    ensures ComesOut(p, v, depth, ScrubValue(p, v, depth))
  {
    match v {
      case Dict(items) =>
        ItemsLength(p, items, depth);
        forall i | 0 <= i < |items|
          ensures ScrubItems(p, items, depth)[i] == ScrubItem(p, items[i], depth)
        {
          ItemAt(p, items, depth, i);
        }
      case List(es) => AllLength(p, es, depth + 1);
      case Tuple(es) => AllLength(p, es, depth + 1);
      case NamedTuple(es) => AllLength(p, es, depth + 1);
      case _ =>
    }
  }

  // ---------------------------------------------------------------- the whole metadata

  lemma {:induction false} SetItemKeeps(items: seq<Item>, key: Key, value: Value, i: nat)
    requires i < |items|
    ensures i < |SetItem(items, key, value)| && SetItem(items, key, value)[i].key == items[i].key
    ensures items[i].key != key ==> SetItem(items, key, value)[i] == items[i]
    decreases items
  {
    if i > 0 && items[0].key != key {
      SetItemKeeps(items[1..], key, value, i - 1);
    }
  }

  lemma {:induction false} SetItemSize(items: seq<Item>, key: Key, value: Value)
    ensures var r := SetItem(items, key, value);
            if exists i :: 0 <= i < |items| && items[i].key == key then |r| == |items|
            else r == items + [Item(key, value)]
    decreases items
  {
    if items != [] && items[0].key != key {
      SetItemSize(items[1..], key, value);
      if exists i :: 0 <= i < |items[1..]| && items[1..][i].key == key {
        var i :| 0 <= i < |items[1..]| && items[1..][i].key == key;
        assert items[i + 1].key == key;
      } else {
        assert forall i :: 0 < i < |items| ==> items[i] == items[1..][i - 1];
        assert [items[0]] + (items[1..] + [Item(key, value)]) == items + [Item(key, value)];
      }
    } else if items != [] {
      assert items[0].key == key;
    }
  }

  /** Wherever a way through no secret and no passed-through key leads to a value, within the limit, the same way
      leads to what comes out for that very value. */
  lemma EachValueComesOut(p: Policy, meta: seq<Item>, path: seq<nat>)
    requires 1 <= |path| <= 10 && Follow(p, Dict(meta), path).Some?
    ensures var out := Reach(Dict(ScrubMeta(p, meta)), path);
            out.Some? && ComesOut(p, Follow(p, Dict(meta), path).value, |path|, out.value)
  {
    var i, cleaned := path[0], ScrubItems(p, meta, 0);
    ReachScrubbed(p, Dict(meta), 0, path);
    ScrubbedComesOut(p, Follow(p, Dict(meta), path).value, |path|);
    ItemAt(p, meta, 0, i);
    SetItemKeeps(cleaned, Name(REDACTED_KEY), List(TextsOf(Sorted(ItemNames(p, meta, 0)))), i);
    assert Reach(Dict(cleaned), path) == Reach(cleaned[i].value, path[1..]);
    assert ScrubMeta(p, meta)[i] == cleaned[i];
  }

  /** And the top dictionary has the same keys in the same order, with secret ones redacted; the report alone may be
      added at the end, or take the place of one that is there. */
  lemma TopComesOut(p: Policy, meta: seq<Item>)
    ensures var out := ScrubMeta(p, meta);
            && |meta| <= |out| <= |meta| + 1
            && (|out| > |meta| ==> out[|meta|].key == Name("_onelo_redacted"))
            && (|out| > |meta| ==> forall i :: 0 <= i < |meta| ==> meta[i].key != Name("_onelo_redacted"))
            && forall i :: 0 <= i < |meta| ==>
                 && out[i].key == meta[i].key
                 && (Secret(p, meta[i].key) ==> out[i].value == Text("[REDACTED]"))
  {
    var cleaned := ScrubItems(p, meta, 0);
    var key, report := Name(REDACTED_KEY), List(TextsOf(Sorted(ItemNames(p, meta, 0))));
    ItemsLength(p, meta, 0);
    forall i | 0 <= i < |meta|
      ensures cleaned[i] == ScrubItem(p, meta[i], 0)
      ensures i < |SetItem(cleaned, key, report)| && SetItem(cleaned, key, report)[i].key == cleaned[i].key
      ensures cleaned[i].key != key ==> SetItem(cleaned, key, report)[i] == cleaned[i]
    {
      ItemAt(p, meta, 0, i);
      SetItemKeeps(cleaned, key, report, i);
    }
    SetItemSize(cleaned, key, report);
  }

  // ---------------------------------------------------------------- harmless data

  /** Nothing for the scrubber to do: texts that it leaves alone, no secret key, no report key, no named tuple, and no
      container at the limit. */
  predicate Plain(p: Policy, v: Value, depth: nat)
    decreases v, 1
  {
    match v
    case Text(text) => p.scrubText(text) == text
    case Dict(items) => depth < 10 && ItemsPlain(p, items, depth)
    case List(es) => depth < 10 && AllPlain(p, es, depth + 1)
    case Tuple(es) => depth < 10 && AllPlain(p, es, depth + 1)
    case NamedTuple(_) => false
    case Scalar(_) => true
  }

  predicate ItemsPlain(p: Policy, items: seq<Item>, depth: nat)
    decreases items, 0
  {
    items == [] || (ItemPlain(p, items[0], depth) && ItemsPlain(p, items[1..], depth))
  }

  predicate ItemPlain(p: Policy, item: Item, depth: nat)
    decreases item, 2
  {
    item.key != Name("_onelo_redacted") && !Secret(p, item.key) && Plain(p, item.value, depth + 1)
  }

  predicate AllPlain(p: Policy, es: seq<Value>, depth: nat)
    decreases es, 0
  {
    es == [] || (Plain(p, es[0], depth) && AllPlain(p, es[1..], depth))
  }

  lemma {:induction false} PlainStays(p: Policy, v: Value, depth: nat)
    requires Plain(p, v, depth)
    ensures ScrubValue(p, v, depth) == v && Names(p, v, depth) == {}
    decreases v, 1
  {
    match v {
      case Dict(items) => ItemsPlainStay(p, items, depth);
      case List(es) => AllPlainStay(p, es, depth + 1);
      case Tuple(es) => AllPlainStay(p, es, depth + 1);
      case _ =>
    }
  }

  lemma {:induction false} ItemsPlainStay(p: Policy, items: seq<Item>, depth: nat)
    requires ItemsPlain(p, items, depth)
    ensures ScrubItems(p, items, depth) == items && ItemNames(p, items, depth) == {}
    decreases items, 0
  {
    if items != [] {
      ItemPlainStays(p, items[0], depth);
      ItemsPlainStay(p, items[1..], depth);
      assert [items[0]] + items[1..] == items;
    }
  }

  lemma {:induction false} ItemPlainStays(p: Policy, item: Item, depth: nat)
    requires ItemPlain(p, item, depth)
    ensures ScrubItem(p, item, depth) == item && NamesOfItem(p, item, depth) == {}
    decreases item, 2
  {
    PlainStays(p, item.value, depth + 1);
  }

  lemma {:induction false} AllPlainStay(p: Policy, es: seq<Value>, depth: nat)
    requires AllPlain(p, es, depth)
    ensures ScrubAll(p, es, depth) == es && AllNames(p, es, depth) == {}
    decreases es, 0
  {
    if es != [] {
      PlainStays(p, es[0], depth);
      AllPlainStay(p, es[1..], depth);
      assert [es[0]] + es[1..] == es;
    }
  }

  /** Harmless metadata comes out as it is, without a report. */
  lemma HarmlessComesThrough(p: Policy, meta: seq<Item>)
    requires ItemsPlain(p, meta, 0)
    ensures ScrubMeta(p, meta) == meta
  {
    ItemsPlainStay(p, meta, 0);
  }
}

/** Small shared vocabulary: the optional value and the concatenation of a list of lists. */
module Prelude {

  datatype Option<+T> = None | Some(value: T)

  /** The concatenation of the elements of `parts`, in order. */
  function Flatten<T>(parts: seq<seq<T>>): seq<T> {
    if parts == [] then [] else Flatten(parts[..|parts| - 1]) + parts[|parts| - 1]
  }

  /** Flattening also peels from the front. */
  lemma {:induction false} FlattenFront<T>(parts: seq<seq<T>>)
    requires parts != []
    ensures Flatten(parts) == parts[0] + Flatten(parts[1..])
    decreases |parts|
  {
    var n := |parts| - 1;
    var front, tail, last := parts[..n], parts[1..], parts[n];
    if n == 0 {
      assert Flatten(front) == [] && Flatten(tail) == [];
      assert [] + last == last + [];
    } else {
      FlattenFront(front);
      assert Flatten(tail) == Flatten(front[1..]) + last by {
        assert tail[..n - 1] == front[1..];
      }
      assert front[0] + Flatten(front[1..]) + last == front[0] + (Flatten(front[1..]) + last);
    }
  }
}

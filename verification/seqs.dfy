/** Small facts about sequences used as Python lists, tuples and key views. */
module Seqs {

  /** The members of a sequence, as Python's `set(xs)` */
  function Elems<T(==)>(xs: seq<T>): set<T> {
    set x | x in xs
  }

  predicate Distinct<T(==)>(xs: seq<T>) {
    forall i, j :: 0 <= i < j < |xs| ==> xs[i] != xs[j]
  }

  /** `xs` with every repeat of an earlier element dropped, keeping
      first positions (the key order of a dict built from `xs`). */
  function Dedup<T(==)>(xs: seq<T>): (r: seq<T>)
    ensures Distinct(r)
    ensures Elems(r) == Elems(xs)
    ensures Distinct(xs) ==> r == xs
    decreases |xs|
  {
    if |xs| == 0 then []
    else
      var init := Dedup(xs[..|xs| - 1]);
      var last := xs[|xs| - 1];
      assert xs == xs[..|xs| - 1] + [last];
      assert Elems(xs) == Elems(xs[..|xs| - 1]) + {last};
      if last in init then init else init + [last]
  }

  /** Only the empty sequence has no members. */
  lemma NoElems<T>(xs: seq<T>)
    ensures Elems(xs) == {} <==> xs == []
  {
    if xs != [] {
      assert xs[0] in Elems(xs);
    }
  }

  /** A sequence without repeats has as many members as elements. */
  lemma {:induction false} DistinctCardinality<T>(xs: seq<T>)
    requires Distinct(xs)
    ensures |Elems(xs)| == |xs|
    decreases |xs|
  {
    if |xs| > 0 {
      var init := xs[..|xs| - 1];
      var last := xs[|xs| - 1];
      assert xs == init + [last];
      assert Elems(xs) == Elems(init) + {last};
      assert last !in Elems(init);
      DistinctCardinality(init);
    }
  }
}

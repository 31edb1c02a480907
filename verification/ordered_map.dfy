/** String-keyed insertion-ordered mappings as association lists: Python's `dict`,
    `OrderedDict` and `frozendict` as far as this library uses them. A dict
    never holds a key twice (`DistinctKeys`); lookups on a list that does
    take the first occurrence. */
module OrderedMap {
  import opened Wrappers
  import opened Seqs

  type Entries<V> = seq<(string, V)>

  /** The key view, in iteration order */
  function Keys<V>(m: Entries<V>): (ks: seq<string>)
    ensures |ks| == |m|
    ensures forall i :: 0 <= i < |m| ==> ks[i] == m[i].0
  {
    seq(|m|, i requires 0 <= i < |m| => m[i].0)
  }

  /** The value view, in iteration order */
  function Values<V>(m: Entries<V>): (vs: seq<V>)
    ensures |vs| == |m|
    ensures forall i :: 0 <= i < |m| ==> vs[i] == m[i].1
  {
    seq(|m|, i requires 0 <= i < |m| => m[i].1)
  }

  function KeySet<V>(m: Entries<V>): set<string> {
    Elems(Keys(m))
  }

  predicate DistinctKeys<V>(m: Entries<V>) {
    Distinct(Keys(m))
  }

  /** `m.get(k)`: the value of the first entry for `k` */
  function Get<V>(m: Entries<V>, k: string): (r: Option<V>)
    ensures r.Some? <==> k in KeySet(m)
    ensures r.Some? ==> (k, r.value) in m
    decreases |m|
  {
    if |m| == 0 then None
    else if m[0].0 == k then Some(m[0].1)
    else
      assert KeySet(m) == {m[0].0} + KeySet(m[1..]);
      Get(m[1..], k)
  }

  /** `m.get(k, default)` */
  function Lookup<V>(m: Entries<V>, k: string, default: V): V {
    Get(m, k).GetOr(default)
  }

  /** `m[k] = v`: an existing key keeps its position, a new one goes last. */
  function Put<V>(m: Entries<V>, k: string, v: V): (r: Entries<V>)
    ensures k in KeySet(m) ==> Keys(r) == Keys(m)
    ensures k !in KeySet(m) ==> Keys(r) == Keys(m) + [k]
    decreases |m|
  {
    if |m| == 0 then [(k, v)]
    else
      KeysCons(m[0], m[1..]);
      assert [m[0]] + m[1..] == m;
      if m[0].0 == k then
        KeysCons((k, v), m[1..]);
        [(k, v)] + m[1..]
      else
        var rest := Put(m[1..], k, v);
        KeysCons(m[0], rest);
        [m[0]] + rest
  }

  /** The keys of an entry put in front */
  lemma KeysCons<V>(e: (string, V), rest: Entries<V>)
    ensures Keys([e] + rest) == [e.0] + Keys(rest)
    ensures KeySet([e] + rest) == {e.0} + KeySet(rest)
  {
    assert Keys([e] + rest) == [e.0] + Keys(rest);
  }

  /** After `m[k] = v`, `k` looks up `v` and every other key what it did before. */
  lemma {:induction false} PutGet<V>(m: Entries<V>, k: string, v: V, k': string)
    ensures Get(Put(m, k, v), k') == if k' == k then Some(v) else Get(m, k')
    decreases |m|
  {
    if |m| > 0 && m[0].0 != k {
      PutGet(m[1..], k, v, k');
      assert Put(m, k, v)[1..] == Put(m[1..], k, v);
    }
  }

  /** Every entry after `m[k] = v` is the new one or an old one. */
  lemma {:induction false} PutEntries<V>(m: Entries<V>, k: string, v: V)
    ensures forall j :: 0 <= j < |Put(m, k, v)| ==> Put(m, k, v)[j] == (k, v) || Put(m, k, v)[j] in m
    decreases |m|
  {
    if |m| > 0 && m[0].0 != k {
      PutEntries(m[1..], k, v);
      var r := Put(m, k, v);
      forall j | 0 <= j < |r|
        ensures r[j] == (k, v) || r[j] in m
      {
        if j > 0 {
          assert r[j] == Put(m[1..], k, v)[j - 1];
        }
      }
    }
  }

  /** `dict(m, **overrides)`: each override assigned in turn, so overrides
      win and new keys follow the existing ones. */
  function Update<V>(m: Entries<V>, overrides: Entries<V>): (r: Entries<V>)
    ensures forall j :: 0 <= j < |r| ==> r[j] in m || r[j] in overrides
    decreases |overrides|
  {
    if |overrides| == 0 then m
    else
      var n := |overrides| - 1;
      var init := Update(m, overrides[..n]);
      PutEntries(init, overrides[n].0, overrides[n].1);
      Put(init, overrides[n].0, overrides[n].1)
  }

  /** `OrderedDict(pairs)` */
  function FromPairs<V>(pairs: Entries<V>): Entries<V> {
    Update([], pairs)
  }

  /** The Dafny map an association list denotes: insertion order does not
      matter, and values are compared structurally (Python's `==` on values
      is `Model.PyEq`). */
  function ToMap<V>(m: Entries<V>): (r: map<string, V>)
    ensures r.Keys == KeySet(m)
    ensures forall k :: k in r ==> Get(m, k) == Some(r[k])
  {
    map k | k in KeySet(m) :: Get(m, k).value
  }

  lemma {:induction false} PutKeepsDistinct<V>(m: Entries<V>, k: string, v: V)
    requires DistinctKeys(m)
    ensures DistinctKeys(Put(m, k, v))
  {
    if k !in KeySet(m) {
      assert Keys(Put(m, k, v)) == Keys(m) + [k];
      assert k !in Keys(m);
    }
  }

  lemma PutKeySet<V>(m: Entries<V>, k: string, v: V)
    ensures KeySet(Put(m, k, v)) == KeySet(m) + {k}
  {
    if k !in KeySet(m) {
      assert Elems(Keys(m) + [k]) == Elems(Keys(m)) + {k};
    }
  }

  lemma LastKeySet<V>(m: Entries<V>)
    requires |m| > 0
    ensures KeySet(m) == KeySet(m[..|m| - 1]) + {m[|m| - 1].0}
  {
    assert Keys(m) == Keys(m[..|m| - 1]) + [m[|m| - 1].0];
  }

  /** Updating a dict keeps it a dict; its keys are the old ones plus the overrides'. */
  lemma {:induction false} UpdateKeys<V>(m: Entries<V>, overrides: Entries<V>)
    requires DistinctKeys(m)
    ensures DistinctKeys(Update(m, overrides))
    ensures KeySet(Update(m, overrides)) == KeySet(m) + KeySet(overrides)
    decreases |overrides|
  {
    if |overrides| > 0 {
      var n := |overrides| - 1;
      var init := Update(m, overrides[..n]);
      var k := overrides[n].0;
      var v := overrides[n].1;
      assert Update(m, overrides) == Put(init, k, v);
      UpdateKeys(m, overrides[..n]);
      PutKeepsDistinct(init, k, v);
      PutKeySet(init, k, v);
      LastKeySet(overrides);
    }
  }

  /** In a dict, each entry is what its key looks up. */
  lemma {:induction false} GetDistinct<V>(m: Entries<V>, i: nat)
    requires DistinctKeys(m) && i < |m|
    ensures Get(m, m[i].0) == Some(m[i].1)
    decreases |m|
  {
    if i > 0 {
      assert Keys(m[1..]) == Keys(m)[1..];
      assert m[0].0 != m[i].0 by {
        assert Keys(m)[0] != Keys(m)[i];
      }
      GetDistinct(m[1..], i - 1);
    }
  }

  /** Overrides win; keys they do not name keep their old values. */
  lemma {:induction false} UpdateGet<V>(m: Entries<V>, overrides: Entries<V>, k: string)
    requires DistinctKeys(overrides)
    ensures k in KeySet(overrides) ==> Get(Update(m, overrides), k) == Get(overrides, k)
    ensures k !in KeySet(overrides) ==> Get(Update(m, overrides), k) == Get(m, k)
    decreases |overrides|
  {
    if |overrides| > 0 {
      var n := |overrides| - 1;
      var init := overrides[..n];
      assert Keys(overrides) == Keys(init) + [overrides[n].0];
      assert DistinctKeys(init) by {
        assert Keys(init) == Keys(overrides)[..n];
      }
      UpdateGet(m, init, k);
      PutGet(Update(m, init), overrides[n].0, overrides[n].1, k);
      if k == overrides[n].0 {
        GetDistinct(overrides, n);
      } else {
        GetPrefix(overrides, k);
      }
    }
  }

  /** Assigning pairs that all give `k` the same value leaves `k` holding it. */
  lemma {:induction false} UniformUpdateGet<V>(m: Entries<V>, pairs: Entries<V>, k: string, v: V)
    requires k in Keys(pairs)
    requires forall j :: 0 <= j < |pairs| && pairs[j].0 == k ==> pairs[j].1 == v
    ensures Get(Update(m, pairs), k) == Some(v)
    decreases |pairs|
  {
    var n := |pairs| - 1;
    if pairs[n].0 != k {
      assert Keys(pairs) == Keys(pairs[..n]) + [pairs[n].0];
      UniformUpdateGet(m, pairs[..n], k, v);
    }
    PutGet(Update(m, pairs[..n]), pairs[n].0, pairs[n].1, k);
  }

  /** Dropping the last entry does not change lookups of other keys. */
  lemma {:induction false} GetPrefix<V>(m: Entries<V>, k: string)
    requires |m| > 0 && m[|m| - 1].0 != k
    ensures Get(m[..|m| - 1], k) == Get(m, k)
    decreases |m|
  {
    if |m| > 1 && m[0].0 != k {
      assert m[..|m| - 1][1..] == m[1..][..|m[1..]| - 1];
      GetPrefix(m[1..], k);
    }
  }

  /** Building a dict from pairs keeps first positions of the keys. */
  lemma {:induction false} UpdateKeyOrder<V>(pairs: Entries<V>)
    ensures Keys(FromPairs(pairs)) == Dedup(Keys(pairs))
    decreases |pairs|
  {
    if |pairs| > 0 {
      var n := |pairs| - 1;
      UpdateKeyOrder(pairs[..n]);
      assert Keys(pairs)[..n] == Keys(pairs[..n]);
      UpdateKeys([], pairs[..n]);
      assert KeySet(Update([], pairs[..n])) == Elems(Dedup(Keys(pairs[..n])));
    }
  }

  /** In `dict(m, **overrides)` the old keys keep their places and the new
      keys follow, each where the overrides first name it. */
  lemma {:induction false} UpdateOrder<V>(m: Entries<V>, overrides: Entries<V>)
    requires DistinctKeys(m)
    ensures Keys(Update(m, overrides)) == Dedup(Keys(m) + Keys(overrides))
    decreases |overrides|
  {
    var n := |overrides|;
    if n == 0 {
      assert Keys(m) + Keys(overrides) == Keys(m);
    } else {
      var init := Update(m, overrides[..n - 1]);
      var k := overrides[n - 1].0;
      UpdateOrder(m, overrides[..n - 1]);
      KeysSnoc(m, overrides);
      DedupSnoc(Keys(m) + Keys(overrides[..n - 1]), k);
      assert Update(m, overrides) == Put(init, k, overrides[n - 1].1);
    }
  }

  lemma KeysSnoc<V>(m: Entries<V>, overrides: Entries<V>)
    requires |overrides| > 0
    ensures Keys(m) + Keys(overrides) ==
            (Keys(m) + Keys(overrides[..|overrides| - 1])) + [overrides[|overrides| - 1].0]
  {
    assert Keys(overrides) == Keys(overrides[..|overrides| - 1]) + [overrides[|overrides| - 1].0];
  }

  lemma DedupSnoc<T>(xs: seq<T>, x: T)
    ensures Dedup(xs + [x]) == if x in Dedup(xs) then Dedup(xs) else Dedup(xs) + [x]
  {
    assert (xs + [x])[..|xs|] == xs;
  }

  /** A dict has as many entries as its mapping has keys (Python's `len`). */
  lemma DistinctSize<V>(m: Entries<V>)
    requires DistinctKeys(m)
    ensures |ToMap(m)| == |m|
  {
    DistinctCardinality(Keys(m));
    assert ToMap(m).Keys == KeySet(m);
  }

  /** Two association lists denote the same mapping exactly when every key
      looks up the same in both. */
  ghost predicate SameLookups<V>(a: Entries<V>, b: Entries<V>) {
    forall k :: Get(a, k) == Get(b, k)
  }

  lemma SameMapping<V>(a: Entries<V>, b: Entries<V>)
    ensures ToMap(a) == ToMap(b) <==> SameLookups(a, b)
  {
    if ToMap(a) == ToMap(b) {
      MappingLookups(a, b);
    } else if SameLookups(a, b) {
      AgreeingLookups(a, b);
    }
  }

  lemma MappingLookups<V>(a: Entries<V>, b: Entries<V>)
    requires ToMap(a) == ToMap(b)
    ensures forall k :: Get(a, k) == Get(b, k)
  {
    forall k
      ensures Get(a, k) == Get(b, k)
    {
      if k in KeySet(a) {
        assert Get(a, k) == Some(ToMap(a)[k]) && Get(b, k) == Some(ToMap(b)[k]);
      }
    }
  }

  lemma AgreeingLookups<V>(a: Entries<V>, b: Entries<V>)
    requires forall k :: Get(a, k) == Get(b, k)
    ensures ToMap(a) == ToMap(b)
  {
    assert KeySet(a) == KeySet(b) by {
      forall k ensures k in KeySet(a) <==> k in KeySet(b) {
        assert Get(a, k).Some? <==> Get(b, k).Some?;
      }
    }
    var ma := ToMap(a);
    var mb := ToMap(b);
    assert ma.Keys == mb.Keys;
    forall k | k in ma
      ensures ma[k] == mb[k]
    {
      assert Get(a, k) == Some(ma[k]) && Get(b, k) == Some(mb[k]);
    }
  }

  /** `dict(m, **overrides)` as mappings: the overrides laid over `m`. */
  lemma UpdateToMap<V>(m: Entries<V>, overrides: Entries<V>)
    requires DistinctKeys(m) && DistinctKeys(overrides)
    ensures ToMap(Update(m, overrides)) == ToMap(m) + ToMap(overrides)
  {
    var u := Update(m, overrides);
    UpdateKeys(m, overrides);
    forall k | k in KeySet(u)
      ensures ToMap(u)[k] == (ToMap(m) + ToMap(overrides))[k]
    {
      UpdateGet(m, overrides, k);
    }
  }
}

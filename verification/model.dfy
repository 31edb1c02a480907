/** The values a record holds, the per-type policy, the record itself and
    the errors the library raises (dubplate/__init__.py). */
module Model {
  import opened Wrappers
  import opened OrderedMap
  import opened Seqs

  /** A naive `datetime.date`: field ranges are Python's to enforce. */
  datatype Date = Date(year: nat, month: nat, day: nat)

  /** A naive `datetime.datetime` */
  datatype DateTime = DateTime(year: nat, month: nat, day: nat,
                               hour: nat, minute: nat, second: nat, microsecond: nat)

  /** The Python values the library tells apart. Dict keys are strings, as
      keyword arguments are; a set is kept as its members in some order. */
  datatype Value =
    | Null
    | Int(i: int)
    | Str(s: string)
    | List(items: seq<Value>)
    | Tuple(items: seq<Value>)
    | Dict(entries: seq<(string, Value)>)
    | Set(members: seq<Value>)
    | DateValue(date: Date)
    | DateTimeValue(dateTime: DateTime)
    | RecordValue(record: Record)

  type Data = Entries<Value>

  /** The class variables of a record type. An unset `fields`,
      `non_null_fields` or `hash_index_fields` reads as empty: the library
      only ever tests them for truthiness or iterates them. */
  datatype Policy = Policy(
    fields: seq<string>,
    nonNullFields: seq<string>,
    requireAllFields: bool,
    hashIndexFields: seq<string>)

  /** A concrete `Record` subclass: its name, its policy, and the side
      attribute names its `__slots__` declares. */
  datatype RecordType = RecordType(name: string, policy: Policy, slots: seq<string>)

  /** A constructed record: the validated data, plus the side attributes the
      subclass constructor set (a slot it left unset is absent from `side`). */
  datatype Record = Record(kind: RecordType, side: map<string, Value>, data: Data)

  datatype Error =
      /** A `non_null_fields` name was not supplied; all of them, sorted */
    | RequiredMissing(names: seq<string>)
      /** A `non_null_fields` name was supplied as None; all of them, sorted */
    | RequiredNull(names: seq<string>)
      /** The supplied keys strictly contain `fields` */
    | ExtraKeys(extra: set<string>, allowed: seq<string>)
      /** `require_all_fields` is set and the supplied keys are strictly inside `fields` */
    | MissingKeys(missing: set<string>, required: seq<string>)
      /** `record[name]` on a name the data does not hold */
    | KeyNotFound(name: string)
      /** `record.name` on a name that is not a set side attribute */
    | NoAttribute(name: string)
    | AttributeAssignment(typeName: string)
    | AttributeDeletion(typeName: string)
    | ItemAssignment(typeName: string)
    | ItemDeletion(typeName: string)
      /** A hash index field holds a value with no stable linear form */
    | UnorderedValue(field: string)
      /** `hash()` met a list, dict or set */
    | Unhashable

  /** Errors the validator raises */
  predicate IsValidationError(e: Error) {
    e.RequiredMissing? || e.RequiredNull? || e.ExtraKeys? || e.MissingKeys? || e.KeyNotFound?
  }

  /** Python's `bool(v)`: None, zero and empty containers are false; a
      record is as true as its length. */
  predicate Truthy(v: Value) {
    match v
    case Null => false
    case Int(i) => i != 0
    case Str(s) => |s| > 0
    case List(items) => |items| > 0
    case Tuple(items) => |items| > 0
    case Dict(entries) => |entries| > 0
    case Set(members) => |members| > 0
    case DateValue(_) => true
    case DateTimeValue(_) => true
    case RecordValue(r) => |r.data| > 0
  }

  /** Dicts and records: the values Python compares as mappings */
  predicate IsMapping(v: Value) {
    v.Dict? || v.RecordValue?
  }

  /** The entries of a mapping value: a record's are its data. */
  function MappingOf(v: Value): Data
    requires IsMapping(v)
  {
    if v.Dict? then v.entries else v.record.data
  }

  /** Python's `==` on values. Dicts and records compare as mappings, each
      other included: the same keys, each looking up equal values, in any
      order and whatever a record's side attributes. Sets compare by the
      set of their members, lists and tuples element by element (a list
      never equals a tuple), and every other value by its content. */
  predicate PyEq(a: Value, b: Value)
    decreases a
  {
    match a
    case List(xs) => b.List? && |xs| == |b.items| && forall i :: 0 <= i < |xs| ==> PyEq(xs[i], b.items[i])
    case Tuple(xs) => b.Tuple? && |xs| == |b.items| && forall i :: 0 <= i < |xs| ==> PyEq(xs[i], b.items[i])
    case Set(xs) => b.Set? && Elems(xs) == Elems(b.members)
    case Dict(m) =>
      && IsMapping(b) && KeySet(m) == KeySet(MappingOf(b))
      && forall i :: 0 <= i < |m| && Get(m, m[i].0) == Some(m[i].1) ==>
           PyEq(m[i].1, Lookup(MappingOf(b), m[i].0, Null))
    case RecordValue(r) =>
      && IsMapping(b) && KeySet(r.data) == KeySet(MappingOf(b))
      && forall i :: 0 <= i < |r.data| && Get(r.data, r.data[i].0) == Some(r.data[i].1) ==>
           PyEq(r.data[i].1, Lookup(MappingOf(b), r.data[i].0, Null))
    case _ => a == b
  }

  /** What `hash()` accepts: lists, dicts and sets are unhashable, a tuple
      is hashable when its items are, a record when its data values are. */
  predicate Hashable(v: Value)
    decreases v
  {
    match v
    case List(_) => false
    case Dict(_) => false
    case Set(_) => false
    case Tuple(xs) => forall i :: 0 <= i < |xs| ==> Hashable(xs[i])
    case RecordValue(r) => forall j :: 0 <= j < |r.data| ==> Hashable(r.data[j].1)
    case _ => true
  }

  /** Two mappings are equal exactly when they have the same keys and each
      key looks up equal values. */
  lemma MappingEqByKeys(a: Value, b: Value)
    requires IsMapping(a) && IsMapping(b)
    ensures PyEq(a, b) <==>
              && KeySet(MappingOf(a)) == KeySet(MappingOf(b))
              && forall k :: k in KeySet(MappingOf(a)) ==>
                   PyEq(Lookup(MappingOf(a), k, Null), Lookup(MappingOf(b), k, Null))
  {
    var m := MappingOf(a);
    var n := MappingOf(b);
    if PyEq(a, b) {
      forall k | k in KeySet(m)
        ensures PyEq(Lookup(m, k, Null), Lookup(n, k, Null))
      {
        var i := EntryAt(m, k);
      }
    }
  }

  /** An entry holding the value a key looks up */
  lemma EntryAt(m: Data, k: string) returns (i: nat)
    requires k in KeySet(m)
    ensures i < |m| && m[i].0 == k && Get(m, k) == Some(m[i].1)
  {
    var v := Get(m, k).value;
    assert (k, v) in m;
    i :| 0 <= i < |m| && m[i] == (k, v);
  }

  /** Every value equals itself. */
  lemma {:induction false} PyEqReflexive(a: Value)
    ensures PyEq(a, a)
    decreases a
  {
    match a
    case List(xs) =>
      forall i | 0 <= i < |xs| ensures PyEq(xs[i], xs[i]) { PyEqReflexive(xs[i]); }
    case Tuple(xs) =>
      forall i | 0 <= i < |xs| ensures PyEq(xs[i], xs[i]) { PyEqReflexive(xs[i]); }
    case Dict(m) =>
      forall i | 0 <= i < |m| && Get(m, m[i].0) == Some(m[i].1)
        ensures PyEq(m[i].1, Lookup(m, m[i].0, Null))
      {
        PyEqReflexive(m[i].1);
      }
    case RecordValue(r) =>
      forall i | 0 <= i < |r.data| && Get(r.data, r.data[i].0) == Some(r.data[i].1)
        ensures PyEq(r.data[i].1, Lookup(r.data, r.data[i].0, Null))
      {
        PyEqReflexive(r.data[i].1);
      }
    case _ =>
  }

  /** Equality does not depend on the side it is asked from. */
  lemma {:induction false} PyEqSymmetric(a: Value, b: Value)
    requires PyEq(a, b)
    ensures PyEq(b, a)
    decreases a
  {
    match a
    case List(xs) =>
      forall i | 0 <= i < |xs| ensures PyEq(b.items[i], xs[i]) { PyEqSymmetric(xs[i], b.items[i]); }
    case Tuple(xs) =>
      forall i | 0 <= i < |xs| ensures PyEq(b.items[i], xs[i]) { PyEqSymmetric(xs[i], b.items[i]); }
    case Dict(m) =>
      MappingSymmetric(a, b);
    case RecordValue(r) =>
      MappingSymmetric(a, b);
    case _ =>
  }

  lemma {:induction false} MappingSymmetric(a: Value, b: Value)
    requires IsMapping(a) && IsMapping(b) && PyEq(a, b)
    ensures PyEq(b, a)
    decreases a, 0
  {
    var m := MappingOf(a);
    var n := MappingOf(b);
    forall i | 0 <= i < |n| && Get(n, n[i].0) == Some(n[i].1)
      ensures PyEq(n[i].1, Lookup(m, n[i].0, Null))
    {
      var k := n[i].0;
      var j := EntryAt(m, k);
      assert PyEq(m[j].1, Lookup(n, k, Null));
      PyEqSymmetric(m[j].1, n[i].1);
    }
  }

  /** The largest of some numbers, 0 for none */
  function Max(ds: seq<nat>): (r: nat)
    ensures forall i :: 0 <= i < |ds| ==> ds[i] <= r
    ensures r == 0 || exists i :: 0 <= i < |ds| && ds[i] == r
  {
    if |ds| == 0 then 0
    else
      var e := Max(ds[1..]);
      assert forall i :: 1 <= i < |ds| ==> ds[i] == ds[1..][i - 1];
      if ds[0] < e then e else ds[0]
  }

  /** Nesting depth of the mappings the temporal normaliser walks into:
      dicts and records count, list contents do not. */
  function Depth(v: Value): nat {
    match v
    case Dict(m) => 1 + Max(seq(|m|, i requires 0 <= i < |m| => Depth(m[i].1)))
    case RecordValue(r) => 1 + Max(seq(|r.data|, i requires 0 <= i < |r.data| => Depth(r.data[i].1)))
    case _ => 0
  }

  function MaxDepth(m: Data): nat {
    Max(seq(|m|, i requires 0 <= i < |m| => Depth(m[i].1)))
  }

  /** A dict is one deeper than its deepest value. */
  lemma DepthOfDict(m: Data)
    ensures Depth(Dict(m)) == 1 + MaxDepth(m)
  {
  }

  /** So is a record. */
  lemma DepthOfRecord(r: Record)
    ensures Depth(RecordValue(r)) == 1 + MaxDepth(r.data)
  {
    var m := r.data;
    assert seq(|r.data|, i requires 0 <= i < |r.data| => Depth(r.data[i].1))
        == seq(|m|, i requires 0 <= i < |m| => Depth(m[i].1));
  }

  lemma MaxDepthBounds(m: Data, i: nat)
    requires i < |m|
    ensures Depth(m[i].1) <= MaxDepth(m)
  {
    var ds := seq(|m|, j requires 0 <= j < |m| => Depth(m[j].1));
    assert ds[i] == Depth(m[i].1);
  }

  /** A mapping whose every value is Null or taken from `src` is no deeper than `src`. */
  lemma MaxDepthOfCopy(m: Data, src: Data)
    requires forall j :: 0 <= j < |m| ==> m[j].1 == Null || m[j].1 in Values(src)
    ensures MaxDepth(m) <= MaxDepth(src)
  {
    var ds := seq(|m|, j requires 0 <= j < |m| => Depth(m[j].1));
    if MaxDepth(m) != 0 {
      var j :| 0 <= j < |ds| && ds[j] == MaxDepth(m);
      if m[j].1 != Null {
        var i :| 0 <= i < |src| && Values(src)[i] == m[j].1;
        MaxDepthBounds(src, i);
      }
    }
  }

  lemma MaxDepthTail(m: Data)
    requires |m| > 0
    ensures MaxDepth(m[1..]) <= MaxDepth(m)
    ensures Depth(m[0].1) <= MaxDepth(m)
  {
    MaxDepthBounds(m, 0);
    var t := m[1..];
    if MaxDepth(t) != 0 {
      var ds := seq(|t|, j requires 0 <= j < |t| => Depth(t[j].1));
      var j :| 0 <= j < |ds| && ds[j] == MaxDepth(t);
      MaxDepthBounds(m, j + 1);
    }
  }
}

/** The immutable `Record` container (dubplate/__init__.py:116-537): a
    read-only mapping over validated data, plus side attributes that take
    no part in any mapping operation. */
module Records {
  import opened Wrappers
  import opened Seqs
  import opened Text
  import opened OrderedMap
  import opened Model
  import opened Validator
  import opened HashKey

  /** A record's data is a dict: no key twice. */
  predicate Valid(rec: Record) {
    DistinctKeys(rec.data)
  }

  /** `Record.__init__`, once a subclass constructor has set the side
      attributes `side`: the keyword arguments are validated and become the
      data. Keyword arguments never repeat a name. */
  function Construct(kind: RecordType, side: map<string, Value>, kwargs: Data): (r: Result<Record, Error>)
    requires DistinctKeys(kwargs)
    ensures r.Ok? <==> Admissible(kind.policy, kwargs)
    ensures r.Err? ==> IsValidationError(r.error)
    ensures r.Ok? ==> Valid(r.value) && r.value.kind == kind && r.value.side == side
    ensures r.Ok? && |kind.policy.fields| > 0 ==> Keys(r.value.data) == Dedup(kind.policy.fields)
    ensures r.Ok? && |kind.policy.fields| == 0 ==> ToMap(r.value.data) == ToMap(kwargs)
  {
    match Validate(kind.policy, kwargs)
    case Err(e) => Err(e)
    case Ok(d) => Ok(Record(kind, side, d))
  }

  // ---------------------------------------------------------------------
  // The read-only mapping
  // ---------------------------------------------------------------------

  /** `len(record)` */
  function Len(rec: Record): (n: nat)
    ensures Valid(rec) ==> n == |ToMap(rec.data)|
  {
    if Valid(rec) then DistinctSize(rec.data); |rec.data| else |rec.data|
  }

  /** `name in record` */
  function Contains(rec: Record, name: string): (b: bool)
    ensures b <==> name in ToMap(rec.data)
  {
    name in Keys(rec.data)
  }

  /** `record[name]` */
  function GetItem(rec: Record, name: string): (r: Result<Value, Error>)
    ensures r.Ok? <==> name in ToMap(rec.data)
    ensures r.Ok? ==> r.value == ToMap(rec.data)[name]
    ensures r.Err? ==> r.error == KeyNotFound(name)
  {
    match Get(rec.data, name)
    case Some(v) => Ok(v)
    case None => Err(KeyNotFound(name))
  }

  /** `record.get(key, default)` */
  function GetOr(rec: Record, key: string, default: Value): (v: Value)
    ensures key in ToMap(rec.data) ==> v == ToMap(rec.data)[key]
    ensures key !in ToMap(rec.data) ==> v == default
  {
    Lookup(rec.data, key, default)
  }

  /** `record.keys()`, and the order `iter(record)` yields them in */
  function KeysOf(rec: Record): (ks: seq<string>)
    ensures ks == Keys(rec.data)
    ensures Elems(ks) == ToMap(rec.data).Keys
    ensures Valid(rec) ==> Distinct(ks) && |ks| == Len(rec)
  {
    Keys(rec.data)
  }

  /** A record built with `fields` lists its keys in `fields` order, first
      occurrences only, whatever the order of the keyword arguments. */
  lemma KeysFollowFields(kind: RecordType, side: map<string, Value>, kwargs: Data)
    requires DistinctKeys(kwargs) && Construct(kind, side, kwargs).Ok? && |kind.policy.fields| > 0
    ensures KeysOf(Construct(kind, side, kwargs).value) == Dedup(kind.policy.fields)
  {
  }

  /** A record built without `fields` lists its keys in the order they were
      given. */
  lemma KeysFollowInput(kind: RecordType, side: map<string, Value>, kwargs: Data)
    requires DistinctKeys(kwargs) && Construct(kind, side, kwargs).Ok? && |kind.policy.fields| == 0
    ensures KeysOf(Construct(kind, side, kwargs).value) == Keys(kwargs)
  {
  }

  /** `record.values()`, in key order */
  function ValuesOf(rec: Record): (vs: seq<Value>)
    ensures |vs| == |KeysOf(rec)|
    ensures Valid(rec) ==> forall i :: 0 <= i < |vs| ==> vs[i] == ToMap(rec.data)[KeysOf(rec)[i]]
  {
    if Valid(rec) then
      assert forall i :: 0 <= i < |rec.data| ==> Get(rec.data, rec.data[i].0) == Some(rec.data[i].1) by {
        forall i | 0 <= i < |rec.data| {
          GetDistinct(rec.data, i);
        }
      }
      Values(rec.data)
    else Values(rec.data)
  }

  /** `record.items()`, in key order */
  function Items(rec: Record): (its: Data)
    ensures Keys(its) == KeysOf(rec)
    ensures Valid(rec) ==> forall i :: 0 <= i < |its| ==> its[i].1 == ToMap(rec.data)[its[i].0]
  {
    if Valid(rec) then
      assert forall i :: 0 <= i < |rec.data| ==> Get(rec.data, rec.data[i].0) == Some(rec.data[i].1) by {
        forall i | 0 <= i < |rec.data| {
          GetDistinct(rec.data, i);
        }
      }
      rec.data
    else rec.data
  }

  /** `record == other`, which Python evaluates as `other == data`: only a
      dict or another record can be equal, and then as a mapping, whatever
      the entry order at any depth and whatever any record's side
      attributes. */
  function Equals(rec: Record, other: Value): (b: bool)
    ensures b ==> IsMapping(other) && KeySet(MappingOf(other)) == KeySet(rec.data)
    ensures IsMapping(other) && ToMap(MappingOf(other)) == ToMap(rec.data) ==> b
  {
    // Both branches compute the same; the first only brings in the fact
    // that the second ensures needs.
    if IsMapping(other) && ToMap(MappingOf(other)) == ToMap(rec.data) then
      SameMappingEqual(other, Dict(rec.data));
      PyEq(other, Dict(rec.data))
    else PyEq(other, Dict(rec.data))
  }

  /** Mappings that denote the same Dafny map are equal in Python. */
  lemma SameMappingEqual(a: Value, b: Value)
    requires IsMapping(a) && IsMapping(b) && ToMap(MappingOf(a)) == ToMap(MappingOf(b))
    ensures PyEq(a, b)
  {
    var m := MappingOf(a);
    var n := MappingOf(b);
    forall k | k in KeySet(m)
      ensures PyEq(Lookup(m, k, Null), Lookup(n, k, Null))
    {
      assert Lookup(m, k, Null) == ToMap(m)[k] == ToMap(n)[k] == Lookup(n, k, Null);
      PyEqReflexive(Lookup(m, k, Null));
    }
    MappingEqByKeys(a, b);
  }

  /** `record != other`, defined on its own in the source: it is exactly
      the negation of `==`. */
  function NotEquals(rec: Record, other: Value): (b: bool)
    ensures b != Equals(rec, other)
  {
    !PyEq(other, Dict(rec.data))
  }

  /** Equality with a mapping, key by key: the same keys, each looking up
      Python-equal values. */
  lemma EqualsByLookups(rec: Record, other: Value)
    requires IsMapping(other)
    ensures Equals(rec, other) <==>
              && KeySet(MappingOf(other)) == KeySet(rec.data)
              && forall k :: k in KeySet(rec.data) ==>
                   PyEq(Lookup(MappingOf(other), k, Null), Lookup(rec.data, k, Null))
  {
    MappingEqByKeys(other, Dict(rec.data));
  }

  /** `hash(record)`: the hash of the data mapping, which raises TypeError
      when a value is unhashable. Python's string hashing is randomised per
      process, so the hash of a mapping is a parameter. */
  function Hash(rec: Record, h: map<string, Value> -> int): (r: Result<int, Error>)
    ensures r.Ok? <==> forall j :: 0 <= j < |rec.data| ==> Hashable(rec.data[j].1)
    ensures r.Err? ==> r.error == Unhashable
    ensures r.Ok? ==> r.value == h(ToMap(rec.data))
  {
    if forall j :: 0 <= j < |rec.data| ==> Hashable(rec.data[j].1) then Ok(h(ToMap(rec.data)))
    else Err(Unhashable)
  }

  /** `record.name`: only side attributes are reachable by dotted access. */
  function Attribute(rec: Record, name: string): (r: Result<Value, Error>)
    ensures r.Ok? <==> name in rec.side
    ensures r.Ok? ==> r.value == rec.side[name]
    ensures r.Err? ==> r.error == NoAttribute(name)
  {
    if name in rec.side then Ok(rec.side[name]) else Err(NoAttribute(name))
  }

  /** Records that are equal as mappings agree on every mapping
      operation, whatever their side attributes: the same length, the same
      keys, and equal values under each key. */
  lemma EqualRecordsAgree(r1: Record, r2: Record, name: string)
    requires Valid(r1) && Valid(r2) && Equals(r1, RecordValue(r2))
    ensures Equals(r2, RecordValue(r1))
    ensures Len(r1) == Len(r2)
    ensures Contains(r1, name) == Contains(r2, name)
    ensures GetItem(r1, name).Ok? == GetItem(r2, name).Ok?
    ensures GetItem(r1, name).Ok? ==> PyEq(GetItem(r1, name).value, GetItem(r2, name).value)
  {
    PyEqSymmetric(RecordValue(r2), Dict(r1.data));
    assert PyEq(RecordValue(r1), Dict(r2.data));
    DistinctCardinality(Keys(r1.data));
    DistinctCardinality(Keys(r2.data));
    DistinctSize(r1.data);
    DistinctSize(r2.data);
    EqualsByLookups(r1, RecordValue(r2));
    if name in KeySet(r1.data) {
      PyEqSymmetric(Lookup(r2.data, name, Null), Lookup(r1.data, name, Null));
    }
  }

  /** Records holding the same mapping hash alike, whatever their side
      attributes and entry order. */
  lemma SameDataHashAlike(r1: Record, r2: Record, h: map<string, Value> -> int)
    requires Valid(r1) && Valid(r2) && ToMap(r1.data) == ToMap(r2.data)
    ensures Hash(r1, h) == Hash(r2, h)
  {
    forall j | 0 <= j < |r1.data|
      ensures exists i :: 0 <= i < |r2.data| && r2.data[i].1 == r1.data[j].1
    {
      GetDistinct(r1.data, j);
      var i := EntryAt(r2.data, r1.data[j].0);
    }
    forall i | 0 <= i < |r2.data|
      ensures exists j :: 0 <= j < |r1.data| && r1.data[j].1 == r2.data[i].1
    {
      GetDistinct(r2.data, i);
      var j := EntryAt(r1.data, r2.data[i].0);
    }
  }

  /** Side attributes take no part in the mapping: changing them changes
      no mapping operation, and the data takes no part in dotted access. */
  lemma SideInvisible(rec: Record, side: map<string, Value>, data: Data, name: string,
                      other: Value, h: map<string, Value> -> int)
    ensures var r2 := rec.(side := side);
            && Len(r2) == Len(rec) && Contains(r2, name) == Contains(rec, name)
            && GetItem(r2, name) == GetItem(rec, name) && KeysOf(r2) == KeysOf(rec)
            && ValuesOf(r2) == ValuesOf(rec) && Items(r2) == Items(rec)
            && Equals(r2, other) == Equals(rec, other) && Hash(r2, h) == Hash(rec, h)
    ensures Attribute(rec.(data := data), name) == Attribute(rec, name)
  {
  }

  /** The ways to change a record, each refused once it is built */
  datatype Mutation =
    | SetItem(key: string, value: Value)
    | DelItem(key: string)
    | SetAttr(name: string, value: Value)
    | DelAttr(name: string)

  /** `__setitem__`, `__delitem__`, `__setattr__` and `__delattr__` on a
      built record: each raises a TypeError naming the record's type. */
  function Mutate(rec: Record, m: Mutation): (r: Result<Record, Error>)
    ensures r.Err?
    ensures m.SetItem? ==> r.error.ItemAssignment?
    ensures m.DelItem? ==> r.error.ItemDeletion?
    ensures m.SetAttr? ==> r.error.AttributeAssignment?
    ensures m.DelAttr? ==> r.error.AttributeDeletion?
    ensures r.error.typeName == rec.kind.name
  {
    match m
    case SetItem(_, _) => Err(ItemAssignment(rec.kind.name))
    case DelItem(_) => Err(ItemDeletion(rec.kind.name))
    case SetAttr(_, _) => Err(AttributeAssignment(rec.kind.name))
    case DelAttr(_) => Err(AttributeDeletion(rec.kind.name))
  }

  // ---------------------------------------------------------------------
  // copy_record
  // ---------------------------------------------------------------------

  /** Looking up a key after `dict(m, **overrides)` */
  lemma UpdateLookups(m: Data, overrides: Data)
    requires DistinctKeys(overrides)
    ensures forall f :: Lookup(Update(m, overrides), f, Null)
                        == if f in KeySet(overrides) then Get(overrides, f).value else Lookup(m, f, Null)
  {
    forall f {
      UpdateGet(m, overrides, f);
    }
  }

  /** `record.copy_record(**overrides)`: the data with the overrides laid
      over it, validated again under the record's policy. The record itself
      is a value and stays as it was. */
  function CopyRecord(rec: Record, overrides: Data): (r: Result<Data, Error>)
    requires DistinctKeys(overrides)
    ensures r.Ok? <==> Admissible(rec.kind.policy, Update(rec.data, overrides))
    ensures r.Err? ==> IsValidationError(r.error)
    ensures r.Ok? && |rec.kind.policy.fields| > 0 ==> Keys(r.value) == Dedup(rec.kind.policy.fields)
    ensures r.Ok? && |rec.kind.policy.fields| > 0 ==>
              forall f :: f in rec.kind.policy.fields ==>
                Get(r.value, f) == Some(if f in KeySet(overrides) then Get(overrides, f).value
                                        else Lookup(rec.data, f, Null))
    ensures r.Ok? && |rec.kind.policy.fields| == 0 && Valid(rec) ==>
              ToMap(r.value) == ToMap(rec.data) + ToMap(overrides)
    ensures r.Ok? && |rec.kind.policy.fields| == 0 && Valid(rec) ==>
              Keys(r.value) == Dedup(Keys(rec.data) + Keys(overrides))
  {
    var merged := Update(rec.data, overrides);
    UpdateLookups(rec.data, overrides);
    if Valid(rec) then
      UpdateToMap(rec.data, overrides);
      UpdateOrder(rec.data, overrides);
      Validate(rec.kind.policy, merged)
    else Validate(rec.kind.policy, merged)
  }

  /** A copy without overrides is the data the record was built with, as
      long as every non-null field is one of `fields` (otherwise see
      `RevalidationCanFail`). */
  lemma CopyWithoutOverrides(kind: RecordType, side: map<string, Value>, kwargs: Data)
    requires DistinctKeys(kwargs) && Construct(kind, side, kwargs).Ok?
    requires |kind.policy.fields| == 0 || Elems(kind.policy.nonNullFields) <= Elems(kind.policy.fields)
    ensures CopyRecord(Construct(kind, side, kwargs).value, []) == Ok(Construct(kind, side, kwargs).value.data)
  {
    var rec := Construct(kind, side, kwargs).value;
    assert Update(rec.data, []) == rec.data;
    RevalidationIsIdentity(kind.policy, kwargs);
  }

  /** Overriding a non-null field with None is refused. */
  lemma CopyRejectsNullOverride(rec: Record, overrides: Data, n: string)
    requires Valid(rec) && DistinctKeys(overrides)
    requires Elems(rec.kind.policy.nonNullFields) <= KeySet(rec.data)
    requires n in rec.kind.policy.nonNullFields && Get(overrides, n) == Some(Null)
    ensures CopyRecord(rec, overrides).Err?
    ensures CopyRecord(rec, overrides).error.RequiredNull?
    ensures n in CopyRecord(rec, overrides).error.names
  {
    var merged := Update(rec.data, overrides);
    UpdateKeys(rec.data, overrides);
    UpdateGet(rec.data, overrides, n);
    RequiredNullReported(rec.kind.policy, merged, n);
    var names := Validate(rec.kind.policy, merged).error.names;
    assert n in Elems(names);
  }

  /** Overriding with a key outside `fields` is refused when the record
      holds every field, as a record built with `fields` does. */
  lemma CopyRejectsUnknownKey(rec: Record, overrides: Data, k: string)
    requires Valid(rec) && DistinctKeys(overrides)
    requires |rec.kind.policy.fields| > 0 && KeySet(rec.data) == Elems(rec.kind.policy.fields)
    requires Admissible(rec.kind.policy, rec.data)
    requires forall n :: n in rec.kind.policy.nonNullFields ==> Get(overrides, n) != Some(Null)
    requires k in KeySet(overrides) && k !in rec.kind.policy.fields
    ensures CopyRecord(rec, overrides)
            == Err(ExtraKeys(KeySet(rec.data) + KeySet(overrides) - Elems(rec.kind.policy.fields),
                             rec.kind.policy.fields))
  {
    var p := rec.kind.policy;
    var merged := Update(rec.data, overrides);
    UpdateKeys(rec.data, overrides);
    assert k in KeySet(merged) && k !in Elems(p.fields);
    forall n | n in p.nonNullFields
      ensures Get(merged, n) != Some(Null)
    {
      UpdateGet(rec.data, overrides, n);
    }
    ExtraKeysReported(p, merged);
  }

  // ---------------------------------------------------------------------
  // get_hash_index_key
  // ---------------------------------------------------------------------

  /** `hash_index_fields or fields or []` */
  function KeyFields(p: Policy): seq<string> {
    if |p.hashIndexFields| > 0 then p.hashIndexFields else p.fields
  }

  /** `getattr(self, key, None)` for a slot the constructor may have left unset */
  function SlotValue(side: map<string, Value>, k: string): Value {
    if k in side then side[k] else Null
  }

  /** The slot entries for some key names, in order */
  function SlotPairs(keys: seq<string>, slots: seq<string>, side: map<string, Value>): (o: Data)
    ensures KeySet(o) == Elems(keys) * Elems(slots)
    ensures forall j :: 0 <= j < |o| ==> o[j].1 == SlotValue(side, o[j].0)
    ensures Distinct(keys) ==> DistinctKeys(o)
    decreases |keys|
  {
    if |keys| == 0 then []
    else
      var rest := SlotPairs(keys[1..], slots, side);
      assert Elems(keys) == {keys[0]} + Elems(keys[1..]);
      assert Distinct(keys) ==> Distinct(keys[1..]) && keys[0] !in keys[1..];
      if keys[0] in slots then
        var o := [(keys[0], SlotValue(side, keys[0]))] + rest;
        assert Keys(o) == [keys[0]] + Keys(rest);
        assert KeySet(o) == {keys[0]} + KeySet(rest);
        assert Distinct(keys) ==> DistinctKeys(o) by {
          if Distinct(keys) {
            assert keys[0] !in KeySet(rest);
            assert forall j :: 1 <= j < |o| ==> Keys(o)[j] == Keys(rest)[j - 1];
          }
        }
        o
      else rest
  }

  /** The `slots_dict` of `get_hash_index_key`: each key field that is a
      slot of the record's type, with its value or None, in first-mention
      order. */
  function SlotOverlay(rec: Record): (o: Data)
    ensures DistinctKeys(o)
    ensures KeySet(o) == Elems(KeyFields(rec.kind.policy)) * Elems(rec.kind.slots)
    ensures forall k :: k in KeySet(o) ==> Get(o, k) == Some(SlotValue(rec.side, k))
  {
    var o := SlotPairs(Dedup(KeyFields(rec.kind.policy)), rec.kind.slots, rec.side);
    assert forall k :: k in KeySet(o) ==> Get(o, k) == Some(SlotValue(rec.side, k)) by {
      forall k | k in KeySet(o)
        ensures Get(o, k) == Some(SlotValue(rec.side, k))
      {
        var j :| 0 <= j < |o| && o[j] == (k, Get(o, k).value);
      }
    }
    o
  }

  /** The values `get_hash_index_key` hands to the generator: a copy of
      the record with the slot overlay as overrides. */
  function HashIndexValues(rec: Record): (r: Result<Data, Error>)
    ensures r.Err? ==> IsValidationError(r.error)
  {
    CopyRecord(rec, SlotOverlay(rec))
  }

  /** `record.get_hash_index_key()`: no id is passed. */
  function GetHashIndexKey(rec: Record, show: Value -> string): (r: Result<Option<string>, Error>)
    ensures r.Err? ==> IsValidationError(r.error) || r.error.UnorderedValue?
  {
    match HashIndexValues(rec)
    case Err(e) => Err(e)
    case Ok(values) => HashIndexKey(rec.kind.name, KeyFields(rec.kind.policy), values, None, show)
  }

  /** When no key field names a slot, the key is built from the record's
      own data (for a record whose data re-validates to itself). */
  lemma HashKeyWithoutSlots(rec: Record, show: Value -> string)
    requires Valid(rec) && Validate(rec.kind.policy, rec.data) == Ok(rec.data)
    requires forall k :: k in KeyFields(rec.kind.policy) ==> k !in rec.kind.slots
    ensures GetHashIndexKey(rec, show) == HashIndexKey(rec.kind.name, KeyFields(rec.kind.policy), rec.data, None, show)
  {
    var o := SlotOverlay(rec);
    assert KeySet(o) == {};
    DistinctCardinality(Keys(o));
    assert o == [];
    assert Update(rec.data, o) == rec.data;
  }

  /** What the evidently intended `get_hash_index_key` hands to the
      generator: the data with the slot values laid over it, without a
      second validation. */
  function GetHashIndexKeyIntended(rec: Record, show: Value -> string): (r: Result<Option<string>, Error>)
    ensures r.Err? ==> r.error.UnorderedValue?
  {
    HashIndexKey(rec.kind.name, KeyFields(rec.kind.policy), Update(rec.data, SlotOverlay(rec)), None, show)
  }

  /** The intended values: every key field that is a slot reads the slot's
      value, every other key reads the data. */
  lemma IntendedValuesSeeSlots(rec: Record, f: string)
    ensures f in KeyFields(rec.kind.policy) && f in rec.kind.slots ==>
              ValueOf(Update(rec.data, SlotOverlay(rec)), f) == SlotValue(rec.side, f)
    ensures !(f in KeyFields(rec.kind.policy) && f in rec.kind.slots) ==>
              ValueOf(Update(rec.data, SlotOverlay(rec)), f) == ValueOf(rec.data, f)
  {
    UpdateGet(rec.data, SlotOverlay(rec), f);
  }

  /** Without `fields`, the code as written and the intended version agree:
      the copy only re-checks the non-null fields, which the overlay leaves
      alone when none of them is a slot. */
  lemma IntendedAgreesWithoutFields(rec: Record, show: Value -> string)
    requires Valid(rec) && |rec.kind.policy.fields| == 0
    requires Admissible(rec.kind.policy, rec.data)
    requires forall n :: n in rec.kind.policy.nonNullFields ==> n !in rec.kind.slots
    ensures GetHashIndexKey(rec, show) == GetHashIndexKeyIntended(rec, show)
  {
    var p := rec.kind.policy;
    var o := SlotOverlay(rec);
    var merged := Update(rec.data, o);
    UpdateKeys(rec.data, o);
    forall n | n in p.nonNullFields
      ensures Get(merged, n) == Get(rec.data, n)
    {
      UpdateGet(rec.data, o, n);
    }
    assert Admissible(p, merged);
  }

  /** As written: with `fields` set, a slot named in `hash_index_fields`
      becomes an override outside `fields`, so the copy raises the
      extra-keys error instead of producing a key. */
  lemma SlotKeyFieldRejected(rec: Record, show: Value -> string, s: string)
    requires Valid(rec) && |rec.kind.policy.fields| > 0
    requires KeySet(rec.data) == Elems(rec.kind.policy.fields) && Admissible(rec.kind.policy, rec.data)
    requires s in KeyFields(rec.kind.policy) && s in rec.kind.slots && s !in rec.kind.policy.fields
    requires forall n :: n in rec.kind.policy.nonNullFields ==> n !in rec.kind.slots
    ensures GetHashIndexKey(rec, show).Err? && GetHashIndexKey(rec, show).error.ExtraKeys?
  {
    var o := SlotOverlay(rec);
    assert s in KeySet(o);
    forall n | n in rec.kind.policy.nonNullFields
      ensures Get(o, n) != Some(Null)
    {
      assert n !in KeySet(o);
    }
    CopyRejectsUnknownKey(rec, o, s);
  }

  // ---------------------------------------------------------------------
  // Worked cases
  // ---------------------------------------------------------------------

  /** Keyword arguments `a=2, c=4, b=3` to a record with fields `a, b, c`
      come back from `keys()` as `a, b, c`. */
  lemma KeyOrderExample()
    ensures var kind := RecordType("FieldRecord", Policy(["a", "b", "c"], ["a", "b"], false, []), []);
            var r := Construct(kind, map[], [("a", Int(2)), ("c", Int(4)), ("b", Int(3))]);
            r.Ok? && KeysOf(r.value) == ["a", "b", "c"]
  {
    var kind := RecordType("FieldRecord", Policy(["a", "b", "c"], ["a", "b"], false, []), []);
    var kwargs := [("a", Int(2)), ("c", Int(4)), ("b", Int(3))];
    ExampleOrderAdmissible(kind.policy, kwargs);
    KeysFollowFields(kind, map[], kwargs);
  }

  /** The arguments of the ordering case are distinct and satisfy the policy. */
  lemma ExampleOrderAdmissible(p: Policy, kwargs: Data)
    requires p == Policy(["a", "b", "c"], ["a", "b"], false, [])
    requires kwargs == [("a", Int(2)), ("c", Int(4)), ("b", Int(3))]
    ensures DistinctKeys(kwargs) && Admissible(p, kwargs) && Dedup(p.fields) == ["a", "b", "c"]
  {
    assert "a"[0] == 'a' && "b"[0] == 'b' && "c"[0] == 'c';
    assert Keys(kwargs) == ["a", "c", "b"];
    assert Distinct(p.fields);
    assert KeySet(kwargs) == {"a", "b", "c"} == Elems(p.fields);
    assert Get(kwargs, "a") == Some(Int(2));
    assert Get(kwargs, "b") == Some(Int(3));
  }

  /** A record with side attributes `service` and `test` and data
      `color='red', number=10`. */
  lemma AccessExample()
    ensures var kind := RecordType("TstRecord", Policy([], [], false, []), ["service", "test"]);
            var rec := Record(kind, map["service" := Str("service"), "test" := Str("test")],
                              [("color", Str("red")), ("number", Int(10))]);
            && Attribute(rec, "test") == Ok(Str("test"))
            && GetItem(rec, "color") == Ok(Str("red"))
            && GetItem(rec, "test") == Err(KeyNotFound("test"))
            && Attribute(rec, "color") == Err(NoAttribute("color"))
            && Len(rec) == 2
  {
    var kind := RecordType("TstRecord", Policy([], [], false, []), ["service", "test"]);
    var rec := Record(kind, map["service" := Str("service"), "test" := Str("test")],
                      [("color", Str("red")), ("number", Int(10))]);
    assert Keys(rec.data) == ["color", "number"];
    assert "test" !in KeySet(rec.data);
  }

  /** A nested dict compares by content: `{x: {a: u, b: w}}` equals
      `{x: {b: w, a: u}}`, though the two are written in different orders. */
  lemma NestedOrderIgnored(rec: Record, x: string, a: string, b: string, u: Value, w: Value)
    requires a != b && rec.data == [(x, Dict([(a, u), (b, w)]))]
    ensures [(x, Dict([(b, w), (a, u)]))] != rec.data
    ensures Equals(rec, Dict([(x, Dict([(b, w), (a, u)]))]))
  {
    assert [(x, Dict([(b, w), (a, u)]))][0].1.entries[0].0 == b;
    SwapEqual(a, b, u, w);
    SingletonEqual(x, Dict([(b, w), (a, u)]), Dict([(a, u), (b, w)]));
  }

  lemma SwapEqual(a: string, b: string, u: Value, w: Value)
    requires a != b
    ensures PyEq(Dict([(b, w), (a, u)]), Dict([(a, u), (b, w)]))
  {
    var m1 := [(a, u), (b, w)];
    var m2 := [(b, w), (a, u)];
    assert Keys(m1) == [a, b] && Keys(m2) == [b, a];
    assert KeySet(m1) == {a, b} == KeySet(m2);
    PyEqReflexive(u);
    PyEqReflexive(w);
    forall k | k in KeySet(m2)
      ensures PyEq(Lookup(m2, k, Null), Lookup(m1, k, Null))
    {
      if k == a {
        assert Lookup(m2, k, Null) == u == Lookup(m1, k, Null);
      } else {
        assert Lookup(m2, k, Null) == w == Lookup(m1, k, Null);
      }
    }
    MappingEqByKeys(Dict(m2), Dict(m1));
  }

  /** One-entry dicts are equal when their values are. */
  lemma SingletonEqual(x: string, p: Value, q: Value)
    requires PyEq(p, q)
    ensures PyEq(Dict([(x, p)]), Dict([(x, q)]))
  {
    assert Keys([(x, p)]) == [x] == Keys([(x, q)]);
    MappingEqByKeys(Dict([(x, p)]), Dict([(x, q)]));
  }

  /** A nested record compares by its data: changing its side attributes
      leaves the outer record equal. */
  lemma NestedSideIgnored(rec: Record, inner: Record, side: map<string, Value>, x: string)
    requires rec.data == [(x, RecordValue(inner))]
    ensures Equals(rec, Dict([(x, RecordValue(inner.(side := side)))]))
  {
    PyEqReflexive(RecordValue(inner));
    assert PyEq(RecordValue(inner.(side := side)), RecordValue(inner));
    SingletonEqual(x, RecordValue(inner.(side := side)), RecordValue(inner));
  }

  /** A record holding a list cannot be hashed. */
  lemma ListValueUnhashable(rec: Record, h: map<string, Value> -> int, j: nat)
    requires j < |rec.data| && rec.data[j].1.List?
    ensures Hash(rec, h) == Err(Unhashable)
  {
  }

  /** The overlay of the worked case: only `test` is both a key field and a slot. */
  lemma ExampleOverlay(rec: Record)
    requires KeyFields(rec.kind.policy) == ["test", "a", "b"] && rec.kind.slots == ["service", "test"]
    requires rec.side == map["service" := Str("service"), "test" := Str("test")]
    ensures SlotOverlay(rec) == [("test", Str("test"))]
  {
    var keys := ["test", "a", "b"];
    ExampleNamesDiffer();
    assert Distinct(keys);
    assert Dedup(keys) == keys;
    assert SlotPairs(["b"], rec.kind.slots, rec.side) == [];
    assert SlotPairs(["a", "b"], rec.kind.slots, rec.side) == [];
  }

  /** The names of the worked case are pairwise different strings. */
  lemma ExampleNamesDiffer()
    ensures "a" != "b" && "a" != "test" && "b" != "test" && "service" != "test"
    ensures "a" != "service" && "b" != "service"
  {
    assert "a"[0] == 'a' && "b"[0] == 'b' && "test"[0] == 't' && "service"[0] == 's';
  }

  /** The record of the worked case satisfies its policy. */
  lemma ExampleData(rec: Record)
    requires rec.kind.policy == Policy(["a", "b"], [], false, ["test", "a", "b"])
    requires rec.data == [("a", Int(1)), ("b", Int(2))]
    ensures Valid(rec) && KeySet(rec.data) == Elems(rec.kind.policy.fields)
    ensures Admissible(rec.kind.policy, rec.data)
    ensures ValueOf(rec.data, "a") == Int(1)
  {
    ExampleNamesDiffer();
    assert Keys(rec.data) == ["a", "b"];
    assert Distinct(Keys(rec.data));
  }

  /** The intended key of the worked case exists: every key field holds
      an orderable value and `a` is non-falsy. */
  lemma ExampleIntended(rec: Record, show: Value -> string)
    requires rec.kind.policy == Policy(["a", "b"], [], false, ["test", "a", "b"])
    requires rec.kind.slots == ["service", "test"]
    requires rec.side == map["service" := Str("service"), "test" := Str("test")]
    requires rec.data == [("a", Int(1)), ("b", Int(2))]
    ensures var key := HashIndexKey(rec.kind.name, KeyFields(rec.kind.policy), Update(rec.data, SlotOverlay(rec)), None, show);
            key.Ok? && key.value.Some?
  {
    ExampleValues(rec);
    assert KeyFields(rec.kind.policy) == ["test", "a", "b"];
    ExampleKey(rec.kind.name, Update(rec.data, SlotOverlay(rec)), show);
  }

  /** Values holding `test='test', a=1, b=2` give a key over test, a, b. */
  lemma ExampleKey(name: string, values: Data, show: Value -> string)
    requires |values| > 0
    requires ValueOf(values, "test") == Str("test")
    requires ValueOf(values, "a") == Int(1) && ValueOf(values, "b") == Int(2)
    ensures HashIndexKey(name, ["test", "a", "b"], values, None, show).Ok?
    ensures HashIndexKey(name, ["test", "a", "b"], values, None, show).value.Some?
  {
    var keys := ["test", "a", "b"];
    forall f | f in keys
      ensures !Unordered(values, f)
    {
    }
    KeyProduced(name, keys, values, None, show, "a");
  }

  /** The values the intended version hands to the generator in the worked case */
  lemma ExampleValues(rec: Record)
    requires rec.kind.policy == Policy(["a", "b"], [], false, ["test", "a", "b"])
    requires rec.kind.slots == ["service", "test"]
    requires rec.side == map["service" := Str("service"), "test" := Str("test")]
    requires rec.data == [("a", Int(1)), ("b", Int(2))]
    ensures var values := Update(rec.data, SlotOverlay(rec));
            && |values| > 0
            && ValueOf(values, "test") == Str("test")
            && ValueOf(values, "a") == Int(1)
            && ValueOf(values, "b") == Int(2)
  {
    ExampleNamesDiffer();
    ExampleData(rec);
    var values := Update(rec.data, SlotOverlay(rec));
    IntendedValuesSeeSlots(rec, "test");
    IntendedValuesSeeSlots(rec, "a");
    IntendedValuesSeeSlots(rec, "b");
    assert |values| > 0 by {
      UpdateKeys(rec.data, SlotOverlay(rec));
      assert "a" in KeySet(values);
    }
  }

  /** A record type with `fields = a, b`, `hash_index_fields = test, a, b`
      and a slot `test` set to 'test', holding `a=1, b=2`: the code as
      written raises the extra-keys error, the intended version builds a
      key. */
  lemma SlotKeyFieldExample(show: Value -> string)
    ensures var kind := RecordType("SlotFieldRecord", Policy(["a", "b"], [], false, ["test", "a", "b"]),
                                   ["service", "test"]);
            var rec := Record(kind, map["service" := Str("service"), "test" := Str("test")],
                              [("a", Int(1)), ("b", Int(2))]);
            && GetHashIndexKey(rec, show).Err? && GetHashIndexKey(rec, show).error.ExtraKeys?
            && GetHashIndexKeyIntended(rec, show).Ok? && GetHashIndexKeyIntended(rec, show).value.Some?
  {
    var kind := RecordType("SlotFieldRecord", Policy(["a", "b"], [], false, ["test", "a", "b"]),
                           ["service", "test"]);
    var rec := Record(kind, map["service" := Str("service"), "test" := Str("test")],
                      [("a", Int(1)), ("b", Int(2))]);
    ExampleNamesDiffer();
    ExampleData(rec);
    SlotKeyFieldRejected(rec, show, "test");
    ExampleIntended(rec, show);
  }

  /** The test's record type with no `fields`, `hash_index_fields = test, a, b`
      and a slot `test` set to 'test', holding `a=1, b=2`: the values handed
      to the generator are the data with the slot laid over it. */
  lemma SlotsWithoutFieldsExample(rec: Record)
    requires rec.kind.policy == Policy([], [], false, ["test", "a", "b"])
    requires rec.kind.slots == ["service", "test"]
    requires rec.side == map["service" := Str("service"), "test" := Str("test")]
    requires rec.data == [("a", Int(1)), ("b", Int(2))]
    ensures HashIndexValues(rec).Ok?
    ensures KeySet(HashIndexValues(rec).value) == {"a", "b", "test"}
    ensures Get(HashIndexValues(rec).value, "test") == Some(Str("test"))
    ensures Get(HashIndexValues(rec).value, "a") == Some(Int(1))
    ensures Get(HashIndexValues(rec).value, "b") == Some(Int(2))
  {
    SlotsWithoutFieldsMerged(rec);
    var merged := Update(rec.data, SlotOverlay(rec));
    assert Validate(rec.kind.policy, merged) == Ok(merged);
  }

  /** The merge of the worked case, before re-validation: its keys */
  lemma SlotsWithoutFieldsMerged(rec: Record)
    requires rec.kind.policy == Policy([], [], false, ["test", "a", "b"])
    requires rec.kind.slots == ["service", "test"]
    requires rec.side == map["service" := Str("service"), "test" := Str("test")]
    requires rec.data == [("a", Int(1)), ("b", Int(2))]
    ensures var merged := Update(rec.data, SlotOverlay(rec));
            && KeySet(merged) == {"a", "b", "test"}
            && Get(merged, "test") == Some(Str("test"))
            && Get(merged, "a") == Some(Int(1))
            && Get(merged, "b") == Some(Int(2))
  {
    ExampleOverlay(rec);
    SlotsWithoutFieldsLookups(rec.data, SlotOverlay(rec));
  }

  /** Laying `test='test'` over `a=1, b=2` */
  lemma SlotsWithoutFieldsLookups(data: Data, o: Data)
    requires data == [("a", Int(1)), ("b", Int(2))] && o == [("test", Str("test"))]
    ensures var merged := Update(data, o);
            && KeySet(merged) == {"a", "b", "test"}
            && Get(merged, "test") == Some(Str("test"))
            && Get(merged, "a") == Some(Int(1))
            && Get(merged, "b") == Some(Int(2))
  {
    SlotsWithoutFieldsKeys(data, o);
    ExampleNamesDiffer();
    UpdateGet(data, o, "test");
    UpdateGet(data, o, "a");
    UpdateGet(data, o, "b");
  }

  lemma SlotsWithoutFieldsKeys(data: Data, o: Data)
    requires data == [("a", Int(1)), ("b", Int(2))] && o == [("test", Str("test"))]
    ensures KeySet(o) == {"test"}
    ensures KeySet(Update(data, o)) == {"a", "b", "test"}
  {
    ExampleNamesDiffer();
    assert Keys(data) == ["a", "b"];
    assert Keys(o) == ["test"];
    UpdateKeys(data, o);
  }
}

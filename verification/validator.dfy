/** `Record._set_record` (dubplate/__init__.py:440-491): checks keyword
    arguments against a record type's policy and builds the stored data. */
module Validator {
  import opened Wrappers
  import opened Seqs
  import opened Text
  import opened OrderedMap
  import opened Model

  /** The names in `names` that `keys` lacks, in order */
  function Absent(names: seq<string>, keys: set<string>): (r: seq<string>)
    ensures Elems(r) == Elems(names) - keys
    decreases |names|
  {
    if |names| == 0 then []
    else
      assert Elems(names) == {names[0]} + Elems(names[1..]);
      var head: seq<string> := if names[0] in keys then [] else [names[0]];
      var tail := Absent(names[1..], keys);
      assert Elems(head + tail) == Elems(head) + Elems(tail);
      head + tail
  }

  lemma NoneAbsent(names: seq<string>, keys: set<string>)
    requires SortedSet(Absent(names, keys)) == []
    ensures Elems(names) <= keys
  {
    assert Elems(Absent(names, keys)) == {};
  }

  /** The names in `names` supplied as None */
  function NullNames(names: seq<string>, raw: Data): (r: seq<string>)
    ensures Elems(r) == set n | n in names && Get(raw, n) == Some(Null)
    decreases |names|
  {
    if |names| == 0 then []
    else
      assert forall n :: n in names <==> n == names[0] || n in names[1..];
      var head: seq<string> := if Get(raw, names[0]) == Some(Null) then [names[0]] else [];
      var tail := NullNames(names[1..], raw);
      assert Elems(head + tail) == Elems(head) + Elems(tail);
      head + tail
  }

  /** The pairs the ordered rebuild is made from: each field with its
      supplied value, None when it was not supplied. */
  function FieldPairs(fields: seq<string>, raw: Data): (ps: Data)
    ensures Keys(ps) == fields
  {
    seq(|fields|, i requires 0 <= i < |fields| => (fields[i], Lookup(raw, fields[i], Null)))
  }

  /** `FrozenOrderedDict([(field, record.get(field, None)) for field in fields])` */
  function Rebuild(fields: seq<string>, raw: Data): Data {
    FromPairs(FieldPairs(fields, raw))
  }

  /** When validation succeeds, stated over the supplied key set rather
      than as the sequence of checks the code runs. */
  predicate Admissible(p: Policy, raw: Data) {
    && Elems(p.nonNullFields) <= KeySet(raw)
    && (forall n :: n in p.nonNullFields ==> Get(raw, n) != Some(Null))
    && (|p.fields| > 0 ==>
          && !(Elems(p.fields) < KeySet(raw))
          && !(p.requireAllFields && KeySet(raw) < Elems(p.fields)))
  }

  /** The non-null block of `_set_record` (lines 446-465): absent names
      first, all of them, sorted; then names supplied as None. The absent
      names are reported only when their comma-joined list is non-empty, so
      a lone absent name "" falls through to the lookup `record[""]`, which
      raises a bare KeyError. */
  function NonNullError(p: Policy, raw: Data): (e: Option<Error>)
    ensures e.None? <==>
              && Elems(p.nonNullFields) <= KeySet(raw)
              && forall n :: n in p.nonNullFields ==> Get(raw, n) != Some(Null)
    ensures e.Some? ==> IsValidationError(e.value)
  {
    var keys := KeySet(raw);
    var missing := SortedSet(Absent(p.nonNullFields, keys));
    var nulls := SortedSet(NullNames(p.nonNullFields, raw));
    JoinIsEmpty(", ", missing);
    if |p.nonNullFields| > 0 && Join(", ", missing) != "" then
      Some(RequiredMissing(missing))
    else if |p.nonNullFields| > 0 && |missing| > 0 then
      Some(KeyNotFound(missing[0]))
    else if |p.nonNullFields| > 0 && |nulls| > 0 then
      assert nulls[0] in Elems(nulls);
      Some(RequiredNull(nulls))
    else
      assert Elems(p.nonNullFields) <= keys by {
        if |p.nonNullFields| > 0 {
          NoneAbsent(p.nonNullFields, keys);
        } else {
          assert p.nonNullFields == [];
        }
      }
      assert forall n :: n in p.nonNullFields ==> Get(raw, n) != Some(Null) by {
        if |p.nonNullFields| > 0 {
          assert Elems(nulls) == {};
        }
      }
      None
  }

  /** The `fields` block of `_set_record` (lines 466-490): the
      strict-superset test for extra keys, then the strict-subset test for
      missing keys, then the ordered rebuild; without `fields` the input is
      kept as it is. */
  function FieldsResult(p: Policy, raw: Data): (r: Result<Data, Error>)
    ensures r.Ok? <==>
              (|p.fields| > 0 ==>
                 && !(Elems(p.fields) < KeySet(raw))
                 && !(p.requireAllFields && KeySet(raw) < Elems(p.fields)))
    ensures r.Err? ==> IsValidationError(r.error)
    ensures r.Ok? && |p.fields| > 0 ==> Keys(r.value) == Dedup(p.fields)
    ensures r.Ok? && |p.fields| > 0 ==>
              forall f :: f in p.fields ==> Get(r.value, f) == Some(Lookup(raw, f, Null))
    ensures r.Ok? && |p.fields| == 0 ==> r.value == raw
    ensures r.Ok? ==> forall j :: 0 <= j < |r.value| ==> r.value[j].1 == Null || r.value[j].1 in Values(raw)
  {
    var keys := KeySet(raw);
    if |p.fields| > 0 && Elems(p.fields) < keys then
      Err(ExtraKeys(keys - Elems(p.fields), p.fields))
    else if |p.fields| > 0 && keys < Elems(p.fields) && p.requireAllFields then
      Err(MissingKeys(Elems(p.fields) - keys, p.fields))
    else if |p.fields| > 0 then
      RebuildFacts(p.fields, raw);
      Ok(Rebuild(p.fields, raw))
    else
      assert forall j :: 0 <= j < |raw| ==> raw[j].1 == Values(raw)[j];
      Ok(raw)
  }

  /** `_set_record` */
  function Validate(p: Policy, raw: Data): (r: Result<Data, Error>)
    ensures r.Ok? <==> Admissible(p, raw)
    ensures r.Err? ==> IsValidationError(r.error)
    ensures r.Ok? && |p.fields| > 0 ==> Keys(r.value) == Dedup(p.fields)
    ensures r.Ok? && |p.fields| > 0 ==>
              forall f :: f in p.fields ==> Get(r.value, f) == Some(Lookup(raw, f, Null))
    ensures r.Ok? && |p.fields| == 0 ==> r.value == raw
    ensures r.Ok? ==> forall j :: 0 <= j < |r.value| ==> r.value[j].1 == Null || r.value[j].1 in Values(raw)
  {
    match NonNullError(p, raw)
    case Some(e) => Err(e)
    case None => FieldsResult(p, raw)
  }

  /** The rebuild keeps first positions of `fields`, looks each one up in
      the input, and takes every value from the input or None. */
  lemma RebuildFacts(fields: seq<string>, raw: Data)
    ensures Keys(Rebuild(fields, raw)) == Dedup(fields)
    ensures forall f :: f in fields ==> Get(Rebuild(fields, raw), f) == Some(Lookup(raw, f, Null))
    ensures forall j :: 0 <= j < |Rebuild(fields, raw)| ==>
              Rebuild(fields, raw)[j].1 == Null || Rebuild(fields, raw)[j].1 in Values(raw)
  {
    UpdateKeyOrder(FieldPairs(fields, raw));
    forall f | f in fields
      ensures Get(Rebuild(fields, raw), f) == Some(Lookup(raw, f, Null))
    {
      RebuildGet(fields, raw, f);
    }
    var r := Rebuild(fields, raw);
    forall j | 0 <= j < |r|
      ensures r[j].1 == Null || r[j].1 in Values(raw)
    {
      var ps := FieldPairs(fields, raw);
      assert r[j] in ps;
      var i :| 0 <= i < |ps| && ps[i] == r[j];
      var g := Get(raw, fields[i]);
      if g.Some? {
        var k :| 0 <= k < |raw| && raw[k] == (fields[i], g.value);
        assert Values(raw)[k] == r[j].1;
      }
    }
  }

  lemma RebuildGet(fields: seq<string>, raw: Data, f: string)
    requires f in fields
    ensures Get(Rebuild(fields, raw), f) == Some(Lookup(raw, f, Null))
  {
    var ps := FieldPairs(fields, raw);
    UniformUpdateGet([], ps, f, Lookup(raw, f, Null));
  }

  // ---------------------------------------------------------------------
  // The order of the checks
  // ---------------------------------------------------------------------

  /** Absent non-null fields are reported first, all of them, sorted. */
  lemma RequiredMissingReported(p: Policy, raw: Data)
    requires Elems(p.nonNullFields) - KeySet(raw) - {""} != {}
    ensures Validate(p, raw).Err? && Validate(p, raw).error.RequiredMissing?
    ensures StrictlySorted(Validate(p, raw).error.names)
    ensures Elems(Validate(p, raw).error.names) == Elems(p.nonNullFields) - KeySet(raw)
  {
    var missing := SortedSet(Absent(p.nonNullFields, KeySet(raw)));
    var x :| x in Elems(p.nonNullFields) - KeySet(raw) - {""};
    assert x in Elems(missing);
    JoinIsEmpty(", ", missing);
    assert missing != [""];
  }

  /** When the only absent non-null name is "", the joined list is empty,
      and the lookup of that name raises instead. */
  lemma EmptyNameLookupFails(p: Policy, raw: Data)
    requires Elems(p.nonNullFields) - KeySet(raw) == {""}
    ensures Validate(p, raw) == Err(KeyNotFound(""))
  {
    var missing := SortedSet(Absent(p.nonNullFields, KeySet(raw)));
    assert Elems(missing) == {""};
    assert missing == [""] by {
      SortedByMembers(missing, [""]);
    }
    JoinIsEmpty(", ", missing);
    assert "" in p.nonNullFields;
  }

  /** Only when every non-null field is present are None values checked;
      that report lists every non-null field supplied as None, sorted. */
  lemma RequiredNullReported(p: Policy, raw: Data, n: string)
    requires Elems(p.nonNullFields) <= KeySet(raw)
    requires n in p.nonNullFields && Get(raw, n) == Some(Null)
    ensures Validate(p, raw).Err? && Validate(p, raw).error.RequiredNull?
    ensures StrictlySorted(Validate(p, raw).error.names)
    ensures Elems(Validate(p, raw).error.names) == set m | m in p.nonNullFields && Get(raw, m) == Some(Null)
  {
    var missing := SortedSet(Absent(p.nonNullFields, KeySet(raw)));
    NoElems(missing);
    var nulls := SortedSet(NullNames(p.nonNullFields, raw));
    assert n in Elems(nulls);
  }

  /** Supplied keys that strictly contain `fields` are rejected, even when
      `require_all_fields` is set: the extra-keys test comes first. */
  lemma ExtraKeysReported(p: Policy, raw: Data)
    requires Elems(p.nonNullFields) <= KeySet(raw)
    requires forall n :: n in p.nonNullFields ==> Get(raw, n) != Some(Null)
    requires |p.fields| > 0 && Elems(p.fields) < KeySet(raw)
    ensures Validate(p, raw) == Err(ExtraKeys(KeySet(raw) - Elems(p.fields), p.fields))
  {
    NonNullChecksPass(p, raw);
  }

  /** With `require_all_fields`, supplied keys strictly inside `fields` are rejected. */
  lemma MissingKeysReported(p: Policy, raw: Data)
    requires Elems(p.nonNullFields) <= KeySet(raw)
    requires forall n :: n in p.nonNullFields ==> Get(raw, n) != Some(Null)
    requires |p.fields| > 0 && p.requireAllFields && KeySet(raw) < Elems(p.fields)
    ensures Validate(p, raw) == Err(MissingKeys(Elems(p.fields) - KeySet(raw), p.fields))
  {
    NonNullChecksPass(p, raw);
  }

  lemma NonNullChecksPass(p: Policy, raw: Data)
    requires Elems(p.nonNullFields) <= KeySet(raw)
    requires forall n :: n in p.nonNullFields ==> Get(raw, n) != Some(Null)
    ensures SortedSet(Absent(p.nonNullFields, KeySet(raw))) == []
    ensures SortedSet(NullNames(p.nonNullFields, raw)) == []
  {
    var missing := SortedSet(Absent(p.nonNullFields, KeySet(raw)));
    var nulls := SortedSet(NullNames(p.nonNullFields, raw));
    assert Elems(missing) == {};
    assert Elems(nulls) == {};
  }

  /** Extra keys beside an omitted field pass both tests, even under
      `require_all_fields`, and the rebuild silently drops them. */
  lemma ExtrasBesideOmissionDropped(p: Policy, raw: Data, extra: string, omitted: string)
    requires Elems(p.nonNullFields) <= KeySet(raw)
    requires forall n :: n in p.nonNullFields ==> Get(raw, n) != Some(Null)
    requires |p.fields| > 0
    requires extra in KeySet(raw) && extra !in p.fields
    requires omitted in p.fields && omitted !in KeySet(raw)
    ensures Validate(p, raw).Ok?
    ensures KeySet(Validate(p, raw).value) == Elems(p.fields)
    ensures extra !in KeySet(Validate(p, raw).value)
    ensures Get(Validate(p, raw).value, omitted) == Some(Null)
  {
    assert !(Elems(p.fields) < KeySet(raw));
    assert !(KeySet(raw) < Elems(p.fields));
  }

  /** By default an omitted field is stored as None without error. */
  lemma OmittedFieldsDefaultToNull(p: Policy, raw: Data, f: string)
    requires Elems(p.nonNullFields) <= KeySet(raw)
    requires forall n :: n in p.nonNullFields ==> Get(raw, n) != Some(Null)
    requires !p.requireAllFields && KeySet(raw) <= Elems(p.fields)
    requires f in p.fields && f !in KeySet(raw)
    ensures Validate(p, raw).Ok?
    ensures Get(Validate(p, raw).value, f) == Some(Null)
  {
  }

  // ---------------------------------------------------------------------
  // Order independence and re-validation
  // ---------------------------------------------------------------------

  /** With `fields` set, the result depends on the supplied mapping only,
      not on the order the keyword arguments came in. */
  lemma InputOrderIrrelevant(p: Policy, raw1: Data, raw2: Data)
    requires |p.fields| > 0
    requires ToMap(raw1) == ToMap(raw2)
    ensures Validate(p, raw1) == Validate(p, raw2)
  {
    assert KeySet(raw1) == KeySet(raw2);
    forall k
      ensures Get(raw1, k) == Get(raw2, k)
    {
      if k in KeySet(raw1) {
        assert Get(raw1, k) == Some(ToMap(raw1)[k]);
      }
    }
    NullNamesAgree(p.nonNullFields, raw1, raw2);
    assert FieldPairs(p.fields, raw1) == FieldPairs(p.fields, raw2);
    ValidateAgrees(p, raw1, raw2);
  }

  /** Validation reads the input only through its key set, its None
      values and the rebuild pairs. */
  lemma ValidateAgrees(p: Policy, raw1: Data, raw2: Data)
    requires |p.fields| > 0
    requires KeySet(raw1) == KeySet(raw2)
    requires NullNames(p.nonNullFields, raw1) == NullNames(p.nonNullFields, raw2)
    requires FieldPairs(p.fields, raw1) == FieldPairs(p.fields, raw2)
    ensures Validate(p, raw1) == Validate(p, raw2)
  {
  }

  lemma {:induction false} NullNamesAgree(names: seq<string>, raw1: Data, raw2: Data)
    requires forall k :: Get(raw1, k) == Get(raw2, k)
    ensures NullNames(names, raw1) == NullNames(names, raw2)
    decreases |names|
  {
    if |names| > 0 {
      NullNamesAgree(names[1..], raw1, raw2);
    }
  }

  /** Validating data that validation produced gives it back unchanged,
      provided every non-null field is one of `fields` (or `fields` is
      unset). This is what makes `copy_record()` of a record its data. */
  lemma RevalidationIsIdentity(p: Policy, raw: Data)
    requires Validate(p, raw).Ok?
    requires |p.fields| == 0 || Elems(p.nonNullFields) <= Elems(p.fields)
    ensures Validate(p, Validate(p, raw).value) == Validate(p, raw)
  {
    var out := Validate(p, raw).value;
    if |p.fields| > 0 {
      AdmissibleRebuilds(p, raw);
      assert KeySet(out) == Elems(p.fields) by {
        assert Elems(Keys(out)) == Elems(Dedup(p.fields));
      }
      forall n | n in p.nonNullFields
        ensures Get(out, n) != Some(Null)
      {
        assert n in Elems(p.fields);
      }
      assert Admissible(p, out);
      AdmissibleRebuilds(p, out);
      forall i | 0 <= i < |p.fields|
        ensures FieldPairs(p.fields, out)[i] == FieldPairs(p.fields, raw)[i]
      {
        assert p.fields[i] in p.fields;
      }
      assert FieldPairs(p.fields, out) == FieldPairs(p.fields, raw);
    }
  }

  /** With `fields` set, an admissible input is answered with its rebuild. */
  lemma AdmissibleRebuilds(p: Policy, raw: Data)
    requires |p.fields| > 0 && Admissible(p, raw)
    ensures Validate(p, raw) == Ok(Rebuild(p.fields, raw))
  {
    NonNullChecksPass(p, raw);
  }

  /** A non-null field outside `fields` is checked on the way in and then
      dropped by the rebuild, so validating the stored data again fails. */
  lemma RevalidationCanFail()
    ensures var p := Policy(["a"], ["b"], false, []);
            && Validate(p, [("b", Int(2))]) == Ok([("a", Null)])
            && Validate(p, [("a", Null)]) == Err(RequiredMissing(["b"]))
  {
    CheckedThenDropped();
    DroppedThenMissing();
  }

  /** `b` is present, so the checks pass, and the rebuild over `a` drops it. */
  lemma CheckedThenDropped()
    ensures Validate(Policy(["a"], ["b"], false, []), [("b", Int(2))]) == Ok([("a", Null)])
  {
    var p := Policy(["a"], ["b"], false, []);
    var raw := [("b", Int(2))];
    assert KeySet(raw) == {"b"} by {
      assert Keys(raw) == ["b"];
    }
    assert Elems(p.fields) == {"a"};
    assert !(Elems(p.fields) < KeySet(raw));
    var out := Validate(p, raw).value;
    assert Keys(out) == ["a"];
    assert Get(out, "a") == Some(Null);
    assert out == [("a", Null)];
  }

  /** Without `b`, the check for absent non-null names raises. */
  lemma DroppedThenMissing()
    ensures Validate(Policy(["a"], ["b"], false, []), [("a", Null)]) == Err(RequiredMissing(["b"]))
  {
    var p := Policy(["a"], ["b"], false, []);
    var stored := [("a", Null)];
    assert KeySet(stored) == {"a"} by {
      assert Keys(stored) == ["a"];
    }
    assert Absent(p.nonNullFields, KeySet(stored)) == ["b"];
    assert SortedSet(["b"]) == ["b"];
  }

  // ---------------------------------------------------------------------
  // Error text for absent non-null fields
  // ---------------------------------------------------------------------

  /** The message of lines 450-453 as written: the plural form is chosen by
      the length of the joined name list, not by the number of names. */
  function RequiredMissingMessage(names: seq<string>): string {
    var joined := Join(", ", names);
    "The following field" + (if |joined| > 1 then "s are" else " is") + " required: " + joined
  }

  /** The message with the plural chosen by the number of names, as the
      None-value message of lines 461-464 does. */
  function RequiredMissingMessageIntended(names: seq<string>): string {
    "The following field" + (if |names| > 1 then "s are" else " is") + " required: " + Join(", ", names)
  }

  /** One absent field with a two-letter name is reported in the plural. */
  lemma PluralByStringLength()
    ensures RequiredMissingMessage(["ab"]) == "The following fields are required: ab"
    ensures RequiredMissingMessageIntended(["ab"]) == "The following field is required: ab"
  {
  }

  /** The corrected text is singular exactly when one name is reported, and
      agrees with the code as written whenever every name is one character. */
  lemma IntendedPluralCountsNames(names: seq<string>)
    requires |names| > 0
    ensures |names| == 1 <==>
              RequiredMissingMessageIntended(names) == "The following field is required: " + Join(", ", names)
    ensures (forall i :: 0 <= i < |names| ==> |names[i]| == 1) ==>
              RequiredMissingMessageIntended(names) == RequiredMissingMessage(names)
  {
    var prefix := "The following field is required: ";
    var plural := "The following fields are required: ";
    if |names| > 1 {
      assert RequiredMissingMessageIntended(names)[19] == 's';
      assert (prefix + Join(", ", names))[19] == ' ';
      if forall i :: 0 <= i < |names| ==> |names[i]| == 1 {
        assert |Join(", ", names)| > 1;
      }
    }
  }
}

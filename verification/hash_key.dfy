/** `generate_hash_index_key` (dubplate/__init__.py:58-100): the string a
    hash index files a record under, built from the type name, an optional
    id and the non-falsy values of some fields. */
module HashKey {
  import opened Wrappers
  import opened Text
  import opened OrderedMap
  import opened Model

  /** `isinstance(value, (Sequence, int))`: strings, lists and tuples are
      Sequences; dicts, sets, dates and records are not. */
  predicate Orderable(v: Value) {
    v.Int? || v.Str? || v.List? || v.Tuple?
  }

  /** `'{}'.format(value)`: a string is itself and an int its decimal form;
      the text of any other value is Python's `str` of it, supplied as `show`. */
  function Render(v: Value, show: Value -> string): string {
    match v
    case Str(s) => s
    case Int(i) => IntString(i)
    case _ => show(v)
  }

  /** `values_dict.get(field)` */
  function ValueOf(values: Data, f: string): Value {
    Lookup(values, f, Null)
  }

  /** A value that makes the generator raise: non-falsy and not orderable */
  predicate Unordered(values: Data, f: string) {
    Truthy(ValueOf(values, f)) && !Orderable(ValueOf(values, f))
  }

  /** The fields that take part in a key, with their values: the non-falsy
      ones, in `fields` order, repeats included. */
  function Selected(fields: seq<string>, values: Data): (sel: Data)
    ensures forall j :: 0 <= j < |sel| ==>
              sel[j].0 in fields && Truthy(sel[j].1) && sel[j].1 == ValueOf(values, sel[j].0)
    decreases |fields|
  {
    if |fields| == 0 then []
    else
      var n := |fields| - 1;
      var v := ValueOf(values, fields[n]);
      var init := Selected(fields[..n], values);
      if Truthy(v) then init + [(fields[n], v)] else init
  }

  lemma {:induction false} SelectedEmpty(fields: seq<string>, values: Data)
    ensures |Selected(fields, values)| == 0 <==> forall f :: f in fields ==> !Truthy(ValueOf(values, f))
    decreases |fields|
  {
    if |fields| > 0 {
      var n := |fields| - 1;
      SelectedEmpty(fields[..n], values);
      assert fields == fields[..n] + [fields[n]];
    }
  }

  /** A single field is selected, with its value, exactly when that value is non-falsy. */
  lemma SelectedSingle(f: string, values: Data)
    ensures Selected([f], values)
            == if Truthy(ValueOf(values, f)) then [(f, ValueOf(values, f))] else []
  {
    assert [f][..0] == [];
  }

  /** Selection distributes over concatenation of the field list: every
      non-falsy field contributes its entry, in `fields` order. */
  lemma {:induction false} SelectedAppend(a: seq<string>, b: seq<string>, values: Data)
    ensures Selected(a + b, values) == Selected(a, values) + Selected(b, values)
    decreases |b|
  {
    if |b| == 0 {
      assert a + b == a;
    } else {
      var n := |b| - 1;
      var ab := a + b;
      SelectedAppend(a, b[..n], values);
      assert ab[..|ab| - 1] == a + b[..n];
      assert ab[|ab| - 1] == b[n];
      SelectedLast(ab, values);
      SelectedLast(b, values);
    }
  }

  /** The last field decides whether the selection grows by one entry. */
  lemma SelectedLast(fields: seq<string>, values: Data)
    requires |fields| > 0
    ensures var n := |fields| - 1;
            Selected(fields, values)
            == Selected(fields[..n], values)
               + (if Truthy(ValueOf(values, fields[n])) then [(fields[n], ValueOf(values, fields[n]))] else [])
  {
  }

  /** Every non-falsy field is selected. */
  lemma SelectedComplete(fields: seq<string>, values: Data, i: nat)
    requires i < |fields| && Truthy(ValueOf(values, fields[i]))
    ensures (fields[i], ValueOf(values, fields[i])) in Selected(fields, values)
  {
    var f := fields[i];
    assert fields == fields[..i] + ([f] + fields[i + 1..]);
    SelectedAppend(fields[..i], [f] + fields[i + 1..], values);
    SelectedAppend([f], fields[i + 1..], values);
    SelectedSingle(f, values);
    var pre := Selected(fields[..i], values);
    assert Selected(fields, values)[|pre|] == (f, ValueOf(values, f));
  }

  /** The field the generator raises on */
  function FirstUnordered(fields: seq<string>, values: Data): (r: Option<string>)
    ensures r.Some? ==> r.value in fields && Unordered(values, r.value)
    decreases |fields|
  {
    if |fields| == 0 then None
    else
      var n := |fields| - 1;
      var init := FirstUnordered(fields[..n], values);
      if init.Some? then
        assert init.value in fields[..n];
        init
      else if Unordered(values, fields[n]) then Some(fields[n])
      else None
  }

  /** Nothing raises exactly when no field holds an unordered value. */
  lemma {:induction false} FirstUnorderedNone(fields: seq<string>, values: Data)
    ensures FirstUnordered(fields, values).None? <==> forall f :: f in fields ==> !Unordered(values, f)
    decreases |fields|
  {
    if |fields| > 0 {
      var n := |fields| - 1;
      FirstUnorderedNone(fields[..n], values);
      assert fields == fields[..n] + [fields[n]];
    }
  }

  /** The field raised on comes before every other unordered one. */
  lemma {:induction false} FirstUnorderedIsFirst(fields: seq<string>, values: Data)
    requires FirstUnordered(fields, values).Some?
    ensures exists i :: 0 <= i < |fields| && fields[i] == FirstUnordered(fields, values).value
                        && forall j :: 0 <= j < i ==> !Unordered(values, fields[j])
    decreases |fields|
  {
    var n := |fields| - 1;
    var init := FirstUnordered(fields[..n], values);
    if init.Some? {
      FirstUnorderedIsFirst(fields[..n], values);
      var i :| 0 <= i < n && fields[..n][i] == init.value
               && forall j :: 0 <= j < i ==> !Unordered(values, fields[..n][j]);
      assert fields[i] == init.value;
      assert forall j :: 0 <= j < i ==> fields[j] == fields[..n][j];
    } else {
      FirstUnorderedNone(fields[..n], values);
      assert forall j :: 0 <= j < n ==> fields[j] in fields[..n];
      assert fields[n] == FirstUnordered(fields, values).value;
    }
  }

  /** One `'{}:{}'.format(field, value)` segment */
  function Segment(f: string, v: Value, show: Value -> string): string {
    f + ":" + Render(v, show)
  }

  function Segments(sel: Data, show: Value -> string): (segs: seq<string>)
    ensures |segs| == |sel|
    ensures forall j :: 0 <= j < |sel| ==> segs[j] == Segment(sel[j].0, sel[j].1, show)
  {
    seq(|sel|, j requires 0 <= j < |sel| => Segment(sel[j].0, sel[j].1, show))
  }

  /** `obj_str`: the type name, then the id only when it is truthy */
  function Prefix(objType: string, objId: Option<int>): string {
    if objId.Some? && objId.value != 0 then objType + ":" + IntString(objId.value) else objType
  }

  /** What `generate_hash_index_key` returns or raises. `None` comes back
      when there are no fields, no values, or no non-falsy value; an
      unordered value raises, naming the first field that holds one. */
  function HashIndexKey(objType: string, fields: seq<string>, values: Data, objId: Option<int>,
                        show: Value -> string): (r: Result<Option<string>, Error>)
    ensures r == Ok(None) <==>
              (|fields| == 0 || |values| == 0 || forall f :: f in fields ==> !Truthy(ValueOf(values, f)))
    ensures r.Err? <==>
              (|fields| > 0 && |values| > 0 && exists f :: f in fields && Unordered(values, f))
    ensures r.Err? ==>
              r.error.UnorderedValue?
              && exists i :: 0 <= i < |fields| && fields[i] == r.error.field && Unordered(values, fields[i])
                             && forall j :: 0 <= j < i ==> !Unordered(values, fields[j])
  {
    if |fields| == 0 || |values| == 0 then Ok(None)
    else
      FirstUnorderedNone(fields, values);
      match FirstUnordered(fields, values)
      case Some(f) =>
        FirstUnorderedIsFirst(fields, values);
        Err(UnorderedValue(f))
      case None =>
        var sel := Selected(fields, values);
        SelectedEmpty(fields, values);
        if |sel| == 0 then Ok(None)
        else Ok(Some(Prefix(objType, objId) + ":" + Join(":", Segments(sel, show))))
  }

  /** A key comes back when some field holds a non-falsy value and none an unordered one. */
  lemma KeyProduced(objType: string, fields: seq<string>, values: Data, objId: Option<int>,
                    show: Value -> string, g: string)
    requires |values| > 0 && g in fields && Truthy(ValueOf(values, g))
    requires forall f :: f in fields ==> !Unordered(values, f)
    ensures HashIndexKey(objType, fields, values, objId, show).Ok?
    ensures HashIndexKey(objType, fields, values, objId, show).value.Some?
  {
  }

  /** Once a prefix of the fields raises, the whole list raises on the same field. */
  lemma {:induction false} FirstUnorderedPrefix(fields: seq<string>, values: Data, k: nat)
    requires k <= |fields| && FirstUnordered(fields[..k], values).Some?
    ensures FirstUnordered(fields, values) == FirstUnordered(fields[..k], values)
    decreases |fields|
  {
    if k < |fields| {
      var n := |fields| - 1;
      assert fields[..n][..k] == fields[..k];
      FirstUnorderedPrefix(fields[..n], values, k);
    } else {
      assert fields[..k] == fields;
    }
  }

  /** The generator's loop: each field in turn is skipped when its value is
      falsy, raises when the value is unordered, and otherwise adds its
      segment. */
  method GenerateHashIndexKey(objType: string, fields: seq<string>, values: Data, objId: Option<int>,
                              show: Value -> string) returns (r: Result<Option<string>, Error>)
    ensures r == HashIndexKey(objType, fields, values, objId, show)
  {
    if |fields| == 0 || |values| == 0 {
      return Ok(None);
    }
    var fieldValues: seq<string> := [];
    var i := 0;
    while i < |fields|
      invariant 0 <= i <= |fields|
      invariant FirstUnordered(fields[..i], values).None?
      invariant fieldValues == Segments(Selected(fields[..i], values), show)
    {
      var value := ValueOf(values, fields[i]);
      assert fields[..i + 1][..i] == fields[..i];
      if !Truthy(value) {
      } else if !Orderable(value) {
        FirstUnorderedPrefix(fields, values, i + 1);
        return Err(UnorderedValue(fields[i]));
      } else {
        fieldValues := fieldValues + [Segment(fields[i], value, show)];
      }
      i := i + 1;
    }
    assert fields[..i] == fields;
    if |fieldValues| == 0 {
      return Ok(None);
    }
    var objStr := if objId.Some? && objId.value != 0 then objType + ":" + IntString(objId.value) else objType;
    return Ok(Some(objStr + ":" + Join(":", fieldValues)));
  }

  // ---------------------------------------------------------------------
  // Reading a key back
  // ---------------------------------------------------------------------

  /** The colon-separated components a key is made of: type name, id when
      truthy, then each field followed by its value. */
  function PrefixParts(objType: string, objId: Option<int>): seq<string> {
    if objId.Some? && objId.value != 0 then [objType, IntString(objId.value)] else [objType]
  }

  function Components(sel: Data, show: Value -> string): (c: seq<string>)
    ensures |c| == 2 * |sel|
    ensures forall j :: 0 <= j < |sel| ==> c[2 * j] == sel[j].0 && c[2 * j + 1] == Render(sel[j].1, show)
    decreases |sel|
  {
    if |sel| == 0 then []
    else
      var rest := Components(sel[1..], show);
      var c := [sel[0].0, Render(sel[0].1, show)] + rest;
      PairShift(sel[0].0, Render(sel[0].1, show), rest);
      c
  }

  /** Behind a leading pair, the rest sits two places further on. */
  lemma PairShift(x: string, y: string, rest: seq<string>)
    ensures forall i :: 0 <= i < |rest| ==> ([x, y] + rest)[i + 2] == rest[i]
  {
  }

  lemma {:induction false} SegmentsJoin(sel: Data, show: Value -> string)
    requires |sel| > 0
    ensures Join(":", Segments(sel, show)) == Join(":", Components(sel, show))
    decreases |sel|
  {
    var head := [sel[0].0, Render(sel[0].1, show)];
    assert Join(":", head) == Segment(sel[0].0, sel[0].1, show);
    if |sel| > 1 {
      SegmentsJoin(sel[1..], show);
      assert Segments(sel, show)[1..] == Segments(sel[1..], show);
      JoinAppend(":", head, Components(sel[1..], show));
    } else {
      assert Components(sel, show) == head;
    }
  }

  lemma {:induction false} NoColonInNatString(n: nat)
    ensures ':' !in NatString(n)
    decreases n
  {
    if n >= 10 {
      NoColonInNatString(n / 10);
    }
  }

  lemma NoColonInPrefixParts(objType: string, objId: Option<int>)
    requires ':' !in objType
    ensures forall i :: 0 <= i < |PrefixParts(objType, objId)| ==> ':' !in PrefixParts(objType, objId)[i]
  {
    if objId.Some? && objId.value != 0 {
      NoColonInNatString(if objId.value < 0 then -objId.value else objId.value);
    }
  }

  /** A key is its components joined by ':'. */
  lemma KeyIsJoin(objType: string, objId: Option<int>, sel: Data, show: Value -> string)
    requires |sel| > 0
    ensures Prefix(objType, objId) + ":" + Join(":", Segments(sel, show))
            == Join(":", PrefixParts(objType, objId) + Components(sel, show))
  {
    SegmentsJoin(sel, show);
    assert Prefix(objType, objId) == Join(":", PrefixParts(objType, objId));
    JoinAppend(":", PrefixParts(objType, objId), Components(sel, show));
  }

  lemma ComponentsNoColon(fields: seq<string>, values: Data, show: Value -> string)
    requires forall f :: f in fields ==> ':' !in f && ':' !in Render(ValueOf(values, f), show)
    ensures forall i :: 0 <= i < |Components(Selected(fields, values), show)| ==>
              ':' !in Components(Selected(fields, values), show)[i]
  {
    var sel := Selected(fields, values);
    var comps := Components(sel, show);
    forall i | 0 <= i < |comps|
      ensures ':' !in comps[i]
    {
      var j := i / 2;
      var f := sel[j].0;
      assert f in fields && sel[j].1 == ValueOf(values, f);
      if i == 2 * j {
        assert comps[i] == f;
      } else {
        assert i == 2 * j + 1;
        assert comps[i] == Render(ValueOf(values, f), show);
      }
    }
  }

  lemma KeyShape(objType: string, fields: seq<string>, values: Data, objId: Option<int>,
                 show: Value -> string)
    requires HashIndexKey(objType, fields, values, objId, show).Ok?
    requires HashIndexKey(objType, fields, values, objId, show).value.Some?
    ensures |Selected(fields, values)| > 0
    ensures HashIndexKey(objType, fields, values, objId, show).value.value
            == Prefix(objType, objId) + ":" + Join(":", Segments(Selected(fields, values), show))
  {
    assert FirstUnordered(fields, values).None?;
  }

  lemma PartsNoColon(objType: string, objId: Option<int>, fields: seq<string>, values: Data,
                     show: Value -> string)
    requires ':' !in objType
    requires forall f :: f in fields ==> ':' !in f && ':' !in Render(ValueOf(values, f), show)
    ensures var parts := PrefixParts(objType, objId) + Components(Selected(fields, values), show);
            forall i :: 0 <= i < |parts| ==> ':' !in parts[i]
  {
    var pre := PrefixParts(objType, objId);
    var comps := Components(Selected(fields, values), show);
    NoColonInPrefixParts(objType, objId);
    ComponentsNoColon(fields, values, show);
    assert forall i :: |pre| <= i < |pre + comps| ==> (pre + comps)[i] == comps[i - |pre|];
  }

  /** A key splits on ':' back into its components when the type name,
      the fields and the rendered values hold no ':' of their own. */
  lemma KeySplits(objType: string, fields: seq<string>, values: Data, objId: Option<int>,
                  show: Value -> string)
    requires HashIndexKey(objType, fields, values, objId, show).Ok?
    requires HashIndexKey(objType, fields, values, objId, show).value.Some?
    requires ':' !in objType
    requires forall f :: f in fields ==> ':' !in f && ':' !in Render(ValueOf(values, f), show)
    ensures Split(HashIndexKey(objType, fields, values, objId, show).value.value, ':')
            == PrefixParts(objType, objId) + Components(Selected(fields, values), show)
  {
    var sel := Selected(fields, values);
    var pre := PrefixParts(objType, objId);
    var comps := Components(sel, show);
    KeyShape(objType, fields, values, objId, show);
    KeyIsJoin(objType, objId, sel, show);
    PartsNoColon(objType, objId, fields, values, show);
    SplitJoin(pre + comps, ':');
  }

  /** Two keys for the same type and id are equal only when they list the
      same fields with the same rendered values in the same order. */
  lemma KeysIdentifyValues(objType: string, objId: Option<int>, show: Value -> string,
                           fields1: seq<string>, values1: Data, fields2: seq<string>, values2: Data)
    requires HashIndexKey(objType, fields1, values1, objId, show).Ok?
    requires HashIndexKey(objType, fields1, values1, objId, show).value.Some?
    requires HashIndexKey(objType, fields2, values2, objId, show).Ok?
    requires HashIndexKey(objType, fields2, values2, objId, show).value.Some?
    requires ':' !in objType
    requires forall f :: f in fields1 ==> ':' !in f && ':' !in Render(ValueOf(values1, f), show)
    requires forall f :: f in fields2 ==> ':' !in f && ':' !in Render(ValueOf(values2, f), show)
    requires HashIndexKey(objType, fields1, values1, objId, show)
             == HashIndexKey(objType, fields2, values2, objId, show)
    ensures Components(Selected(fields1, values1), show) == Components(Selected(fields2, values2), show)
  {
    KeySplits(objType, fields1, values1, objId, show);
    KeySplits(objType, fields2, values2, objId, show);
    var pre := PrefixParts(objType, objId);
    var c1 := Components(Selected(fields1, values1), show);
    var c2 := Components(Selected(fields2, values2), show);
    assert (pre + c1)[|pre|..] == c1;
    assert (pre + c2)[|pre|..] == c2;
  }
}

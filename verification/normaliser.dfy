/** `_convert_dict_datetime` and `RecordJSONEncoder.default`
    (dubplate/__init__.py:40-54, 111-113): the value tree a record's JSON
    text is written from. Dicts and nested records are walked; lists and
    tuples have their own elements converted, one level deep. */
module Normaliser {
  import opened Wrappers
  import opened OrderedMap
  import opened Model
  import opened Validator
  import opened Records
  import opened Temporal

  /** What the walk leaves behind: no date, datetime, tuple or record as a
      mapping value or list element; list elements are not looked into. */
  predicate Clean(v: Value) {
    match v
    case DateValue(_) => false
    case DateTimeValue(_) => false
    case Tuple(_) => false
    case RecordValue(_) => false
    case List(items) => forall i :: 0 <= i < |items| ==> !items[i].DateValue? && !items[i].DateTimeValue?
    case Dict(m) => forall j :: 0 <= j < |m| ==> Clean(m[j].1)
    case _ => true
  }

  predicate CleanEntries(m: Data) {
    forall j :: 0 <= j < |m| ==> Clean(m[j].1)
  }

  /** `record.copy_record()`: a copy is no deeper than the data it copies. */
  function Recopy(rec: Record): (r: Result<Data, Error>)
    ensures r.Ok? ==> MaxDepth(r.value) <= MaxDepth(rec.data)
    ensures r.Err? ==> IsValidationError(r.error)
  {
    var c := CopyRecord(rec, []);
    assert Update(rec.data, []) == rec.data;
    if c.Ok? then
      MaxDepthOfCopy(c.value, rec.data);
      c
    else c
  }

  /** One value of a mapping, as `_convert_dict_datetime` treats it: a list
      or tuple becomes a list of converted elements, a dict is walked, a
      record is copied (re-validated) and walked, anything else goes
      through `_convert_datetime`. The copy of a nested record can raise. */
  function NormaliseValue(v: Value): (r: Result<Value, Error>)
    ensures r.Ok? ==> Clean(r.value)
    ensures r.Err? ==> IsValidationError(r.error)
    ensures v.List? || v.Tuple? ==> r == Ok(List(ConvertList(v.items)))
    ensures !(v.List? || v.Tuple? || v.Dict? || v.RecordValue?) ==> r == Ok(ConvertScalar(v))
    ensures r.Ok? && v.Dict? ==> r.value.Dict? && Keys(r.value.entries) == Keys(v.entries)
    ensures r.Ok? && v.RecordValue? ==> r.value.Dict?
    ensures v.RecordValue? && Recopy(v.record).Err? ==> r == Err(Recopy(v.record).error)
    ensures r.Ok? && v.RecordValue? ==>
              Recopy(v.record).Ok? && Keys(r.value.entries) == Keys(Recopy(v.record).value)
    decreases Depth(v), 0, 0
  {
    match v
    case List(items) => Ok(List(ConvertList(items)))
    case Tuple(items) => Ok(List(ConvertList(items)))
    case Dict(m) =>
      DepthOfDict(m);
      (match NormaliseEntries(m)
       case Err(e) => Err(e)
       case Ok(n) => Ok(Dict(n)))
    case RecordValue(rec) =>
      (match Recopy(rec)
       case Err(e) => Err(e)
       case Ok(d) =>
         DepthOfRecord(rec);
         (match NormaliseEntries(d)
          case Err(e) => Err(e)
          case Ok(n) => Ok(Dict(n))))
    case _ => Ok(ConvertScalar(v))
  }

  /** `_convert_dict_datetime` over a mapping: same keys, same order, each
      value normalised; the first value that raises ends the walk. */
  function NormaliseEntries(m: Data): (r: Result<Data, Error>)
    ensures r.Ok? ==> Keys(r.value) == Keys(m) && CleanEntries(r.value)
    ensures r.Err? ==> IsValidationError(r.error)
    decreases MaxDepth(m), 1, |m|
  {
    if |m| == 0 then Ok([])
    else
      MaxDepthTail(m);
      match NormaliseValue(m[0].1)
      case Err(e) => Err(e)
      case Ok(v) =>
        match NormaliseEntries(m[1..])
        case Err(e) => Err(e)
        case Ok(rest) =>
          ConsEntries(m, v, rest);
          Ok([(m[0].0, v)] + rest)
  }

  /** Putting a clean first value before clean, same-keyed remaining entries */
  lemma ConsEntries(m: Data, v: Value, rest: Data)
    requires |m| > 0 && Clean(v) && CleanEntries(rest) && Keys(rest) == Keys(m[1..])
    ensures Keys([(m[0].0, v)] + rest) == Keys(m)
    ensures CleanEntries([(m[0].0, v)] + rest)
  {
    ConsKeys(m, v, rest);
    ConsClean(m[0].0, v, rest);
  }

  lemma ConsKeys(m: Data, v: Value, rest: Data)
    requires |m| > 0 && Keys(rest) == Keys(m[1..])
    ensures Keys([(m[0].0, v)] + rest) == Keys(m)
  {
    assert Keys([(m[0].0, v)] + rest) == [m[0].0] + Keys(rest);
    assert Keys(m) == [m[0].0] + Keys(m[1..]);
  }

  lemma ConsClean(k: string, v: Value, rest: Data)
    requires Clean(v) && CleanEntries(rest)
    ensures CleanEntries([(k, v)] + rest)
  {
    var n := [(k, v)] + rest;
    forall j | 0 <= j < |n|
      ensures Clean(n[j].1)
    {
      if j > 0 {
        assert n[j] == rest[j - 1];
      }
    }
  }

  /** The walk of a mapping puts each value's walk under that value's key,
      and fails exactly when the walk of some value fails, with its error. */
  lemma {:induction false} EntriesPointwise(m: Data)
    ensures NormaliseEntries(m).Ok? <==> forall j :: 0 <= j < |m| ==> NormaliseValue(m[j].1).Ok?
    ensures NormaliseEntries(m).Ok? ==>
              && |NormaliseEntries(m).value| == |m|
              && forall j :: 0 <= j < |m| ==> NormaliseValue(m[j].1) == Ok(NormaliseEntries(m).value[j].1)
    ensures NormaliseEntries(m).Err? ==>
              exists j :: 0 <= j < |m| && NormaliseValue(m[j].1) == Err(NormaliseEntries(m).error)
    decreases |m|
  {
    if |m| > 0 {
      EntriesPointwise(m[1..]);
      assert forall j :: 0 <= j < |m| - 1 ==> m[1..][j] == m[j + 1];
    }
  }

  /** A dict is walked value by value, keys kept. */
  lemma DictWalk(m: Data)
    ensures NormaliseValue(Dict(m)).Ok? <==> forall j :: 0 <= j < |m| ==> NormaliseValue(m[j].1).Ok?
    ensures NormaliseValue(Dict(m)).Ok? ==>
              && NormaliseValue(Dict(m)).value.Dict?
              && |NormaliseValue(Dict(m)).value.entries| == |m|
              && forall j :: 0 <= j < |m| ==>
                   NormaliseValue(Dict(m)).value.entries[j] == (m[j].0, NormaliseValue(m[j].1).value)
  {
    EntriesPointwise(m);
    var r := NormaliseValue(Dict(m));
    if r.Ok? {
      var n := NormaliseEntries(m).value;
      assert r.value.entries == n;
      forall j | 0 <= j < |m|
        ensures n[j] == (m[j].0, NormaliseValue(m[j].1).value)
      {
        assert Keys(n)[j] == Keys(m)[j];
      }
    }
  }

  /** A record nested as a value is walked as the encoder walks it. */
  lemma RecordWalk(rec: Record)
    ensures JsonTree(rec).Err? ==> NormaliseValue(RecordValue(rec)) == Err(JsonTree(rec).error)
    ensures JsonTree(rec).Ok? ==> NormaliseValue(RecordValue(rec)) == Ok(Dict(JsonTree(rec).value))
  {
    var c := Recopy(rec);
    if c.Ok? {
      RecordStep(rec, c.value);
      assert JsonTree(rec) == NormaliseEntries(c.value);
    }
  }

  /** A nested record whose copy succeeds is walked as its copy. */
  lemma RecordStep(rec: Record, d: Data)
    requires Recopy(rec) == Ok(d)
    ensures NormaliseValue(RecordValue(rec)) == Lift(NormaliseEntries(d))
  {
    DepthOfRecord(rec);
  }

  function Lift(n: Result<Data, Error>): Result<Value, Error> {
    match n
    case Err(e) => Err(e)
    case Ok(d) => Ok(Dict(d))
  }

  /** `RecordJSONEncoder().default(record)`: the record's data, copied and
      walked. Side attributes never appear. */
  function JsonTree(rec: Record): (r: Result<Data, Error>)
    ensures r.Ok? ==> CleanEntries(r.value)
    ensures r.Err? ==> IsValidationError(r.error)
    ensures Recopy(rec).Err? ==> r == Err(Recopy(rec).error)
    ensures r.Ok? ==> Recopy(rec).Ok? && Keys(r.value) == Keys(Recopy(rec).value)
    ensures r.Ok? ==> forall j :: 0 <= j < |Recopy(rec).value| ==>
              NormaliseValue(Recopy(rec).value[j].1) == Ok(r.value[j].1)
  {
    match Recopy(rec)
    case Err(e) => Err(e)
    case Ok(d) =>
      EntriesPointwise(d);
      NormaliseEntries(d)
  }

  /** A date or datetime held by a record reaches the tree under the same
      key as its ISO 8601 string, a datetime without its microseconds. */
  lemma TemporalFieldSerialised(rec: Record, j: nat)
    requires JsonTree(rec).Ok? && j < |Recopy(rec).value|
    ensures var (k, v) := Recopy(rec).value[j];
            && (v.DateTimeValue? ==>
                  JsonTree(rec).value[j] == (k, Str(IsoDateTime(v.dateTime.(microsecond := 0)))))
            && (v.DateValue? ==> JsonTree(rec).value[j] == (k, Str(IsoDate(v.date))))
  {
    var copy := Recopy(rec).value;
    var tree := JsonTree(rec).value;
    var v := copy[j].1;
    assert tree[j].0 == copy[j].0 by {
      assert Keys(tree)[j] == Keys(copy)[j];
    }
    assert NormaliseValue(v) == Ok(tree[j].1);
    if v.DateTimeValue? || v.DateValue? {
      assert NormaliseValue(v) == Ok(ConvertScalar(v));
    }
  }

  /** One step of the walk of a mapping whose first value and rest walk. */
  lemma EntriesCons(m: Data)
    requires |m| > 0 && NormaliseValue(m[0].1).Ok? && NormaliseEntries(m[1..]).Ok?
    ensures NormaliseEntries(m) ==
            Ok([(m[0].0, NormaliseValue(m[0].1).value)] + NormaliseEntries(m[1..]).value)
    ensures [(m[0].0, m[0].1)] + m[1..] == m
  {
  }

  /** The walk leaves a clean value as it is. */
  lemma {:induction false} NormaliseClean(v: Value)
    requires Clean(v)
    ensures NormaliseValue(v) == Ok(v)
    decreases Depth(v), 0, 0
  {
    match v
    case List(items) =>
      assert ConvertList(items) == items;
    case Dict(m) =>
      assert MaxDepth(m) < Depth(v);
      NormaliseEntriesClean(m);
    case _ =>
  }

  lemma {:induction false} NormaliseEntriesClean(m: Data)
    requires CleanEntries(m)
    ensures NormaliseEntries(m) == Ok(m)
    decreases MaxDepth(m), 1, |m|
  {
    if |m| > 0 {
      MaxDepthTail(m);
      CleanTail(m);
      NormaliseClean(m[0].1);
      NormaliseEntriesClean(m[1..]);
      EntriesCons(m);
    }
  }

  lemma CleanTail(m: Data)
    requires |m| > 0 && CleanEntries(m)
    ensures Clean(m[0].1) && CleanEntries(m[1..])
  {
    var t := m[1..];
    forall j | 0 <= j < |t|
      ensures Clean(t[j].1)
    {
      assert t[j] == m[j + 1];
    }
  }

  /** Normalising twice is normalising once. */
  lemma NormaliseIdempotent(v: Value)
    requires NormaliseValue(v).Ok?
    ensures NormaliseValue(NormaliseValue(v).value) == NormaliseValue(v)
  {
    NormaliseClean(NormaliseValue(v).value);
  }

  /** Side attributes of a record, nested or not, never reach the tree. */
  lemma SideNeverSerialised(rec: Record, side: map<string, Value>)
    ensures JsonTree(rec.(side := side)) == JsonTree(rec)
  {
    RecopyIgnoresSide(rec, side);
  }

  /** Nor do those of a record nested as a value. */
  lemma NestedSideNeverSerialised(rec: Record, side: map<string, Value>)
    ensures NormaliseValue(RecordValue(rec.(side := side))) == NormaliseValue(RecordValue(rec))
  {
    var other := rec.(side := side);
    RecopyIgnoresSide(rec, side);
    DepthOfRecord(rec);
    DepthOfRecord(other);
    if Recopy(rec).Ok? {
      assert NormaliseEntries(Recopy(other).value) == NormaliseEntries(Recopy(rec).value);
    }
  }

  lemma RecopyIgnoresSide(rec: Record, side: map<string, Value>)
    ensures Recopy(rec.(side := side)) == Recopy(rec)
  {
    var other := rec.(side := side);
    assert other.kind == rec.kind && other.data == rec.data;
    assert CopyRecord(other, []) == CopyRecord(rec, []);
  }
}

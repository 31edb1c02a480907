# dubplate in Dafny

dubplate provides `Record`, an immutable dict-like container for one row of
data, plus "side" attributes that help process the row but are not part of it.
A `Record` subclass declares a policy as class variables:

- `fields`: the allowed keys, in order;
- `non_null_fields`: keys that must be supplied and not be None;
- `require_all_fields`: whether every field must be supplied;
- `hash_index_fields`: the fields a hash index key is built from.

The constructor validates the keyword arguments against that policy and
freezes them. The container answers the read-only dict operations from the
frozen data alone, and refuses every mutation. `copy_record` lays overrides
over the data and validates the result again. `generate_hash_index_key` turns
the non-falsy values of some fields into a colon-separated key string. A small
normaliser turns dates and datetimes into ISO 8601 strings before a record is
written as JSON.

This project models that core (`dubplate/__init__.py`) as pure functions over
immutable datatypes:

- `Wrappers`: `Option`/`Result`.
- `Seqs`: `set(xs)` and first-occurrence de-duplication.
- `Text`: Python's `str` order, `sorted(set(...))`, `join`, `split`, `str(int)`,
  zero padding.
- `OrderedMap`: a Python `dict` as an insertion-ordered association list, with
  item assignment, `dict(m, **kw)` and the mapping it denotes.
- `Model`:
  - `Value`: None, int, str, list, tuple, dict, set, date, datetime, record;
  - `Policy`, `RecordType`, `Record`;
  - `Error`, one constructor per exception the core raises;
  - Python truthiness, `==` and hashability;
  - a nesting-depth measure.
- `Validator`: `Record._set_record`.
- `Records`: the `Record` container, including `__init__`, the dict-like
  methods, the mutators, `copy_record` and `get_hash_index_key`.
- `HashKey`: `generate_hash_index_key`, as a function and as the loop the
  source runs, and reading a key back.
- `Temporal`: `_convert_datetime` and `_convert_list_datetime`. The date strings
  are the calendar date of section 4.1.2.2 of ISO 8601:2004. The datetime
  strings are the combined date and time of section 4.3.2, without a fraction
  of a second.
- `Normaliser`: `_convert_dict_datetime` and `RecordJSONEncoder.default`.

Exceptions become `Err` values. The validator's `KeyError`s are
`RequiredMissing`, `RequiredNull`, `ExtraKeys`, `MissingKeys` and
`KeyNotFound`. The mutators' `TypeError`s and the generator's `ValueError` each
have a constructor of their own.

## Model

| member | source | states |
|---|---|---|
| Validator.Absent | dubplate/__init__.py:448 | the names reported missing are exactly the non-null names absent from the supplied keys |
| Validator.NoneAbsent | dubplate/__init__.py:447-449 | an empty sorted list of missing names means every non-null name was supplied |
| Validator.NullNames | dubplate/__init__.py:456-459 | the names reported null are exactly the non-null names supplied as None |
| Validator.NonNullError | dubplate/__init__.py:447-465 | the non-null checks pass exactly when every non-null name is supplied and none is None; what they raise is a validation error |
| Validator.FieldsResult | dubplate/__init__.py:466-490 | the `fields` checks pass exactly when the keys do not strictly contain `fields` and, under `require_all_fields`, are not strictly inside them. With `fields`, the result's keys are `fields` in order (repeats kept once). Each field holds its supplied value or None. Without `fields`, the input comes back unchanged |
| Validator.Admissible | dubplate/__init__.py:447-483 | the reference condition for `_set_record` to succeed: every non-null name supplied and not None, and with `fields`, the keys neither strictly containing `fields` nor, when all fields are required, strictly inside them |
| Validator.Rebuild | dubplate/__init__.py:486-488 | the FrozenOrderedDict built from `(field, record.get(field, None))` for each field in order |
| Validator.Validate | dubplate/__init__.py:440-491 | `_set_record` succeeds exactly on admissible input. A failure is a validation error. The result's keys and values follow `fields` as above, and every value is None or a supplied value |
| Validator.RebuildFacts | dubplate/__init__.py:485-488 | the ordered rebuild over `fields` has `fields` as its keys with repeats dropped, and each field's value is its supplied value or None |
| Validator.RebuildGet | dubplate/__init__.py:486-488 | looking up a field in the rebuild gives its supplied value or None |
| Validator.RequiredMissingReported | dubplate/__init__.py:447-454 | missing non-null names raise first, reporting all of them, sorted with no repeats |
| Validator.EmptyNameLookupFails | dubplate/__init__.py:448-459 | when the only missing non-null name is the empty string, the joined message is falsy, and the null check's lookup raises a bare KeyError for it |
| Validator.RequiredNullReported | dubplate/__init__.py:455-465 | with every non-null name present, any None among them raises, reporting all the null names, sorted |
| Validator.ExtraKeysReported | dubplate/__init__.py:466-475 | once the non-null checks pass, keys that strictly contain `fields` raise the extra-keys error naming the extras |
| Validator.MissingKeysReported | dubplate/__init__.py:476-483 | with `require_all_fields` set, keys strictly inside `fields` raise the missing-keys error naming the omissions |
| Validator.NonNullChecksPass | dubplate/__init__.py:447-465 | when every non-null name is present and not None, neither non-null check reports a name |
| Validator.ExtrasBesideOmissionDropped | dubplate/__init__.py:466-488 | an extra key beside an omitted field passes the strict-superset test and is silently dropped; the omitted field becomes None |
| Validator.OmittedFieldsDefaultToNull | dubplate/__init__.py:476-488 | without `require_all_fields`, an omitted field is accepted and becomes None |
| Validator.InputOrderIrrelevant | dubplate/__init__.py:443-488 | with `fields` set, two inputs denoting the same mapping validate to the same result |
| Validator.ValidateAgrees | dubplate/__init__.py:443-488 | the result depends only on the key set, the null non-null names and the field values |
| Validator.NullNamesAgree | dubplate/__init__.py:456-459 | inputs with the same lookups report the same null names |
| Validator.RevalidationIsIdentity | dubplate/__init__.py:510-516 | validating a validated mapping again gives it back, when every non-null name is a field or there are no fields |
| Validator.AdmissibleRebuilds | dubplate/__init__.py:466-488 | with `fields` set, admissible input yields exactly the ordered rebuild |
| Validator.RevalidationCanFail | dubplate/__init__.py:447-488 | a non-null name outside `fields` is checked and then dropped, so validating the result again raises |
| Validator.CheckedThenDropped | dubplate/__init__.py:447-488 | with `fields = (a,)` and `non_null_fields = (b,)`, the input `b=2` passes the checks and validates to `a=None` |
| Validator.DroppedThenMissing | dubplate/__init__.py:447-454 | validating `a=None` again under the same policy raises the required-missing error for `b` |
| Validator.RequiredMissingMessage | dubplate/__init__.py:450-453 | the required-missing message, as written: the plural chosen by the length of the joined names |
| Validator.PluralByStringLength | dubplate/__init__.py:448-453 | as written, a single missing name longer than one character gets the plural message |
| Validator.IntendedPluralCountsNames | dubplate/__init__.py:450-451 | the corrected message is singular exactly for one name, and agrees with the code as written when every name is one character |
| Text.SortedSet | dubplate/__init__.py:448 | `sorted(set(names))`: strictly ascending, with the same members |
| Text.SortedByMembers | dubplate/__init__.py:448 | two strictly sorted name lists with the same members are equal, so the reported list is determined by the names |
| Text.JoinIsEmpty | dubplate/__init__.py:448-449 | a `", "` join is falsy exactly when it joins nothing or the single empty name |
| Text.SplitJoin | dubplate/__init__.py:99 | splitting a `":"` join gives back the parts when none contains a colon |
| Text.NatStringValue | dubplate/__init__.py:98 | `str(n)` reads back as `n` |
| Text.PadValue | dubplate/__init__.py:29-31 | the zero-padded fields of an ISO string read back as the number |
| Text.PadWidth | dubplate/__init__.py:29-31 | a number below 10^width is padded to exactly `width` digits |
| OrderedMap.Get | dubplate/__init__.py:494-496 | `get` finds a value exactly for a held key, and that pair is held |
| OrderedMap.Put | dubplate/__init__.py:516 | item assignment keeps a held key's position and appends a new one |
| OrderedMap.PutGet | dubplate/__init__.py:516 | after assignment the key reads the new value and every other key what it read before |
| OrderedMap.UpdateGet | dubplate/__init__.py:516 | in `copy(**overrides)` the overrides win and other keys keep their values |
| OrderedMap.UpdateKeys | dubplate/__init__.py:516 | the copy is still a dict, and its keys are the old ones plus the overrides' |
| OrderedMap.UpdateToMap | dubplate/__init__.py:516 | as mappings, the copy is the data overridden by the overrides |
| OrderedMap.UniformUpdateGet | dubplate/__init__.py:486-488 | building a dict from pairs that all give a key the same value leaves the key holding that value |
| OrderedMap.Update | dubplate/__init__.py:516 | `self.__record.copy(**kwargs)`: every entry of the copy is an entry of the data or an override |
| OrderedMap.UpdateOrder | dubplate/__init__.py:516 | in the copy, the old keys keep their places and the new keys follow, each where the overrides first name it |
| OrderedMap.UpdateKeyOrder | dubplate/__init__.py:486-488 | an ordered dict built from pairs has the pairs' keys, each once, at its first position |
| OrderedMap.SameMapping | dubplate/__init__.py:380-382 | two dicts denote the same mapping exactly when every key looks up the same in both; values are compared structurally here, and Python's `==` on values is `Model.PyEq` |
| OrderedMap.DistinctSize | dubplate/__init__.py:388-390 | a dict's `len` is its number of keys |
| Model.MaxDepthOfCopy | dubplate/__init__.py:50-51 | a copy whose values come from the data is no deeper than the data, so walking nested records ends |
| Model.PyEq | dubplate/__init__.py:380-382 | Python's `==` on values: lists and tuples element by element, sets by their members, dicts and records as mappings with the same keys and equal values under each, any other value by plain equality |
| Model.Hashable | dubplate/__init__.py:392-394 | what `hash()` accepts: no list, dict or set, and tuples and records only of hashable parts |
| Model.Truthy | dubplate/__init__.py:83-87 | Python truthiness as `if not value` tests it: None, 0, and empty strings and collections are falsy, dates and datetimes truthy, a record by its length |
| Model.PyEqReflexive | dubplate/__init__.py:380-382 | every value is equal to itself under Python's `==` |
| Model.PyEqSymmetric | dubplate/__init__.py:380-386 | Python's `==` on the values a record holds gives the same answer from either side |
| Model.MappingEqByKeys | dubplate/__init__.py:380-382 | two mappings are equal exactly when they have the same keys and each key looks up equal values |
| Records.Construct | dubplate/__init__.py:361-370 | construction succeeds exactly on admissible keyword arguments. It keeps the side attributes, stores the validated data, and raises only validation errors |
| Records.Len | dubplate/__init__.py:388-390 | `len` is the number of keys in the data |
| Records.Contains | dubplate/__init__.py:376-378 | `in` holds exactly for keys of the data |
| Records.GetItem | dubplate/__init__.py:420-424 | `record[name]` gives the data's value, or raises KeyError for a name the data lacks |
| Records.GetOr | dubplate/__init__.py:494-496 | `get` gives the data's value, or the default for a missing key |
| Records.KeysOf | dubplate/__init__.py:502-504 | `keys()` and iteration yield the stored keys in their stored order, each once, as many as `len` |
| Records.KeysFollowFields | dubplate/tests/test_dubplate.py:255-259 | a record built with `fields` yields its keys in `fields` order, whatever the order of the keyword arguments |
| Records.KeysFollowInput | dubplate/__init__.py:502-504 | a record built without `fields` yields its keys in the order they were given |
| Records.KeyOrderExample | dubplate/tests/test_dubplate.py:255-259 | `a=2, c=4, b=3` on a record with fields `a, b, c` gives keys `a, b, c` |
| Records.ValuesOf | dubplate/__init__.py:506-508 | `values()` yields each key's value, in key order |
| Records.Items | dubplate/__init__.py:498-500 | `items()` pairs each key, in order, with its value |
| Records.Equals | dubplate/__init__.py:380-382 | only a dict or a record can equal a record, and then with the same keys; a mapping that denotes the same map as the data is always equal |
| Records.SameMappingEqual | dubplate/__init__.py:380-382 | mappings denoting the same map are equal in Python, whatever their entry order |
| Records.EqualsByLookups | dubplate/__init__.py:380-382 | `record == m` for a mapping `m` holds exactly when `m` has the data's keys and each key looks up Python-equal values |
| Records.NestedOrderIgnored | dubplate/__init__.py:380-382 | a nested dict written in another order still compares equal |
| Records.SwapEqual | dubplate/__init__.py:380-382 | a two-key dict equals the same dict written in the other order |
| Records.SingletonEqual | dubplate/__init__.py:380-382 | one-key dicts with equal values are equal |
| Records.NestedSideIgnored | dubplate/__init__.py:380-382 | a nested record compares by its data, whatever its side attributes |
| Records.NotEquals | dubplate/__init__.py:384-386 | `!=` is exactly the negation of `==` |
| Records.Attribute | dubplate/tests/test_dubplate.py:78-93 | among the instance attributes a subclass constructor sets, dotted access reaches exactly the side attributes that were set; a data key raises AttributeError |
| Records.EqualRecordsAgree | dubplate/__init__.py:376-390 | records equal as mappings are equal both ways, and agree on `len`, `in` and on whether `[]` finds a key, with Python-equal values |
| Records.Hash | dubplate/__init__.py:392-394 | `hash` succeeds exactly when every data value is hashable, else raises TypeError, and is the hash of the data mapping |
| Records.SameDataHashAlike | dubplate/__init__.py:392-394 | records holding the same mapping hash alike, whatever their side attributes and entry order |
| Records.ListValueUnhashable | dubplate/__init__.py:392-394 | a record holding a list cannot be hashed |
| Records.SideInvisible | dubplate/__init__.py:376-424 | changing the side attributes changes no mapping operation, and changing the data changes no dotted access |
| Records.Mutate | dubplate/__init__.py:400-438 | item assignment, item deletion, attribute assignment and attribute deletion on a built record each raise their own TypeError naming the record's class |
| Records.UpdateLookups | dubplate/__init__.py:516 | looking up any key in `copy(**overrides)` gives the override when there is one, else the data's value |
| Records.CopyRecord | dubplate/__init__.py:510-516 | `copy_record` succeeds exactly when the overridden data is admissible, and raises only validation errors. With `fields`, the copy's keys are `fields` in order, each holding its override if given, else the stored value. Without `fields`, the copy is, as a mapping, the data overridden by the overrides, and its keys are the stored keys in their places followed by the new override keys |
| Records.CopyWithoutOverrides | dubplate/__init__.py:510-516 | `copy_record()` of a record gives back its data, when every non-null name is a field or there are no fields |
| Records.CopyRejectsNullOverride | dubplate/__init__.py:510-516 | overriding a non-null field with None raises the null error naming it |
| Records.CopyRejectsUnknownKey | dubplate/__init__.py:510-516 | when the data has every field, overriding with a key outside `fields` raises the extra-keys error |
| Records.KeyFields | dubplate/__init__.py:531 | `hash_index_fields or fields or []` |
| Records.SlotPairs | dubplate/__init__.py:532-535 | the slot entries are exactly the key fields that are slots, each holding its attribute or None |
| Records.SlotOverlay | dubplate/__init__.py:532-535 | `slots_dict` is a dict holding, for each key field that is a slot, that slot's value |
| Records.HashIndexValues | dubplate/__init__.py:536 | the values handed to the generator come from a re-validating copy, so they fail only with validation errors |
| Records.GetHashIndexKey | dubplate/__init__.py:522-537 | `get_hash_index_key` fails only with a validation error or the unordered-value error |
| Records.HashKeyWithoutSlots | dubplate/__init__.py:529-537 | when no key field is a slot, the key is the generator's over `hash_index_fields or fields or []` and the stored data |
| Records.GetHashIndexKeyIntended | dubplate/__init__.py:526-528 | the overlay without re-validation never raises a validation error; only an unordered value can fail it |
| Records.IntendedValuesSeeSlots | dubplate/__init__.py:527-535 | in the intended values, a key field that is a slot reads the slot, and every other key reads the data |
| Records.IntendedAgreesWithoutFields | dubplate/__init__.py:529-537 | without `fields`, and with no non-null name a slot, the code as written gives the intended key |
| Records.SlotKeyFieldRejected | dubplate/__init__.py:529-537 | as written, with `fields` set, a slot in `hash_index_fields` becomes an override outside `fields` and raises the extra-keys error |
| Records.SlotKeyFieldExample | dubplate/__init__.py:526-537 | for fields a, b, key fields test, a, b and slot test, the code raises the extra-keys error while the intended version builds a key |
| Records.ExampleIntended | dubplate/__init__.py:527-537 | in that case every intended key value is orderable and one is non-falsy, so a key is built |
| Records.AccessExample | dubplate/tests/test_dubplate.py:71-93 | the test's record answers `record.test` and `record['color']`, raises on `record['test']` and `record.color`, and has length 2 |
| Records.SlotsWithoutFieldsExample | dubplate/tests/test_dubplate.py:437-443 | with no `fields` and key fields test, a, b, the generator receives `a=1, b=2, test='test'` |
| HashKey.Render | dubplate/__init__.py:96 | `'{}'.format(value)`: a string as it is, an int in decimal, anything else through the parameter `show` |
| HashKey.Prefix | dubplate/__init__.py:98 | `obj_str`: the type name, followed by `:` and the id when the id is truthy |
| HashKey.Selected | dubplate/__init__.py:85-96 | the fields whose segments are written are key fields holding non-falsy values, each with its value |
| HashKey.SelectedSingle | dubplate/__init__.py:85-96 | one field writes its segment exactly when its value is non-falsy |
| HashKey.SelectedAppend | dubplate/__init__.py:85-96 | the segments of a field list are those of its first part followed by those of the rest, so they follow `fields` order |
| HashKey.SelectedComplete | dubplate/__init__.py:85-96 | every key field holding a non-falsy value writes a segment |
| HashKey.SelectedEmpty | dubplate/__init__.py:83-100 | no segment is written exactly when every key field's value is falsy |
| HashKey.FirstUnordered | dubplate/__init__.py:85-94 | the field that raises is a key field holding a non-falsy value that is neither a Sequence nor an int |
| HashKey.FirstUnorderedNone | dubplate/__init__.py:85-94 | nothing raises exactly when no key field holds an unordered value |
| HashKey.FirstUnorderedIsFirst | dubplate/__init__.py:85-94 | the field that raises comes before every other key field holding an unordered value |
| HashKey.HashIndexKey | dubplate/__init__.py:58-100 | `generate_hash_index_key` returns None exactly for no fields, no values or all values falsy. It raises exactly when a key field holds an unordered value, naming the first such field |
| HashKey.FirstUnorderedPrefix | dubplate/__init__.py:85-94 | once a prefix of the fields raises, the whole loop raises on the same field |
| HashKey.GenerateHashIndexKey | dubplate/__init__.py:82-100 | the loop returns what the generator's definition says, on every input |
| HashKey.Segments | dubplate/__init__.py:96 | one `field:value` segment per selected field, in order |
| HashKey.Components | dubplate/__init__.py:96-99 | the key's fields and rendered values alternate |
| HashKey.SegmentsJoin | dubplate/__init__.py:96-99 | joining the segments with colons joins the alternating fields and values |
| HashKey.NoColonInNatString | dubplate/__init__.py:98 | an id's decimal form has no colon |
| HashKey.NoColonInPrefixParts | dubplate/__init__.py:98 | the parts of `obj_str` have no colon when the type name has none |
| HashKey.KeyIsJoin | dubplate/__init__.py:98-99 | a key is the colon join of the type name, the id when truthy, and the alternating fields and values |
| HashKey.ComponentsNoColon | dubplate/__init__.py:96 | no component has a colon when no field name or rendered value has one |
| HashKey.PartsNoColon | dubplate/__init__.py:96-99 | no part of a key has a colon under the same condition |
| HashKey.KeySplits | dubplate/__init__.py:96-99 | splitting a key at colons gives back the type name, the id, and each field and value, when none contains a colon |
| HashKey.KeysIdentifyValues | dubplate/__init__.py:58-99 | under that condition, equal keys for the same type and id come from the same fields holding the same rendered values |
| Temporal.IsoDate | dubplate/__init__.py:30 | `date.isoformat()`: `YYYY-MM-DD` with zero-padded fields |
| Temporal.IsoDateTime | dubplate/__init__.py:28 | `datetime.isoformat()`: the ISO date, `T`, `HH:MM:SS`, and `.ffffff` only when the microseconds are not zero |
| Temporal.ConvertScalar | dubplate/__init__.py:26-32 | `_convert_datetime` leaves no date or datetime behind and returns every other value unchanged |
| Temporal.ConvertList | dubplate/__init__.py:35-37 | `_convert_list_datetime` converts each element, one level deep, keeping the length |
| Temporal.ConvertScalarIdempotent | dubplate/__init__.py:26-32 | converting twice is converting once |
| Temporal.IsoDateRoundTrip | dubplate/__init__.py:30-31 | a valid date's ISO string has 10 characters and reads back as the date |
| Temporal.ConvertedDateTimeRoundTrip | dubplate/__init__.py:28-29 | a converted datetime is a 19-character string that reads back as the datetime with zero microseconds |
| Temporal.ConvertedDateRoundTrip | dubplate/__init__.py:30-31 | a converted date reads back as the date |
| Temporal.ConversionInjective | dubplate/__init__.py:26-32 | different valid dates convert to different strings, as do datetimes that differ in more than microseconds |
| Temporal.DateAndDateTimeDistinct | dubplate/__init__.py:28-31 | a date and a datetime never convert to the same string |
| Normaliser.Recopy | dubplate/__init__.py:51 | `record.copy_record()` in the walk fails only with validation errors, and is no deeper than the record's data |
| Normaliser.NormaliseValue | dubplate/__init__.py:40-54 | one value of the walk is left clean. A list or tuple becomes a list of converted elements, and a scalar is converted. A dict keeps its keys. A record becomes a dict of its copy's keys, and fails with the copy's error when the copy fails |
| Normaliser.NormaliseEntries | dubplate/__init__.py:40-54 | `_convert_dict_datetime` keeps the keys in order and leaves every value clean; it fails only with validation errors |
| Normaliser.EntriesPointwise | dubplate/__init__.py:42-54 | the walk of a mapping succeeds exactly when every value's walk succeeds; it then holds each value's walk at that value's position, and otherwise fails with the error of some value's walk |
| Normaliser.DictWalk | dubplate/__init__.py:48-49 | a nested dict succeeds exactly when each of its values does, and becomes the dict of each key with its value's walk |
| Normaliser.RecordWalk | dubplate/__init__.py:50-51 | a nested record is walked exactly as the encoder walks it: the same error, or a dict of the encoder's tree |
| Normaliser.JsonTree | dubplate/__init__.py:111-113 | the encoder's tree of a record fails when the copy fails; otherwise it is clean, has the copy's keys, and holds the walk of each copied value |
| Normaliser.TemporalFieldSerialised | dubplate/__init__.py:26-54 | a date or datetime in a record reaches the tree under its key as its ISO 8601 string, a datetime without microseconds |
| Normaliser.NormaliseClean | dubplate/__init__.py:40-54 | the walk leaves an already clean value as it is |
| Normaliser.NormaliseEntriesClean | dubplate/__init__.py:40-54 | the walk leaves an already clean mapping as it is |
| Normaliser.NormaliseIdempotent | dubplate/__init__.py:40-54 | normalising twice is normalising once |
| Normaliser.RecopyIgnoresSide | dubplate/__init__.py:510-516 | the copy of a record does not depend on its side attributes |
| Normaliser.SideNeverSerialised | dubplate/__init__.py:103-113 | side attributes never change the encoder's tree |
| Normaliser.NestedSideNeverSerialised | dubplate/__init__.py:50-51 | side attributes of a nested record never change the walk |

## Left out

- Writing JSON text (`RecordJSONEncoder.encode`, `Record.json`) belongs to Python's `json` library. The model stops at the value tree the encoder is handed.
- JsonTree: the `json` library calls `default()` again on any leaf it cannot write, and those later calls are not modelled. A record inside a list or tuple stays a record element in the tree, where the encoder would convert it. A set value, or a date or datetime two list levels deep (which the one-level list conversion leaves as it is), reaches `default()`, whose `copy_record` call raises; `json()` then fails while `JsonTree` is Ok.
- `__repr__`, `__slots__`, `empty_slot` and the `member_descriptor` workaround are left out. So are `__setattr__` and `__delattr__` before initialisation: the constructor's own attribute writes are the `side` map handed to `Records.Construct`.
- Records.Hash: Python randomises string hashing, so the hash function is a parameter `h` of the data mapping. Records that are Python-equal but hold structurally different nested values (a nested dict in another order) are not shown to hash alike, because `h` sees the structure.
- Records.Attribute: class variables and methods (`record.fields`, `record.keys`) are reachable by dotted access too. So are the instance attributes `Record.__init__` sets itself: `_initialized = True` (line 370), `require_all_fields = False` when the class leaves it falsy (lines 366-367), and the name-mangled `_Record__record` holding the data. The model has no bool value and keeps the data apart from `side`, so it answers NoAttribute for these three.
- Normaliser.NormaliseValue: its own contract relates a dict or nested record to its keys only. The value-by-value relation is stated by `Normaliser.DictWalk` and `Normaliser.RecordWalk`, outside the recursion, because stating it inside the recursion made the proof too costly.
- Model.PyEq: the members of a set are compared structurally, so two sets holding records that differ only in side attributes or in entry order count as different.
- HashKey.Render: `str.format` of a list, tuple or other Sequence is a parameter `show`. Strings and ints are rendered exactly.
- Error messages carry their names as data, not text. Only the required-missing message is written out, for the pluralisation finding. The extra and missing key names are sets, because Python joins a set in its own iteration order.
- Timezone-aware datetimes are left out. So is calendar validity: `Temporal.ValidDate` bounds the day by 31 in every month.
- Python `bool` values are left out. In a key segment `True` is written `True`, not `1`, and JSON writes `true`; the model has no value for either.
- Floats are left out of `Value`. A non-zero float in a hash index field is neither a Sequence nor an int, so the generator raises the unordered-value error on it (a price of 14.95, say); the model cannot state that case.

## Findings

| source | as written | input that shows it | evidently intended | confidence | as-written member | corrected member |
|---|---|---|---|---|---|---|
| dubplate/__init__.py:451 | the plural form is chosen by `len(missing)`, the length of the joined string | one missing non-null field named `ab` gives "The following fields are required: ab" | plural only when more than one name is missing | not executed | Validator.PluralByStringLength | Validator.IntendedPluralCountsNames |
| dubplate/__init__.py:529-537 | the slot values are laid over the data through `copy_record`, which validates again | `fields = (a, b)`, `hash_index_fields = (test, a, b)`, slot `test` set, data `a=1, b=2`: the keys strictly contain `fields`, so the extra-keys error is raised | slot values join the key as the docstring at lines 527-528 says, without re-validation | not executed | Records.SlotKeyFieldExample | Records.GetHashIndexKeyIntended |

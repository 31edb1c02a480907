/** `_convert_datetime` and `_convert_list_datetime`
    (dubplate/__init__.py:26-37): dates and datetimes become ISO 8601
    extended-format strings, the calendar date of section 4.1.2.2 of
    ISO 8601:2004 and the combined date and time of section 4.3.2, with the
    fraction of a second dropped. */
module Temporal {
  import opened Wrappers
  import opened Text
  import opened Model

  /** The field ranges Python's `date` enforces, day bounded by 31 */
  predicate ValidDate(d: Date) {
    1 <= d.year <= 9999 && 1 <= d.month <= 12 && 1 <= d.day <= 31
  }

  /** The field ranges Python's `datetime` enforces */
  predicate ValidDateTime(t: DateTime) {
    && ValidDate(Date(t.year, t.month, t.day))
    && t.hour < 24 && t.minute < 60 && t.second < 60 && t.microsecond < 1000000
  }

  /** `YYYY-MM-DD`, as `date.isoformat()` writes it */
  function IsoDate(d: Date): string {
    Pad(d.year, 4) + "-" + Pad(d.month, 2) + "-" + Pad(d.day, 2)
  }

  /** `HH:MM:SS` */
  function IsoTime(t: DateTime): string {
    Pad(t.hour, 2) + ":" + Pad(t.minute, 2) + ":" + Pad(t.second, 2)
  }

  /** `datetime.isoformat()`: the date, `T`, the time, and `.ffffff` only
      when the microseconds are not zero */
  function IsoDateTime(t: DateTime): string {
    var base := IsoDate(Date(t.year, t.month, t.day)) + "T" + IsoTime(t);
    if t.microsecond != 0 then base + "." + Pad(t.microsecond, 6) else base
  }

  /** `_convert_datetime`: a datetime (tested first, being also a date)
      loses its microseconds and becomes its ISO string; a date becomes
      its ISO string; anything else is returned as it is. */
  function ConvertScalar(v: Value): (r: Value)
    ensures !r.DateValue? && !r.DateTimeValue?
    ensures !v.DateValue? && !v.DateTimeValue? ==> r == v
  {
    match v
    case DateTimeValue(t) => Str(IsoDateTime(t.(microsecond := 0)))
    case DateValue(d) => Str(IsoDate(d))
    case _ => v
  }

  /** `_convert_list_datetime`: each element converted, one level deep */
  function ConvertList(items: seq<Value>): (r: seq<Value>)
    ensures |r| == |items|
    ensures forall i :: 0 <= i < |items| ==> r[i] == ConvertScalar(items[i])
  {
    seq(|items|, i requires 0 <= i < |items| => ConvertScalar(items[i]))
  }

  /** Converting twice is converting once. */
  lemma ConvertScalarIdempotent(v: Value)
    ensures ConvertScalar(ConvertScalar(v)) == ConvertScalar(v)
  {
  }

  // ---------------------------------------------------------------------
  // Reading the strings back
  // ---------------------------------------------------------------------

  /** Reads `YYYY-MM-DD` */
  function ParseIsoDate(s: string): Option<Date> {
    if |s| == 10 && s[4] == '-' && s[7] == '-'
       && IsDigits(s[..4]) && IsDigits(s[5..7]) && IsDigits(s[8..])
    then Some(Date(DigitsValue(s[..4]), DigitsValue(s[5..7]), DigitsValue(s[8..])))
    else None
  }

  /** Reads `YYYY-MM-DDTHH:MM:SS` */
  function ParseIsoDateTime(s: string): Option<DateTime> {
    if |s| == 19 && s[10] == 'T' && s[13] == ':' && s[16] == ':'
       && IsDigits(s[11..13]) && IsDigits(s[14..16]) && IsDigits(s[17..])
    then
      match ParseIsoDate(s[..10])
      case None => None
      case Some(d) =>
        Some(DateTime(d.year, d.month, d.day,
                      DigitsValue(s[11..13]), DigitsValue(s[14..16]), DigitsValue(s[17..]), 0))
    else None
  }

  /** A field below 10^width is written in exactly `width` digits that read back as it. */
  lemma PadExact(n: nat, width: nat)
    requires 1 <= width <= 4 && n < Pow10(width)
    ensures |Pad(n, width)| == width && DigitsValue(Pad(n, width)) == n
  {
    PadValue(n, width);
    PadWidth(n, width);
  }

  /** The ISO date of a valid date reads back as that date. */
  lemma IsoDateRoundTrip(d: Date)
    requires ValidDate(d)
    ensures |IsoDate(d)| == 10
    ensures ParseIsoDate(IsoDate(d)) == Some(d)
  {
    assert Pow10(2) == 100 && Pow10(4) == 10000;
    var y := Pad(d.year, 4);
    var m := Pad(d.month, 2);
    var dd := Pad(d.day, 2);
    PadExact(d.year, 4);
    PadExact(d.month, 2);
    PadExact(d.day, 2);
    var s := IsoDate(d);
    assert s == y + "-" + m + "-" + dd;
    assert s[..4] == y && s[5..7] == m && s[8..] == dd;
  }

  /** The time part is `HH:MM:SS` with each field reading back. */
  lemma IsoTimeParts(t: DateTime)
    requires t.hour < 24 && t.minute < 60 && t.second < 60
    ensures var s := IsoTime(t);
            && |s| == 8 && s[2] == ':' && s[5] == ':'
            && IsDigits(s[..2]) && IsDigits(s[3..5]) && IsDigits(s[6..])
            && DigitsValue(s[..2]) == t.hour && DigitsValue(s[3..5]) == t.minute
            && DigitsValue(s[6..]) == t.second
  {
    assert Pow10(2) == 100;
    var h := Pad(t.hour, 2);
    var mi := Pad(t.minute, 2);
    var se := Pad(t.second, 2);
    PadExact(t.hour, 2);
    PadExact(t.minute, 2);
    PadExact(t.second, 2);
    var s := IsoTime(t);
    assert s == h + ":" + mi + ":" + se;
    assert s[..2] == h && s[3..5] == mi && s[6..] == se;
  }

  /** A converted datetime reads back as the datetime without its
      microseconds: the conversion keeps every other field. */
  lemma ConvertedDateTimeRoundTrip(t: DateTime)
    requires ValidDateTime(t)
    ensures ConvertScalar(DateTimeValue(t)).Str?
    ensures |ConvertScalar(DateTimeValue(t)).s| == 19
    ensures ParseIsoDateTime(ConvertScalar(DateTimeValue(t)).s) == Some(t.(microsecond := 0))
  {
    var date := IsoDate(Date(t.year, t.month, t.day));
    var time := IsoTime(t);
    IsoDateRoundTrip(Date(t.year, t.month, t.day));
    IsoTimeParts(t);
    var s := ConvertScalar(DateTimeValue(t)).s;
    assert s == date + "T" + time;
    JoinedParts(date, time);
  }

  /** Where the parts of `date + "T" + time` sit in the joined string. */
  lemma JoinedParts(date: string, time: string)
    requires |date| == 10 && |time| == 8
    ensures var s := date + "T" + time;
            && |s| == 19 && s[..10] == date && s[10] == 'T'
            && s[13] == time[2] && s[16] == time[5]
            && s[11..13] == time[..2] && s[14..16] == time[3..5] && s[17..] == time[6..]
  {
  }

  /** A converted date reads back as that date. */
  lemma ConvertedDateRoundTrip(d: Date)
    requires ValidDate(d)
    ensures ConvertScalar(DateValue(d)).Str?
    ensures ParseIsoDate(ConvertScalar(DateValue(d)).s) == Some(d)
  {
    IsoDateRoundTrip(d);
  }

  /** Different valid dates get different strings, and so do valid
      datetimes that differ in more than their microseconds. */
  lemma ConversionInjective(d1: Date, d2: Date, t1: DateTime, t2: DateTime)
    requires ValidDate(d1) && ValidDate(d2) && ValidDateTime(t1) && ValidDateTime(t2)
    ensures ConvertScalar(DateValue(d1)) == ConvertScalar(DateValue(d2)) ==> d1 == d2
    ensures ConvertScalar(DateTimeValue(t1)) == ConvertScalar(DateTimeValue(t2)) ==>
              t1.(microsecond := 0) == t2.(microsecond := 0)
  {
    ConvertedDateRoundTrip(d1);
    ConvertedDateRoundTrip(d2);
    ConvertedDateTimeRoundTrip(t1);
    ConvertedDateTimeRoundTrip(t2);
  }

  /** A date converts to 10 characters and a datetime to 19 with a `T`
      after the date, so the two are never confused. */
  lemma DateAndDateTimeDistinct(d: Date, t: DateTime)
    requires ValidDate(d) && ValidDateTime(t)
    ensures ConvertScalar(DateValue(d)) != ConvertScalar(DateTimeValue(t))
  {
    IsoDateRoundTrip(d);
    ConvertedDateTimeRoundTrip(t);
  }
}

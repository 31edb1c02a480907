/** Strings as Python handles them here: the `<` order on `str`, `sorted`
    over a set of names, `str.join`, `str.split`, and decimal rendering of
    integers (`'{}'.format(n)` and `'%02d' % n`). */
module Text {
  import opened Seqs

  // ---------------------------------------------------------------------
  // Ordering
  // ---------------------------------------------------------------------

  /** Python's `a < b` on `str`: lexicographic by code point, a proper
      prefix sorting before the longer string. */
  predicate Below(a: string, b: string)
    decreases |a|
  {
    |b| > 0 && (|a| == 0 || a[0] < b[0] || (a[0] == b[0] && Below(a[1..], b[1..])))
  }

  lemma {:induction false} BelowIrreflexive(a: string)
    ensures !Below(a, a)
    decreases |a|
  {
    if |a| > 0 {
      BelowIrreflexive(a[1..]);
    }
  }

  lemma {:induction false} BelowTransitive(a: string, b: string, c: string)
    requires Below(a, b) && Below(b, c)
    ensures Below(a, c)
    decreases |a|
  {
    if |a| > 0 && a[0] == b[0] && b[0] == c[0] {
      BelowTransitive(a[1..], b[1..], c[1..]);
    }
  }

  lemma {:induction false} BelowTotal(a: string, b: string)
    requires a != b
    ensures Below(a, b) || Below(b, a)
    decreases |a|
  {
    if |a| > 0 && |b| > 0 && a[0] == b[0] {
      assert a == [a[0]] + a[1..] && b == [b[0]] + b[1..];
      BelowTotal(a[1..], b[1..]);
    }
  }

  /** Every name is below every later one: the output of `sorted` over a set. */
  predicate StrictlySorted(xs: seq<string>) {
    forall i, j :: 0 <= i < j < |xs| ==> Below(xs[i], xs[j])
  }

  /** Inserts `x` into a strictly sorted sequence, dropping it if present. */
  function Insert(x: string, xs: seq<string>): (r: seq<string>)
    requires StrictlySorted(xs)
    ensures StrictlySorted(r)
    ensures Elems(r) == Elems(xs) + {x}
    decreases |xs|
  {
    if |xs| == 0 then [x]
    else if x == xs[0] then
      assert Elems(xs) == Elems(xs) + {x};
      xs
    else if Below(x, xs[0]) then
      InsertFrontSorted(x, xs);
      [x] + xs
    else
      BelowTotal(x, xs[0]);
      var rest := Insert(x, xs[1..]);
      assert Elems(xs) == {xs[0]} + Elems(xs[1..]);
      assert forall z :: z in rest ==> z in Elems(rest);
      assert forall z :: z in Elems(xs[1..]) ==> z in xs[1..];
      FirstBelowAll(xs[0], rest, xs);
      assert Elems([xs[0]] + rest) == {xs[0]} + Elems(rest);
      [xs[0]] + rest
  }

  lemma InsertFrontSorted(x: string, xs: seq<string>)
    requires StrictlySorted(xs) && |xs| > 0 && Below(x, xs[0])
    ensures StrictlySorted([x] + xs)
  {
    forall j | 0 < j < |xs|
      ensures Below(x, xs[j])
    {
      BelowTransitive(x, xs[0], xs[j]);
    }
  }

  lemma FirstBelowAll(y: string, rest: seq<string>, xs: seq<string>)
    requires StrictlySorted(rest) && StrictlySorted(xs)
    requires |xs| > 0 && xs[0] == y
    requires forall z :: z in rest ==> z in xs[1..] || Below(y, z)
    ensures StrictlySorted([y] + rest)
  {
    forall j | 0 <= j < |rest|
      ensures Below(y, rest[j])
    {
      if rest[j] in xs[1..] {
        var k :| 0 <= k < |xs[1..]| && xs[1..][k] == rest[j];
        assert xs[k + 1] == rest[j];
      }
    }
  }

  /** Python's `sorted(set(xs))`: the distinct names of `xs` in ascending order. */
  function SortedSet(xs: seq<string>): (r: seq<string>)
    ensures StrictlySorted(r)
    ensures Elems(r) == Elems(xs)
    decreases |xs|
  {
    if |xs| == 0 then []
    else
      assert Elems(xs) == {xs[0]} + Elems(xs[1..]);
      Insert(xs[0], SortedSet(xs[1..]))
  }

  /** A strictly sorted sequence is determined by its members, so the sorted
      name lists in error reports do not depend on set iteration order. */
  lemma {:induction false} SortedByMembers(a: seq<string>, b: seq<string>)
    requires StrictlySorted(a) && StrictlySorted(b)
    requires Elems(a) == Elems(b)
    ensures a == b
    decreases |a|
  {
    if |a| == 0 {
      NoElems(a);
      NoElems(b);
    } else {
      assert a[0] in Elems(b);
      assert |b| > 0;
      assert b[0] in Elems(a);
      var k :| 0 <= k < |b| && b[k] == a[0];
      var m :| 0 <= m < |a| && a[m] == b[0];
      if k != 0 {
        assert Below(b[0], a[0]);
        if m == 0 {
          BelowIrreflexive(a[0]);
        } else {
          BelowTransitive(a[0], b[0], a[0]);
          BelowIrreflexive(a[0]);
        }
      }
      assert a[0] == b[0];
      assert a[0] !in a[1..] by {
        if a[0] in a[1..] {
          var i :| 0 <= i < |a[1..]| && a[1..][i] == a[0];
          assert a[i + 1] == a[0];
          BelowIrreflexive(a[0]);
        }
      }
      assert b[0] !in b[1..] by {
        if b[0] in b[1..] {
          var i :| 0 <= i < |b[1..]| && b[1..][i] == b[0];
          assert b[i + 1] == b[0];
          BelowIrreflexive(b[0]);
        }
      }
      assert Elems(a) == {a[0]} + Elems(a[1..]);
      assert Elems(b) == {b[0]} + Elems(b[1..]);
      assert Elems(a[1..]) == Elems(b[1..]);
      SortedByMembers(a[1..], b[1..]);
      assert a == [a[0]] + a[1..] && b == [b[0]] + b[1..];
    }
  }

  // ---------------------------------------------------------------------
  // Join and split
  // ---------------------------------------------------------------------

  /** Python's `sep.join(xs)` */
  function Join(sep: string, xs: seq<string>): string
    decreases |xs|
  {
    if |xs| == 0 then ""
    else if |xs| == 1 then xs[0]
    else xs[0] + sep + Join(sep, xs[1..])
  }

  /** With a non-empty separator, a join is empty only when it joins
      nothing or the single empty string. */
  lemma JoinIsEmpty(sep: string, xs: seq<string>)
    requires |sep| > 0
    ensures Join(sep, xs) == "" <==> (|xs| == 0 || xs == [""])
  {
    if |xs| == 1 {
      assert xs == [xs[0]];
    }
  }

  lemma {:induction false} JoinAppend(sep: string, xs: seq<string>, ys: seq<string>)
    requires |xs| > 0 && |ys| > 0
    ensures Join(sep, xs + ys) == Join(sep, xs) + sep + Join(sep, ys)
    decreases |xs|
  {
    if |xs| == 1 {
      assert (xs + ys)[1..] == ys;
    } else {
      assert (xs + ys)[1..] == xs[1..] + ys;
      JoinAppend(sep, xs[1..], ys);
    }
  }

  /** Index of the first `c` in `s` */
  function FirstIndex(s: string, c: char): (i: nat)
    requires c in s
    ensures i < |s| && s[i] == c && c !in s[..i]
    decreases |s|
  {
    if s[0] == c then 0 else
      assert c in s[1..];
      var i := FirstIndex(s[1..], c);
      assert s[..i + 1] == [s[0]] + s[1..][..i];
      i + 1
  }

  /** Python's `s.split(c)` for a one-character separator */
  function Split(s: string, c: char): (parts: seq<string>)
    ensures |parts| > 0
    decreases |s|
  {
    if c in s then
      var i := FirstIndex(s, c);
      [s[..i]] + Split(s[i + 1..], c)
    else [s]
  }

  /** Splitting a join undoes it when no part contains the separator. */
  lemma {:induction false} SplitJoin(xs: seq<string>, c: char)
    requires |xs| > 0
    requires forall i :: 0 <= i < |xs| ==> c !in xs[i]
    ensures Split(Join([c], xs), c) == xs
    decreases |xs|
  {
    if |xs| == 1 {
      assert xs == [xs[0]];
    } else {
      var tail := Join([c], xs[1..]);
      assert Join([c], xs) == xs[0] + [c] + tail;
      SplitFirst(xs[0], c, tail);
      SplitJoin(xs[1..], c);
      assert xs == [xs[0]] + xs[1..];
    }
  }

  /** The first separator ends the first part. */
  lemma SplitFirst(head: string, c: char, tail: string)
    requires c !in head
    ensures Split(head + [c] + tail, c) == [head] + Split(tail, c)
  {
    var s := head + [c] + tail;
    var n := |head|;
    assert s[n] == c;
    var i := FirstIndex(s, c);
    assert s[..n] == head;
    assert i == n;
    assert s[i + 1..] == tail;
  }

  // ---------------------------------------------------------------------
  // Decimal rendering
  // ---------------------------------------------------------------------

  function Pow10(k: nat): (p: nat)
    ensures p >= 1
  {
    if k == 0 then 1 else 10 * Pow10(k - 1)
  }

  predicate IsDigit(ch: char) {
    '0' <= ch <= '9'
  }

  predicate IsDigits(s: string) {
    forall i :: 0 <= i < |s| ==> IsDigit(s[i])
  }

  function DigitChar(d: nat): (ch: char)
    requires d < 10
    ensures IsDigit(ch)
  {
    ('0' as int + d) as char
  }

  /** Python's `str(n)` for a non-negative integer */
  function NatString(n: nat): (s: string)
    ensures |s| > 0 && IsDigits(s)
    decreases n
  {
    if n < 10 then [DigitChar(n)] else NatString(n / 10) + [DigitChar(n % 10)]
  }

  /** Python's `str(i)` for any integer */
  function IntString(i: int): (s: string)
    ensures |s| > 0
  {
    if i < 0 then "-" + NatString(-i) else NatString(i)
  }

  /** The number a string of decimal digits denotes */
  function DigitsValue(s: string): nat
    requires IsDigits(s)
    decreases |s|
  {
    if |s| == 0 then 0
    else DigitsValue(s[..|s| - 1]) * 10 + (s[|s| - 1] as int - '0' as int)
  }

  function Zeros(k: nat): (s: string)
    ensures |s| == k && IsDigits(s)
  {
    seq(k, _ => '0')
  }

  /** Python's `'%0*d' % (width, n)`: at least `width` digits, zero-padded on the left. */
  function Pad(n: nat, width: nat): (s: string)
    ensures IsDigits(s)
  {
    var d := NatString(n);
    if |d| < width then Zeros(width - |d|) + d else d
  }

  lemma {:induction false} NatStringValue(n: nat)
    ensures DigitsValue(NatString(n)) == n
    decreases n
  {
    if n >= 10 {
      var s := NatString(n);
      assert s[..|s| - 1] == NatString(n / 10);
      NatStringValue(n / 10);
    }
  }

  lemma {:induction false} NatStringLength(n: nat, k: nat)
    requires k >= 1 && n < Pow10(k)
    ensures |NatString(n)| <= k
    decreases n
  {
    if n >= 10 {
      assert k >= 2;
      NatStringLength(n / 10, k - 1);
    }
  }

  lemma {:induction false} DigitsValueAppend(a: string, b: string)
    requires IsDigits(a) && IsDigits(b)
    ensures IsDigits(a + b)
    ensures DigitsValue(a + b) == DigitsValue(a) * Pow10(|b|) + DigitsValue(b)
    decreases |b|
  {
    if |b| == 0 {
      assert a + b == a;
    } else {
      var init := b[..|b| - 1];
      var last := b[|b| - 1];
      assert a + b == (a + init) + [last];
      assert b == init + [last];
      DigitsValueAppend(a, init);
      DigitsValueLast(a + init, last);
      DigitsValueLast(init, last);
      ShiftDigit(DigitsValue(a), Pow10(|init|), DigitsValue(init), last as int - '0' as int);
    }
  }

  /** One more digit on the right */
  lemma DigitsValueLast(s: string, c: char)
    requires IsDigits(s) && IsDigit(c)
    ensures IsDigits(s + [c])
    ensures DigitsValue(s + [c]) == DigitsValue(s) * 10 + (c as int - '0' as int)
  {
    assert (s + [c])[..|s|] == s;
  }

  lemma ShiftDigit(x: int, p: int, y: int, d: int)
    ensures (x * p + y) * 10 + d == x * (p * 10) + (y * 10 + d)
  {
  }

  lemma {:induction false} ZerosValue(k: nat)
    ensures DigitsValue(Zeros(k)) == 0
    decreases k
  {
    if k > 0 {
      assert Zeros(k)[..k - 1] == Zeros(k - 1);
      ZerosValue(k - 1);
    }
  }

  /** Zero padding does not change the number read back. */
  lemma PadValue(n: nat, width: nat)
    ensures DigitsValue(Pad(n, width)) == n
  {
    var d := NatString(n);
    NatStringValue(n);
    if |d| < width {
      var z := Zeros(width - |d|);
      DigitsValueAppend(z, d);
      ZerosValue(width - |d|);
      assert DigitsValue(z + d) == 0 * Pow10(|d|) + n;
    }
  }

  /** A number below 10^width is padded to exactly `width` digits. */
  lemma PadWidth(n: nat, width: nat)
    requires width >= 1 && n < Pow10(width)
    ensures |Pad(n, width)| == width
  {
    NatStringLength(n, width);
  }
}

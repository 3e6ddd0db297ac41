/** Version identifiers: a clock reading formatted with `strftime('v%Y%m%d%H%M%S')`.

    A version id is the letter `v` followed by the year in four digits and the month,
    day, hour, minute and second in two digits each, all zero-padded. The id keeps only
    whole seconds. Because every field has a fixed width, comparing two ids as strings
    (the way Python compares `str` values) orders them by time. */
module VersionIds {

  /** A naive local clock reading, as `datetime.now()` returns it. */
  datatype DateTime = DateTime(year: nat, month: nat, day: nat,
                               hour: nat, minute: nat, second: nat, microsecond: nat)
  {
    /** The ranges a `datetime` object always keeps its fields in. */
    predicate Valid() {
      1 <= year <= 9999 && 1 <= month <= 12 && 1 <= day <= DaysInMonth(year, month) &&
      hour < 24 && minute < 60 && second < 60 && microsecond < 1000000
    }
  }

  predicate IsLeapYear(y: nat) {
    y % 4 == 0 && (y % 100 != 0 || y % 400 == 0)
  }

  function DaysInMonth(y: nat, m: nat): nat {
    if m == 2 then (if IsLeapYear(y) then 29 else 28)
    else if m == 4 || m == 6 || m == 9 || m == 11 then 30
    else 31
  }

  /** `a` falls in a strictly earlier second than `b` (the microseconds are ignored). */
  predicate Earlier(a: DateTime, b: DateTime) {
    a.year < b.year || (a.year == b.year &&
    (a.month < b.month || (a.month == b.month &&
    (a.day < b.day || (a.day == b.day &&
    (a.hour < b.hour || (a.hour == b.hour &&
    (a.minute < b.minute || (a.minute == b.minute &&
    a.second < b.second)))))))))
  }

  /** `a` and `b` fall in the same second. */
  predicate SameSecond(a: DateTime, b: DateTime) {
    a.year == b.year && a.month == b.month && a.day == b.day &&
    a.hour == b.hour && a.minute == b.minute && a.second == b.second
  }

  function Pow10(w: nat): (p: nat)
    ensures p >= 1
  {
    if w == 0 then 1 else 10 * Pow10(w - 1)
  }

  predicate IsDigit(c: char) {
    '0' <= c <= '9'
  }

  function Digit(d: nat): (c: char)
    requires d < 10
    ensures IsDigit(c)
  {
    (48 + d) as char
  }

  /** The last `w` decimal digits of `n`, zero-padded on the left (`%0wd`). */
  function Pad(n: nat, w: nat): (s: string)
    ensures |s| == w
    ensures forall i :: 0 <= i < w ==> IsDigit(s[i])
  {
    if w == 0 then [] else Pad(n / 10, w - 1) + [Digit(n % 10)]
  }

  /** `strftime('v%Y%m%d%H%M%S')` of a clock reading: fixed width, fifteen
      characters, `v` and fourteen digits. */
  function VersionId(t: DateTime): (id: string)
    ensures |id| == 15
    ensures id[0] == 'v'
    ensures forall i :: 1 <= i < 15 ==> IsDigit(id[i])
  {
    "v" + Pad(t.year, 4) + Pad(t.month, 2) + Pad(t.day, 2) +
    Pad(t.hour, 2) + Pad(t.minute, 2) + Pad(t.second, 2)
  }

  /** Python's `<` on strings: lexicographic by code point, a proper prefix first. */
  predicate LexLess(a: string, b: string) {
    if |a| == 0 then |b| > 0
    else if |b| == 0 then false
    else a[0] < b[0] || (a[0] == b[0] && LexLess(a[1..], b[1..]))
  }

  lemma {:induction false} LexLessIrreflexive(a: string)
    ensures !LexLess(a, a)
  {
    if |a| > 0 { LexLessIrreflexive(a[1..]); }
  }

  lemma {:induction false} LexLessTransitive(a: string, b: string, c: string)
    requires LexLess(a, b) && LexLess(b, c)
    ensures LexLess(a, c)
  {
    if |a| > 0 && |b| > 0 && |c| > 0 && a[0] == b[0] == c[0] {
      LexLessTransitive(a[1..], b[1..], c[1..]);
    }
  }

  /** Comparing two strings that start with blocks of equal length compares the
      first blocks, and only when those are equal the rest. */
  lemma {:induction false} LexLessConcat(a1: string, b1: string, a2: string, b2: string)
    requires |a1| == |a2|
    ensures LexLess(a1 + b1, a2 + b2) <==> LexLess(a1, a2) || (a1 == a2 && LexLess(b1, b2))
    ensures a1 + b1 == a2 + b2 <==> a1 == a2 && b1 == b2
  {
    if |a1| == 0 {
      assert a1 + b1 == b1 && a2 + b2 == b2;
    } else {
      LexLessConcat(a1[1..], b1, a2[1..], b2);
      assert (a1 + b1)[1..] == a1[1..] + b1;
      assert (a2 + b2)[1..] == a2[1..] + b2;
      assert a1 == [a1[0]] + a1[1..] && a2 == [a2[0]] + a2[1..];
      if a1 + b1 == a2 + b2 {
        assert (a1 + b1)[0] == (a2 + b2)[0];
      }
    }
  }

  lemma DivModOrder(n: nat, m: nat)
    ensures n < m <==> n / 10 < m / 10 || (n / 10 == m / 10 && n % 10 < m % 10)
    ensures n == m <==> n / 10 == m / 10 && n % 10 == m % 10
  {
    assert n == 10 * (n / 10) + n % 10;
    assert m == 10 * (m / 10) + m % 10;
  }

  /** Zero-padded numbers that fit their width compare as strings the way they
      compare as numbers, and are equal as strings only when equal as numbers. */
  lemma {:induction false} PadOrder(n: nat, m: nat, w: nat)
    requires n < Pow10(w) && m < Pow10(w)
    ensures LexLess(Pad(n, w), Pad(m, w)) <==> n < m
    ensures Pad(n, w) == Pad(m, w) <==> n == m
  {
    if w == 0 {
      assert n == 0 && m == 0;
    } else {
      assert n / 10 < Pow10(w - 1) && m / 10 < Pow10(w - 1);
      PadOrder(n / 10, m / 10, w - 1);
      var dn, dm := Digit(n % 10), Digit(m % 10);
      LexLessConcat(Pad(n / 10, w - 1), [dn], Pad(m / 10, w - 1), [dm]);
      assert LexLess([dn], [dm]) <==> n % 10 < m % 10;
      assert [dn] == [dm] <==> n % 10 == m % 10;
      DivModOrder(n, m);
    }
  }

  /** For valid clock readings, the version ids compare as strings exactly as the
      readings compare in time, to the second. */
  lemma VersionIdOrder(a: DateTime, b: DateTime)
    requires a.Valid() && b.Valid()
    ensures LexLess(VersionId(a), VersionId(b)) <==> Earlier(a, b)
    ensures VersionId(a) == VersionId(b) <==> SameSecond(a, b)
  {
    PadOrder(a.year, b.year, 4);
    PadOrder(a.month, b.month, 2);
    PadOrder(a.day, b.day, 2);
    PadOrder(a.hour, b.hour, 2);
    PadOrder(a.minute, b.minute, 2);
    PadOrder(a.second, b.second, 2);
    var x0a, x0b := "v", "v";
    var x1a, x1b := x0a + Pad(a.year, 4), x0b + Pad(b.year, 4);
    var x2a, x2b := x1a + Pad(a.month, 2), x1b + Pad(b.month, 2);
    var x3a, x3b := x2a + Pad(a.day, 2), x2b + Pad(b.day, 2);
    var x4a, x4b := x3a + Pad(a.hour, 2), x3b + Pad(b.hour, 2);
    var x5a, x5b := x4a + Pad(a.minute, 2), x4b + Pad(b.minute, 2);
    LexLessIrreflexive(x0a);
    LexLessConcat(x0a, Pad(a.year, 4), x0b, Pad(b.year, 4));
    LexLessConcat(x1a, Pad(a.month, 2), x1b, Pad(b.month, 2));
    LexLessConcat(x2a, Pad(a.day, 2), x2b, Pad(b.day, 2));
    LexLessConcat(x3a, Pad(a.hour, 2), x3b, Pad(b.hour, 2));
    LexLessConcat(x4a, Pad(a.minute, 2), x4b, Pad(b.minute, 2));
    LexLessConcat(x5a, Pad(a.second, 2), x5b, Pad(b.second, 2));
  }

  /** Two clock readings in the same second give the same version id, whatever
      their microseconds. */
  lemma SameSecondSameId(a: DateTime, b: DateTime)
    requires SameSecond(a, b)
    ensures VersionId(a) == VersionId(b)
  {
  }
}

/**
 * Calendar dates as the date widgets hold them, their `yyyyMMdd` text (the
 * form stored in the `date` column) and the `DD.MM.YYYY` text the table
 * shows, built by slicing the stored text.
 */
module Dates {
  import opened Text

  /** A calendar date, as a QDate holds it. */
  datatype Date = Date(year: int, month: int, day: int)

  predicate IsLeap(y: int)
  {
    (y % 4 == 0 && y % 100 != 0) || y % 400 == 0
  }

  function DaysInMonth(y: int, m: int): int
  {
    if m == 2 then (if IsLeap(y) then 29 else 28)
    else if m == 4 || m == 6 || m == 9 || m == 11 then 30
    else 31
  }

  /** Chronological order: a strictly before b. */
  predicate Earlier(a: Date, b: Date)
  {
    a.year < b.year || (a.year == b.year && (a.month < b.month || (a.month == b.month && a.day < b.day)))
  }

  predicate NotLater(a: Date, b: Date)
  {
    Earlier(a, b) || a == b
  }

  /** The earliest and latest date a QDateEdit accepts unless told otherwise. */
  const FirstEditDate := Date(1752, 9, 14)
  const LastEditDate := Date(9999, 12, 31)

  /** What a QDateEdit shows when no date is set on it. */
  const DefaultEditDate := Date(2000, 1, 1)

  /** A date a date widget can hold: a real calendar day within the widget's range. */
  predicate ValidDate(d: Date)
  {
    1 <= d.month <= 12 && 1 <= d.day <= DaysInMonth(d.year, d.month)
    && NotLater(FirstEditDate, d) && NotLater(d, LastEditDate)
  }

  // ---------------------------------------------------------------------
  // `toString("yyyyMMdd")`

  /** n written with exactly `width` decimal digits, zero-padded on the left. */
  function Digits(n: nat, width: nat): (r: string)
    requires n < Pow10(width)
    ensures |r| == width && AllDigits(r)
    ensures DigitsValue(r) == n
    decreases width
  {
    if width == 0 then []
    else
      var r := Digits(n / 10, width - 1) + [DigitChar(n % 10)];
      assert r[..|r| - 1] == Digits(n / 10, width - 1);
      r
  }

  /** The date's `yyyyMMdd` text. */
  function Compact(d: Date): (r: string)
    requires ValidDate(d)
    ensures |r| == 8 && AllDigits(r)
  {
    Digits(d.year, 4) + Digits(d.month, 2) + Digits(d.day, 2)
  }

  /** The value of digits followed by more digits. */
  lemma {:induction false} DigitsValueConcat(a: string, b: string)
    requires AllDigits(a) && AllDigits(b)
    ensures AllDigits(a + b)
    ensures DigitsValue(a + b) == DigitsValue(a) * Pow10(|b|) + DigitsValue(b)
    decreases |b|
  {
    AllDigitsConcat(a, b);
    if b == [] {
      assert a + b == a;
    } else {
      var p, x := b[..|b| - 1], b[|b| - 1];
      assert (a + b)[..|a + b| - 1] == a + p;
      assert (a + b)[|a + b| - 1] == x;
      DigitsValueConcat(a, p);
      ShiftStep(DigitsValue(a), Pow10(|p|), DigitsValue(p), DigitValue(x));
    }
  }

  lemma AllDigitsConcat(a: string, b: string)
    requires AllDigits(a) && AllDigits(b)
    ensures AllDigits(a + b)
  {
    forall i | 0 <= i < |a + b|
      ensures IsDigit((a + b)[i])
    {
      if i >= |a| {
        assert (a + b)[i] == b[i - |a|];
      }
    }
  }

  /** One more digit on the right: the arithmetic step of DigitsValueConcat. */
  lemma ShiftStep(v: int, q: int, w: int, x: int)
    ensures 10 * (v * q + w) + x == v * (10 * q) + (10 * w + x)
  {
  }

  /** The number the `yyyyMMdd` text spells. */
  function DateKey(d: Date): int
  {
    d.year * 10000 + d.month * 100 + d.day
  }

  lemma FieldsValue(y: string, m: string, x: string)
    requires AllDigits(y) && AllDigits(m) && AllDigits(x) && |m| == 2 && |x| == 2
    ensures AllDigits(y + m + x)
    ensures DigitsValue(y + m + x) == DigitsValue(y) * 10000 + DigitsValue(m) * 100 + DigitsValue(x)
  {
    assert Pow10(2) == 100;
    DigitsValueConcat(y, m);
    DigitsValueConcat(y + m, x);
  }

  lemma CompactValue(d: Date)
    requires ValidDate(d)
    ensures DigitsValue(Compact(d)) == DateKey(d)
  {
    var s := Compact(d);
    var y, m, x := Digits(d.year, 4), Digits(d.month, 2), Digits(d.day, 2);
    assert s == y + m + x;
    KeyOfFields(d, y, m, x);
    assert DigitsValue(s) == DateKey(d);
  }

  lemma KeyOfFields(d: Date, y: string, m: string, x: string)
    requires AllDigits(y) && AllDigits(m) && AllDigits(x) && |m| == 2 && |x| == 2
    requires DigitsValue(y) == d.year && DigitsValue(m) == d.month && DigitsValue(x) == d.day
    ensures DigitsValue(y + m + x) == DateKey(d)
  {
    FieldsValue(y, m, x);
  }

  /** Months and days below 100 make the key order the calendar order. */
  lemma DateKeyOrder(a: Date, b: Date)
    requires ValidDate(a) && ValidDate(b)
    ensures Earlier(a, b) <==> DateKey(a) < DateKey(b)
    ensures a == b <==> DateKey(a) == DateKey(b)
  {
  }

  /**
   * The stored text sorts like the dates it spells: comparing two
   * `yyyyMMdd` texts character by character is comparing the dates.
   */
  lemma CompactOrder(a: Date, b: Date)
    requires ValidDate(a) && ValidDate(b)
    ensures StrLess(Compact(a), Compact(b)) <==> Earlier(a, b)
    ensures StrLe(Compact(a), Compact(b)) <==> NotLater(a, b)
    ensures Compact(a) == Compact(b) <==> a == b
  {
    CompactValue(a);
    CompactValue(b);
    DateKeyOrder(a, b);
    DigitsOrder(Compact(a), Compact(b));
    CodePointsInjective(Compact(a), Compact(b));
  }

  /** Dates of the widget's range have four-digit years, so their text does not start with `0`. */
  lemma CompactCanonical(d: Date)
    requires ValidDate(d)
    ensures Canonical(Compact(d))
  {
    var y := Digits(d.year, 4);
    assert Compact(d)[0] == y[0];
  }

  // ---------------------------------------------------------------------
  // `date[6:] + '.' + date[4:6] + '.' + date[:4]`

  function Clamp(i: int, n: nat): nat
  {
    if i < 0 then 0 else if i > n then n else i
  }

  /** Python's `s[lo:hi]` for non-negative bounds: out-of-range bounds are clipped. */
  function Slice(s: string, lo: nat, hi: nat): (r: string)
    ensures lo <= hi <= |s| ==> r == s[lo..hi]
    ensures lo <= |s| < hi ==> r == s[lo..]
    ensures |s| <= lo ==> r == []
    ensures hi < lo ==> r == []
  {
    var a, b := Clamp(lo, |s|), Clamp(hi, |s|);
    if a <= b then s[a..b] else []
  }

  /** The text the table shows for a stored date. */
  function Display(s: string): string
  {
    Slice(s, 6, |s|) + "." + Slice(s, 4, 6) + "." + Slice(s, 0, 4)
  }

  /** Reads the stored text back out of a displayed `DD.MM.YYYY`. */
  function FromDisplay(r: string): string
    requires |r| == 10
  {
    r[6..10] + r[3..5] + r[0..2]
  }

  /** An eight-character stored text becomes ten characters with dots at 2 and 5, and can be read back. */
  lemma DisplayEight(s: string)
    requires |s| == 8
    ensures Display(s) == s[6..] + "." + s[4..6] + "." + s[..4]
    ensures |Display(s)| == 10 && Display(s)[2] == '.' && Display(s)[5] == '.'
    ensures FromDisplay(Display(s)) == s
  {
    var r := Display(s);
    assert r[6..10] == s[..4];
    assert r[3..5] == s[4..6];
    assert r[0..2] == s[6..];
    assert s == s[..4] + s[4..6] + s[6..];
  }

  /** Conversely, any `DD.MM.YYYY`-shaped text is the display of the stored text read out of it. */
  lemma DisplayFromDisplay(r: string)
    requires |r| == 10 && r[2] == '.' && r[5] == '.'
    ensures Display(FromDisplay(r)) == r
  {
    var s := FromDisplay(r);
    DisplayEight(s);
    assert s[6..] == r[0..2] && s[4..6] == r[3..5] && s[..4] == r[6..10];
    assert r == r[0..2] + [r[2]] + r[3..5] + [r[5]] + r[6..10];
  }

  /** A widget date is shown day first, then month, then the four-digit year. */
  lemma DisplayOfDate(d: Date)
    requires ValidDate(d)
    ensures Display(Compact(d)) == Digits(d.day, 2) + "." + Digits(d.month, 2) + "." + Digits(d.year, 4)
  {
    var s := Compact(d);
    DisplayEight(s);
    assert s[..4] == Digits(d.year, 4);
    assert s[4..6] == Digits(d.month, 2);
    assert s[6..] == Digits(d.day, 2);
  }

  /** Shorter text is not rejected: the slices are clipped, so "2024" is shown as "..2024". */
  lemma DisplayShort(s: string)
    requires s == "2024"
    ensures Display(s) == "..2024"
  {
  }
}

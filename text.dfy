/**
 * Characters, case mapping and decimal numbers as Python's `str` sees them:
 * `str.lower()`, `str(n)` for an int and `int(s)` for a string.
 */
module Text {
  import opened Wrappers
  import Lex

  // ---------------------------------------------------------------------
  // Case mapping

  /**
   * `str.lower()` on one character.  Modelled for the letters this program
   * deals with: ASCII, the Latin-1 capitals and the basic Cyrillic capitals
   * (А..Я and the Ѐ..Џ block); every other character maps to itself.
   */
  function LowerChar(c: char): char
  {
    if 'A' <= c <= 'Z' then (c as int + 32) as char
    else if '\U{C0}' <= c <= '\U{DE}' && c != '\U{D7}' then (c as int + 32) as char
    else if '\U{410}' <= c <= '\U{42F}' then (c as int + 32) as char
    else if '\U{400}' <= c <= '\U{40F}' then (c as int + 80) as char
    else c
  }

  /** `str.lower()` on a string: character by character. */
  function LowerStr(s: string): (r: string)
    ensures |r| == |s|
    ensures forall i :: 0 <= i < |s| ==> r[i] == LowerChar(s[i])
  {
    seq(|s|, i requires 0 <= i < |s| => LowerChar(s[i]))
  }

  /** Lowering twice is lowering once: no lowered character is itself a capital. */
  lemma LowerStrIdempotent(s: string)
    ensures LowerStr(LowerStr(s)) == LowerStr(s)
  {
  }

  /** A character lowering leaves alone and produces from no other character. */
  predicate Caseless(c: char)
  {
    forall x :: LowerChar(x) == c <==> x == c
  }

  /** Lowering neither removes nor introduces a caseless character. */
  lemma LowerKeeps(t: string, c: char)
    requires Caseless(c)
    ensures c in LowerStr(t) <==> c in t
  {
    if c in t {
      var i :| 0 <= i < |t| && t[i] == c;
      assert LowerStr(t)[i] == c;
    }
    if c in LowerStr(t) {
      var i :| 0 <= i < |t| && LowerStr(t)[i] == c;
      assert t[i] == c;
    }
  }

  /** `bytes.lower()` folds only the ASCII capitals; on a character, the same restriction. */
  function AsciiLowerChar(c: char): char
  {
    if 'A' <= c <= 'Z' then (c as int + 32) as char else c
  }

  function AsciiLowerStr(s: string): (r: string)
    ensures |r| == |s|
    ensures forall i :: 0 <= i < |s| ==> r[i] == AsciiLowerChar(s[i])
  {
    seq(|s|, i requires 0 <= i < |s| => AsciiLowerChar(s[i]))
  }

  // ---------------------------------------------------------------------
  // Code points and text order

  function CodePoints(s: string): (r: seq<int>)
    ensures |r| == |s|
    ensures forall i :: 0 <= i < |s| ==> r[i] == s[i] as int
  {
    seq(|s|, i requires 0 <= i < |s| => s[i] as int)
  }

  lemma CodePointsConcat(a: string, b: string)
    ensures CodePoints(a + b) == CodePoints(a) + CodePoints(b)
  {
  }

  lemma CodePointsInjective(a: string, b: string)
    ensures CodePoints(a) == CodePoints(b) <==> a == b
  {
    if CodePoints(a) == CodePoints(b) {
      assert forall i :: 0 <= i < |a| ==> a[i] as int == b[i] as int;
    }
  }

  /** Text order by code points (what SQLite's BINARY collation amounts to). */
  predicate StrLess(a: string, b: string)
  {
    Lex.Less(CodePoints(a), CodePoints(b))
  }

  predicate StrLe(a: string, b: string)
  {
    a == b || StrLess(a, b)
  }

  lemma StrLeTransitive(a: string, b: string, c: string)
    requires StrLe(a, b) && StrLe(b, c)
    ensures StrLe(a, c)
  {
    if a != b && b != c {
      Lex.Transitive(CodePoints(a), CodePoints(b), CodePoints(c));
    }
  }

  /** StrLe is a total order on strings. */
  lemma StrLeTotalOrder(a: string, b: string)
    ensures StrLe(a, b) && StrLe(b, a) ==> a == b
    ensures !StrLe(a, b) <==> StrLess(b, a)
  {
    CodePointsInjective(a, b);
    Lex.LessEqTotalOrder(CodePoints(a), CodePoints(b));
  }

  // ---------------------------------------------------------------------
  // Decimal digits

  predicate IsDigit(c: char)
  {
    '0' <= c <= '9'
  }

  predicate AllDigits(s: string)
  {
    forall i :: 0 <= i < |s| ==> IsDigit(s[i])
  }

  function DigitValue(c: char): nat
    requires IsDigit(c)
  {
    c as int - '0' as int
  }

  function DigitChar(d: nat): (c: char)
    requires d < 10
    ensures IsDigit(c) && DigitValue(c) == d
  {
    ('0' as int + d) as char
  }

  /** The value of a string of decimal digits, most significant first. */
  function DigitsValue(s: string): nat
    requires AllDigits(s)
    decreases |s|
  {
    if s == [] then 0 else 10 * DigitsValue(s[..|s| - 1]) + DigitValue(s[|s| - 1])
  }

  function Pow10(n: nat): nat
  {
    if n == 0 then 1 else 10 * Pow10(n - 1)
  }

  /** n digits spell a number below 10^n. */
  lemma {:induction false} DigitsValueBelow(s: string)
    requires AllDigits(s)
    ensures DigitsValue(s) < Pow10(|s|)
    decreases |s|
  {
    if s != [] {
      DigitsValueBelow(s[..|s| - 1]);
    }
  }

  /** Decimal rendering of a natural number without leading zeros. */
  function NatStr(n: nat): string
    decreases n
  {
    if n < 10 then [DigitChar(n)] else NatStr(n / 10) + [DigitChar(n % 10)]
  }

  /** Python's `str(n)` for an int. */
  function Str(n: int): string
  {
    if n < 0 then "-" + NatStr(-n) else NatStr(n)
  }

  /** A digit string in the form `str` produces: non-empty, no leading zero unless it is "0". */
  predicate Canonical(s: string)
  {
    |s| > 0 && AllDigits(s) && (s[0] != '0' || |s| == 1)
  }

  lemma {:induction false} NatStrCanonical(n: nat)
    ensures Canonical(NatStr(n)) && DigitsValue(NatStr(n)) == n
    decreases n
  {
    if n >= 10 {
      NatStrCanonical(n / 10);
      var s := NatStr(n);
      assert s[..|s| - 1] == NatStr(n / 10);
    }
  }

  lemma {:induction false} LeadingDigitPositive(s: string)
    requires AllDigits(s) && |s| > 0 && s[0] != '0'
    ensures DigitsValue(s) >= 1
    decreases |s|
  {
    if |s| > 1 {
      LeadingDigitPositive(s[..|s| - 1]);
    }
  }

  /** A leading zero adds nothing to the value. */
  lemma {:induction false} LeadingZeroValue(s: string)
    requires AllDigits(s) && |s| > 0 && s[0] == '0'
    ensures DigitsValue(s) == DigitsValue(s[1..])
    decreases |s|
  {
    if |s| > 1 {
      var p := s[..|s| - 1];
      LeadingZeroValue(p);
      assert s[1..][..|s| - 2] == p[1..];
    }
  }

  /** Reading a canonical digit string and printing its value gives the string back. */
  lemma {:induction false} CanonicalRoundTrip(s: string)
    requires Canonical(s)
    ensures NatStr(DigitsValue(s)) == s
    decreases |s|
  {
    if |s| > 1 {
      var p := s[..|s| - 1];
      LeadingDigitPositive(p);
      CanonicalRoundTrip(p);
      assert s == p + [s[|s| - 1]];
    }
  }

  /** For digit strings of one length, text order and numeric order agree. */
  lemma {:induction false} DigitsOrder(a: string, b: string)
    requires AllDigits(a) && AllDigits(b) && |a| == |b|
    ensures StrLess(a, b) <==> DigitsValue(a) < DigitsValue(b)
    decreases |a|
  {
    if |a| == 0 {
      Lex.Irreflexive(CodePoints(a));
    } else {
      var p, q := a[..|a| - 1], b[..|b| - 1];
      var x, y := a[|a| - 1], b[|b| - 1];
      assert a == p + [x] && b == q + [y];
      CodePointsConcat(p, [x]);
      CodePointsConcat(q, [y]);
      Lex.EqualLengthPrefix(CodePoints(p), CodePoints(q), CodePoints([x]), CodePoints([y]));
      DigitsOrder(p, q);
      DigitsOrder(q, p);
      CodePointsInjective(p, q);
      Lex.Trichotomy(CodePoints(p), CodePoints(q));
    }
  }

  // ---------------------------------------------------------------------
  // Python's int(s)

  /** The whitespace `int()` skips around a number (its ASCII part). */
  predicate IsSpace(c: char)
  {
    c == ' ' || '\t' <= c <= '\r' || '\U{1C}' <= c <= '\U{1F}'
  }

  function TrimStart(s: string): string
    decreases |s|
  {
    if |s| > 0 && IsSpace(s[0]) then TrimStart(s[1..]) else s
  }

  function TrimEnd(s: string): string
    decreases |s|
  {
    if |s| > 0 && IsSpace(s[|s| - 1]) then TrimEnd(s[..|s| - 1]) else s
  }

  /** `str.strip()`. */
  function Strip(s: string): string
  {
    TrimEnd(TrimStart(s))
  }

  /**
   * Python's `int(s)`: optional surrounding whitespace, an optional sign and
   * one or more ASCII digits; anything else raises ValueError (None here).
   */
  function ParseInt(s: string): Option<int>
  {
    var t := Strip(s);
    var body := if |t| > 0 && (t[0] == '-' || t[0] == '+') then t[1..] else t;
    if |body| > 0 && AllDigits(body) then
      var magnitude: int := DigitsValue(body);
      Some(if t[0] == '-' then -magnitude else magnitude)
    else
      None
  }

  /** `int(str(n)) == n` for every integer. */
  lemma ParseIntStr(n: int)
    ensures ParseInt(Str(n)) == Some(n)
  {
    var m := if n < 0 then -n else n;
    NatStrCanonical(m);
    ParseSigned(Str(n), NatStr(m), n < 0);
  }

  /** A canonical digit string, possibly after a minus sign and with nothing around it, is read as its value. */
  lemma ParseSigned(s: string, d: string, negative: bool)
    requires Canonical(d) && s == (if negative then "-" + d else d)
    ensures ParseInt(s) == Some(if negative then -(DigitsValue(d) as int) else DigitsValue(d))
  {
    assert !IsSpace(s[0]) && !IsSpace(s[|s| - 1]);
    NoSpaceStrip(s);
    if negative {
      assert s[1..] == d;
    }
  }

  lemma NoSpaceStrip(s: string)
    requires |s| > 0 && !IsSpace(s[0]) && !IsSpace(s[|s| - 1])
    ensures Strip(s) == s
  {
  }

  /** `int()` accepts surrounding blanks and a sign. */
  lemma ParseIntAccepts()
    ensures ParseInt(" 42\n") == Some(42)
    ensures ParseInt("+12") == Some(12)
    ensures ParseInt("-7") == Some(-7)
  {
    ParseBlanks();
    ParsePlus();
    ParseMinus();
  }

  lemma ParseBlanks()
    ensures ParseInt(" 42\n") == Some(42)
  {
    StripBlanks();
    assert DigitsValue("42") == 42;
  }

  lemma StripBlanks()
    ensures Strip(" 42\n") == "42"
  {
    assert TrimStart(" 42\n") == "42\n";
    assert TrimEnd("42\n") == "42";
  }

  lemma ParsePlus()
    ensures ParseInt("+12") == Some(12)
  {
    assert TrimStart("+12") == "+12" && TrimEnd("+12") == "+12";
    assert "+12"[1..] == "12";
    assert DigitsValue("12") == 12;
  }

  lemma ParseMinus()
    ensures ParseInt("-7") == Some(-7)
  {
    assert TrimStart("-7") == "-7" && TrimEnd("-7") == "-7";
    assert "-7"[1..] == "7";
  }

  /** `int()` rejects an empty field, a bare sign and what is not a whole number. */
  lemma ParseIntRejects()
    ensures ParseInt("") == None
    ensures ParseInt("-") == None
    ensures ParseInt("4a") == None
    ensures ParseInt("3.5") == None
  {
    RejectSign();
    RejectLetter();
    RejectFraction();
  }

  lemma RejectSign()
    ensures ParseInt("-") == None
  {
    assert TrimStart("-") == "-" && TrimEnd("-") == "-";
  }

  lemma RejectLetter()
    ensures ParseInt("4a") == None
  {
    assert TrimStart("4a") == "4a" && TrimEnd("4a") == "4a";
    assert !IsDigit("4a"[1]);
  }

  lemma RejectFraction()
    ensures ParseInt("3.5") == None
  {
    assert TrimStart("3.5") == "3.5" && TrimEnd("3.5") == "3.5";
    assert !IsDigit("3.5"[1]);
  }
}

/**
 * `sqlite_nocase_collation(a, b)`: both strings are encoded as UTF-8, the
 * ASCII capitals among the bytes are folded (`bytes.lower()`), and the
 * result is `(a < b) - (a > b)` on those byte strings.
 */
module Collation {
  import opened Text
  import opened Utf8
  import Lex

  /** `bytes.lower()`: only the bytes of 'A'..'Z' change. */
  function LowerBytes(b: seq<Byte>): (r: seq<Byte>)
    ensures |r| == |b|
    ensures forall i :: 0 <= i < |b| ==> r[i] == if 65 <= b[i] <= 90 then b[i] + 32 else b[i]
  {
    seq(|b|, i requires 0 <= i < |b| => if 65 <= b[i] <= 90 then b[i] + 32 else b[i])
  }

  /** The comparison key: `value.encode('utf-8').lower()`. */
  function Key(s: string): seq<Byte>
  {
    LowerBytes(Encode(s))
  }

  /** The collation as written: +1 when the first key is the smaller one. */
  function NocaseCollation(a: string, b: string): int
  {
    (if Lex.Less(Key(a), Key(b)) then 1 else 0) - (if Lex.Less(Key(b), Key(a)) then 1 else 0)
  }

  /** Folding the bytes of an encoding is encoding the ASCII-folded string. */
  lemma {:induction false} KeyIsEncodedAsciiFold(s: string)
    ensures Key(s) == Encode(AsciiLowerStr(s))
    decreases |s|
  {
    if s != [] {
      var e, rest := EncodeChar(s[0]), Encode(s[1..]);
      assert LowerBytes(e + rest) == LowerBytes(e) + LowerBytes(rest);
      assert LowerBytes(e) == EncodeChar(AsciiLowerChar(s[0]));
      KeyIsEncodedAsciiFold(s[1..]);
      assert AsciiLowerStr(s) == [AsciiLowerChar(s[0])] + AsciiLowerStr(s[1..]);
    }
  }

  /**
   * What the collation decides, stated on the strings: it is +1 exactly when
   * the ASCII-folded first string sorts before the second by code point,
   * -1 exactly when it sorts after, and 0 exactly when the two folded
   * strings are equal.  Only ASCII letters are folded.
   */
  lemma CollationDecidedByAsciiFold(a: string, b: string)
    ensures NocaseCollation(a, b) == 1 <==> StrLess(AsciiLowerStr(a), AsciiLowerStr(b))
    ensures NocaseCollation(a, b) == -1 <==> StrLess(AsciiLowerStr(b), AsciiLowerStr(a))
    ensures NocaseCollation(a, b) == 0 <==> AsciiLowerStr(a) == AsciiLowerStr(b)
  {
    var fa, fb := AsciiLowerStr(a), AsciiLowerStr(b);
    KeyIsEncodedAsciiFold(a);
    KeyIsEncodedAsciiFold(b);
    EncodeOrder(fa, fb);
    EncodeOrder(fb, fa);
    EncodeInjective(fa, fb);
    Lex.Asymmetric(Key(a), Key(b));
    Lex.Trichotomy(Key(a), Key(b));
    Lex.Irreflexive(Key(a));
  }

  /** The result is a sign, it flips with the arguments, and a string equals itself. */
  lemma CollationSign(a: string, b: string)
    ensures -1 <= NocaseCollation(a, b) <= 1
    ensures NocaseCollation(b, a) == -NocaseCollation(a, b)
    ensures NocaseCollation(a, a) == 0
  {
  }

  /** The order it induces is consistent: "not after" is transitive. */
  lemma CollationTransitive(a: string, b: string, c: string)
    ensures NocaseCollation(a, b) >= 0 && NocaseCollation(b, c) >= 0 ==> NocaseCollation(a, c) >= 0
  {
    var ka, kb, kc := Key(a), Key(b), Key(c);
    if NocaseCollation(a, b) >= 0 && NocaseCollation(b, c) >= 0 {
      Lex.LessEqTotalOrder(ka, kb);
      Lex.LessEqTotalOrder(kb, kc);
      Lex.LessEqTransitive(ka, kb, kc);
      Lex.LessEqTotalOrder(ka, kc);
      Lex.Irreflexive(ka);
    }
  }

  /** ASCII capitals are folded: "ABC" and "abc" collate equal. */
  lemma AsciiCaseIgnored()
    ensures NocaseCollation("ABC", "abc") == 0
  {
    CollationDecidedByAsciiFold("ABC", "abc");
    assert AsciiLowerStr("ABC") == "abc";
  }

  /**
   * The sign is the reverse of the one Python's sqlite3 module expects of a
   * collation (negative when the first argument sorts first): "a" sorts
   * before "b", yet the result is +1.
   */
  lemma SignInverted()
    ensures NocaseCollation("a", "b") == 1
    ensures IntendedCollation("a", "b") == -1
  {
    CollationDecidedByAsciiFold("a", "b");
    assert AsciiLowerStr("a") == "a" && AsciiLowerStr("b") == "b";
    assert StrLess("a", "b");
    assert LowerStr("a") == "a" && LowerStr("b") == "b";
  }

  /**
   * Cyrillic capitals are not folded, although the helpers exist for
   * Russian text: "Б" and "б" do not collate equal.
   */
  lemma CyrillicNotFolded()
    ensures NocaseCollation("Б", "б") == 1
    ensures IntendedCollation("Б", "б") == 0
  {
    CollationDecidedByAsciiFold("Б", "б");
    assert AsciiLowerStr("Б") == "Б" && AsciiLowerStr("б") == "б";
    assert StrLess("Б", "б");
    assert LowerStr("Б") == "б" && LowerStr("б") == "б";
  }

  // ---------------------------------------------------------------------
  // The collation the helper evidently means

  /**
   * Case-insensitive collation with the sign convention of sqlite3's
   * `create_collation`: negative, zero or positive as the first string,
   * lowered with `str.lower()`, sorts before, equal to or after the second.
   */
  function IntendedCollation(a: string, b: string): int
  {
    var la, lb := LowerStr(a), LowerStr(b);
    if StrLess(la, lb) then -1 else if la == lb then 0 else 1
  }

  /** The intended collation is a total preorder that folds every modelled capital. */
  lemma IntendedCollationOrder(a: string, b: string, c: string)
    ensures IntendedCollation(a, b) == 0 <==> LowerStr(a) == LowerStr(b)
    ensures IntendedCollation(a, b) < 0 <==> StrLess(LowerStr(a), LowerStr(b))
    ensures IntendedCollation(b, a) == -IntendedCollation(a, b)
    ensures IntendedCollation(a, b) <= 0 && IntendedCollation(b, c) <= 0 ==> IntendedCollation(a, c) <= 0
  {
    var la, lb, lc := LowerStr(a), LowerStr(b), LowerStr(c);
    Lex.Irreflexive(CodePoints(la));
    Lex.Asymmetric(CodePoints(la), CodePoints(lb));
    Lex.Trichotomy(CodePoints(la), CodePoints(lb));
    CodePointsInjective(la, lb);
    if IntendedCollation(a, b) <= 0 && IntendedCollation(b, c) <= 0 {
      StrLeTransitive(la, lb, lc);
    }
  }
}

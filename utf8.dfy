/**
 * UTF-8, as Python's `str.encode('utf-8')` produces it, and the fact this
 * program relies on twice: comparing UTF-8 byte strings is the same as
 * comparing the code points they encode.
 */
module Utf8 {
  import opened Text
  import Lex

  type Byte = x: int | 0 <= x < 256

  /** The one to four bytes that encode one Unicode scalar value. */
  function EncodeChar(c: char): (r: seq<Byte>)
    ensures 1 <= |r| <= 4
    ensures (c as int < 0x80) == (|r| == 1 && r[0] == c as int)
    ensures c as int >= 0x80 ==> forall i :: 0 <= i < |r| ==> r[i] >= 0x80
  {
    var n := c as int;
    if n < 0x80 then [n]
    else if n < 0x800 then TwoBytes(n)
    else if n < 0x1_0000 then ThreeBytes(n)
    else FourBytes(n)
  }

  // Each continuation byte carries six bits; q1, q2, q3 are the code point
  // shifted right by 6, 12 and 18 bits.

  function TwoBytes(n: int): seq<Byte>
    requires 0x80 <= n < 0x800
  {
    [0xC0 + n / 64, 0x80 + n % 64]
  }

  function ThreeBytes(n: int): seq<Byte>
    requires 0x800 <= n < 0x1_0000
  {
    var q1 := n / 64;
    [0xE0 + q1 / 64, 0x80 + q1 % 64, 0x80 + n % 64]
  }

  function FourBytes(n: int): seq<Byte>
    requires 0x1_0000 <= n < 0x11_0000
  {
    var q1 := n / 64;
    var q2 := q1 / 64;
    [0xF0 + q2 / 64, 0x80 + q2 % 64, 0x80 + q1 % 64, 0x80 + n % 64]
  }

  /** `s.encode('utf-8')`. */
  function Encode(s: string): (r: seq<Byte>)
    ensures s == [] <==> r == []
    decreases |s|
  {
    if s == [] then [] else EncodeChar(s[0]) + Encode(s[1..])
  }

  /** A longer encoding starts with a larger lead byte. */
  lemma LeadByteOrder(a: char, b: char)
    requires |EncodeChar(a)| < |EncodeChar(b)|
    ensures EncodeChar(a)[0] < EncodeChar(b)[0]
  {
  }

  /** One base-64 digit step: the quotient decides, and on a tie the remainder does. */
  lemma DigitStep(na: int, nb: int)
    requires 0 <= na < nb
    ensures na / 64 <= nb / 64
    ensures na / 64 == nb / 64 ==> na % 64 < nb % 64
  {
  }

  lemma TwoBytesLess(na: int, nb: int, x: seq<int>, y: seq<int>)
    requires 0x80 <= na < nb < 0x800
    ensures Lex.Less(TwoBytes(na) + x, TwoBytes(nb) + y)
  {
    var ea, eb := TwoBytes(na), TwoBytes(nb);
    DigitStep(na, nb);
    if ea[0] < eb[0] {
      Lex.FirstDifference(ea, eb, 0, x, y);
    } else {
      Lex.FirstDifference(ea, eb, 1, x, y);
    }
  }

  lemma ThreeBytesLess(na: int, nb: int, x: seq<int>, y: seq<int>)
    requires 0x800 <= na < nb < 0x1_0000
    ensures Lex.Less(ThreeBytes(na) + x, ThreeBytes(nb) + y)
  {
    var ea, eb := ThreeBytes(na), ThreeBytes(nb);
    DigitStep(na, nb);
    if na / 64 < nb / 64 {
      DigitStep(na / 64, nb / 64);
    }
    if ea[0] < eb[0] {
      Lex.FirstDifference(ea, eb, 0, x, y);
    } else if ea[1] < eb[1] {
      Lex.FirstDifference(ea, eb, 1, x, y);
    } else {
      assert ea[..2] == eb[..2];
      Lex.FirstDifference(ea, eb, 2, x, y);
    }
  }

  lemma FourBytesLess(na: int, nb: int, x: seq<int>, y: seq<int>)
    requires 0x1_0000 <= na < nb < 0x11_0000
    ensures Lex.Less(FourBytes(na) + x, FourBytes(nb) + y)
  {
    var ea, eb := FourBytes(na), FourBytes(nb);
    DigitStep(na, nb);
    if na / 64 < nb / 64 {
      DigitStep(na / 64, nb / 64);
      if na / 64 / 64 < nb / 64 / 64 {
        DigitStep(na / 64 / 64, nb / 64 / 64);
      }
    }
    if ea[0] < eb[0] {
      Lex.FirstDifference(ea, eb, 0, x, y);
    } else if ea[1] < eb[1] {
      Lex.FirstDifference(ea, eb, 1, x, y);
    } else if ea[2] < eb[2] {
      assert ea[..2] == eb[..2];
      Lex.FirstDifference(ea, eb, 2, x, y);
    } else {
      assert ea[..3] == eb[..3];
      Lex.FirstDifference(ea, eb, 3, x, y);
    }
  }

  /**
   * A smaller code point has a smaller encoding, and the encodings already
   * differ before either ends, so whatever follows them does not matter.
   */
  lemma EncodeCharLess(a: char, b: char, x: seq<int>, y: seq<int>)
    requires a < b
    ensures Lex.Less(EncodeChar(a) + x, EncodeChar(b) + y)
  {
    var ea, eb := EncodeChar(a), EncodeChar(b);
    if |ea| < |eb| {
      LeadByteOrder(a, b);
      Lex.FirstDifference(ea, eb, 0, x, y);
    } else if |ea| == 1 {
      Lex.FirstDifference(ea, eb, 0, x, y);
    } else if |ea| == 2 {
      TwoBytesLess(a as int, b as int, x, y);
    } else if |ea| == 3 {
      ThreeBytesLess(a as int, b as int, x, y);
    } else {
      FourBytesLess(a as int, b as int, x, y);
    }
  }

  /** Byte order of the encodings is code-point order of the strings. */
  lemma {:induction false} EncodeOrder(a: string, b: string)
    ensures Lex.Less(Encode(a), Encode(b)) <==> StrLess(a, b)
    decreases |a|
  {
    var ca, cb := CodePoints(a), CodePoints(b);
    if a != [] && b != [] {
      assert ca[1..] == CodePoints(a[1..]) && cb[1..] == CodePoints(b[1..]);
      if a[0] == b[0] {
        Lex.CommonPrefix(EncodeChar(a[0]), Encode(a[1..]), Encode(b[1..]));
        EncodeOrder(a[1..], b[1..]);
      } else if a[0] < b[0] {
        EncodeCharLess(a[0], b[0], Encode(a[1..]), Encode(b[1..]));
      } else {
        EncodeCharLess(b[0], a[0], Encode(b[1..]), Encode(a[1..]));
        Lex.Asymmetric(Encode(a), Encode(b));
      }
    }
  }

  /** Different strings have different encodings. */
  lemma EncodeInjective(a: string, b: string)
    ensures Encode(a) == Encode(b) <==> a == b
  {
    if a != b {
      CodePointsInjective(a, b);
      Lex.Trichotomy(CodePoints(a), CodePoints(b));
      EncodeOrder(a, b);
      EncodeOrder(b, a);
      Lex.Irreflexive(Encode(a));
    }
  }

  /** Encoding agrees with SQLite's BINARY text order, which compares the bytes. */
  lemma BinaryOrderIsCodePointOrder(a: string, b: string)
    ensures (Encode(a) == Encode(b) || Lex.Less(Encode(a), Encode(b))) <==> StrLe(a, b)
  {
    EncodeOrder(a, b);
    EncodeInjective(a, b);
  }
}

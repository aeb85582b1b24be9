/**
 * Lexicographic order on sequences of integers.  Python compares `bytes`
 * this way, and SQLite's BINARY collation compares text this way (on its
 * UTF-8 bytes, which the Utf8 module shows is the same as comparing code
 * points).  A proper prefix is smaller than the sequence it is a prefix of.
 */
module Lex {

  predicate Less(a: seq<int>, b: seq<int>)
    decreases |a|
  {
    |b| > 0 && (|a| == 0 || a[0] < b[0] || (a[0] == b[0] && Less(a[1..], b[1..])))
  }

  predicate LessEq(a: seq<int>, b: seq<int>)
  {
    a == b || Less(a, b)
  }

  lemma {:induction false} Irreflexive(a: seq<int>)
    ensures !Less(a, a)
  {
    if |a| > 0 {
      Irreflexive(a[1..]);
    }
  }

  lemma {:induction false} Asymmetric(a: seq<int>, b: seq<int>)
    ensures !(Less(a, b) && Less(b, a))
  {
    if |a| > 0 && |b| > 0 && a[0] == b[0] {
      Asymmetric(a[1..], b[1..]);
    }
  }

  lemma {:induction false} Trichotomy(a: seq<int>, b: seq<int>)
    ensures Less(a, b) || a == b || Less(b, a)
  {
    if |a| > 0 && |b| > 0 && a[0] == b[0] {
      Trichotomy(a[1..], b[1..]);
      if a[1..] == b[1..] {
        assert a == [a[0]] + a[1..] && b == [b[0]] + b[1..];
      }
    }
  }

  lemma {:induction false} Transitive(a: seq<int>, b: seq<int>, c: seq<int>)
    requires Less(a, b) && Less(b, c)
    ensures Less(a, c)
  {
    if |a| > 0 && a[0] == b[0] && b[0] == c[0] {
      Transitive(a[1..], b[1..], c[1..]);
    }
  }

  lemma LessEqTransitive(a: seq<int>, b: seq<int>, c: seq<int>)
    requires LessEq(a, b) && LessEq(b, c)
    ensures LessEq(a, c)
  {
    if a != b && b != c {
      Transitive(a, b, c);
    }
  }

  /** LessEq is a total order: it is antisymmetric and any two sequences are comparable. */
  lemma LessEqTotalOrder(a: seq<int>, b: seq<int>)
    ensures LessEq(a, b) && LessEq(b, a) ==> a == b
    ensures LessEq(a, b) || LessEq(b, a)
    ensures !LessEq(a, b) <==> Less(b, a)
  {
    Asymmetric(a, b);
    Trichotomy(a, b);
    Irreflexive(a);
  }

  /** A common prefix does not affect the comparison. */
  lemma {:induction false} CommonPrefix(p: seq<int>, x: seq<int>, y: seq<int>)
    ensures Less(p + x, p + y) == Less(x, y)
  {
    if |p| > 0 {
      assert (p + x)[0] == (p + y)[0];
      assert (p + x)[1..] == p[1..] + x;
      assert (p + y)[1..] == p[1..] + y;
      CommonPrefix(p[1..], x, y);
    } else {
      assert p + x == x && p + y == y;
    }
  }

  /**
   * When a and b agree up to index i and differ there, the first difference
   * decides, whatever follows either of them.
   */
  lemma {:induction false} FirstDifference(a: seq<int>, b: seq<int>, i: nat, x: seq<int>, y: seq<int>)
    requires i < |a| && i < |b| && a[..i] == b[..i] && a[i] < b[i]
    ensures Less(a + x, b + y)
  {
    if i > 0 {
      assert a[1..][..i - 1] == a[..i][1..];
      assert b[1..][..i - 1] == b[..i][1..];
      assert (a + x)[1..] == a[1..] + x;
      assert (b + y)[1..] == b[1..] + y;
      FirstDifference(a[1..], b[1..], i - 1, x, y);
    }
  }

  /** Two sequences of the same length followed by anything compare by the first pair first. */
  lemma {:induction false} EqualLengthPrefix(p: seq<int>, q: seq<int>, x: seq<int>, y: seq<int>)
    requires |p| == |q|
    ensures Less(p + x, q + y) <==> Less(p, q) || (p == q && Less(x, y))
  {
    if p == q {
      CommonPrefix(p, x, y);
      Irreflexive(p);
    } else if |p| > 0 {
      assert (p + x)[1..] == p[1..] + x;
      assert (q + y)[1..] == q[1..] + y;
      if p[0] == q[0] {
        EqualLengthPrefix(p[1..], q[1..], x, y);
      }
    }
  }
}

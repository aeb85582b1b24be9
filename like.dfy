/**
 * `sqlite_like(template, value)` and `sqlite_like_escape(template, value, escape)`.
 *
 * The helper lowers the template, escapes twelve regular-expression
 * metacharacters with a chain of `str.replace` calls, turns `_` into `.` and
 * `%` into `.*?`, and applies `re.match` to the lowered value.  The model
 * follows those steps: the replace chain on strings, a parser for the small
 * pattern language that chain can produce (literals, escaped literals, `.`,
 * `.*?` and top-level `|`), and the `re.match` semantics of the result,
 * which is anchored at the start of the value only and whose `.` does not
 * match a newline.
 */
module Like {
  import opened Wrappers
  import opened Text

  // ---------------------------------------------------------------------
  // Token sequences and their meaning

  /** An element of the patterns the helper builds: a literal, `.` or `.*?`. */
  datatype Token = Lit(c: char) | AnyChar | AnyRun

  /**
   * How a token sequence is applied to a value: whether it must consume the
   * whole value (`re.match` does not ask that; SQL LIKE does) and whether a
   * wildcard may consume a newline (`.` without re.DOTALL may not).
   */
  datatype Mode = Mode(wholeValue: bool, dotAll: bool)

  /** `re.match` with the default flags. */
  const ReMatch := Mode(false, false)

  /** SQL LIKE: the whole value, any character under a wildcard. */
  const SqlLikeMode := Mode(true, true)

  predicate Wild(c: char, dotAll: bool)
  {
    dotAll || c != '\n'
  }

  /** Backtracking search: can the tokens consume (a prefix of, unless wholeValue) v? */
  predicate Matches(ts: seq<Token>, v: string, m: Mode)
    decreases |ts| + |v|
  {
    if ts == [] then !m.wholeValue || v == []
    else match ts[0]
      case AnyRun => Matches(ts[1..], v, m) || (|v| > 0 && Wild(v[0], m.dotAll) && Matches(ts, v[1..], m))
      case AnyChar => |v| > 0 && Wild(v[0], m.dotAll) && Matches(ts[1..], v[1..], m)
      case Lit(c) => |v| > 0 && v[0] == c && Matches(ts[1..], v[1..], m)
  }

  predicate AllWild(w: string, dotAll: bool)
  {
    forall i :: 0 <= i < |w| ==> Wild(w[i], dotAll)
  }

  /**
   * Declarative meaning of a token sequence: w splits into one piece per
   * token, where a literal is exactly that character, `.` is exactly one
   * wildcard character and `.*?` is any run, possibly empty, of them.
   */
  ghost predicate Spans(ts: seq<Token>, w: string, dotAll: bool)
    decreases |ts|
  {
    if ts == [] then w == []
    else match ts[0]
      case AnyRun => exists k :: 0 <= k <= |w| && AllWild(w[..k], dotAll) && Spans(ts[1..], w[k..], dotAll)
      case AnyChar => |w| > 0 && Wild(w[0], dotAll) && Spans(ts[1..], w[1..], dotAll)
      case Lit(c) => |w| > 0 && w[0] == c && Spans(ts[1..], w[1..], dotAll)
  }

  /** A match of the whole value is exactly a split of the value into the tokens' pieces. */
  lemma {:induction false} WholeMatchIsSpan(ts: seq<Token>, v: string, d: bool)
    ensures Matches(ts, v, Mode(true, d)) <==> Spans(ts, v, d)
    decreases |ts| + |v|
  {
    if ts != [] {
      match ts[0]
      case AnyRun =>
        WholeMatchIsSpan(ts[1..], v, d);
        if |v| > 0 {
          WholeMatchIsSpan(ts, v[1..], d);
        }
        RunMatchToSpan(ts, v, d);
        RunSpanToMatch(ts, v, d);
      case AnyChar =>
        if |v| > 0 {
          WholeMatchIsSpan(ts[1..], v[1..], d);
        }
      case Lit(c) =>
        if |v| > 0 {
          WholeMatchIsSpan(ts[1..], v[1..], d);
        }
    }
  }

  /** The step of WholeMatchIsSpan for a leading `.*?`, from a match to a split. */
  lemma RunMatchToSpan(ts: seq<Token>, v: string, d: bool)
    requires ts != [] && ts[0] == AnyRun
    requires Matches(ts[1..], v, Mode(true, d)) ==> Spans(ts[1..], v, d)
    requires |v| > 0 && Matches(ts, v[1..], Mode(true, d)) ==> Spans(ts, v[1..], d)
    ensures Matches(ts, v, Mode(true, d)) ==> Spans(ts, v, d)
  {
    if Matches(ts[1..], v, Mode(true, d)) {
      RunSpanEmpty(ts, v, d);
    } else if Matches(ts, v, Mode(true, d)) {
      RunSpanShift(ts, v, d);
    }
  }

  /** `.*?` may consume nothing. */
  lemma RunSpanEmpty(ts: seq<Token>, v: string, d: bool)
    requires ts != [] && ts[0] == AnyRun && Spans(ts[1..], v, d)
    ensures Spans(ts, v, d)
  {
    assert v[..0] == [] && v[0..] == v;
    assert AllWild(v[..0], d) && Spans(ts[1..], v[0..], d);
  }

  /** `.*?` may consume one more wildcard character in front of what it consumed. */
  lemma RunSpanShift(ts: seq<Token>, v: string, d: bool)
    requires ts != [] && ts[0] == AnyRun && |v| > 0 && Wild(v[0], d) && Spans(ts, v[1..], d)
    ensures Spans(ts, v, d)
  {
    var j :| 0 <= j <= |v[1..]| && AllWild(v[1..][..j], d) && Spans(ts[1..], v[1..][j..], d);
    var k := j + 1;
    assert v[..k] == [v[0]] + v[1..][..j];
    assert v[k..] == v[1..][j..];
    assert AllWild(v[..k], d) && Spans(ts[1..], v[k..], d);
  }

  /** The step of WholeMatchIsSpan for a leading `.*?`, from a split to a match. */
  lemma RunSpanToMatch(ts: seq<Token>, v: string, d: bool)
    requires ts != [] && ts[0] == AnyRun
    requires Spans(ts[1..], v, d) ==> Matches(ts[1..], v, Mode(true, d))
    requires |v| > 0 && Spans(ts, v[1..], d) ==> Matches(ts, v[1..], Mode(true, d))
    ensures Spans(ts, v, d) ==> Matches(ts, v, Mode(true, d))
  {
    if Spans(ts, v, d) {
      var k :| 0 <= k <= |v| && AllWild(v[..k], d) && Spans(ts[1..], v[k..], d);
      if k == 0 {
        assert v[k..] == v;
      } else {
        assert v[1..][..k - 1] == v[1..k];
        assert v[1..][k - 1..] == v[k..];
        assert Wild(v[..k][0], d);
      }
    }
  }

  /** A match that need not reach the end of v matches the whole of some prefix of v. */
  lemma {:induction false} PrefixMatchWitness(ts: seq<Token>, v: string, d: bool) returns (k: nat)
    requires Matches(ts, v, Mode(false, d))
    ensures k <= |v| && Matches(ts, v[..k], Mode(true, d))
    decreases |ts| + |v|
  {
    var pre, whole := Mode(false, d), Mode(true, d);
    if ts == [] {
      k := 0;
    } else {
      match ts[0]
      case AnyRun =>
        if Matches(ts[1..], v, pre) {
          k := PrefixMatchWitness(ts[1..], v, d);
        } else {
          var j := PrefixMatchWitness(ts, v[1..], d);
          k := j + 1;
          assert v[..k][1..] == v[1..][..j];
        }
      case AnyChar =>
        var j := PrefixMatchWitness(ts[1..], v[1..], d);
        k := j + 1;
        assert v[..k][1..] == v[1..][..j];
      case Lit(c) =>
        var j := PrefixMatchWitness(ts[1..], v[1..], d);
        k := j + 1;
        assert v[..k][1..] == v[1..][..j];
    }
  }

  /** Matching the whole of a prefix is a match at the start of the value. */
  lemma {:induction false} PrefixMatchFromWhole(ts: seq<Token>, v: string, k: nat, d: bool)
    requires k <= |v| && Matches(ts, v[..k], Mode(true, d))
    ensures Matches(ts, v, Mode(false, d))
    decreases |ts| + |v|
  {
    var pre, whole := Mode(false, d), Mode(true, d);
    if ts != [] {
      var w := v[..k];
      assert k > 0 ==> w[1..] == v[1..][..k - 1];
      match ts[0]
      case AnyRun =>
        if Matches(ts[1..], w, whole) {
          PrefixMatchFromWhole(ts[1..], v, k, d);
        } else {
          PrefixMatchFromWhole(ts, v[1..], k - 1, d);
        }
      case AnyChar =>
        PrefixMatchFromWhole(ts[1..], v[1..], k - 1, d);
      case Lit(c) =>
        PrefixMatchFromWhole(ts[1..], v[1..], k - 1, d);
    }
  }

  /**
   * `re.match` semantics: the tokens match at the start of v exactly when
   * some prefix of v splits into their pieces; nothing is asked of the rest.
   */
  lemma MatchIsSpanOfPrefix(ts: seq<Token>, v: string, d: bool)
    ensures Matches(ts, v, Mode(false, d)) <==> exists k :: 0 <= k <= |v| && Spans(ts, v[..k], d)
  {
    if Matches(ts, v, Mode(false, d)) {
      var k := PrefixMatchWitness(ts, v, d);
      WholeMatchIsSpan(ts, v[..k], d);
    }
    if exists k :: 0 <= k <= |v| && Spans(ts, v[..k], d) {
      var k :| 0 <= k <= |v| && Spans(ts, v[..k], d);
      WholeMatchIsSpan(ts, v[..k], d);
      PrefixMatchFromWhole(ts, v, k, d);
    }
  }

  /** A match at the start survives anything appended to the value. */
  lemma {:induction false} MatchExtends(ts: seq<Token>, v: string, w: string, d: bool)
    requires Matches(ts, v, Mode(false, d))
    ensures Matches(ts, v + w, Mode(false, d))
    decreases |ts| + |v|
  {
    var m := Mode(false, d);
    if ts != [] {
      assert |v| > 0 ==> (v + w)[0] == v[0] && (v + w)[1..] == v[1..] + w;
      match ts[0]
      case AnyRun =>
        if Matches(ts[1..], v, m) {
          MatchExtends(ts[1..], v, w, d);
        } else {
          MatchExtends(ts, v[1..], w, d);
        }
      case AnyChar =>
        MatchExtends(ts[1..], v[1..], w, d);
      case Lit(c) =>
        MatchExtends(ts[1..], v[1..], w, d);
    }
  }

  // ---------------------------------------------------------------------
  // The replace chain

  /** `s.replace(needle, repl)` for a one-character needle. */
  function Replace(s: string, needle: char, repl: string): string
    decreases |s|
  {
    if s == [] then [] else (if s[0] == needle then repl else [s[0]]) + Replace(s[1..], needle, repl)
  }

  /** The `.replace(needle, repl)` calls of the chain, in the helper's order. */
  const Escapes: seq<(char, string)> := [
    ('.', "\\."), ('^', "\\^"), ('$', "\\$"), ('*', "\\*"), ('+', "\\+"), ('?', "\\?"),
    ('{', "\\{"), ('}', "\\}"), ('(', "\\("), (')', "\\)"), ('[', "\\["), (']', "\\]"),
    ('_', "."), ('%', ".*?")]

  const StepCount := |Escapes|

  function Step(k: nat): (char, string)
    requires k < StepCount
  {
    Escapes[k]
  }

  /** The calls Step(k), Step(k + 1), ..., applied in order. */
  function Chain(s: string, k: nat): string
    requires k <= StepCount
    decreases StepCount - k
  {
    if k == StepCount then s else Chain(Replace(s, Step(k).0, Step(k).1), k + 1)
  }

  /** The regular expression the helper compiles. */
  function RegexSource(template: string): string
  {
    Chain(LowerStr(template), 0)
  }

  /** The index of the call whose needle c is, or -1 when no call rewrites c. */
  function NeedleIndex(c: char): int
  {
    if c == '.' then 0 else if c == '^' then 1 else if c == '$' then 2
    else if c == '*' then 3 else if c == '+' then 4 else if c == '?' then 5
    else if c == '{' then 6 else if c == '}' then 7 else if c == '(' then 8
    else if c == ')' then 9 else if c == '[' then 10 else if c == ']' then 11
    else if c == '_' then 12 else if c == '%' then 13 else -1
  }

  /** The twelve characters the chain escapes with a backslash. */
  predicate Special(c: char)
  {
    c in ".^$*+?{}()[]"
  }

  /** What the chain turns one character into. */
  function EscapeOf(c: char): (r: string)
    ensures Special(c) ==> r == ['\\', c]
    ensures c == '_' ==> r == "."
    ensures c == '%' ==> r == ".*?"
    ensures !Special(c) && c != '_' && c != '%' ==> r == [c]
  {
    if Special(c) then ['\\', c] else if c == '_' then "." else if c == '%' then ".*?" else [c]
  }

  /** Character-by-character escaping of a whole string. */
  function EscapeAll(t: string): string
    decreases |t|
  {
    if t == [] then [] else EscapeOf(t[0]) + EscapeAll(t[1..])
  }

  /**
   * Each needle belongs to exactly one call (the needles are pairwise
   * distinct), and the text a call writes holds no needle of a later call.
   */
  lemma NeedleIndexOfStep(k: nat)
    requires k < StepCount
    ensures NeedleIndex(Step(k).0) == k
    ensures Untouched(Step(k).1, k + 1)
  {
    if k == 0 { assert Step(0) == ('.', "\\."); }
    else if k == 1 { assert Step(1) == ('^', "\\^"); }
    else if k == 2 { assert Step(2) == ('$', "\\$"); }
    else if k == 3 { assert Step(3) == ('*', "\\*"); }
    else if k == 4 { assert Step(4) == ('+', "\\+"); }
    else if k == 5 { assert Step(5) == ('?', "\\?"); }
    else if k == 6 { assert Step(6) == ('{', "\\{"); }
    else if k == 7 { assert Step(7) == ('}', "\\}"); }
    else if k == 8 { assert Step(8) == ('(', "\\("); }
    else if k == 9 { assert Step(9) == (')', "\\)"); }
    else if k == 10 { assert Step(10) == ('[', "\\["); }
    else if k == 11 { assert Step(11) == (']', "\\]"); }
    else if k == 12 { assert Step(12) == ('_', "."); }
    else { assert Step(13) == ('%', ".*?"); }
  }

  /** No character of s is the needle of a call at k or later. */
  predicate Untouched(s: string, k: int)
  {
    forall i :: 0 <= i < |s| ==> NeedleIndex(s[i]) < k
  }

  /** A character c is a needle exactly when it is Special, `_` or `%`, and its call's text is EscapeOf(c). */
  lemma StepOfNeedle(c: char)
    ensures 0 <= NeedleIndex(c) < StepCount ==> Step(NeedleIndex(c)) == (c, EscapeOf(c))
    ensures NeedleIndex(c) < StepCount
    ensures NeedleIndex(c) < 0 <==> EscapeOf(c) == [c]
  {
  }

  lemma {:induction false} ReplaceConcat(a: string, b: string, needle: char, repl: string)
    ensures Replace(a + b, needle, repl) == Replace(a, needle, repl) + Replace(b, needle, repl)
    decreases |a|
  {
    if a == [] {
      assert a + b == b;
    } else {
      assert (a + b)[0] == a[0] && (a + b)[1..] == a[1..] + b;
      ReplaceConcat(a[1..], b, needle, repl);
    }
  }

  lemma {:induction false} ChainConcat(a: string, b: string, k: nat)
    requires k <= StepCount
    ensures Chain(a + b, k) == Chain(a, k) + Chain(b, k)
    decreases StepCount - k
  {
    if k < StepCount {
      ReplaceConcat(a, b, Step(k).0, Step(k).1);
      ChainConcat(Replace(a, Step(k).0, Step(k).1), Replace(b, Step(k).0, Step(k).1), k + 1);
    }
  }

  lemma {:induction false} ReplaceAbsent(s: string, needle: char, repl: string)
    requires forall i :: 0 <= i < |s| ==> s[i] != needle
    ensures Replace(s, needle, repl) == s
    decreases |s|
  {
    if s != [] {
      ReplaceAbsent(s[1..], needle, repl);
      assert s == [s[0]] + s[1..];
    }
  }

  lemma ReplaceOne(c: char, needle: char, repl: string)
    ensures Replace([c], needle, repl) == if c == needle then repl else [c]
  {
    assert [c][1..] == [];
    var x := if c == needle then repl else [c];
    assert Replace([c], needle, repl) == x + [];
    assert x + [] == x;
  }

  lemma {:induction false} ChainUntouched(s: string, k: nat)
    requires k <= StepCount && Untouched(s, k)
    ensures Chain(s, k) == s
    decreases StepCount - k
  {
    if k < StepCount {
      forall i | 0 <= i < |s|
        ensures s[i] != Step(k).0
      {
        NeedleIndexOfStep(k);
      }
      ReplaceAbsent(s, Step(k).0, Step(k).1);
      ChainUntouched(s, k + 1);
    }
  }

  /** From call k on, one character c is rewritten by its own call only, and only once. */
  lemma {:induction false} ChainChar(c: char, k: nat)
    requires k <= StepCount
    ensures Chain([c], k) == if NeedleIndex(c) >= k then EscapeOf(c) else [c]
    decreases StepCount - k
  {
    StepOfNeedle(c);
    if k < StepCount {
      ReplaceOne(c, Step(k).0, Step(k).1);
      NeedleIndexOfStep(k);
      if Step(k).0 == c {
        ChainUntouched(Step(k).1, k + 1);
        assert Chain([c], k) == Chain(Step(k).1, k + 1);
        assert Step(NeedleIndex(c)) == Step(k);
      } else {
        ChainChar(c, k + 1);
      }
    }
  }

  /** The chained `replace` calls are the same as escaping each character on its own. */
  lemma {:induction false} ChainIsEscapeAll(t: string)
    ensures Chain(t, 0) == EscapeAll(t)
    decreases |t|
  {
    if t != [] {
      assert t == [t[0]] + t[1..];
      ChainConcat([t[0]], t[1..], 0);
      ChainOneChar(t[0]);
      ChainIsEscapeAll(t[1..]);
    }
  }

  /** The whole chain on one character is EscapeOf. */
  lemma ChainOneChar(c: char)
    ensures Chain([c], 0) == EscapeOf(c)
  {
    ChainChar(c, 0);
    StepOfNeedle(c);
  }

  // ---------------------------------------------------------------------
  // The regular expressions the chain can produce

  /**
   * The patterns `re.compile` receives from the chain when the template has
   * no backslash: top-level alternatives separated by `|`, each a sequence of
   * escaped metacharacters, `.`, `.*?` and plain characters.  A backslash of
   * the template itself is understood only before a metacharacter, which
   * after the chain means before the `.` that `_` became.  None stands for
   * any other pattern, which this model does not interpret.
   */
  function Compile(p: string): (r: Option<seq<seq<Token>>>)
    ensures r.Some? ==> |r.value| > 0
    decreases |p|
  {
    if p == [] then Some([[]])
    else if p[0] == '|' then
      match Compile(p[1..])
      case None => None
      case Some(alts) => Some([[]] + alts)
    else if p[0] == '\\' then
      if |p| >= 2 && Special(p[1]) then Prepend(Lit(p[1]), Compile(p[2..])) else None
    else if p[0] == '.' then
      if |p| >= 3 && p[1] == '*' && p[2] == '?' then Prepend(AnyRun, Compile(p[3..]))
      else Prepend(AnyChar, Compile(p[1..]))
    else if Special(p[0]) then None
    else Prepend(Lit(p[0]), Compile(p[1..]))
  }

  /** Adds a token in front of the first alternative. */
  function Prepend(t: Token, alts: Option<seq<seq<Token>>>): (r: Option<seq<seq<Token>>>)
    requires alts.Some? ==> |alts.value| > 0
    ensures r.Some? <==> alts.Some?
    ensures r.Some? ==> r.value == [[t] + alts.value[0]] + alts.value[1..]
  {
    match alts
    case None => None
    case Some(a) => Some(Cons(t, a))
  }

  function Cons(t: Token, alts: seq<seq<Token>>): seq<seq<Token>>
    requires |alts| > 0
  {
    [[t] + alts[0]] + alts[1..]
  }

  /** What a template character stands for once its metacharacters are escaped. */
  function TokenOf(c: char): Token
  {
    if c == '_' then AnyChar else if c == '%' then AnyRun else Lit(c)
  }

  /** The tokens of a template read as a LIKE pattern, `|` included as a literal. */
  function Tokens(t: string): (r: seq<Token>)
    ensures |r| == |t|
    ensures forall i :: 0 <= i < |t| ==> r[i] == TokenOf(t[i])
  {
    seq(|t|, i requires 0 <= i < |t| => TokenOf(t[i]))
  }

  /** The template's tokens, cut at every `|` into alternatives. */
  function Alternatives(t: string): (r: seq<seq<Token>>)
    ensures |r| > 0
    decreases |t|
  {
    if t == [] then [[]]
    else if t[0] == '|' then [[]] + Alternatives(t[1..])
    else Cons(TokenOf(t[0]), Alternatives(t[1..]))
  }

  /** A template without `|` has one alternative: all of its tokens. */
  lemma {:induction false} SingleAlternative(t: string)
    requires '|' !in t
    ensures Alternatives(t) == [Tokens(t)]
    decreases |t|
  {
    if t != [] {
      SingleAlternative(t[1..]);
      assert Tokens(t) == [TokenOf(t[0])] + Tokens(t[1..]);
    }
  }

  /** The escaped text of a character never starts with `*`, so `.` followed by `*?` comes from `%` alone. */
  lemma EscapeAllHead(t: string)
    ensures EscapeAll(t) != [] ==> EscapeAll(t)[0] != '*'
  {
  }

  /** Compiling the escaped template yields its alternatives, as long as it holds no backslash. */
  lemma {:induction false} CompileEscaped(t: string)
    requires '\\' !in t
    ensures Compile(EscapeAll(t)) == Some(Alternatives(t))
    decreases |t|
  {
    if t != [] {
      var c, rest := t[0], EscapeAll(t[1..]);
      CompileEscaped(t[1..]);
      EscapeAllHead(t[1..]);
      var p := EscapeOf(c) + rest;
      assert EscapeAll(t) == p;
      if Special(c) {
        assert p[0] == '\\' && p[1] == c && p[2..] == rest;
      } else if c == '_' {
        assert p[0] == '.' && p[1..] == rest;
      } else if c == '%' {
        assert p[0] == '.' && p[1] == '*' && p[2] == '?' && p[3..] == rest;
      } else {
        assert p[0] == c && p[1..] == rest;
      }
    }
  }

  /** Some alternative matches at the start of v. */
  predicate AnyAlternative(alts: seq<seq<Token>>, v: string, m: Mode)
    decreases |alts|
  {
    alts != [] && (Matches(alts[0], v, m) || AnyAlternative(alts[1..], v, m))
  }

  lemma {:induction false} AnyAlternativeIsSome(alts: seq<seq<Token>>, v: string, m: Mode)
    ensures AnyAlternative(alts, v, m) <==> exists i :: 0 <= i < |alts| && Matches(alts[i], v, m)
    decreases |alts|
  {
    if alts != [] {
      AnyAlternativeIsSome(alts[1..], v, m);
      if exists i :: 0 <= i < |alts| && Matches(alts[i], v, m) {
        var i :| 0 <= i < |alts| && Matches(alts[i], v, m);
        if i > 0 {
          assert alts[1..][i - 1] == alts[i];
        }
      }
      if AnyAlternative(alts[1..], v, m) {
        var i :| 0 <= i < |alts[1..]| && Matches(alts[1..][i], v, m);
        assert alts[i + 1] == alts[1..][i];
      }
    }
  }

  // ---------------------------------------------------------------------
  // The helpers as written

  /**
   * `sqlite_like_escape(template, value, escape)`: whether the compiled
   * template matches at the start of the lowered value.  The escape
   * argument is not used.  None: the pattern is outside the subset above
   * (it can only be so when the template holds a backslash).
   */
  function LikeEscape(template: string, value: string, escape: Option<string>): Option<bool>
  {
    match Compile(RegexSource(template))
    case None => None
    case Some(alts) => Some(AnyAlternative(alts, LowerStr(value), ReMatch))
  }

  /** `sqlite_like(template, value)`: the same call with no escape character. */
  function Like(template: string, value: string): (r: Option<bool>)
    ensures forall e :: r == LikeEscape(template, value, e)
  {
    LikeEscape(template, value, None)
  }

  /**
   * Without a backslash the pattern is always understood: LIKE holds when
   * some `|`-separated piece of the lowered template matches at the start of
   * the lowered value.
   */
  lemma LikeByAlternatives(template: string, value: string)
    requires '\\' !in template
    ensures Like(template, value) == Some(AnyAlternative(Alternatives(LowerStr(template)), LowerStr(value), ReMatch))
  {
    LowerKeeps(template, '\\');
    ChainIsEscapeAll(LowerStr(template));
    CompileEscaped(LowerStr(template));
  }

  /**
   * Without `|` and backslash: LIKE holds exactly when some prefix of the
   * lowered value splits into the pieces of the lowered template's tokens,
   * `_` one non-newline character and `%` a run of them.
   */
  lemma LikeIsPrefixSpan(template: string, value: string)
    requires '\\' !in template && '|' !in template
    ensures Like(template, value).Some?
    ensures Like(template, value).value <==>
      exists k :: 0 <= k <= |value| && Spans(Tokens(LowerStr(template)), LowerStr(value)[..k], false)
  {
    LikePlain(template, value);
    MatchIsSpanOfPrefix(Tokens(LowerStr(template)), LowerStr(value), false);
  }

  /** Case does not matter on either side: both are lowered first. */
  lemma LikeIgnoresCase(template: string, value: string)
    ensures Like(template, value) == Like(LowerStr(template), LowerStr(value))
  {
    LowerStrIdempotent(template);
    LowerStrIdempotent(value);
  }

  lemma LowerConcat(a: string, b: string)
    ensures LowerStr(a + b) == LowerStr(a) + LowerStr(b)
  {
  }

  /** A value that matches keeps matching whatever is appended to it. */
  lemma LikeExtends(template: string, value: string, suffix: string)
    requires Like(template, value) == Some(true)
    ensures Like(template, value + suffix) == Some(true)
  {
    var alts := Compile(RegexSource(template)).value;
    LowerConcat(value, suffix);
    AnyAlternativeIsSome(alts, LowerStr(value), ReMatch);
    AnyAlternativeIsSome(alts, LowerStr(value + suffix), ReMatch);
    var i :| 0 <= i < |alts| && Matches(alts[i], LowerStr(value), ReMatch);
    MatchExtends(alts[i], LowerStr(value), LowerStr(suffix), false);
  }

  // ---------------------------------------------------------------------
  // SQL LIKE, as the helper evidently intends it

  /**
   * LIKE as SQL defines it, with the helper's case folding: the whole
   * lowered value must split into the pieces of the lowered template, `_`
   * exactly one character and `%` any run, newlines included; `|` is an
   * ordinary character.
   */
  function SqlLike(template: string, value: string): bool
  {
    Matches(Tokens(LowerStr(template)), LowerStr(value), SqlLikeMode)
  }

  lemma SqlLikeIsSpan(template: string, value: string)
    ensures SqlLike(template, value) <==> Spans(Tokens(LowerStr(template)), LowerStr(value), true)
  {
    WholeMatchIsSpan(Tokens(LowerStr(template)), LowerStr(value), true);
  }

  lemma SqlLikeIgnoresCase(template: string, value: string)
    ensures SqlLike(template, value) == SqlLike(LowerStr(template), LowerStr(value))
  {
    LowerStrIdempotent(template);
    LowerStrIdempotent(value);
  }

  /** `.*?` alone consumes the whole of w exactly when every character of w is a wildcard character. */
  lemma {:induction false} RunMatchesAllWild(w: string, d: bool)
    ensures Matches([AnyRun], w, Mode(true, d)) <==> AllWild(w, d)
    decreases |w|
  {
    assert [AnyRun][1..] == [];
    if w != [] {
      RunMatchesAllWild(w[1..], d);
      assert AllWild(w, d) <==> Wild(w[0], d) && AllWild(w[1..], d) by {
        if Wild(w[0], d) && AllWild(w[1..], d) {
          forall i | 0 <= i < |w|
            ensures Wild(w[i], d)
          {
            if i > 0 {
              assert w[i] == w[1..][i - 1];
            }
          }
        }
      }
    }
  }

  /** A pattern ending in `.*?` that consumes w whole also consumes w followed by wildcard characters. */
  lemma {:induction false} WholeExtendsRun(ts: seq<Token>, w: string, x: string, d: bool)
    requires Matches(ts + [AnyRun], w, Mode(true, d)) && AllWild(x, d)
    ensures Matches(ts + [AnyRun], w + x, Mode(true, d))
    decreases |ts| + |w|
  {
    var m, u := Mode(true, d), ts + [AnyRun];
    assert |w| > 0 ==> (w + x)[0] == w[0] && (w + x)[1..] == w[1..] + x;
    if ts == [] {
      assert u == [AnyRun];
      RunMatchesAllWild(w, d);
      RunMatchesAllWild(w + x, d);
      assert AllWild(w + x, d) by {
        forall i | 0 <= i < |w + x|
          ensures Wild((w + x)[i], d)
        {
          if i >= |w| {
            assert (w + x)[i] == x[i - |w|];
          }
        }
      }
    } else {
      assert u[0] == ts[0] && u[1..] == ts[1..] + [AnyRun];
      match ts[0]
      case AnyRun =>
        if Matches(u[1..], w, m) {
          WholeExtendsRun(ts[1..], w, x, d);
        } else {
          WholeExtendsRun(ts, w[1..], x, d);
        }
      case AnyChar =>
        WholeExtendsRun(ts[1..], w[1..], x, d);
      case Lit(c) =>
        WholeExtendsRun(ts[1..], w[1..], x, d);
    }
  }

  /** On a value without newlines, whether a wildcard may match a newline makes no difference. */
  lemma {:induction false} NoNewlineDotAll(ts: seq<Token>, v: string, whole: bool)
    requires '\n' !in v
    ensures Matches(ts, v, Mode(whole, false)) == Matches(ts, v, Mode(whole, true))
    decreases |ts| + |v|
  {
    if ts != [] && |v| > 0 {
      NoNewlineDotAll(ts[1..], v[1..], whole);
      NoNewlineDotAll(ts, v[1..], whole);
      NoNewlineDotAll(ts[1..], v, whole);
    } else if ts != [] {
      NoNewlineDotAll(ts[1..], v, whole);
    }
  }

  /** For a pattern ending in `.*?`, a match at the start is a match of the whole, when all of v is wildcard characters. */
  lemma TrailingRunIsWhole(front: seq<Token>, v: string, d: bool)
    requires AllWild(v, d)
    ensures Matches(front + [AnyRun], v, Mode(false, d)) == Matches(front + [AnyRun], v, Mode(true, d))
  {
    var ts := front + [AnyRun];
    if Matches(ts, v, Mode(false, d)) {
      var k := PrefixMatchWitness(ts, v, d);
      assert AllWild(v[k..], d) by {
        forall i | 0 <= i < |v[k..]|
          ensures Wild(v[k..][i], d)
        {
          assert v[k..][i] == v[k + i];
        }
      }
      WholeExtendsRun(front, v[..k], v[k..], d);
      assert v[..k] + v[k..] == v;
    }
    if Matches(ts, v, Mode(true, d)) {
      assert v[..|v|] == v;
      PrefixMatchFromWhole(ts, v, |v|, d);
    }
  }

  lemma AllWildWithoutNewline(v: string)
    ensures AllWild(v, true)
  {
  }

  /**
   * Where the helper and SQL LIKE agree: a template ending in `%` with no
   * `|` and no backslash, against a value with no newline.
   */
  lemma LikeAgreesWithSqlLike(template: string, value: string)
    requires '\\' !in template && '|' !in template
    requires |template| > 0 && template[|template| - 1] == '%'
    requires '\n' !in value
    ensures Like(template, value) == Some(SqlLike(template, value))
  {
    var t, v := LowerStr(template), LowerStr(value);
    LikePlain(template, value);
    LowerKeeps(value, '\n');
    var front := TrailingRunTokens(t);
    NoNewlineDotAll(Tokens(t), v, false);
    AllWildWithoutNewline(v);
    TrailingRunIsWhole(front, v, true);
  }

  /** Without `|` and backslash the helper runs the template's tokens through `re.match`. */
  lemma LikePlain(template: string, value: string)
    requires '\\' !in template && '|' !in template
    ensures Like(template, value) == Some(Matches(Tokens(LowerStr(template)), LowerStr(value), ReMatch))
  {
    LikeByAlternatives(template, value);
    LowerKeeps(template, '|');
    SingleAlternative(LowerStr(template));
    var ts := Tokens(LowerStr(template));
    assert AnyAlternative([ts], LowerStr(value), ReMatch) == Matches(ts, LowerStr(value), ReMatch);
  }

  /** A template text ending in `%` has tokens ending in `.*?`. */
  lemma TrailingRunTokens(t: string) returns (front: seq<Token>)
    requires |t| > 0 && t[|t| - 1] == '%'
    ensures Tokens(t) == front + [AnyRun]
  {
    front := Tokens(t[..|t| - 1]);
  }

  // ---------------------------------------------------------------------
  // Examples (stated on variables bound to the literals, so that the
  // verifier evaluates the helper step by step rather than all at once)

  /** `_` stands for one character, and the template need only match a prefix of the value. */
  lemma UnderscoreExample(t: string, v: string)
    requires t == "a_c" && v == "abcd"
    ensures Like(t, v) == Some(true)
  {
    LikePlain(t, v);
    UnderscoreTokens(t);
    assert LowerStr(v) == v;
    OneBetweenMatch([Lit('a'), AnyChar, Lit('c')], v);
  }

  /** Upper-case letters on both sides are lowered. */
  lemma UpperCaseExample(t: string, v: string)
    requires t == "A_C" && v == "ABC"
    ensures Like(t, v) == Some(true)
  {
    LikePlain(t, v);
    UnderscoreTokens(t);
    assert LowerStr(v) == "abc";
    OneBetweenMatch([Lit('a'), AnyChar, Lit('c')], "abc");
  }

  /** `_` is exactly one character, not two. */
  lemma UnderscoreIsOneExample(t: string, v: string)
    requires t == "A_C" && v == "ABBC"
    ensures Like(t, v) == Some(false)
  {
    LikePlain(t, v);
    UnderscoreTokens(t);
    assert LowerStr(v) == "abbc";
    TwoBetweenNoMatch([Lit('a'), AnyChar, Lit('c')], "abbc");
  }

  lemma UnderscoreTokens(t: string)
    requires t == "a_c" || t == "A_C"
    ensures Tokens(LowerStr(t)) == [Lit('a'), AnyChar, Lit('c')]
  {
    assert LowerStr(t) == "a_c";
  }

  lemma OneBetweenMatch(ts: seq<Token>, lv: string)
    requires ts == [Lit('a'), AnyChar, Lit('c')]
    requires lv == "abc" || lv == "abcd"
    ensures Matches(ts, lv, ReMatch)
  {
    assert Matches(ts[3..], lv[3..], ReMatch);
    assert Matches(ts[2..], lv[2..], ReMatch);
    assert Matches(ts[1..], lv[1..], ReMatch);
  }

  lemma TwoBetweenNoMatch(ts: seq<Token>, lv: string)
    requires ts == [Lit('a'), AnyChar, Lit('c')]
    requires lv == "abbc"
    ensures !Matches(ts, lv, ReMatch)
  {
    assert !Matches(ts[2..], lv[2..], ReMatch);
    assert !Matches(ts[1..], lv[1..], ReMatch);
  }

  /** A backslash before `_` gives an escaped dot, so the template matches a literal `.` only. */
  lemma EscapedUnderscoreExample(t: string, dot: string, other: string)
    requires t == "\\_" && dot == "." && other == "a"
    ensures Like(t, dot) == Some(true)
    ensures Like(t, other) == Some(false)
  {
    EscapedUnderscoreSource(t);
    EscapedDotCompiles(RegexSource(t));
    var alts: seq<seq<Token>> := [[Lit('.')]];
    assert LowerStr(dot) == dot && LowerStr(other) == other;
    AnyAlternativeIsSome(alts, dot, ReMatch);
    AnyAlternativeIsSome(alts, other, ReMatch);
    assert Matches(alts[0][1..], dot[1..], ReMatch);
  }

  lemma EscapedUnderscoreSource(t: string)
    requires t == "\\_"
    ensures RegexSource(t) == "\\."
  {
    assert LowerStr(t) == t;
    ChainIsEscapeAll(t);
    assert t[1..] == "_" && t[1..][1..] == [];
    assert EscapeAll(t[1..]) == ".";
  }

  lemma EscapedDotCompiles(p: string)
    requires p == "\\."
    ensures Compile(p) == Some([[Lit('.')]])
  {
    assert p[0] == '\\' && Special(p[1]) && p[2..] == [];
    var none: seq<seq<Token>> := [[]];
    assert Compile(p[2..]) == Some(none);
    var r := Prepend(Lit('.'), Some(none));
    assert r.value == [[Lit('.')] + none[0]] + none[1..];
    var head: seq<Token> := [Lit('.')] + none[0];
    assert none[0] == [] && none[1..] == [];
    assert head == [Lit('.')];
    assert [head] + none[1..] == [head];
  }

  /** Cyrillic text is found whatever its case, which is what the helper is for. */
  lemma CyrillicExample(t: string, v: string)
    requires t == "%блюдо%" && v == "МойБлюдо"
    ensures Like(t, v) == Some(true)
  {
    LikePlain(t, v);
    CyrillicLowered(t, v);
    CyrillicMatch(Tokens(LowerStr(t)), LowerStr(v));
  }

  lemma CyrillicLowered(t: string, v: string)
    requires t == "%блюдо%" && v == "МойБлюдо"
    ensures Tokens(LowerStr(t)) == [AnyRun, Lit('б'), Lit('л'), Lit('ю'), Lit('д'), Lit('о'), AnyRun]
    ensures LowerStr(v) == "мойблюдо"
  {
  }

  lemma CyrillicMatch(ts: seq<Token>, lv: string)
    requires ts == [AnyRun, Lit('б'), Lit('л'), Lit('ю'), Lit('д'), Lit('о'), AnyRun]
    requires lv == "мойблюдо"
    ensures Matches(ts, lv, ReMatch)
  {
    assert Matches(ts[6..], lv[8..], ReMatch);
    assert Matches(ts[5..], lv[7..], ReMatch);
    assert Matches(ts[4..], lv[6..], ReMatch);
    assert Matches(ts[3..], lv[5..], ReMatch);
    assert Matches(ts[2..], lv[4..], ReMatch);
    assert Matches(ts[1..], lv[3..], ReMatch);
    assert Matches(ts, lv[3..], ReMatch);
    assert Matches(ts, lv[2..], ReMatch);
    assert Matches(ts, lv[1..], ReMatch);
  }

  /** As written, `|` separates alternatives and `x|y` matches `y`; as SQL LIKE it is a literal. */
  lemma BarIsAlternation(t: string, v: string)
    requires t == "x|y" && v == "y"
    ensures Like(t, v) == Some(true)
    ensures !SqlLike(t, v)
  {
    LikeByAlternatives(t, v);
    var lt, lv := LowerStr(t), LowerStr(v);
    assert lt == t && lv == v;
    BarAlternatives(lt);
    var alts := Alternatives(lt);
    assert Matches(alts[1], lv, ReMatch);
    BarIsLiteral(lt, lv);
  }

  lemma BarAlternatives(t: string)
    requires t == "x|y"
    ensures Alternatives(t) == [[Lit('x')], [Lit('y')]]
  {
    assert t[1..] == "|y" && t[2..] == "y" && t[3..] == [];
    assert Alternatives(t[3..]) == [[]];
    assert [Lit('y')] + [] == [Lit('y')] && [Lit('x')] + [] == [Lit('x')];
    assert Alternatives(t[2..]) == Cons(Lit('y'), [[]]) == [[Lit('y')]] + [];
    assert Alternatives(t[1..]) == [[]] + [[Lit('y')]] == [[], [Lit('y')]];
    var rest: seq<seq<Token>> := [[], [Lit('y')]];
    assert rest[1..] == [[Lit('y')]];
  }

  lemma BarIsLiteral(t: string, v: string)
    requires t == "x|y" && v == "y"
    ensures !Matches(Tokens(t), v, SqlLikeMode)
  {
    assert Tokens(t)[0] == Lit('x');
  }

  /** As written, a template matches any value that merely starts like it; SQL LIKE needs the whole value. */
  lemma PrefixIsEnough(t: string, v: string)
    requires t == "a" && v == "abc"
    ensures Like(t, v) == Some(true)
    ensures !SqlLike(t, v)
  {
    LikePlain(t, v);
    var ts, lv := Tokens(LowerStr(t)), LowerStr(v);
    assert lv == v;
    assert ts == [Lit('a')];
    assert Matches(ts[1..], lv[1..], ReMatch);
    assert !Matches(ts[1..], lv[1..], SqlLikeMode);
  }

  /** As written, `_` does not match a newline; SQL LIKE's `_` matches any character. */
  lemma UnderscoreSkipsNewline(t: string, v: string)
    requires t == "_" && v == "\n"
    ensures Like(t, v) == Some(false)
    ensures SqlLike(t, v)
  {
    LikePlain(t, v);
    var ts, lv := Tokens(LowerStr(t)), LowerStr(v);
    assert lv == v;
    assert ts == [AnyChar];
    assert Matches(ts[1..], lv[1..], SqlLikeMode);
  }
}

/**
 * Wildcard ignore patterns: WildcardToRegex compiles a pattern into an anchored
 * regular expression and PathMatchesPattern asks a list of them about a path.
 *
 * The source builds the regex text "^" + Regex.Escape(w).Replace("\\?", ".").Replace("\\*", ".*") + "$".
 * Regex.Escape turns each character of w into one escape unit, and a `?` or `*`
 * only ever occurs as the second half of the unit `\?` or `\*`, so the two
 * replacements rewrite exactly the units that came from `?` and `*`. The regex is
 * therefore a sequence of one unit per pattern character, which is what Regex holds.
 */
module Wildcards {

  /** One unit of the compiled expression: an escaped literal, `.` or `.*`. */
  datatype Token = Literal(c: char) | AnyChar | AnyRun

  /** A compiled matcher: the expression `^` tokens `$` built with RegexOptions.None. */
  datatype Regex = Regex(tokens: seq<Token>)

  function TokenOf(c: char): Token
  {
    if c == '?' then AnyChar else if c == '*' then AnyRun else Literal(c)
  }

  /** WildcardToRegex: one token per pattern character. */
  function WildcardToRegex(wildcard: string): (r: Regex)
    ensures |r.tokens| == |wildcard|
  {
    if wildcard == [] then Regex([])
    else Regex([TokenOf(wildcard[0])] + WildcardToRegex(wildcard[1..]).tokens)
  }

  /**
   * Whether the tokens match all of `s`. Without RegexOptions.Singleline the .NET
   * `.` matches every character except '\n', and so does each step of `.*`.
   */
  predicate TokensMatch(ts: seq<Token>, s: string)
    decreases |ts|, |s|
  {
    if ts == [] then s == []
    else match ts[0]
      case Literal(c) => |s| > 0 && s[0] == c && TokensMatch(ts[1..], s[1..])
      case AnyChar => |s| > 0 && s[0] != '\n' && TokensMatch(ts[1..], s[1..])
      case AnyRun => TokensMatch(ts[1..], s) || (|s| > 0 && s[0] != '\n' && TokensMatch(ts, s[1..]))
  }

  /**
   * Regex.IsMatch for `^tokens$`. `^` anchors at the start; without
   * RegexOptions.Multiline, `$` matches at the end of the input or just before a
   * '\n' that ends it.
   */
  predicate IsMatch(r: Regex, s: string)
  {
    || TokensMatch(r.tokens, s)
    || (|s| > 0 && s[|s| - 1] == '\n' && TokensMatch(r.tokens, s[..|s| - 1]))
  }

  // ----- the wildcard language, stated directly on the pattern -----

  function Concat(parts: seq<string>): string
  {
    if parts == [] then [] else parts[0] + Concat(parts[1..])
  }

  /** What one pattern character accepts: `?` one non-newline character, `*` any run of them, others themselves. */
  predicate PieceFits(p: char, piece: string)
  {
    if p == '?' then |piece| == 1 && piece[0] != '\n'
    else if p == '*' then '\n' !in piece
    else piece == [p]
  }

  predicate Fits(pattern: string, parts: seq<string>)
  {
    |parts| == |pattern| && forall i :: 0 <= i < |pattern| ==> PieceFits(pattern[i], parts[i])
  }

  /** `s` is the concatenation of one accepted piece per pattern character. */
  ghost predicate WildcardMatches(pattern: string, s: string)
  {
    exists parts :: Fits(pattern, parts) && Concat(parts) == s
  }

  lemma WildcardToRegexUnfold(w: string)
    requires w != []
    ensures WildcardToRegex(w).tokens[0] == TokenOf(w[0])
    ensures WildcardToRegex(w).tokens[1..] == WildcardToRegex(w[1..]).tokens
  {
  }

  lemma FitsCons(p: string, piece: string, rest: seq<string>)
    requires p != [] && PieceFits(p[0], piece) && Fits(p[1..], rest)
    ensures Fits(p, [piece] + rest)
  {
    var parts := [piece] + rest;
    forall i | 0 <= i < |p| ensures PieceFits(p[i], parts[i]) {
      if i > 0 { assert p[i] == p[1..][i - 1] && parts[i] == rest[i - 1]; }
    }
  }

  lemma FitsTail(p: string, parts: seq<string>)
    requires p != [] && Fits(p, parts)
    ensures PieceFits(p[0], parts[0]) && Fits(p[1..], parts[1..])
  {
    forall i | 0 <= i < |p| - 1 ensures PieceFits(p[1..][i], parts[1..][i]) {
      assert p[1..][i] == p[i + 1] && parts[1..][i] == parts[i + 1];
    }
  }

  /** Every string the compiled matcher accepts in full splits into pieces the pattern accepts. */
  lemma {:induction false} MatchedSplitsIntoPieces(p: string, s: string)
    requires TokensMatch(WildcardToRegex(p).tokens, s)
    ensures WildcardMatches(p, s)
    decreases |p|, |s|
  {
    if p == [] {
      assert Fits(p, []) && Concat([]) == s;
    } else {
      var ts := WildcardToRegex(p).tokens;
      WildcardToRegexUnfold(p);
      if p[0] == '*' && TokensMatch(ts[1..], s) {
        MatchedSplitsIntoPieces(p[1..], s);
        var rest :| Fits(p[1..], rest) && Concat(rest) == s;
        FitsCons(p, "", rest);
        assert Concat([""] + rest) == "" + Concat(rest);
      } else if p[0] == '*' {
        MatchedSplitsIntoPieces(p, s[1..]);
        var ps :| Fits(p, ps) && Concat(ps) == s[1..];
        FitsTail(p, ps);
        var first := [s[0]] + ps[0];
        FitsCons(p, first, ps[1..]);
        calc {
          Concat([first] + ps[1..]);
          first + Concat(ps[1..]);
          [s[0]] + (ps[0] + Concat(ps[1..]));
          [s[0]] + s[1..];
          s;
        }
      } else {
        MatchedSplitsIntoPieces(p[1..], s[1..]);
        var rest :| Fits(p[1..], rest) && Concat(rest) == s[1..];
        FitsCons(p, [s[0]], rest);
        assert Concat([[s[0]]] + rest) == [s[0]] + Concat(rest);
      }
    }
  }

  /** `.*` followed by tokens accepting `rest` accepts any newline-free run before `rest`. */
  lemma {:induction false} RunThenMatch(ts: seq<Token>, w: string, rest: string)
    requires ts != [] && ts[0] == AnyRun && '\n' !in w && TokensMatch(ts[1..], rest)
    ensures TokensMatch(ts, w + rest)
    decreases |w|
  {
    if w == [] {
      assert w + rest == rest;
    } else {
      RunThenMatch(ts, w[1..], rest);
      assert (w + rest)[1..] == w[1..] + rest;
      assert (w + rest)[0] == w[0] && w[0] in w;
    }
  }

  /** Every split into accepted pieces is accepted by the compiled matcher. */
  lemma {:induction false} PiecesAreMatched(p: string, parts: seq<string>)
    requires Fits(p, parts)
    ensures TokensMatch(WildcardToRegex(p).tokens, Concat(parts))
    decreases |p|
  {
    if p != [] {
      var ts := WildcardToRegex(p).tokens;
      WildcardToRegexUnfold(p);
      FitsTail(p, parts);
      PiecesAreMatched(p[1..], parts[1..]);
      var rest := Concat(parts[1..]);
      assert Concat(parts) == parts[0] + rest;
      if p[0] == '*' {
        RunThenMatch(ts, parts[0], rest);
      } else {
        assert parts[0] == [parts[0][0]];
        assert (parts[0] + rest)[1..] == rest;
      }
    }
  }

  /**
   * The compiled matcher against the wildcard language: a string is accepted
   * exactly when it is in the language, or is a word of the language followed by
   * one final '\n' (the `$` anchor's allowance).
   */
  lemma WildcardToRegexCorrect(p: string, s: string)
    ensures IsMatch(WildcardToRegex(p), s) <==>
              || WildcardMatches(p, s)
              || (|s| > 0 && s[|s| - 1] == '\n' && WildcardMatches(p, s[..|s| - 1]))
  {
    if TokensMatch(WildcardToRegex(p).tokens, s) {
      MatchedSplitsIntoPieces(p, s);
    }
    if |s| > 0 && TokensMatch(WildcardToRegex(p).tokens, s[..|s| - 1]) {
      MatchedSplitsIntoPieces(p, s[..|s| - 1]);
    }
    if WildcardMatches(p, s) {
      var parts :| Fits(p, parts) && Concat(parts) == s;
      PiecesAreMatched(p, parts);
    }
    if |s| > 0 && WildcardMatches(p, s[..|s| - 1]) {
      var parts :| Fits(p, parts) && Concat(parts) == s[..|s| - 1];
      PiecesAreMatched(p, parts);
    }
  }

  /** On paths without a newline (all real paths) the matcher is exactly the wildcard language. */
  lemma MatcherOnNewlineFreePaths(p: string, s: string)
    requires '\n' !in s
    ensures IsMatch(WildcardToRegex(p), s) <==> WildcardMatches(p, s)
  {
    WildcardToRegexCorrect(p, s);
    if |s| > 0 { assert s[|s| - 1] in s; }
  }

  /** `*` alone accepts every newline-free string, path separators included. */
  lemma StarMatchesEveryRun(s: string)
    ensures WildcardMatches("*", s) <==> '\n' !in s
  {
    if '\n' !in s {
      assert Fits("*", [s]) && Concat([s]) == s;
    } else {
      forall parts | Fits("*", parts) ensures Concat(parts) != s {
        assert Concat(parts) == parts[0] + Concat([]);
      }
    }
  }

  predicate IsLiteralPattern(q: string)
  {
    '?' !in q && '*' !in q
  }

  /** A pattern without wildcard characters accepts exactly itself. */
  lemma {:induction false} LiteralTokensMatch(q: string, s: string)
    requires IsLiteralPattern(q)
    ensures TokensMatch(WildcardToRegex(q).tokens, s) <==> s == q
    decreases |q|
  {
    if q != [] {
      WildcardToRegexUnfold(q);
      assert q[0] in q;
      assert forall c :: c in q[1..] ==> c in q;
      LiteralTokensMatch(q[1..], if |s| > 0 then s[1..] else s);
      if |s| > 0 && s[1..] == q[1..] && s[0] == q[0] {
        assert s == [s[0]] + s[1..];
        assert q == [q[0]] + q[1..];
      }
    }
  }

  /** `*` followed by a literal: a newline-free string is accepted iff it ends with the literal. */
  /** `q` ends a non-empty `s` iff it is all of `s` or it ends `s` without its first character. */
  lemma SuffixOfTail(s: string, q: string)
    requires |s| > 0
    ensures (|q| <= |s| && s[|s| - |q|..] == q) <==> (s == q || (|q| <= |s[1..]| && s[1..][|s[1..]| - |q|..] == q))
  {
    if |q| <= |s| - 1 {
      assert s[1..][|s[1..]| - |q|..] == s[|s| - |q|..];
    }
    if |q| == |s| {
      assert s[|s| - |q|..] == s;
    }
  }

  lemma {:induction false} StarSuffixTokensMatch(q: string, s: string)
    requires IsLiteralPattern(q) && '\n' !in s
    ensures TokensMatch(WildcardToRegex("*" + q).tokens, s) <==> |q| <= |s| && s[|s| - |q|..] == q
    decreases |s|
  {
    var ts := WildcardToRegex("*" + q).tokens;
    WildcardToRegexUnfold("*" + q);
    assert ("*" + q)[1..] == q;
    assert ts[0] == AnyRun && ts[1..] == WildcardToRegex(q).tokens;
    LiteralTokensMatch(q, s);
    if |s| > 0 {
      assert s[0] != '\n' by { assert s[0] in s; }
      assert '\n' !in s[1..] by {
        assert forall c :: c in s[1..] ==> c in s;
      }
      StarSuffixTokensMatch(q, s[1..]);
      SuffixOfTail(s, q);
    }
  }

  /**
   * The shape of the implicit ignore pattern: `*` and then a wildcard-free suffix
   * matches exactly the newline-free paths that end with that suffix, whatever
   * directories precede it.
   */
  lemma StarSuffixPattern(q: string, s: string)
    requires IsLiteralPattern(q) && '\n' !in s
    ensures IsMatch(WildcardToRegex("*" + q), s) <==> |q| <= |s| && s[|s| - |q|..] == q
  {
    StarSuffixTokensMatch(q, s);
    if |s| > 0 { assert s[|s| - 1] in s; }
  }

  /**
   * PathMatchesPattern: a foreach over the matchers with an early return on the
   * first one that accepts the path.
   */
  method PathMatchesPattern(patterns: seq<Regex>, path: string) returns (matched: bool)
    ensures matched <==> exists i :: 0 <= i < |patterns| && IsMatch(patterns[i], path)
  {
    for i := 0 to |patterns|
      invariant forall j :: 0 <= j < i ==> !IsMatch(patterns[j], path)
    {
      if IsMatch(patterns[i], path) {
        return true;
      }
    }
    return false;
  }
}

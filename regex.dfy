/**
 * The fragment of JavaScript regular expressions that `toFilter` writes
 * for filters with at most one `+` and without bare `{`, `}` or `]`:
 * escaped and plain literal characters, `[^/]*` and `.*`, between `^`
 * and `$`. `Parse` reads exactly this fragment and answers `None` for
 * any other text; `Matches` is the language of a parsed expression. No
 * flags are given, so `^` and `$` anchor at the ends of the input,
 * matching is case-sensitive, and `.` does not match a line terminator.
 */
module FilterRegex {

  import opened Wrappers
  import opened Strings
  import opened TopicFilter

  datatype Token =
    | Lit(c: char)      // one given character
    | NotSlashStar      // `[^/]*`
    | AnyStar           // `.*`

  /** The characters `.` does not match (no `s` flag). */
  predicate IsLineTerminator(c: char) {
    c == '\n' || c == '\r' || c == '\U{2028}' || c == '\U{2029}'
  }

  predicate NoLineTerminator(s: string) {
    forall i :: 0 <= i < |s| ==> !IsLineTerminator(s[i])
  }

  /** A suffix of a string without line terminators has none either. */
  lemma NoLineTerminatorFrom(s: string, a: nat)
    requires a <= |s| && NoLineTerminator(s)
    ensures NoLineTerminator(s[a..])
  {
    forall i | 0 <= i < |s| - a ensures !IsLineTerminator(s[a..][i]) {
      assert s[a..][i] == s[a + i];
    }
  }

  /**
   * Characters with a syntactic role in a pattern: besides the escaped
   * ones, the quantifier `+` and the braces and bracket that can form
   * quantifiers or classes.
   */
  predicate IsSyntaxChar(c: char) {
    IsEscaped(c) || c == '+' || c == '{' || c == '}' || c == ']'
  }

  /** Reads a pattern body of the fragment, token by token. */
  function Parse(body: string): Option<seq<Token>>
    decreases |body|
  {
    if body == [] then Some([])
    else if body[0] == '\\' then
      if |body| >= 2 && IsEscaped(body[1]) then Cons(Lit(body[1]), Parse(body[2..])) else None
    else if |body| >= 5 && body[..5] == SingleLevelPattern then Cons(NotSlashStar, Parse(body[5..]))
    else if |body| >= 2 && body[..2] == MultiLevelPattern then Cons(AnyStar, Parse(body[2..]))
    else if IsSyntaxChar(body[0]) then None
    else Cons(Lit(body[0]), Parse(body[1..]))
  }

  /** Reads `^body$`, the only form `new RegExp` is given by src/topic.ts:11. */
  function ParseAnchored(source: string): Option<seq<Token>> {
    if |source| >= 2 && source[0] == '^' && source[|source| - 1] == '$' then Parse(source[1..|source| - 1])
    else None
  }

  /** Whether the whole of `s` is in the language of `p`. */
  predicate Matches(p: seq<Token>, s: string)
    decreases |p|
  {
    if p == [] then s == []
    else match p[0]
      case Lit(c) => s != [] && s[0] == c && Matches(p[1..], s[1..])
      case NotSlashStar => exists k :: 0 <= k <= |s| && '/' !in s[..k] && Matches(p[1..], s[k..])
      case AnyStar => exists k :: 0 <= k <= |s| && NoLineTerminator(s[..k]) && Matches(p[1..], s[k..])
  }

  /**
   * `RegExp.prototype.test` of the expression with source `source` on
   * `topic` (the filter of src/rx-mqtt-client.ts:91); `None` when the
   * source lies outside the fragment.
   */
  function Test(source: string, topic: string): Option<bool> {
    match ParseAnchored(source)
    case None => None
    case Some(p) => Some(Matches(p, topic))
  }

  /** The tokens matching exactly the characters of `w`. */
  function Literals(w: string): (p: seq<Token>)
    ensures |p| == |w|
  {
    if w == [] then [] else [Lit(w[0])] + Literals(w[1..])
  }

  // Reading the pieces `toFilter` writes.

  lemma ParseEscaped(c: char, rest: string)
    requires IsEscaped(c)
    ensures Parse(['\\', c] + rest) == Cons(Lit(c), Parse(rest))
  {
    assert (['\\', c] + rest)[2..] == rest;
  }

  lemma ParseSingleLevel(rest: string)
    ensures Parse(SingleLevelPattern + rest) == Cons(NotSlashStar, Parse(rest))
  {
    var b := SingleLevelPattern + rest;
    assert b[0] == '[' && b[..5] == SingleLevelPattern && b[5..] == rest;
  }

  lemma ParseMultiLevel(rest: string)
    ensures Parse(MultiLevelPattern + rest) == Cons(AnyStar, Parse(rest))
  {
    var b := MultiLevelPattern + rest;
    assert b[0] == '.' && b[..2] == MultiLevelPattern && b[2..] == rest;
    assert |b| >= 5 ==> b[..5][0] == '.' && SingleLevelPattern[0] == '[';
  }

  lemma ParsePlain(c: char, rest: string)
    requires !IsSyntaxChar(c)
    ensures Parse([c] + rest) == Cons(Lit(c), Parse(rest))
  {
    var b := [c] + rest;
    assert b[0] == c && b[1..] == rest;
    assert |b| >= 5 ==> b[..5][0] == c;
    assert |b| >= 2 ==> b[..2][0] == c;
  }

  // The language of the token shapes.

  /** Literal tokens match exactly their own text, as a prefix of the input. */
  lemma {:induction false} MatchesLiteralsPrefix(w: string, rest: seq<Token>, s: string)
    ensures Matches(Literals(w) + rest, s) <==> |s| >= |w| && s[..|w|] == w && Matches(rest, s[|w|..])
  {
    if w == [] {
      assert Literals(w) + rest == rest;
    } else {
      assert Literals(w) + rest == [Lit(w[0])] + (Literals(w[1..]) + rest);
      MatchesLitFirst(w[0], Literals(w[1..]) + rest, s);
      if s != [] {
        MatchesLiteralsPrefix(w[1..], rest, s[1..]);
        PrefixStep(s, w);
      }
    }
  }

  /** Literal tokens alone match exactly their own text. */
  lemma MatchesLiterals(w: string, s: string)
    ensures Matches(Literals(w), s) <==> s == w
  {
    MatchesLiteralsPrefix(w, [], s);
    assert Literals(w) + [] == Literals(w);
  }

  /** `[^/]*` first: some slash-free prefix is taken, and the rest must match the remaining tokens. */
  lemma MatchesNotSlashStarFirst(rest: seq<Token>, s: string)
    ensures Matches([NotSlashStar] + rest, s) <==>
      exists k :: 0 <= k <= |s| && '/' !in s[..k] && Matches(rest, s[k..])
  {
    assert ([NotSlashStar] + rest)[1..] == rest;
  }

  /** `.*` first: some prefix free of line terminators is taken, and the rest must match the remaining tokens. */
  lemma MatchesAnyStarFirst(rest: seq<Token>, s: string)
    ensures Matches([AnyStar] + rest, s) <==>
      exists k :: 0 <= k <= |s| && NoLineTerminator(s[..k]) && Matches(rest, s[k..])
  {
    assert ([AnyStar] + rest)[1..] == rest;
  }

  /** A lone `.*` matches exactly the strings without a line terminator. */
  lemma MatchesAnyStarAlone(s: string)
    ensures Matches([AnyStar], s) <==> NoLineTerminator(s)
  {
    MatchesAnyStarFirst([], s);
    assert [AnyStar] + [] == [AnyStar];
    if NoLineTerminator(s) {
      assert s[..|s|] == s;
      assert Matches([], s[|s|..]);
    }
  }

  /** `[^/]*` followed by literals matches a slash-free run followed by exactly those literals. */
  lemma MatchesNotSlashStarThenLiterals(w: string, s: string)
    ensures Matches([NotSlashStar] + Literals(w), s) <==> SlashFreeThen(s, w)
  {
    MatchesNotSlashStarFirst(Literals(w), s);
    if Matches([NotSlashStar] + Literals(w), s) {
      var k :| 0 <= k <= |s| && '/' !in s[..k] && Matches(Literals(w), s[k..]);
      MatchesLiterals(w, s[k..]);
    }
    if |s| >= |w| && s[|s| - |w|..] == w && '/' !in s[..|s| - |w|] {
      MatchesLiterals(w, s[|s| - |w|..]);
    }
  }

  /** The same, read from position `a` of `s` onwards. */
  lemma MatchesNotSlashStarThenLiteralsFrom(w: string, s: string, a: nat)
    requires a <= |s|
    ensures Matches([NotSlashStar] + Literals(w), s[a..]) <==>
      |s| >= a + |w| && s[|s| - |w|..] == w && '/' !in s[a..|s| - |w|]
  {
    MatchesNotSlashStarThenLiterals(w, s[a..]);
    SuffixCondition(s, a, w);
  }

  /** A literal token first: the input must start with that character. */
  lemma MatchesLitFirst(c: char, rest: seq<Token>, s: string)
    ensures Matches([Lit(c)] + rest, s) <==> s != [] && s[0] == c && Matches(rest, s[1..])
  {
    assert ([Lit(c)] + rest)[1..] == rest;
  }
}

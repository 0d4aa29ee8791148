/**
 * What the compiled filter matches. `Compile` gives the tokens of the
 * body `toFilter` writes; `ToFilterParses` shows that the regular
 * expression text reads back as those tokens for filters with at most
 * one `+` and no bare `{`, `}` or `]`. The lemmas then state what the
 * `test` call in src/rx-mqtt-client.ts:91 decides, first for the simple
 * shapes and then, for every valid filter of the fragment, against the
 * level-wise matching of section 4.7.1 of MQTT 3.1.1.
 */
module FilterSemantics {

  import opened Wrappers
  import opened Strings
  import opened TopicLevels
  import opened TopicValidate
  import opened TopicFilter
  import opened FilterRegex

  /** The tokens of `Transduce(topic, plusSeen, hashSeen)`, one per character of the topic. */
  function TokensFrom(topic: string, plusSeen: bool, hashSeen: bool): (p: seq<Token>)
    ensures |p| == |topic|
  {
    if topic == [] then []
    else if topic[0] == '+' && !plusSeen then [NotSlashStar] + TokensFrom(topic[1..], true, hashSeen)
    else if topic[0] == '#' && !hashSeen then [AnyStar] + TokensFrom(topic[1..], plusSeen, true)
    else [Lit(topic[0])] + TokensFrom(topic[1..], plusSeen, hashSeen)
  }

  /** The tokens of the expression `toFilter(topic)` builds. */
  function Compile(topic: string): seq<Token> {
    TokensFrom(topic, false, false)
  }

  /** Filters whose compiled text stays inside the modelled fragment. */
  predicate InFragment(topic: string) {
    Count(topic, '+') <= 1 && '{' !in topic && '}' !in topic && ']' !in topic
  }

  lemma {:induction false} ParseTransduced(topic: string, plusSeen: bool, hashSeen: bool)
    requires plusSeen ==> '+' !in topic
    requires InFragment(topic)
    ensures Parse(Transduce(topic, plusSeen, hashSeen)) == Some(TokensFrom(topic, plusSeen, hashSeen))
  {
    if topic != [] {
      var c, rest := topic[0], topic[1..];
      assert topic == [c] + rest;
      if c == '+' && !plusSeen {
        ParseTransduced(rest, true, hashSeen);
        ParseSingleLevel(Transduce(rest, true, hashSeen));
      } else if c == '#' && !hashSeen {
        ParseTransduced(rest, plusSeen, true);
        ParseMultiLevel(Transduce(rest, plusSeen, true));
      } else {
        ParseTransduced(rest, plusSeen, hashSeen);
        if IsEscaped(c) {
          ParseEscaped(c, Transduce(rest, plusSeen, hashSeen));
        } else {
          ParsePlain(c, Transduce(rest, plusSeen, hashSeen));
        }
      }
    }
  }

  /** For a filter of the fragment the source text `toFilter` returns reads back as `Compile(topic)`. */
  lemma ToFilterParses(topic: string)
    requires InFragment(topic)
    ensures ParseAnchored(ToFilter(topic)) == Some(Compile(topic))
  {
    var source := ToFilter(topic);
    assert source[1..|source| - 1] == FilterBody(topic);
    FilterBodyIsTransduced(topic);
    ParseTransduced(topic, false, false);
  }

  /** The token of one character when every wildcard is the first of its kind. */
  function TokenOf(c: char): Token {
    if c == '+' then NotSlashStar else if c == '#' then AnyStar else Lit(c)
  }

  function CharTokens(s: string): (p: seq<Token>)
    ensures |p| == |s|
  {
    if s == [] then [] else [TokenOf(s[0])] + CharTokens(s[1..])
  }

  lemma {:induction false} CharTokensConcat(a: string, b: string)
    ensures CharTokens(a + b) == CharTokens(a) + CharTokens(b)
  {
    if a == [] {
      assert a + b == b;
    } else {
      assert (a + b)[0] == a[0] && (a + b)[1..] == a[1..] + b;
      CharTokensConcat(a[1..], b);
    }
  }

  lemma {:induction false} CharTokensOfLiteral(w: string)
    requires '+' !in w && '#' !in w
    ensures CharTokens(w) == Literals(w)
  {
    if w != [] {
      assert w == [w[0]] + w[1..];
      CharTokensOfLiteral(w[1..]);
    }
  }

  /** With at most one `+` and one `#`, the first-only rewriting turns every wildcard into its token. */
  lemma {:induction false} TokensFromCharwise(topic: string, plusSeen: bool, hashSeen: bool)
    requires plusSeen ==> '+' !in topic
    requires hashSeen ==> '#' !in topic
    requires Count(topic, '+') <= 1 && Count(topic, '#') <= 1
    ensures TokensFrom(topic, plusSeen, hashSeen) == CharTokens(topic)
  {
    if topic != [] {
      var c, rest := topic[0], topic[1..];
      assert topic == [c] + rest;
      if c == '+' {
        TokensFromCharwise(rest, true, hashSeen);
      } else if c == '#' {
        TokensFromCharwise(rest, plusSeen, true);
      } else {
        TokensFromCharwise(rest, plusSeen, hashSeen);
      }
    }
  }

  /** A filter without wildcards matches exactly the identical topic, character for character. */
  lemma MatchesWithoutWildcards(f: string, t: string)
    requires '+' !in f && '#' !in f && '{' !in f && '}' !in f && ']' !in f
    ensures Test(ToFilter(f), t) == Some(t == f)
  {
    ToFilterParses(f);
    TokensFromCharwise(f, false, false);
    CharTokensOfLiteral(f);
    MatchesLiterals(f, t);
  }

  lemma CharTokensSinglePlus(p: string, q: string)
    requires '+' !in p && '#' !in p && '+' !in q && '#' !in q
    ensures CharTokens(p + "+" + q) == Literals(p) + ([NotSlashStar] + Literals(q))
  {
    var lp, lq := Literals(p), Literals(q);
    CharTokensOfLiteral(p);
    CharTokensOfLiteral(q);
    assert CharTokens("+") == [NotSlashStar];
    CharTokensConcat(p, "+");
    CharTokensConcat(p + "+", q);
    assert (lp + [NotSlashStar]) + lq == lp + ([NotSlashStar] + lq);
  }

  /** The tokens of `p + "+" + q`: the literals of `p`, `[^/]*` and the literals of `q`. */
  lemma CompileSinglePlus(p: string, q: string)
    requires '+' !in p && '#' !in p && '+' !in q && '#' !in q
    ensures Count(p + "+" + q, '+') == 1
    ensures Compile(p + "+" + q) == Literals(p) + ([NotSlashStar] + Literals(q))
  {
    var f := p + "+" + q;
    CountConcat(p, "+", '+');
    CountConcat(p + "+", q, '+');
    CountConcat(p, "+", '#');
    CountConcat(p + "+", q, '#');
    TokensFromCharwise(f, false, false);
    CharTokensSinglePlus(p, q);
  }

  lemma MatchesLiteralsStarLiterals(p: string, q: string, t: string)
    ensures Matches(Literals(p) + ([NotSlashStar] + Literals(q)), t) <==>
      |t| >= |p| + |q| && t[..|p|] == p && t[|t| - |q|..] == q && '/' !in t[|p|..|t| - |q|]
  {
    MatchesLiteralsPrefix(p, [NotSlashStar] + Literals(q), t);
    if |t| >= |p| {
      MatchesNotSlashStarThenLiteralsFrom(q, t, |p|);
    }
  }

  /** One `+` matches any run of characters other than `/`, the empty run included, between its literal neighbours. */
  lemma MatchesSinglePlus(p: string, q: string, t: string)
    requires '+' !in p && '#' !in p && '{' !in p && '}' !in p && ']' !in p
    requires '+' !in q && '#' !in q && '{' !in q && '}' !in q && ']' !in q
    ensures Test(ToFilter(p + "+" + q), t) ==
      Some(|t| >= |p| + |q| && t[..|p|] == p && t[|t| - |q|..] == q && '/' !in t[|p|..|t| - |q|])
  {
    CompileSinglePlus(p, q);
    ToFilterParses(p + "+" + q);
    MatchesLiteralsStarLiterals(p, q, t);
  }

  /** A `+` between `p` and `q` takes any run `m` free of `/`. */
  lemma SinglePlusTakesLevel(p: string, q: string, m: string)
    requires '+' !in p && '#' !in p && '{' !in p && '}' !in p && ']' !in p
    requires '+' !in q && '#' !in q && '{' !in q && '}' !in q && ']' !in q
    requires '/' !in m
    ensures Test(ToFilter(p + "+" + q), p + m + q) == Some(true)
  {
    var t := p + m + q;
    MatchesSinglePlus(p, q, t);
    assert t[..|p|] == p && t[|t| - |q|..] == q && t[|p|..|t| - |q|] == m;
  }

  /** A `+` between `p` and `q` never takes a separator: a topic with a `/` in between is rejected. */
  lemma SinglePlusStopsAtSeparator(p: string, q: string, t: string, i: int)
    requires '+' !in p && '#' !in p && '{' !in p && '}' !in p && ']' !in p
    requires '+' !in q && '#' !in q && '{' !in q && '}' !in q && ']' !in q
    requires |p| <= i < |t| - |q| && t[i] == '/'
    ensures Test(ToFilter(p + "+" + q), t) == Some(false)
  {
    MatchesSinglePlus(p, q, t);
    assert t[|p|..|t| - |q|][i - |p|] == '/';
  }

  /** A trailing `#` matches every topic that starts with the text before it and holds no line terminator after that. */
  lemma MatchesTrailingHash(p: string, t: string)
    requires '+' !in p && '#' !in p && '{' !in p && '}' !in p && ']' !in p
    ensures Test(ToFilter(p + "#"), t) == Some(|t| >= |p| && t[..|p|] == p && NoLineTerminator(t[|p|..]))
  {
    var f := p + "#";
    CountConcat(p, "#", '+');
    CountConcat(p, "#", '#');
    ToFilterParses(f);
    TokensFromCharwise(f, false, false);
    CharTokensConcat(p, "#");
    CharTokensOfLiteral(p);
    assert CharTokens("#") == [AnyStar];
    assert Compile(f) == Literals(p) + [AnyStar];
    MatchesLiteralsPrefix(p, [AnyStar], t);
    if |t| >= |p| {
      MatchesAnyStarAlone(t[|p|..]);
    }
  }

  // Level-wise matching.

  /** One filter level against one topic level: `+` takes any level, a literal only itself. */
  predicate LevelMatches(filterLevel: string, topicLevel: string) {
    filterLevel == "+" || filterLevel == topicLevel
  }

  /**
   * Matching of section 4.7.1 of MQTT 3.1.1: levels are compared in
   * order, and a `#` takes all remaining levels, none included (so
   * `a/#` matches `a`).
   */
  predicate MqttMatches(filterLevels: seq<string>, topicLevels: seq<string>)
    decreases |filterLevels|
  {
    if filterLevels == [] then topicLevels == []
    else if filterLevels[0] == "#" then true
    else
      && topicLevels != []
      && LevelMatches(filterLevels[0], topicLevels[0])
      && MqttMatches(filterLevels[1..], topicLevels[1..])
  }

  /** The one case where the two disagree: a filter ending in `/#` against a topic with no level for the `#`. */
  predicate IsParentLevel(filterLevels: seq<string>, topicLevels: seq<string>) {
    && |filterLevels| >= 2
    && filterLevels[|filterLevels| - 1] == "#"
    && |topicLevels| == |filterLevels| - 1
  }

  /**
   * The level-wise reading of the compiled expression: every level but
   * the last is followed by a `/` in the topic, so a closing `#` takes
   * one or more remaining levels.
   */
  predicate CompiledLevelsMatch(filterLevels: seq<string>, topicLevels: seq<string>)
    decreases |filterLevels|
  {
    if |filterLevels| <= 1 then
      && filterLevels != []
      && (if filterLevels[0] == "#" then topicLevels != []
          else |topicLevels| == 1 && LevelMatches(filterLevels[0], topicLevels[0]))
    else
      && |topicLevels| >= 2
      && LevelMatches(filterLevels[0], topicLevels[0])
      && CompiledLevelsMatch(filterLevels[1..], topicLevels[1..])
  }

  /** For valid levels, the compiled reading is MQTT matching without the parent-level case. */
  lemma {:induction false} CompiledVsMqtt(fs: seq<string>, ts: seq<string>)
    requires ValidLevels(fs) && |ts| >= 1
    ensures CompiledLevelsMatch(fs, ts) <==> MqttMatches(fs, ts) && !IsParentLevel(fs, ts)
    decreases |fs|
  {
    if |fs| >= 2 {
      ValidLevelsTail(fs);
      assert fs[0] != "#";
      var fs' := fs[1..];
      if |ts| >= 2 {
        CompiledVsMqtt(fs', ts[1..]);
      } else if |fs'| >= 2 {
        assert IsLevel(fs'[0]) && fs'[0] != "#";
        assert MqttMatches(fs', ts[1..]) == false;
      }
    }
  }

  /** `+` followed by `/` and more tokens: the wildcard takes the topic up to its first `/`. */
  lemma PlusThenRest(rest: seq<Token>, t: string)
    ensures Matches([NotSlashStar] + ([Lit('/')] + rest), t) <==>
      '/' in t && Matches(rest, t[FirstIndex(t, '/') + 1..])
  {
    var tail := [Lit('/')] + rest;
    MatchesNotSlashStarFirst(tail, t);
    if Matches([NotSlashStar] + tail, t) {
      var k :| 0 <= k <= |t| && '/' !in t[..k] && Matches(tail, t[k..]);
      MatchesLitFirst('/', rest, t[k..]);
      FirstIndexUnique(t, '/', k);
      assert t[k..][1..] == t[k + 1..];
    }
    if '/' in t && Matches(rest, t[FirstIndex(t, '/') + 1..]) {
      var j := FirstIndex(t, '/');
      MatchesLitFirst('/', rest, t[j..]);
      assert t[j..][1..] == t[j + 1..];
      assert 0 <= j <= |t| && '/' !in t[..j] && Matches(tail, t[j..]);
    }
  }

  /** A literal level followed by `/` and more tokens: the topic's first level must be that literal. */
  lemma LiteralThenRest(level: string, rest: seq<Token>, t: string)
    requires IsLiteralLevel(level)
    ensures Matches(Literals(level) + ([Lit('/')] + rest), t) <==>
      '/' in t && level == t[..FirstIndex(t, '/')] && Matches(rest, t[FirstIndex(t, '/') + 1..])
  {
    var tail := [Lit('/')] + rest;
    MatchesLiteralsPrefix(level, tail, t);
    var n := |level|;
    if |t| >= n && t[..n] == level {
      MatchesLitFirst('/', rest, t[n..]);
      if |t| > n && t[n] == '/' {
        FirstIndexUnique(t, '/', n);
        assert t[n..][1..] == t[n + 1..];
      }
    }
    if '/' in t && level == t[..FirstIndex(t, '/')] {
      var j := FirstIndex(t, '/');
      assert j == n;
      MatchesLitFirst('/', rest, t[j..]);
      assert t[j..][1..] == t[j + 1..];
    }
  }

  /** A level followed by `/` and more tokens: the level takes the topic up to its first `/`. */
  lemma LevelThenRest(level: string, rest: seq<Token>, t: string)
    requires IsLevel(level)
    ensures Matches(CharTokens(level) + ([Lit('/')] + rest), t) <==>
      '/' in t && LevelMatches(level, t[..FirstIndex(t, '/')]) && Matches(rest, t[FirstIndex(t, '/') + 1..])
  {
    if level == "+" {
      assert CharTokens(level) == [NotSlashStar];
      PlusThenRest(rest, t);
    } else {
      CharTokensOfLiteral(level);
      LiteralThenRest(level, rest, t);
    }
  }

  /** Dropping the first of several valid levels leaves valid levels, and the first is not `#`. */
  lemma ValidLevelsTail(fs: seq<string>)
    requires ValidLevels(fs) && |fs| >= 2
    ensures IsLevel(fs[0]) && ValidLevels(fs[1..])
  {
    var rs := fs[1..];
    forall k | 0 <= k < |rs| - 1 ensures IsLevel(rs[k]) {
      assert rs[k] == fs[k + 1];
    }
    assert rs[|rs| - 1] == fs[|fs| - 1];
  }

  /** The levels after a valid filter's first `/` are valid again. */
  lemma LevelsAfterFirstSeparator(f: string)
    requires '/' in f && ValidLevels(Split(f))
    ensures ValidLevels(Split(f[FirstIndex(f, '/') + 1..]))
  {
    var j := FirstIndex(f, '/');
    SplitAtFirstSeparator(f, j);
    ValidLevelsTail(Split(f));
    assert Split(f)[1..] == Split(f[j + 1..]);
  }

  /** A filter of one level against any topic. */
  lemma SingleLevelMatch(f: string, t: string)
    requires '/' !in f && (IsLevel(f) || f == "#") && NoLineTerminator(t)
    ensures Matches(CharTokens(f), t) <==> CompiledLevelsMatch([f], Split(t))
  {
    SingleLevelIff(t);
    if f == "#" {
      assert CharTokens(f) == [AnyStar];
      MatchesAnyStarAlone(t);
    } else if f == "+" {
      assert CharTokens(f) == [NotSlashStar] + Literals("");
      MatchesNotSlashStarThenLiterals("", t);
      assert t[..|t|] == t;
    } else {
      CharTokensOfLiteral(f);
      MatchesLiterals(f, t);
    }
  }

  lemma CharTokensAtSeparator(f: string, j: nat)
    requires j < |f| && f[j] == '/'
    ensures CharTokens(f) == CharTokens(f[..j]) + ([Lit('/')] + CharTokens(f[j + 1..]))
  {
    assert f == f[..j] + ("/" + f[j + 1..]);
    CharTokensConcat(f[..j], "/" + f[j + 1..]);
    CharTokensConcat("/", f[j + 1..]);
    assert CharTokens("/") == [Lit('/')];
  }

  /** The filter's first level ends at its first `/`; the rest of the filter meets the rest of the topic. */
  lemma LevelwiseStep(f: string, t: string)
    requires '/' in f && ValidLevels(Split(f)) && '/' in t
    requires
      var rest, after := f[FirstIndex(f, '/') + 1..], t[FirstIndex(t, '/') + 1..];
      Matches(CharTokens(rest), after) <==> CompiledLevelsMatch(Split(rest), Split(after))
    ensures Matches(CharTokens(f), t) <==> CompiledLevelsMatch(Split(f), Split(t))
  {
    var j, k := FirstIndex(f, '/'), FirstIndex(t, '/');
    SplitAtFirstSeparator(f, j);
    SplitAtFirstSeparator(t, k);
    ValidLevelsTail(Split(f));
    CharTokensAtSeparator(f, j);
    LevelThenRest(f[..j], CharTokens(f[j + 1..]), t);
    assert Split(f)[0] == f[..j] && Split(f)[1..] == Split(f[j + 1..]);
    assert Split(t)[0] == t[..k] && Split(t)[1..] == Split(t[k + 1..]);
  }

  /** A filter with several levels never matches a topic of one level: the filter's first `/` finds no partner. */
  lemma LevelwiseUnmatchedSeparator(f: string, t: string)
    requires '/' in f && ValidLevels(Split(f)) && '/' !in t
    ensures Matches(CharTokens(f), t) <==> CompiledLevelsMatch(Split(f), Split(t))
  {
    var j := FirstIndex(f, '/');
    SplitAtFirstSeparator(f, j);
    ValidLevelsTail(Split(f));
    SingleLevelIff(t);
    CharTokensAtSeparator(f, j);
    LevelThenRest(f[..j], CharTokens(f[j + 1..]), t);
  }

  /** The character-level match of a valid filter is the compiled level-wise reading. */
  lemma {:induction false} LevelwiseMatch(f: string, t: string)
    requires ValidLevels(Split(f)) && NoLineTerminator(t)
    ensures Matches(CharTokens(f), t) <==> CompiledLevelsMatch(Split(f), Split(t))
    decreases |f|
  {
    if '/' !in f {
      SplitNoSeparator(f);
      SingleLevelMatch(f, t);
    } else if '/' in t {
      var j, k := FirstIndex(f, '/'), FirstIndex(t, '/');
      LevelsAfterFirstSeparator(f);
      NoLineTerminatorFrom(t, k + 1);
      LevelwiseMatch(f[j + 1..], t[k + 1..]);
      LevelwiseStep(f, t);
    } else {
      LevelwiseUnmatchedSeparator(f, t);
    }
  }

  /**
   * For every valid filter with at most one `+` and no bare `{`, `}` or
   * `]`, and every topic without a line terminator, the compiled filter
   * decides exactly MQTT matching, except that a closing `/#` does not
   * match the parent level.
   */
  lemma AgreesWithMqttExceptParentLevel(f: string, t: string)
    requires Validate(f) && InFragment(f) && NoLineTerminator(t)
    ensures Test(ToFilter(f), t) == Some(MqttMatches(Split(f), Split(t)) && !IsParentLevel(Split(f), Split(t)))
  {
    ValidateIffLevels(f);
    HashAtMostOnce(f);
    ToFilterParses(f);
    TokensFromCharwise(f, false, false);
    LevelwiseMatch(f, t);
    CompiledVsMqtt(Split(f), Split(t));
  }

  // Concrete filters and topics. The filter is a parameter fixed by
  // `requires f == "..."`: unfolding `ToFilter` on a string literal is
  // very costly for the verifier, and the general lemmas above do the work.

  /** `sensors/+/temp` takes one level in the middle. */
  lemma SingleLevelTakesOneLevel(f: string, t: string)
    requires f == "sensors/+/temp" && t == "sensors/kitchen/temp"
    ensures Test(ToFilter(f), t) == Some(true)
  {
    assert f == "sensors/" + "+" + "/temp";
    assert t == "sensors/" + "kitchen" + "/temp";
    SinglePlusTakesLevel("sensors/", "/temp", "kitchen");
  }

  /** `sensors/+/temp` does not take two levels. */
  lemma SingleLevelTakesNoMore(f: string, t: string)
    requires f == "sensors/+/temp" && t == "sensors/kitchen/humidity/temp"
    ensures Test(ToFilter(f), t) == Some(false)
  {
    assert f == "sensors/" + "+" + "/temp";
    SinglePlusStopsAtSeparator("sensors/", "/temp", t, 15);
  }

  /** `a/#` takes everything below `a/`, the empty remainder included. */
  lemma MultiLevelTakesBelow(f: string)
    requires f == "a/#"
    ensures Test(ToFilter(f), "a/") == Some(true)
    ensures Test(ToFilter(f), "a/b/c") == Some(true)
  {
    assert f == "a/" + "#";
    MatchesTrailingHash("a/", "a/");
    MatchesTrailingHash("a/", "a/b/c");
  }

  /** `a/#` does not match the parent level `a`, although MQTT matching does. */
  lemma MultiLevelSkipsParent(f: string, t: string)
    requires f == "a/#" && t == "a"
    ensures Test(ToFilter(f), t) == Some(false)
    ensures MqttMatches(Split(f), Split(t))
  {
    assert f == "a/" + "#";
    MatchesTrailingHash("a/", t);
    SplitNoSeparator("a");
    SplitNoSeparator("#");
    assert f == "a" + "/" + "#";
    SplitAtSeparator("a", "#");
    assert Split(f) == ["a", "#"];
  }

  /** MQTT matching of `a/#` accepts every topic of two levels whose first is `a`. */
  lemma MqttHashTakesLevel(a: string, u: string)
    requires '/' !in a && '/' !in u
    ensures MqttMatches(Split(a + "/#"), Split(a + "/" + u))
  {
    SplitNoSeparator(a);
    SplitNoSeparator("#");
    SplitNoSeparator(u);
    assert a + "/#" == a + "/" + "#";
    SplitAtSeparator(a, "#");
    SplitAtSeparator(a, u);
    assert Split(a + "/#") == [a, "#"];
    assert Split(a + "/" + u) == [a, u];
  }

  /** `.*` stops at a line terminator, so `a/#` rejects `a/x\ny`, which MQTT matching accepts. */
  lemma MultiLevelStopsAtLineTerminator(f: string, t: string)
    requires f == "a/#" && t == "a/x\ny"
    ensures Test(ToFilter(f), t) == Some(false)
    ensures MqttMatches(Split(f), Split(t))
  {
    assert f == "a/" + "#";
    MatchesTrailingHash("a/", t);
    assert t[2..][1] == '\n';
    assert f == "a" + "/#" && t == "a" + "/" + "x\ny";
    MqttHashTakesLevel("a", "x\ny");
  }

  /** A bare `#` matches every topic without a line terminator, the empty topic included. */
  lemma HashAloneExample(f: string)
    requires f == "#"
    ensures Test(ToFilter(f), "") == Some(true)
    ensures Test(ToFilter(f), "a/b") == Some(true)
    ensures Test(ToFilter(f), "a\nb") == Some(false)
    ensures Test(ToFilter(f), "$SYS/x") == Some(true)
  {
    assert f == "" + "#";
    MatchesTrailingHash("", "$SYS/x");
    MatchesTrailingHash("", "");
    MatchesTrailingHash("", "a/b");
    MatchesTrailingHash("", "a\nb");
    assert IsLineTerminator("a\nb"[1]);
  }

  /** Literal levels are compared exactly, so letter case matters. */
  lemma CaseSensitiveExample(f: string, t: string)
    requires f == "sensors/temp" && t == "Sensors/temp"
    ensures Test(ToFilter(f), f) == Some(true)
    ensures Test(ToFilter(f), t) == Some(false)
  {
    MatchesWithoutWildcards(f, f);
    MatchesWithoutWildcards(f, t);
    assert t[0] != f[0];
  }

  /**
   * `{` and `}` are not escaped: `a{2}` is a valid filter, and its source
   * text keeps the braces, which `new RegExp` reads as a quantifier.
   */
  lemma BracesPassThrough(f: string)
    requires f == "a{2}"
    ensures Validate(f)
    ensures ToFilter(f) == "^a{2}$"
  {
    assert f[..4] == f && f[4..4] == [] && f[4..] == [];
    assert IsLevel(f[..4]) && IsMoreLevels(f[4..4]) && IsTrailer(f[4..]);
    ToFilterPlainTopic(f);
  }

  /**
   * A valid filter may start with a brace quantifier: `{2}` passes
   * `validate`, and its source text puts `{2}` right after `^`, where
   * there is nothing for the quantifier to repeat.
   */
  lemma LeadingBraceQuantifier(f: string)
    requires f == "{2}"
    ensures Validate(f)
    ensures ToFilter(f) == "^{2}$"
  {
    assert f[..3] == f && f[3..3] == [] && f[3..] == [];
    assert IsLevel(f[..3]) && IsMoreLevels(f[3..3]) && IsTrailer(f[3..]);
    ToFilterPlainTopic(f);
  }
}

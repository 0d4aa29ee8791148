/**
 * `validate` of src/topic.ts: a topic filter is well formed when it is
 * non-empty and matches
 *
 *     ^(#|([^+#/]*|\+)(\/([^+#/]*|\+))*(\/+|\/#)?)$
 *
 * The predicates below follow that expression part by part; the lemmas
 * relate it to the level-wise reading of section 4.7.1 of MQTT 3.1.1.
 */
module TopicValidate {

  import opened Strings
  import opened TopicLevels

  /** `[^+#/]*`: a level written without wildcards and without a separator. */
  predicate IsLiteralLevel(s: string) {
    '+' !in s && '#' !in s && '/' !in s
  }

  /** `([^+#/]*|\+)`: a literal level or the single-level wildcard alone. */
  predicate IsLevel(s: string) {
    IsLiteralLevel(s) || s == "+"
  }

  /** `(\/([^+#/]*|\+))*`: any number of further levels, each after a `/`. */
  predicate IsMoreLevels(s: string)
    decreases |s|
  {
    s == [] || (s[0] == '/' && exists k :: 1 <= k <= |s| && IsLevel(s[1..k]) && IsMoreLevels(s[k..]))
  }

  /** `(\/+|\/#)?`: nothing, a run of one or more `/`, or `/#`. */
  predicate IsTrailer(s: string) {
    s == [] || (forall i :: 0 <= i < |s| ==> s[i] == '/') || s == "/#"
  }

  /** The whole anchored expression of src/topic.ts:2. */
  predicate MatchesFilterSyntax(s: string) {
    || s == "#"
    || exists i, j :: 0 <= i <= j <= |s| && IsLevel(s[..i]) && IsMoreLevels(s[i..j]) && IsTrailer(s[j..])
  }

  /** `validate(topic)`: `!!topic` rejects the empty string, then the expression decides. */
  predicate Validate(topic: string) {
    topic != [] && MatchesFilterSyntax(topic)
  }

  /** Every level is a literal or `+`. */
  predicate AllLevels(levels: seq<string>) {
    forall k :: 0 <= k < |levels| ==> IsLevel(levels[k])
  }

  /**
   * The level-wise grammar: every level is a literal or `+`, and the last
   * one may instead be `#`.
   */
  predicate ValidLevels(levels: seq<string>) {
    && |levels| >= 1
    && (forall k :: 0 <= k < |levels| - 1 ==> IsLevel(levels[k]))
    && (IsLevel(levels[|levels| - 1]) || levels[|levels| - 1] == "#")
  }

  /** Everything the starred group accepts is a `/` followed by levels that are literals or `+`. */
  lemma {:induction false} MoreLevelsSound(s: string)
    requires IsMoreLevels(s) && s != []
    ensures s[0] == '/' && AllLevels(Split(s[1..]))
    decreases |s|
  {
    var k :| 1 <= k <= |s| && IsLevel(s[1..k]) && IsMoreLevels(s[k..]);
    var head := s[1..k];
    SplitNoSeparator(head);
    if k < |s| {
      var rest := s[k..];
      MoreLevelsSound(rest);
      SeparatorSlices(s, k);
      SplitAtSeparator(head, rest[1..]);
      AllLevelsConcat([head], Split(rest[1..]));
    } else {
      assert s[1..] == head;
    }
  }

  /** The starred group accepts every `/` followed by levels that are literals or `+`. */
  lemma {:induction false} MoreLevelsComplete(s: string)
    requires s != [] && s[0] == '/' && AllLevels(Split(s[1..]))
    ensures IsMoreLevels(s)
    decreases |s|
  {
    var w := s[1..];
    if '/' in w {
      var j := FirstIndex(w, '/');
      SplitAtFirstSeparator(w, j);
      assert IsLevel(Split(w)[0]);
      var rest := s[j + 1..];
      assert rest[1..] == w[j + 1..];
      assert Split(rest[1..]) == Split(w)[1..];
      MoreLevelsComplete(rest);
      assert s[1..j + 1] == w[..j];
      assert 1 <= j + 1 <= |s| && IsLevel(s[1..j + 1]) && IsMoreLevels(s[j + 1..]);
    } else {
      SplitNoSeparator(w);
      assert IsLevel(Split(w)[0]);
      assert s[1..|s|] == w;
      assert 1 <= |s| <= |s| && IsLevel(s[1..|s|]) && IsMoreLevels(s[|s|..]);
    }
  }

  /** A level followed by the starred group yields levels that are all literals or `+`. */
  lemma LevelsSyntaxSound(u: string, i: nat)
    requires i <= |u| && IsLevel(u[..i]) && IsMoreLevels(u[i..])
    ensures AllLevels(Split(u))
  {
    SplitNoSeparator(u[..i]);
    if i == |u| {
      assert u == u[..i];
    } else {
      MoreLevelsSound(u[i..]);
      assert u[i..][1..] == u[i + 1..];
      assert u == u[..i] + "/" + u[i + 1..];
      SplitAtSeparator(u[..i], u[i + 1..]);
    }
  }

  /** Levels that are all literals or `+` are read as a level followed by the starred group. */
  lemma LevelsSyntaxComplete(u: string) returns (i: nat)
    requires AllLevels(Split(u))
    ensures i <= |u| && IsLevel(u[..i]) && IsMoreLevels(u[i..])
  {
    if '/' in u {
      i := FirstIndex(u, '/');
      SplitAtFirstSeparator(u, i);
      assert IsLevel(Split(u)[0]);
      assert u[i..][1..] == u[i + 1..];
      assert Split(u[i + 1..]) == Split(u)[1..];
      MoreLevelsComplete(u[i..]);
    } else {
      i := |u|;
      SplitNoSeparator(u);
      assert u[..|u|] == u;
      assert IsLevel(Split(u)[0]);
    }
  }

  /** Levels that are literals or `+` stay so when more such levels follow. */
  lemma AllLevelsConcat(a: seq<string>, b: seq<string>)
    requires AllLevels(a) && AllLevels(b)
    ensures AllLevels(a + b)
  {
    forall k | 0 <= k < |a + b| ensures IsLevel((a + b)[k]) {
      if k < |a| {
        assert (a + b)[k] == a[k];
      } else {
        assert (a + b)[k] == b[k - |a|];
      }
    }
  }

  /** A trailing run of separators adds empty levels only, and empty levels are literal levels. */
  lemma SeparatorsAreLevels(v: string)
    requires forall i :: 0 <= i < |v| ==> v[i] == '/'
    ensures AllLevels(Split(v))
  {
    SplitSeparators(v);
    var b := Split(v);
    forall k | 0 <= k < |b| ensures IsLevel(b[k]) {
      assert b[k] == [];
    }
  }

  /** The trailer `/#` adds `#` as the last level. */
  lemma HashTrailerSound(u: string)
    requires AllLevels(Split(u))
    ensures ValidLevels(Split(u + "/#"))
  {
    assert u + "/#" == u + "/" + "#";
    SplitAtSeparator(u, "#");
    SplitNoSeparator("#");
  }

  /** A trailer of one or more `/` adds empty levels. */
  lemma SeparatorTrailerSound(u: string, c: string)
    requires AllLevels(Split(u)) && c != [] && forall i :: 0 <= i < |c| ==> c[i] == '/'
    ensures ValidLevels(Split(u + c))
  {
    var v := c[1..];
    assert u + c == u + "/" + v;
    SplitAtSeparator(u, v);
    SeparatorsAreLevels(v);
    AllLevelsConcat(Split(u), Split(v));
  }

  /** Appending a trailer to levels that are literals or `+` keeps the levels valid. */
  lemma TrailerSound(u: string, c: string)
    requires AllLevels(Split(u)) && IsTrailer(c)
    ensures ValidLevels(Split(u + c))
  {
    if c == [] {
      assert u + c == u;
    } else if c == "/#" {
      HashTrailerSound(u);
    } else {
      SeparatorTrailerSound(u, c);
    }
  }

  /** What the expression accepts has valid levels. */
  lemma ValidateSound(s: string)
    requires Validate(s)
    ensures ValidLevels(Split(s))
  {
    if s == "#" {
      SplitNoSeparator(s);
    } else {
      var i, j :| 0 <= i <= j <= |s| && IsLevel(s[..i]) && IsMoreLevels(s[i..j]) && IsTrailer(s[j..]);
      var u := s[..j];
      assert u[..i] == s[..i] && u[i..] == s[i..j];
      LevelsSyntaxSound(u, i);
      TrailerSound(u, s[j..]);
      assert s == u + s[j..];
    }
  }

  /** Levels that are all literals or `+` match the level and the starred group, with no trailer. */
  lemma CompleteWithoutHash(s: string)
    requires AllLevels(Split(s))
    ensures MatchesFilterSyntax(s)
  {
    var i := LevelsSyntaxComplete(s);
    assert s[i..|s|] == s[i..] && s[|s|..] == [];
    assert IsLevel(s[..i]) && IsMoreLevels(s[i..|s|]) && IsTrailer(s[|s|..]);
  }

  /** Levels that are literals or `+` and then `#` match the level, the starred group and the trailer `/#`. */
  lemma CompleteWithHash(u: string)
    requires AllLevels(Split(u))
    ensures MatchesFilterSyntax(u + "/#")
  {
    var s := u + "/#";
    var i := LevelsSyntaxComplete(u);
    assert s[..i] == u[..i] && s[i..|u|] == u[i..] && s[|u|..] == "/#";
    assert IsLevel(s[..i]) && IsMoreLevels(s[i..|u|]) && IsTrailer(s[|u|..]);
  }

  /** Every non-empty string with valid levels is accepted by the expression. */
  lemma ValidateComplete(s: string)
    requires s != [] && ValidLevels(Split(s))
    ensures Validate(s)
  {
    var levels := Split(s);
    var n := |levels|;
    if IsLevel(levels[n - 1]) {
      assert AllLevels(levels);
      CompleteWithoutHash(s);
    } else if n == 1 {
      JoinSplit(s);
    } else {
      var init := levels[..n - 1];
      assert AllLevels(init);
      assert levels == init + ["#"];
      JoinSplit(s);
      JoinSnoc(init, "#");
      SplitJoin(init);
      assert s == Join(init) + "/#";
      CompleteWithHash(Join(init));
    }
  }

  /**
   * The expression of src/topic.ts:2 and the level-wise grammar agree:
   * a string is a valid filter exactly when it is non-empty and its
   * levels are literals or `+`, with `#` allowed as the last level.
   */
  lemma ValidateIffLevels(s: string)
    ensures Validate(s) <==> s != [] && ValidLevels(Split(s))
  {
    if Validate(s) {
      ValidateSound(s);
    }
    if s != [] && ValidLevels(Split(s)) {
      ValidateComplete(s);
    }
  }

  /** In a valid filter every `+` is a whole level: a separator or an end of the filter stands on each side. */
  lemma PlusFillsLevel(s: string, i: nat)
    requires Validate(s) && i < |s| && s[i] == '+'
    ensures i == 0 || s[i - 1] == '/'
    ensures i == |s| - 1 || s[i + 1] == '/'
  {
    ValidateIffLevels(s);
    var k, lo, hi := LevelAt(s, i);
    var level := s[lo..hi];
    assert level[i - lo] == '+';
    assert level == "+";
  }

  /** In a valid filter a `#` is the whole last level: it ends the filter and starts it or follows a separator. */
  lemma HashEndsFilter(s: string, i: nat)
    requires Validate(s) && i < |s| && s[i] == '#'
    ensures i == |s| - 1
    ensures i == 0 || s[i - 1] == '/'
  {
    ValidateIffLevels(s);
    var k, lo, hi := LevelAt(s, i);
    var level := s[lo..hi];
    assert level[i - lo] == '#';
    assert !IsLevel(level);
    assert level == "#";
  }

  /** A valid filter holds at most one `#`. */
  lemma HashAtMostOnce(s: string)
    requires Validate(s)
    ensures Count(s, '#') <= 1
  {
    forall i | 0 <= i < |s| && s[i] == '#' ensures i == |s| - 1 {
      HashEndsFilter(s, i);
    }
    CountAtMostOneIfOnlyLast(s, '#');
  }

  /** The empty string is rejected by `!!topic` before the expression is tried. */
  lemma EmptyIsInvalid()
    ensures !Validate("")
  {
  }

  /** A bare `#` is a valid filter. */
  lemma HashAloneIsValid()
    ensures Validate("#")
  {
    SplitNoSeparator("#");
    ValidateComplete("#");
  }

  /** `a/+/c` is valid: `+` stands as a level of its own. */
  lemma PlusLevelIsValid()
    ensures Validate("a/+/c")
  {
    SplitNoSeparator("a");
    SplitNoSeparator("+");
    SplitNoSeparator("c");
    assert "+/c" == "+" + "/" + "c";
    SplitAtSeparator("+", "c");
    assert "a/+/c" == "a" + "/" + "+/c";
    SplitAtSeparator("a", "+/c");
    ValidateComplete("a/+/c");
  }

  /** `a/#` is valid: `#` stands as the last level. */
  lemma TrailingHashIsValid()
    ensures Validate("a/#")
  {
    SplitNoSeparator("a");
    SplitNoSeparator("#");
    assert "a/#" == "a" + "/" + "#";
    SplitAtSeparator("a", "#");
    ValidateComplete("a/#");
  }

  /** The expression admits any number of `+` levels. */
  lemma TwoPlusLevelsAreValid()
    ensures Validate("+/+")
  {
    SplitNoSeparator("+");
    assert "+/+" == "+" + "/" + "+";
    SplitAtSeparator("+", "+");
    ValidateComplete("+/+");
  }

  /** `a+b` is invalid: a wildcard may not share its level with other characters. */
  lemma PlusInsideLevelIsInvalid()
    ensures !Validate("a+b")
  {
    SplitNoSeparator("a+b");
    ValidateIffLevels("a+b");
  }

  /** `a/#/b` is invalid: `#` may only be the last level. */
  lemma InnerHashIsInvalid()
    ensures !Validate("a/#/b")
  {
    SplitNoSeparator("a");
    SplitNoSeparator("#");
    SplitNoSeparator("b");
    assert "#/b" == "#" + "/" + "b";
    SplitAtSeparator("#", "b");
    assert "a/#/b" == "a" + "/" + "#/b";
    SplitAtSeparator("a", "#/b");
    assert Split("a/#/b") == ["a", "#", "b"];
    assert Split("a/#/b")[1] == "#" && !IsLevel("#");
    ValidateIffLevels("a/#/b");
  }
}

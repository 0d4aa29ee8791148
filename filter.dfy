/**
 * `toFilter` of src/topic.ts, at the level of text: the regular
 * expression source it hands to `new RegExp`. Three `replace` calls
 * build the body: every character among `[ \ ^ $ . | ? * ( )` gets a
 * backslash in front (a global replace), then the FIRST `+` becomes
 * `[^/]*` and the FIRST `#` becomes `.*` (a string pattern replaces one
 * occurrence only); the body is then anchored with `^` and `$`.
 */
module TopicFilter {

  import opened Wrappers
  import opened Strings

  /** The characters the global replace of src/topic.ts:7 prefixes with a backslash. */
  predicate IsEscaped(c: char) {
    c == '[' || c == '\\' || c == '^' || c == '$' || c == '.' || c == '|' || c == '?' || c == '*' || c == '(' || c == ')'
  }

  /** The replacement for the first `+`: any run of characters other than `/`. */
  const SingleLevelPattern: string := "[^/]*"

  /** The replacement for the first `#`: any run without a line terminator. */
  const MultiLevelPattern: string := ".*"

  /** What the escaping step writes for one character. */
  function EscapeChar(c: char): string {
    if IsEscaped(c) then ['\\', c] else [c]
  }

  /** The escaping step, src/topic.ts:7. */
  function Escape(s: string): string {
    if s == [] then [] else EscapeChar(s[0]) + Escape(s[1..])
  }

  /**
   * Reads escaped text back: a backslash must be followed by one of the
   * escaped characters, which must not appear bare.
   */
  function Unescape(r: string): Option<string>
    decreases |r|
  {
    if r == [] then Some([])
    else if r[0] == '\\' then
      if |r| >= 2 && IsEscaped(r[1]) then Cons(r[1], Unescape(r[2..])) else None
    else if IsEscaped(r[0]) then None
    else Cons(r[0], Unescape(r[1..]))
  }

  lemma {:induction false} EscapeConcat(a: string, b: string)
    ensures Escape(a + b) == Escape(a) + Escape(b)
  {
    if a == [] {
      assert a + b == b;
    } else {
      assert (a + b)[0] == a[0] && (a + b)[1..] == a[1..] + b;
      EscapeConcat(a[1..], b);
    }
  }

  /** Escaping is undone by `Unescape`. */
  lemma {:induction false} UnescapeEscape(s: string)
    ensures Unescape(Escape(s)) == Some(s)
  {
    if s != [] {
      UnescapeEscape(s[1..]);
      var e := Escape(s);
      if IsEscaped(s[0]) {
        assert e[0] == '\\' && e[1] == s[0] && e[2..] == Escape(s[1..]);
      } else {
        assert e[0] == s[0] && e[1..] == Escape(s[1..]);
      }
      assert s == [s[0]] + s[1..];
    }
  }

  /** The only text `Unescape` reads as `s` is `Escape(s)`: escaping is the unique encoding. */
  lemma {:induction false} EscapeUnique(r: string, s: string)
    requires Unescape(r) == Some(s)
    ensures r == Escape(s)
    decreases |r|
  {
    if r != [] {
      if r[0] == '\\' {
        var t := Unescape(r[2..]).value;
        EscapeUnique(r[2..], t);
        assert s == [r[1]] + t;
        assert s[1..] == t;
        assert r == ['\\', r[1]] + r[2..];
      } else {
        var t := Unescape(r[1..]).value;
        EscapeUnique(r[1..], t);
        assert s == [r[0]] + t;
        assert s[1..] == t;
        assert r == [r[0]] + r[1..];
      }
    }
  }

  /** Escaping is characterised by its inverse. */
  lemma EscapeIffUnescape(r: string, s: string)
    ensures Unescape(r) == Some(s) <==> r == Escape(s)
  {
    if r == Escape(s) {
      UnescapeEscape(s);
    }
    if Unescape(r) == Some(s) {
      EscapeUnique(r, s);
    }
  }

  lemma {:induction false} EscapeLength(s: string)
    ensures |Escape(s)| >= |s|
  {
    if s != [] {
      EscapeLength(s[1..]);
    }
  }

  /** Escaping leaves a string unchanged exactly when it holds none of the escaped characters. */
  lemma {:induction false} EscapeUnchangedIff(s: string)
    ensures Escape(s) == s <==> forall i :: 0 <= i < |s| ==> !IsEscaped(s[i])
  {
    if s != [] {
      EscapeUnchangedIff(s[1..]);
      EscapeLength(s[1..]);
      if IsEscaped(s[0]) {
        assert |Escape(s)| > |s|;
      } else {
        assert Escape(s) == [s[0]] + Escape(s[1..]);
        assert s == [s[0]] + s[1..];
        assert (forall i :: 0 <= i < |s| ==> !IsEscaped(s[i])) <==>
               (forall i :: 0 <= i < |s[1..]| ==> !IsEscaped(s[1..][i])) by {
          if forall i :: 0 <= i < |s[1..]| ==> !IsEscaped(s[1..][i]) {
            forall i | 0 <= i < |s| ensures !IsEscaped(s[i]) {
              if i > 0 { assert s[i] == s[1..][i - 1]; }
            }
          }
        }
      }
    }
  }

  /** Escaping adds only backslashes, so the count of any other unescaped character is kept. */
  lemma {:induction false} EscapeKeepsCount(s: string, c: char)
    requires !IsEscaped(c)
    ensures Count(Escape(s), c) == Count(s, c)
  {
    if s != [] {
      EscapeKeepsCount(s[1..], c);
      CountConcat(EscapeChar(s[0]), Escape(s[1..]), c);
    }
  }

  /**
   * `String.prototype.replace` with a one-character string pattern: the
   * first occurrence of `target` is replaced by `replacement` (which holds
   * no `$`, so it is inserted as written); a string without `target` is
   * returned as it is.
   */
  function ReplaceFirst(s: string, target: char, replacement: string): string {
    if s == [] then []
    else if s[0] == target then replacement + s[1..]
    else [s[0]] + ReplaceFirst(s[1..], target, replacement)
  }

  /** `ReplaceFirst` splices `replacement` in place of the first `target` and keeps everything after it, later occurrences included. */
  lemma {:induction false} ReplaceFirstSplice(s: string, target: char, replacement: string)
    ensures target !in s ==> ReplaceFirst(s, target, replacement) == s
    ensures target in s ==>
      var i := FirstIndex(s, target);
      ReplaceFirst(s, target, replacement) == s[..i] + replacement + s[i + 1..]
  {
    if s != [] && s[0] == target {
      assert FirstIndex(s, target) == 0 && s[..0] == [];
    } else if s != [] {
      var tail := s[1..];
      ReplaceFirstSplice(tail, target, replacement);
      assert ReplaceFirst(s, target, replacement) == [s[0]] + ReplaceFirst(tail, target, replacement);
      if target in s {
        FirstIndexTail(s, target);
        ConsSplice(s, FirstIndex(tail, target), replacement);
      } else {
        assert s == [s[0]] + tail;
      }
    }
  }

  lemma {:induction false} ReplaceFirstConcat(a: string, b: string, target: char, replacement: string)
    ensures ReplaceFirst(a + b, target, replacement) ==
      if target in a then ReplaceFirst(a, target, replacement) + b else a + ReplaceFirst(b, target, replacement)
  {
    if a == [] {
      assert a + b == b;
    } else {
      var tail := a[1..];
      assert (a + b)[0] == a[0] && (a + b)[1..] == tail + b;
      if a[0] == target {
        assert ReplaceFirst(a, target, replacement) + b == replacement + (tail + b);
      } else {
        ReplaceFirstConcat(tail, b, target, replacement);
        assert a == [a[0]] + tail;
        assert target in a <==> target in tail;
        assert ReplaceFirst(a + b, target, replacement) == [a[0]] + ReplaceFirst(tail + b, target, replacement);
        assert ReplaceFirst(a, target, replacement) == [a[0]] + ReplaceFirst(tail, target, replacement);
      }
    }
  }

  /** Replacing once removes one `target` when there is one, and adds what `replacement` holds. */
  lemma {:induction false} ReplaceFirstCount(s: string, target: char, replacement: string, c: char)
    ensures Count(ReplaceFirst(s, target, replacement), c) ==
      if target in s then Count(s, c) - (if c == target then 1 else 0) + Count(replacement, c) else Count(s, c)
  {
    if s != [] {
      assert s == [s[0]] + s[1..];
      CountConcat([s[0]], s[1..], c);
      if s[0] == target {
        CountConcat(replacement, s[1..], c);
      } else {
        ReplaceFirstCount(s[1..], target, replacement, c);
        CountConcat([s[0]], ReplaceFirst(s[1..], target, replacement), c);
      }
    }
  }

  /** The body of the expression `toFilter` builds, src/topic.ts:6-9. */
  function FilterBody(topic: string): string {
    ReplaceFirst(ReplaceFirst(Escape(topic), '+', SingleLevelPattern), '#', MultiLevelPattern)
  }

  /** `toFilter(topic)`, as the source text of the regular expression, src/topic.ts:5-12. */
  function ToFilter(topic: string): (source: string)
    ensures |source| >= 2 && source[0] == '^' && source[|source| - 1] == '$'
    ensures |source| >= |topic| + 2
  {
    EscapeLength(topic);
    ReplaceFirstLength(Escape(topic), '+', SingleLevelPattern);
    ReplaceFirstLength(ReplaceFirst(Escape(topic), '+', SingleLevelPattern), '#', MultiLevelPattern);
    "^" + FilterBody(topic) + "$"
  }

  lemma {:induction false} ReplaceFirstLength(s: string, target: char, replacement: string)
    requires |replacement| >= 1
    ensures |ReplaceFirst(s, target, replacement)| >= |s|
  {
    if s != [] && s[0] != target {
      ReplaceFirstLength(s[1..], target, replacement);
    }
  }

  /**
   * A one-pass reading of the body: left to right, the first `+` gives
   * `[^/]*`, the first `#` gives `.*`, every other character is escaped.
   * `plusSeen` and `hashSeen` say whether the first one has gone by.
   */
  function Transduce(topic: string, plusSeen: bool, hashSeen: bool): string {
    if topic == [] then []
    else if topic[0] == '+' && !plusSeen then SingleLevelPattern + Transduce(topic[1..], true, hashSeen)
    else if topic[0] == '#' && !hashSeen then MultiLevelPattern + Transduce(topic[1..], plusSeen, true)
    else EscapeChar(topic[0]) + Transduce(topic[1..], plusSeen, hashSeen)
  }

  /** What the two wildcard replacements do to `s`, given which of them have already been spent. */
  function ReplaceWildcards(s: string, plusSeen: bool, hashSeen: bool): string {
    var afterPlus := if plusSeen then s else ReplaceFirst(s, '+', SingleLevelPattern);
    if hashSeen then afterPlus else ReplaceFirst(afterPlus, '#', MultiLevelPattern)
  }

  lemma ReplaceWildcardsAfterPlain(c: char, e: string, plusSeen: bool, hashSeen: bool)
    requires c != '+' || plusSeen
    requires c != '#' || hashSeen
    ensures ReplaceWildcards(EscapeChar(c) + e, plusSeen, hashSeen) == EscapeChar(c) + ReplaceWildcards(e, plusSeen, hashSeen)
  {
    var a := EscapeChar(c);
    ReplaceFirstConcat(a, e, '+', SingleLevelPattern);
    var r := if plusSeen then e else ReplaceFirst(e, '+', SingleLevelPattern);
    ReplaceFirstConcat(a, r, '#', MultiLevelPattern);
  }

  lemma ReplaceWildcardsAfterPlus(e: string, hashSeen: bool)
    ensures ReplaceWildcards("+" + e, false, hashSeen) == SingleLevelPattern + ReplaceWildcards(e, true, hashSeen)
  {
    assert ReplaceFirst("+" + e, '+', SingleLevelPattern) == SingleLevelPattern + e;
    ReplaceFirstConcat(SingleLevelPattern, e, '#', MultiLevelPattern);
  }

  lemma ReplaceWildcardsAfterHash(e: string, plusSeen: bool)
    ensures ReplaceWildcards("#" + e, plusSeen, false) == MultiLevelPattern + ReplaceWildcards(e, plusSeen, true)
  {
    var r := if plusSeen then e else ReplaceFirst(e, '+', SingleLevelPattern);
    assert (if plusSeen then "#" + e else ReplaceFirst("#" + e, '+', SingleLevelPattern)) == "#" + r;
    assert ReplaceFirst("#" + r, '#', MultiLevelPattern) == MultiLevelPattern + r;
  }

  lemma {:induction false} TransduceFrom(topic: string, plusSeen: bool, hashSeen: bool)
    ensures ReplaceWildcards(Escape(topic), plusSeen, hashSeen) == Transduce(topic, plusSeen, hashSeen)
  {
    if topic != [] {
      var c, rest := topic[0], topic[1..];
      assert Escape(topic) == EscapeChar(c) + Escape(rest);
      if c == '+' && !plusSeen {
        TransduceFrom(rest, true, hashSeen);
        ReplaceWildcardsAfterPlus(Escape(rest), hashSeen);
      } else if c == '#' && !hashSeen {
        TransduceFrom(rest, plusSeen, true);
        ReplaceWildcardsAfterHash(Escape(rest), plusSeen);
      } else {
        TransduceFrom(rest, plusSeen, hashSeen);
        ReplaceWildcardsAfterPlain(c, Escape(rest), plusSeen, hashSeen);
      }
    }
  }

  /** The three replace calls produce the one-pass reading. */
  lemma FilterBodyIsTransduced(topic: string)
    ensures FilterBody(topic) == Transduce(topic, false, false)
  {
    TransduceFrom(topic, false, false);
  }

  lemma PatternsHoldNoWildcard()
    ensures Count(SingleLevelPattern, '+') == 0 && Count(SingleLevelPattern, '#') == 0
    ensures Count(MultiLevelPattern, '+') == 0 && Count(MultiLevelPattern, '#') == 0
  {
  }

  /** Only the first `+` is rewritten; every later one is still in the body. */
  lemma FilterBodyPlusCount(topic: string)
    ensures Count(FilterBody(topic), '+') == if Count(topic, '+') == 0 then 0 else Count(topic, '+') - 1
  {
    var e := Escape(topic);
    var p := ReplaceFirst(e, '+', SingleLevelPattern);
    PatternsHoldNoWildcard();
    EscapeKeepsCount(topic, '+');
    ReplaceFirstCount(e, '+', SingleLevelPattern, '+');
    ReplaceFirstCount(p, '#', MultiLevelPattern, '+');
  }

  /** Only the first `#` is rewritten; every later one is still in the body. */
  lemma FilterBodyHashCount(topic: string)
    ensures Count(FilterBody(topic), '#') == if Count(topic, '#') == 0 then 0 else Count(topic, '#') - 1
  {
    var e := Escape(topic);
    var p := ReplaceFirst(e, '+', SingleLevelPattern);
    PatternsHoldNoWildcard();
    EscapeKeepsCount(topic, '#');
    ReplaceFirstCount(e, '+', SingleLevelPattern, '#');
    assert Count(p, '#') == Count(topic, '#');
    ReplaceFirstCount(p, '#', MultiLevelPattern, '#');
  }

  /** Without wildcards the filter is the escaped topic between the anchors. */
  lemma ToFilterWithoutWildcards(topic: string)
    requires '+' !in topic && '#' !in topic
    ensures ToFilter(topic) == "^" + Escape(topic) + "$"
  {
    EscapeKeepsCount(topic, '+');
    EscapeKeepsCount(topic, '#');
    ReplaceFirstSplice(Escape(topic), '+', SingleLevelPattern);
    ReplaceFirstSplice(Escape(topic), '#', MultiLevelPattern);
  }

  /** A topic without wildcards and without escaped characters passes through unchanged. */
  lemma ToFilterPlainTopic(topic: string)
    requires '+' !in topic && '#' !in topic
    requires NoEscaped(topic)
    ensures ToFilter(topic) == "^" + topic + "$"
  {
    ToFilterWithoutWildcards(topic);
    EscapeUnchangedIff(topic);
  }

  predicate NoEscaped(s: string) {
    forall i :: 0 <= i < |s| ==> !IsEscaped(s[i])
  }

  lemma ReplaceFirstAfterPlain(p: string, q: string, target: char, replacement: string)
    requires target !in p
    ensures ReplaceFirst(p + [target] + q, target, replacement) == p + replacement + q
  {
    var f := p + [target] + q;
    assert f[..|p|] == p && f[|p| + 1..] == q;
    FirstIndexUnique(f, target, |p|);
    ReplaceFirstSplice(f, target, replacement);
  }

  /**
   * Only the first `+` becomes `[^/]*`: with no `+` before it, the body is
   * the escaped text with that one `+` replaced, and every later `+` (which
   * escaping keeps) stays as written; only the `#` step remains to apply.
   */
  lemma FilterBodyFirstPlus(p: string, q: string)
    requires '+' !in p
    ensures FilterBody(p + "+" + q) == ReplaceFirst(Escape(p) + SingleLevelPattern + Escape(q), '#', MultiLevelPattern)
  {
    EscapeConcat(p, "+");
    EscapeConcat(p + "+", q);
    assert Escape("+") == "+";
    EscapeKeepsCount(p, '+');
    ReplaceFirstAfterPlain(Escape(p), Escape(q), '+', SingleLevelPattern);
  }
}

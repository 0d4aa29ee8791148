/**
 * Topic levels: a topic or a topic filter read as the `/`-separated
 * sequence of its levels, as in section 4.7.1 of MQTT 3.1.1. Splitting
 * keeps empty levels, so "/a" has the empty level first and "a//b" has
 * one in the middle; no normalisation of repeated separators happens.
 */
module TopicLevels {

  import opened Strings

  /** The levels of `s`, in order; like JavaScript's `s.split("/")`. */
  function Split(s: string): (levels: seq<string>)
    ensures |levels| >= 1
    ensures forall k :: 0 <= k < |levels| ==> '/' !in levels[k]
  {
    if s == [] then [[]]
    else if s[0] == '/' then [[]] + Split(s[1..])
    else
      var rest := Split(s[1..]);
      [[s[0]] + rest[0]] + rest[1..]
  }

  /** The levels written back with `/` between them. */
  function Join(levels: seq<string>): string
    requires |levels| >= 1
  {
    if |levels| == 1 then levels[0] else levels[0] + "/" + Join(levels[1..])
  }

  lemma {:induction false} SplitNoSeparator(s: string)
    requires '/' !in s
    ensures Split(s) == [s]
  {
    if s != [] {
      assert '/' !in s[1..] by {
        forall i | 0 <= i < |s[1..]| ensures s[1..][i] != '/' { assert s[1..][i] == s[i + 1]; }
      }
      SplitNoSeparator(s[1..]);
      assert [s[0]] + s[1..] == s;
    }
  }

  /** Splitting distributes over a separator. */
  lemma {:induction false} SplitAtSeparator(u: string, v: string)
    ensures Split(u + "/" + v) == Split(u) + Split(v)
  {
    if u == [] {
      assert u + "/" + v == "/" + v;
      assert ("/" + v)[1..] == v;
    } else {
      assert (u + "/" + v)[0] == u[0];
      assert (u + "/" + v)[1..] == u[1..] + "/" + v;
      SplitAtSeparator(u[1..], v);
    }
  }

  /** A string with a separator has its first level before the first separator. */
  lemma SplitAtFirstSeparator(s: string, j: nat)
    requires j < |s| && s[j] == '/' && '/' !in s[..j]
    ensures Split(s) == [s[..j]] + Split(s[j + 1..])
  {
    assert s == s[..j] + "/" + s[j + 1..];
    SplitAtSeparator(s[..j], s[j + 1..]);
    SplitNoSeparator(s[..j]);
  }

  /** A string has a single level exactly when it has no separator. */
  lemma SingleLevelIff(s: string)
    ensures |Split(s)| == 1 <==> '/' !in s
    ensures '/' !in s ==> Split(s)[0] == s
  {
    if '/' in s {
      SplitAtFirstSeparator(s, FirstIndex(s, '/'));
    } else {
      SplitNoSeparator(s);
    }
  }

  /** A run of separators consists of empty levels only. */
  lemma {:induction false} SplitSeparators(s: string)
    requires forall i :: 0 <= i < |s| ==> s[i] == '/'
    ensures forall k :: 0 <= k < |Split(s)| ==> Split(s)[k] == []
  {
    if s != [] {
      SplitSeparators(s[1..]);
    }
  }

  /** Joining undoes splitting. */
  lemma {:induction false} JoinSplit(s: string)
    ensures Join(Split(s)) == s
  {
    if s != [] {
      JoinSplit(s[1..]);
      var rest := Split(s[1..]);
      if s[0] == '/' {
        assert ([[]] + rest)[1..] == rest;
      } else if |rest| > 1 {
        assert ([[s[0]] + rest[0]] + rest[1..])[1..] == rest[1..];
        assert s == [s[0]] + s[1..];
      } else {
        assert s == [s[0]] + s[1..];
      }
    }
  }

  /** Splitting undoes joining levels that hold no separator. */
  lemma {:induction false} SplitJoin(levels: seq<string>)
    requires |levels| >= 1
    requires forall k :: 0 <= k < |levels| ==> '/' !in levels[k]
    ensures Split(Join(levels)) == levels
  {
    SplitNoSeparator(levels[0]);
    if |levels| > 1 {
      SplitJoin(levels[1..]);
      SplitAtSeparator(levels[0], Join(levels[1..]));
      assert levels == [levels[0]] + levels[1..];
    }
  }

  lemma {:induction false} JoinSnoc(levels: seq<string>, last: string)
    requires |levels| >= 1
    ensures Join(levels + [last]) == Join(levels) + "/" + last
  {
    if |levels| == 1 {
      assert (levels + [last])[1..] == [last];
    } else {
      assert (levels + [last])[1..] == levels[1..] + [last];
      JoinSnoc(levels[1..], last);
    }
  }

  /**
   * `Split(s)[k]` is `s[lo..hi]` and holds position `i`: the span is
   * bounded by the ends of `s` or by separators, and it is the first
   * level exactly when it starts at 0 and the last exactly when it ends
   * at `|s|`.
   */
  predicate IsLevelSpan(s: string, i: nat, k: nat, lo: nat, hi: nat) {
    && lo <= i < hi <= |s|
    && k < |Split(s)| && Split(s)[k] == s[lo..hi]
    && (lo == 0 || s[lo - 1] == '/')
    && (hi == |s| || s[hi] == '/')
    && (k == 0 <==> lo == 0)
    && (k == |Split(s)| - 1 <==> hi == |s|)
  }

  /** Every character other than `/` lies inside one level. */
  lemma LevelAt(s: string, i: nat) returns (k: nat, lo: nat, hi: nat)
    requires i < |s| && s[i] != '/'
    ensures IsLevelSpan(s, i, k, lo, hi)
    decreases |s|, 1
  {
    if s[0] == '/' {
      k, lo, hi := LevelAtAfterSeparator(s, i);
    } else if i == 0 && (|s| == 1 || s[1] == '/') {
      k, lo, hi := LevelAtLoneFirst(s);
    } else {
      k, lo, hi := LevelAtInFirstOrLater(s, i);
    }
  }

  lemma LevelAtAfterSeparator(s: string, i: nat) returns (k: nat, lo: nat, hi: nat)
    requires i < |s| && s[i] != '/' && s[0] == '/'
    ensures IsLevelSpan(s, i, k, lo, hi)
    decreases |s|, 0
  {
    var k', lo', hi' := LevelAt(s[1..], i - 1);
    k, lo, hi := k' + 1, lo' + 1, hi' + 1;
    TailSlice(s, lo', hi');
  }

  lemma LevelAtLoneFirst(s: string) returns (k: nat, lo: nat, hi: nat)
    requires |s| >= 1 && s[0] != '/' && (|s| == 1 || s[1] == '/')
    ensures IsLevelSpan(s, 0, k, lo, hi)
  {
    k, lo, hi := 0, 0, 1;
    var rest := Split(s[1..]);
    assert rest[0] == [];
    assert s[0..1] == [s[0]];
    if |s| > 1 {
      assert |rest| >= 2;
    }
  }

  lemma LevelAtInFirstOrLater(s: string, i: nat) returns (k: nat, lo: nat, hi: nat)
    requires i < |s| && s[i] != '/' && s[0] != '/' && !(i == 0 && (|s| == 1 || s[1] == '/'))
    ensures IsLevelSpan(s, i, k, lo, hi)
    decreases |s|, 0
  {
    var j := if i == 0 then 0 else i - 1;
    var k', lo', hi' := LevelAt(s[1..], j);
    TailSlice(s, lo', hi');
    if k' == 0 {
      k, lo, hi := 0, 0, hi' + 1;
    } else {
      k, lo, hi := k', lo' + 1, hi' + 1;
    }
  }
}

/** Small facts about strings, shared by the validation and compilation models. */
module Strings {

  /** The number of occurrences of `c` in `s`. */
  function Count(s: string, c: char): (n: nat)
    ensures n <= |s|
    ensures n == 0 <==> c !in s
  {
    if s == [] then 0
    else
      assert s == [s[0]] + s[1..];
      (if s[0] == c then 1 else 0) + Count(s[1..], c)
  }

  lemma CountConcat(a: string, b: string, c: char)
    ensures Count(a + b, c) == Count(a, c) + Count(b, c)
  {
    if a != [] {
      assert (a + b)[1..] == a[1..] + b;
      CountConcat(a[1..], b, c);
    } else {
      assert a + b == b;
    }
  }

  /** The position of the first occurrence of `c` in `s`. */
  function FirstIndex(s: string, c: char): (i: nat)
    requires c in s
    ensures i < |s| && s[i] == c && c !in s[..i]
  {
    if s[0] == c then 0
    else
      assert s == [s[0]] + s[1..];
      var j := FirstIndex(s[1..], c);
      assert s[..j + 1] == [s[0]] + s[1..][..j];
      j + 1
  }

  /** A character that may only stand in the last position occurs at most once. */
  lemma {:induction false} CountAtMostOneIfOnlyLast(s: string, c: char)
    requires forall i :: 0 <= i < |s| && s[i] == c ==> i == |s| - 1
    ensures Count(s, c) <= 1
  {
    if s != [] {
      if s[0] == c {
        assert |s| == 1;
      } else {
        forall i | 0 <= i < |s[1..]| && s[1..][i] == c
          ensures i == |s[1..]| - 1
        {
          assert s[i + 1] == c;
        }
        CountAtMostOneIfOnlyLast(s[1..], c);
      }
    }
  }

  /** A position holding `c` with no `c` before it is the first index of `c`. */
  lemma FirstIndexUnique(s: string, c: char, k: nat)
    requires k < |s| && s[k] == c && c !in s[..k]
    ensures FirstIndex(s, c) == k
  {
  }

  /** Past a first character other than `c`, the first `c` is one further on in `s` than in its tail. */
  lemma FirstIndexTail(s: string, c: char)
    requires c in s && s[0] != c
    ensures c in s[1..] && FirstIndex(s, c) == FirstIndex(s[1..], c) + 1
  {
    assert s == [s[0]] + s[1..];
  }

  /** Splicing `r` at position `j` of the tail, with the first character put back, splices it at `j + 1`. */
  lemma ConsSplice(s: string, j: nat, r: string)
    requires j + 1 < |s|
    ensures [s[0]] + (s[1..][..j] + r + s[1..][j + 1..]) == s[..j + 1] + r + s[j + 2..]
  {
    assert s[..j + 1] == [s[0]] + s[1..][..j];
    assert s[j + 2..] == s[1..][j + 1..];
  }

  /** Cutting `s[1..]` at a `/` in position `k` of `s`. */
  lemma SeparatorSlices(s: string, k: nat)
    requires 1 <= k < |s| && s[k..][0] == '/'
    ensures s[1..] == s[1..k] + "/" + s[k..][1..]
  {
    assert s[k..][1..] == s[k + 1..];
  }

  /** The slices of a suffix `s[a..]` in terms of `s` itself. */
  lemma SuffixSlices(s: string, a: nat, b: nat)
    requires a + b <= |s|
    ensures s[a..][|s| - a - b..] == s[|s| - b..]
    ensures s[a..][..|s| - a - b] == s[a..|s| - b]
  {
  }

  /** `u` ends in `w`, and what comes before that is free of `/`. */
  predicate SlashFreeThen(u: string, w: string) {
    |u| >= |w| && u[|u| - |w|..] == w && '/' !in u[..|u| - |w|]
  }

  /** The same condition on the suffix `s[a..]`, read on `s` itself. */
  lemma SuffixCondition(s: string, a: nat, w: string)
    requires a <= |s|
    ensures SlashFreeThen(s[a..], w) <==> |s| >= a + |w| && s[|s| - |w|..] == w && '/' !in s[a..|s| - |w|]
  {
    if |s| >= a + |w| {
      SuffixSlices(s, a, |w|);
    }
  }

  /** A slice of the tail `s[1..]` is the slice of `s` one position further on. */
  lemma TailSlice(s: string, lo: nat, hi: nat)
    requires lo <= hi < |s|
    ensures s[1..][lo..hi] == s[lo + 1..hi + 1]
    ensures s[..hi + 1] == [s[0]] + s[1..][..hi]
  {
  }

  /** `w` is a prefix of `s` when their first characters agree and the rest of `w` is a prefix of the rest of `s`. */
  lemma PrefixStep(s: string, w: string)
    requires s != [] && w != []
    ensures (|s| >= |w| && s[..|w|] == w) <==>
      (s[0] == w[0] && |s[1..]| >= |w[1..]| && s[1..][..|w[1..]|] == w[1..])
    ensures |s| >= |w| ==> s[1..][|w[1..]|..] == s[|w|..]
  {
    if |s| >= |w| {
      assert s[..|w|] == [s[0]] + s[1..][..|w| - 1];
      assert w == [w[0]] + w[1..];
    }
  }
}

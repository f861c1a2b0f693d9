/** Facts about suffixes of words that the failure links and the scanner rest on.
    Words are `string`s; a set `K` of words stands for the labels of a trie. */
module Suffixes {

  /** `u` is a suffix of `w`. */
  predicate IsSuffix(u: string, w: string)
  {
    |u| <= |w| && u == w[|w| - |u|..]
  }

  /** A suffix of `w[1..]` is a suffix of `w`. */
  lemma SuffixOfTail(u: string, w: string)
    requires w != [] && IsSuffix(u, w[1..])
    ensures IsSuffix(u, w) && |u| < |w|
  {
    assert w[1..][|w| - 1 - |u|..] == w[|w| - |u|..];
  }

  /** Every non-empty word of `K` has its one-shorter prefix in `K`
      (the labels of a trie are closed under taking prefixes). */
  ghost predicate PrefixClosed(K: set<string>)
  {
    forall u :: u in K && u != [] ==> u[..|u| - 1] in K
  }

  /** The longest suffix of `s` that lies in `K`; the empty word when no
      non-empty one does. */
  function LongestSuffix(K: set<string>, s: string): (r: string)
    ensures IsSuffix(r, s)
    ensures r in K || r == []
    ensures forall k :: 0 <= k <= |s| && s[k..] in K ==> |s| - k <= |r|
    decreases |s|
  {
    if s == [] || s in K then s
    else
      var r := LongestSuffix(K, s[1..]);
      SuffixOfTail(r, s);
      LongerThanTail(K, s, r);
      r
  }

  /** When `s` itself is not in `K`, a bound on the suffixes of `s[1..]` in
      `K` bounds those of `s`. */
  lemma LongerThanTail(K: set<string>, s: string, r: string)
    requires s != [] && s !in K
    requires forall k :: 0 <= k <= |s[1..]| && s[1..][k..] in K ==> |s[1..]| - k <= |r|
    ensures forall k :: 0 <= k <= |s| && s[k..] in K ==> |s| - k <= |r|
  {
    forall k | 0 <= k <= |s| && s[k..] in K
      ensures |s| - k <= |r|
    {
      assert k != 0;
      assert s[1..][k - 1..] == s[k..];
    }
  }

  /** `LongestSuffix` is determined by its contract: a suffix of `s` in `K`
      that no longer suffix in `K` beats is the longest one. */
  lemma LongestSuffixUnique(K: set<string>, s: string, r: string)
    requires IsSuffix(r, s) && r in K
    requires forall k :: 0 <= k <= |s| && s[k..] in K ==> |s| - k <= |r|
    ensures LongestSuffix(K, s) == r
  {
    var l := LongestSuffix(K, s);
    assert s[|s| - |r|..] == r;
    if l in K {
      assert s[|s| - |l|..] == l;
    }
  }

  /** While the walk along a failure chain stands at a suffix of `w` of
      length `len` (`-1` once it has left the root), no suffix `w[j..]` with
      `lo <= j` that is longer than `len` and lies in `K` can be extended by
      `c` inside `K`. */
  ghost predicate NoLongerExtension(K: set<string>, w: string, lo: nat, len: int, c: char)
  {
    forall j :: lo <= j <= |w| && |w| - j > len && w[j..] in K ==> w[j..] + [c] !in K
  }

  /** A walk that starts at the longest suffix of `w[lo..]` in `K` has
      skipped nothing. */
  lemma StartWalk(K: set<string>, w: string, lo: nat, c: char)
    requires 0 <= lo <= |w|
    ensures NoLongerExtension(K, w, lo, |LongestSuffix(K, w[lo..])|, c)
  {
    forall j | lo <= j <= |w| && w[j..] in K
      ensures |w| - j <= |LongestSuffix(K, w[lo..])|
    {
      assert w[lo..][j - lo..] == w[j..];
    }
  }

  /** One step along the failure chain: from a suffix `f` of `w` that has no
      `c`-extension in `K` to the longest proper suffix of `f` in `K`, or,
      from the empty word, to "no node at all" (length `-1`). Nothing that
      could be extended is skipped, and the new position is again a suffix of
      `w` that starts at or after `lo`. */
  lemma FollowFailure(K: set<string>, w: string, lo: nat, f: string, c: char)
    requires 0 <= lo && IsSuffix(f, w) && |w| - |f| >= lo
    requires NoLongerExtension(K, w, lo, |f|, c)
    requires f in K && f + [c] !in K
    ensures f != [] ==> IsSuffix(LongestSuffix(K, f[1..]), w)
    ensures f != [] ==> |w| - |LongestSuffix(K, f[1..])| >= lo + 1
    ensures NoLongerExtension(K, w, lo, if f == [] then -1 else |LongestSuffix(K, f[1..])|, c)
  {
    var len := if f == [] then -1 else |LongestSuffix(K, f[1..])|;
    forall j | lo <= j <= |w| && |w| - j > len && w[j..] in K
      ensures w[j..] + [c] !in K
    {
      if |w| - j < |f| {
        ShorterSuffixBounded(K, w, f, j);
      } else if |w| - j == |f| {
        assert w[j..] == f;
      }
    }
    if f != [] {
      TailSuffix(w, f, LongestSuffix(K, f[1..]));
    }
  }

  /** A suffix of `f[1..]`, for a suffix `f` of `w`, is a suffix of `w`. */
  lemma TailSuffix(w: string, f: string, l: string)
    requires IsSuffix(f, w) && f != [] && IsSuffix(l, f[1..])
    ensures IsSuffix(l, w) && |l| < |f|
  {
    assert w[|w| - |f|..] == f;
    assert f[1..][|f[1..]| - |l|..] == w[|w| - |l|..];
  }

  /** A suffix of `w` shorter than its suffix `f` is a suffix of `f[1..]`,
      so one in `K` is no longer than `LongestSuffix(K, f[1..])`. */
  lemma ShorterSuffixBounded(K: set<string>, w: string, f: string, j: int)
    requires IsSuffix(f, w) && 0 <= j <= |w| && |w| - j < |f|
    requires w[j..] in K
    ensures |w| - j <= |LongestSuffix(K, f[1..])|
  {
    var k := j - (|w| - |f|) - 1;
    assert f[1..][k..] == w[j..];
  }

  /** A non-empty suffix of `(w + [c])[lo..]` is a suffix of `w` followed by `c`. */
  lemma SplitLast(w: string, c: char, lo: nat, k: nat)
    requires lo <= |w| && k < |(w + [c])[lo..]|
    ensures (w + [c])[lo..][k..] == w[lo + k..] + [c]
  {
  }

  /** The walk stopped at a suffix `f` of `w` that has a `c`-extension in
      `K`: that extension is the longest suffix of `(w + [c])[lo..]` in
      `K`. */
  lemma WalkFound(K: set<string>, w: string, lo: nat, f: string, c: char)
    requires 0 <= lo <= |w| && IsSuffix(f, w) && |w| - |f| >= lo
    requires PrefixClosed(K)
    requires NoLongerExtension(K, w, lo, |f|, c)
    requires f + [c] in K
    ensures LongestSuffix(K, (w + [c])[lo..]) == f + [c]
  {
    var s := (w + [c])[lo..];
    var r := f + [c];
    assert w[|w| - |f|..] == f;
    assert s[|s| - |r|..] == r;
    forall k | 0 <= k <= |s| && s[k..] in K
      ensures |s| - k <= |r|
    {
      if k < |s| {
        SplitLast(w, c, lo, k);
      }
    }
    LongestSuffixUnique(K, s, r);
  }

  /** The walk ran off the root: no suffix of `(w + [c])[lo..]` other than
      the empty word lies in `K`. */
  lemma WalkExhausted(K: set<string>, w: string, lo: nat, c: char)
    requires 0 <= lo <= |w|
    requires PrefixClosed(K)
    requires NoLongerExtension(K, w, lo, -1, c)
    ensures LongestSuffix(K, (w + [c])[lo..]) == []
  {
    var s := (w + [c])[lo..];
    var l := LongestSuffix(K, s);
    if l != [] {
      SplitLast(w, c, lo, |s| - |l|);
    }
  }
}

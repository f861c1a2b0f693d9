/** What a scan of a text must report, stated independently of any automaton:
    the matches ending at each text position, in the order the scanner emits
    them, and the facts that make that order sound, complete and free of
    repetition. */
module MatchSpec {
  import opened Suffixes

  /** One reported occurrence: where it starts, which pattern, and the value
      the pattern was registered with. */
  datatype Match<V> = Match(index: int, pattern: string, value: V)

  /** No pattern is the empty word. */
  ghost predicate NonEmptyPatterns<V>(M: map<string, V>)
  {
    forall p :: p in M ==> p != []
  }

  /** The entry a node labelled `w` receives when the trie is built: the
      pattern `w` itself with its value, if `w` is a pattern. */
  function Own<V>(M: map<string, V>, w: string): (r: seq<(string, V)>)
    ensures |r| <= 1
  {
    if w in M then [(w, M[w])] else []
  }

  /** The entries of the patterns that are suffixes of `w`, longest first. */
  function SuffixOutputs<V>(M: map<string, V>, w: string): (r: seq<(string, V)>)
    decreases |w|
  {
    Own(M, w) + (if w == [] then [] else SuffixOutputs(M, w[1..]))
  }

  /** `SuffixOutputs(M, w)` lists exactly the patterns that are suffixes of
      `w`, each with its value, each once, in strictly decreasing length. */
  lemma {:induction false} SuffixOutputsSpec<V>(M: map<string, V>, w: string)
    ensures forall k :: 0 <= k < |SuffixOutputs(M, w)| ==>
      var e := SuffixOutputs(M, w)[k];
      e.0 in M && e.1 == M[e.0] && IsSuffix(e.0, w)
    ensures forall j :: 0 <= j <= |w| && w[j..] in M ==> (w[j..], M[w[j..]]) in SuffixOutputs(M, w)
    ensures forall k1, k2 :: 0 <= k1 < k2 < |SuffixOutputs(M, w)| ==>
      |SuffixOutputs(M, w)[k1].0| > |SuffixOutputs(M, w)[k2].0|
    decreases |w|
  {
    if w != [] {
      var rest := SuffixOutputs(M, w[1..]);
      SuffixOutputsSpec(M, w[1..]);
      assert SuffixOutputs(M, w) == Own(M, w) + rest;
      forall k | 0 <= k < |rest|
        ensures IsSuffix(rest[k].0, w) && |rest[k].0| < |w|
      {
        assert w[1..][|w| - 1 - |rest[k].0|..] == w[|w| - |rest[k].0|..];
      }
      forall j | 1 <= j <= |w| && w[j..] in M
        ensures (w[j..], M[w[j..]]) in rest
      {
        assert w[1..][j - 1..] == w[j..];
      }
    }
  }

  /** Any pattern that is a suffix of `s` is a word of `K`, so the patterns
      ending `s` are exactly those ending the longest suffix of `s` in `K`. */
  lemma {:induction false} SuffixOutputsOfLongest<V>(M: map<string, V>, K: set<string>, s: string)
    requires M.Keys <= K
    ensures SuffixOutputs(M, s) == SuffixOutputs(M, LongestSuffix(K, s))
    decreases |s|
  {
    if s != [] && s !in K {
      assert LongestSuffix(K, s) == LongestSuffix(K, s[1..]);
      assert SuffixOutputs(M, s) == SuffixOutputs(M, s[1..]);
      SuffixOutputsOfLongest(M, K, s[1..]);
    }
  }

  /** The matches a scanner emits at text position `i` for the entries `es`
      of the node it stands on. */
  function Emit<V>(es: seq<(string, V)>, i: int): (r: seq<Match<V>>)
    ensures |r| == |es|
  {
    seq(|es|, k requires 0 <= k < |es| => Match(i - |es[k].0| + 1, es[k].0, es[k].1))
  }

  /** The matches reported for `t`: position by position, the patterns that
      end there, longest first. */
  function Matches<V>(M: map<string, V>, t: string): (r: seq<Match<V>>)
    decreases |t|
  {
    if t == [] then [] else Matches(M, t[..|t| - 1]) + Emit(SuffixOutputs(M, t), |t| - 1)
  }

  /** `x` is an occurrence in `t` of a registered pattern, with its value. */
  ghost predicate Occurs<V>(M: map<string, V>, t: string, x: Match<V>)
  {
    && x.pattern in M
    && x.value == M[x.pattern]
    && 0 <= x.index
    && x.index + |x.pattern| <= |t|
    && t[x.index..x.index + |x.pattern|] == x.pattern
  }

  /** One past the last text position a match covers. */
  function End<V>(x: Match<V>): int
  {
    x.index + |x.pattern|
  }

  /** Scan order: earlier end first; at the same end, the longer pattern first. */
  predicate Precedes<V>(x: Match<V>, y: Match<V>)
  {
    End(x) < End(y) || (End(x) == End(y) && |x.pattern| > |y.pattern|)
  }

  /** Soundness: every reported match is a real occurrence of its pattern,
      inside the text, with the pattern's value. */
  lemma {:induction false} MatchesSound<V>(M: map<string, V>, t: string)
    ensures forall k :: 0 <= k < |Matches(M, t)| ==> Occurs(M, t, Matches(M, t)[k])
    decreases |t|
  {
    if t != [] {
      var t' := t[..|t| - 1];
      var prev := Matches(M, t');
      var es := SuffixOutputs(M, t);
      MatchesSound(M, t');
      SuffixOutputsSpec(M, t);
      var em := Emit(es, |t| - 1);
      assert Matches(M, t) == prev + em;
      forall k | 0 <= k < |prev|
        ensures Occurs(M, t, prev[k])
      {
        var x := prev[k];
        assert t'[x.index..x.index + |x.pattern|] == t[x.index..x.index + |x.pattern|];
      }
      forall k | 0 <= k < |em|
        ensures Occurs(M, t, em[k])
      {
        assert t[|t| - |es[k].0|..] == t[|t| - |es[k].0|..|t|];
      }
    }
  }

  /** The matches come in scan order: by end position, and longest first
      among those that end together. */
  lemma {:induction false} MatchesOrdered<V>(M: map<string, V>, t: string)
    ensures forall k1, k2 :: 0 <= k1 < k2 < |Matches(M, t)| ==>
      Precedes(Matches(M, t)[k1], Matches(M, t)[k2])
    decreases |t|
  {
    if t != [] {
      var t' := t[..|t| - 1];
      var prev := Matches(M, t');
      var em := Emit(SuffixOutputs(M, t), |t| - 1);
      MatchesOrdered(M, t');
      MatchesSound(M, t');
      SuffixOutputsSpec(M, t);
      assert Matches(M, t) == prev + em;
      assert forall k :: 0 <= k < |prev| ==> End(prev[k]) <= |t| - 1;
      assert forall k :: 0 <= k < |em| ==> End(em[k]) == |t|;
    }
  }

  /** Completeness: every occurrence of every (non-empty) pattern is reported. */
  lemma {:induction false} MatchesComplete<V>(M: map<string, V>, t: string, x: Match<V>)
    requires NonEmptyPatterns(M)
    requires Occurs(M, t, x)
    ensures x in Matches(M, t)
    decreases |t|
  {
    var t' := t[..|t| - 1];
    var es := SuffixOutputs(M, t);
    assert Matches(M, t) == Matches(M, t') + Emit(es, |t| - 1);
    if End(x) == |t| {
      SuffixOutputsSpec(M, t);
      assert t[x.index..] == x.pattern;
      var q :| 0 <= q < |es| && es[q] == (t[x.index..], M[t[x.index..]]);
      assert Emit(es, |t| - 1)[q] == x;
    } else {
      assert t'[x.index..x.index + |x.pattern|] == t[x.index..x.index + |x.pattern|];
      MatchesComplete(M, t', x);
    }
  }

  /** Each occurrence is reported exactly once. */
  lemma MatchesExactlyOnce<V>(M: map<string, V>, t: string, x: Match<V>)
    requires NonEmptyPatterns(M)
    requires Occurs(M, t, x)
    ensures exists k :: 0 <= k < |Matches(M, t)| && Matches(M, t)[k] == x
    ensures forall k1, k2 ::
      (0 <= k1 < |Matches(M, t)| && 0 <= k2 < |Matches(M, t)| &&
       Matches(M, t)[k1] == x && Matches(M, t)[k2] == x) ==> k1 == k2
  {
    MatchesComplete(M, t, x);
    MatchesOrdered(M, t);
  }

  /** No pattern at all: nothing is reported, whatever the text. */
  lemma {:induction false} NoPatternsNoMatches<V>(t: string)
    ensures Matches<V>(map[], t) == []
    decreases |t|
  {
    if t != [] {
      NoPatternsNoMatches<V>(t[..|t| - 1]);
      NoSuffixOutputs<V>(t);
    }
  }

  /** No pattern at all: no node receives an entry. */
  lemma {:induction false} NoSuffixOutputs<V>(w: string)
    ensures SuffixOutputs<V>(map[], w) == []
    decreases |w|
  {
    if w != [] {
      NoSuffixOutputs<V>(w[1..]);
    }
  }

  /** The empty text: nothing is reported, whatever the patterns. */
  lemma EmptyTextNoMatches<V>(M: map<string, V>)
    ensures Matches(M, []) == []
  {
  }
}

/** The example the tests use: the patterns "he" and "she" as nouns, "his"
    and "hers" as adjectives, "run" as a verb and "quickly" as an adverb, and
    the matches reported for some texts. */
module Scenarios {
  import opened MatchSpec
  import opened AhoCorasick

  datatype WordCategory = Noun | Verb | Adjective | Adverb

  function TestPatterns(): (m: map<string, WordCategory>)
    ensures NonEmptyPatterns(m)
  {
    map["he" := Noun, "she" := Noun, "his" := Adjective, "hers" := Adjective,
        "run" := Verb, "quickly" := Adverb]
  }

  /** Scanning "hishers" reports "his" at 0, "she" at 2, and "he" and
      "hers" at 3, each with its category. */
  method SearchHishers() returns (matches: seq<Match<WordCategory>>)
    ensures matches ==
      [Match(0, "his", Adjective), Match(2, "she", Noun), Match(3, "he", Noun), Match(3, "hers", Adjective)]
  {
    var a := new Automaton(TestPatterns());
    matches := a.Search("hishers");
    HishersMatches();
  }

  /** Scanning "he runs" reports two matches, the first "he" at 0 as a noun. */
  method SearchHeRuns() returns (matches: seq<Match<WordCategory>>)
    ensures |matches| == 2 && matches[0] == Match(0, "he", Noun)
    ensures matches == [Match(0, "he", Noun), Match(3, "run", Verb)]
  {
    var a := new Automaton(TestPatterns());
    matches := a.Search("he runs");
    HeRunsMatches();
  }

  /** Scanning "his run was quick" reports "his" and "run" only ("quick" is
      no pattern, "quickly" is). */
  method SearchHisRunWasQuick() returns (matches: seq<Match<WordCategory>>)
    ensures matches == [Match(0, "his", Adjective), Match(4, "run", Verb)]
  {
    var a := new Automaton(TestPatterns());
    matches := a.SearchAll("his run was quick");
    HisRunWasQuickMatches();
  }

  /** Scanning the empty text reports nothing. */
  method SearchEmpty() returns (matches: seq<Match<WordCategory>>)
    ensures matches == []
  {
    var a := new Automaton(TestPatterns());
    matches := a.Search("");
  }

  /** Every test pattern ends in one of the characters of "esny". */
  lemma TestPatternEnds()
    ensures forall p :: p in TestPatterns() ==> p != [] && p[|p| - 1] in "esny"
  {
  }

  /** Reading characters none of which ends a test pattern reports nothing. */
  lemma QuietTest(t: string, w: string)
    requires |t| <= |w| && w[..|t|] == t
    requires forall k :: |t| <= k < |w| ==> w[k] !in "esny"
    ensures Matches(TestPatterns(), w) == Matches(TestPatterns(), t)
  {
    TestPatternEnds();
    Quiet(TestPatterns(), t, w, "esny");
  }

  lemma HisMatches()
    ensures Matches(TestPatterns(), "his") == [Match(0, "his", Adjective)]
  {
    assert Matches(TestPatterns(), "hi") == [] by {
      QuietTest("", "hi");
    }
    OutputsHis();
    ScanStep(TestPatterns(), "hi", "his", [], [("his", Adjective)]);
  }

  lemma HisheStep()
    ensures Matches(TestPatterns(), "hishe") ==
      Matches(TestPatterns(), "his") + [Match(2, "she", Noun), Match(3, "he", Noun)]
  {
    QuietTest("his", "hish");
    OutputsHishe();
    ScanStep(TestPatterns(), "hish", "hishe", Matches(TestPatterns(), "hish"), [("she", Noun), ("he", Noun)]);
    EmitTwo("she", Noun, "he", Noun, 4);
  }

  lemma HishersStep()
    ensures Matches(TestPatterns(), "hishers") ==
      Matches(TestPatterns(), "hishe") + [Match(3, "hers", Adjective)]
  {
    assert "hishers"[..6] == "hisher";
    QuietTest("hishe", "hisher");
    OutputsHishers();
    ScanStep(TestPatterns(), "hisher", "hishers", Matches(TestPatterns(), "hisher"), [("hers", Adjective)]);
    EmitOne("hers", Adjective, 6);
  }

  lemma HishersMatches()
    ensures Matches(TestPatterns(), "hishers") ==
      [Match(0, "his", Adjective), Match(2, "she", Noun), Match(3, "he", Noun), Match(3, "hers", Adjective)]
  {
    HisMatches();
    HisheStep();
    Extend(Matches(TestPatterns(), "his"), Matches(TestPatterns(), "hishe"),
      [Match(0, "his", Adjective)], [Match(2, "she", Noun), Match(3, "he", Noun)]);
    HishersStep();
    Extend(Matches(TestPatterns(), "hishe"), Matches(TestPatterns(), "hishers"),
      [Match(0, "his", Adjective), Match(2, "she", Noun), Match(3, "he", Noun)], [Match(3, "hers", Adjective)]);
  }

  /** No test pattern contains a space. */
  lemma TestPatternsHaveNoSpace()
    ensures forall p :: p in TestPatterns() ==> ' ' !in p
  {
  }

  /** The text split after the space at its end, `a`, and the rest, `b`. */
  lemma SplitAtSpace(a: string, b: string)
    requires a != [] && a[|a| - 1] == ' '
    ensures Matches(TestPatterns(), a + b) == Matches(TestPatterns(), a) + Shift(Matches(TestPatterns(), b), |a|)
  {
    TestPatternsHaveNoSpace();
    MatchesSeparated(TestPatterns(), a, b, ' ');
  }

  lemma HeMatches()
    ensures Matches(TestPatterns(), "he") == [Match(0, "he", Noun)]
  {
    assert Matches(TestPatterns(), "h") == [] by {
      QuietTest("", "h");
    }
    OutputsHe();
    ScanStep(TestPatterns(), "h", "he", [], [("he", Noun)]);
  }

  lemma HeSpaceMatches()
    ensures Matches(TestPatterns(), "he ") == [Match(0, "he", Noun)]
  {
    HeMatches();
    QuietTest("he", "he ");
  }

  lemma RunMatches()
    ensures Matches(TestPatterns(), "run") == [Match(0, "run", Verb)]
  {
    assert Matches(TestPatterns(), "ru") == [] by {
      QuietTest("", "ru");
    }
    OutputsRun();
    ScanStep(TestPatterns(), "ru", "run", [], [("run", Verb)]);
  }

  lemma RunsMatches()
    ensures Matches(TestPatterns(), "runs") == [Match(0, "run", Verb)]
  {
    RunMatches();
    OutputsRuns();
    ScanStep(TestPatterns(), "run", "runs", [Match(0, "run", Verb)], []);
  }

  lemma HeRunsMatches()
    ensures Matches(TestPatterns(), "he runs") == [Match(0, "he", Noun), Match(3, "run", Verb)]
  {
    HeSpaceMatches();
    RunsMatches();
    SplitAtSpace("he ", "runs");
    ShiftOne(Match(0, "run", Verb), 3);
    JoinHeRuns();
  }

  lemma WasMatches()
    ensures Matches(TestPatterns(), "was") == []
  {
    assert Matches(TestPatterns(), "wa") == [] by {
      QuietTest("", "wa");
    }
    OutputsWas();
    ScanStep(TestPatterns(), "wa", "was", [], []);
  }

  lemma WasSpaceMatches()
    ensures Matches(TestPatterns(), "was ") == []
  {
    WasMatches();
    QuietTest("was", "was ");
  }

  lemma QuickMatches()
    ensures Matches(TestPatterns(), "quick") == []
  {
    assert Matches(TestPatterns(), "quick") == [] by {
      QuietTest("", "quick");
    }
  }

  lemma WasQuickMatches()
    ensures Matches(TestPatterns(), "was quick") == []
  {
    WasSpaceMatches();
    QuickMatches();
    SplitAtSpace("was ", "quick");
    ShiftNone<WordCategory>(4);
    JoinWasQuick();
  }

  lemma RunSpaceMatches()
    ensures Matches(TestPatterns(), "run ") == [Match(0, "run", Verb)]
  {
    RunMatches();
    QuietTest("run", "run ");
  }

  lemma RunWasQuickMatches()
    ensures Matches(TestPatterns(), "run was quick") == [Match(0, "run", Verb)]
  {
    RunSpaceMatches();
    WasQuickMatches();
    SplitAtSpace("run ", "was quick");
    ShiftNone<WordCategory>(4);
    JoinRunWasQuick();
  }

  lemma HisSpaceMatches()
    ensures Matches(TestPatterns(), "his ") == [Match(0, "his", Adjective)]
  {
    HisMatches();
    QuietTest("his", "his ");
  }

  lemma HisRunWasQuickMatches()
    ensures Matches(TestPatterns(), "his run was quick") == [Match(0, "his", Adjective), Match(4, "run", Verb)]
  {
    HisSpaceMatches();
    RunWasQuickMatches();
    SplitAtSpace("his ", "run was quick");
    ShiftOne(Match(0, "run", Verb), 4);
    JoinHisRunWasQuick();
  }

  /** The outputs of the scanner at the end of each text read: the test
      patterns that are suffixes of it, longest first. */
  lemma OutputsHe()
    ensures SuffixOutputs(TestPatterns(), "he") == [("he", Noun)]
  {
  }

  lemma OutputsHis()
    ensures SuffixOutputs(TestPatterns(), "his") == [("his", Adjective)]
  {
  }

  lemma OutputsHishe()
    ensures SuffixOutputs(TestPatterns(), "hishe") == [("she", Noun), ("he", Noun)]
  {
  }

  lemma OutputsHishers()
    ensures SuffixOutputs(TestPatterns(), "hishers") == [("hers", Adjective)]
  {
  }

  lemma OutputsRun()
    ensures SuffixOutputs(TestPatterns(), "run") == [("run", Verb)]
  {
  }

  lemma OutputsRuns()
    ensures SuffixOutputs(TestPatterns(), "runs") == []
  {
  }

  lemma OutputsWas()
    ensures SuffixOutputs(TestPatterns(), "was") == []
  {
  }

  // Solver hints. The facts below about literal strings and lists are kept
  // in lemmas of their own, apart from the scenario proofs that use them,
  // because proving them inline makes those proofs much costlier.

  /** Appending to a list known by its value. */
  lemma Extend<T>(x: seq<T>, y: seq<T>, a: seq<T>, b: seq<T>)
    requires x == a && y == x + b
    ensures y == a + b
  {
  }

  /** The texts as joined at their spaces. */
  lemma JoinHeRuns()
    ensures "he " + "runs" == "he runs"
  {
  }

  lemma JoinWasQuick()
    ensures "was " + "quick" == "was quick"
  {
  }

  lemma JoinRunWasQuick()
    ensures "run " + "was quick" == "run was quick"
  {
  }

  lemma JoinHisRunWasQuick()
    ensures "his " + "run was quick" == "his run was quick"
  {
  }

  // Properties of `Matches` that computing the examples rests on.

  /** The matches `ms` with every start index moved `d` places on. */
  function Shift<V>(ms: seq<Match<V>>, d: int): (r: seq<Match<V>>)
    ensures |r| == |ms|
  {
    seq(|ms|, k requires 0 <= k < |ms| => Match(ms[k].index + d, ms[k].pattern, ms[k].value))
  }

  /** A word that runs past the character `z` at the end of `a` is no
      pattern when no pattern contains `z`, so behind `a` only the patterns
      ending `b` itself are reported. */
  lemma {:induction false} SuffixOutputsSeparated<V>(M: map<string, V>, a: string, b: string, z: char)
    requires a != [] && a[|a| - 1] == z && b != []
    requires forall p :: p in M ==> z !in p
    ensures SuffixOutputs(M, a + b) == SuffixOutputs(M, b)
    decreases |a|
  {
    assert (a + b)[|a| - 1] == z;
    assert (a + b)[1..] == a[1..] + b;
    if |a| > 1 {
      SuffixOutputsSeparated(M, a[1..], b, z);
    } else {
      assert a[1..] + b == b;
    }
  }

  /** A text split at a character that no pattern contains is scanned as two
      texts: the matches of the part up to and including that character,
      then those of the rest with their start indices moved on. */
  lemma {:induction false} MatchesSeparated<V>(M: map<string, V>, a: string, b: string, z: char)
    requires a != [] && a[|a| - 1] == z
    requires forall p :: p in M ==> z !in p
    ensures Matches(M, a + b) == Matches(M, a) + Shift(Matches(M, b), |a|)
    decreases |b|
  {
    if b == [] {
      assert a + b == a;
    } else {
      var b' := b[..|b| - 1];
      assert (a + b)[..|a + b| - 1] == a + b';
      MatchesSeparated(M, a, b', z);
      SuffixOutputsSeparated(M, a, b, z);
      var es := SuffixOutputs(M, b);
      ShiftEmit(es, |b| - 1, |a|);
      Regroup(Matches(M, a), Matches(M, b'), Emit(es, |b| - 1), Emit(es, |a| + |b| - 1), |a|);
    }
  }

  /** The regrouping `MatchesSeparated` needs, on plain sequences. */
  lemma Regroup<V>(head: seq<Match<V>>, before: seq<Match<V>>, em: seq<Match<V>>, moved: seq<Match<V>>, d: int)
    requires Shift(em, d) == moved
    ensures (head + Shift(before, d)) + moved == head + Shift(before + em, d)
  {
    ShiftAppend(before, em, d);
  }

  /** Moving the matches emitted at position `i` by `d` places gives those
      emitted at `i + d`. */
  lemma ShiftEmit<V>(es: seq<(string, V)>, i: int, d: int)
    ensures Shift(Emit(es, i), d) == Emit(es, i + d)
  {
  }

  lemma ShiftAppend<V>(xs: seq<Match<V>>, ys: seq<Match<V>>, d: int)
    ensures Shift(xs + ys, d) == Shift(xs, d) + Shift(ys, d)
  {
  }

  /** No match ends at a character that ends no pattern: while reading the
      characters of `w` after its prefix `t`, none of which is in `Z`,
      nothing is reported when no pattern ends with a character outside `Z`. */
  lemma {:induction false} Quiet<V>(M: map<string, V>, t: string, w: string, Z: seq<char>)
    requires |t| <= |w| && w[..|t|] == t
    requires forall p :: p in M ==> p != [] && p[|p| - 1] in Z
    requires forall k :: |t| <= k < |w| ==> w[k] !in Z
    ensures Matches(M, w) == Matches(M, t)
    decreases |w|
  {
    if |t| < |w| {
      var w' := w[..|w| - 1];
      assert w'[..|t|] == t;
      Quiet(M, t, w', Z);
      NoOutputsAtLast(M, w);
    } else {
      assert w == w[..|t|];
    }
  }

  /** Reading the last character of `u`, whose other characters are `t`:
      the matches for `t`, then those ending at the new character. */
  lemma ScanStep<V>(M: map<string, V>, t: string, u: string, prev: seq<Match<V>>, es: seq<(string, V)>)
    requires u != [] && u[..|u| - 1] == t
    requires Matches(M, t) == prev && SuffixOutputs(M, u) == es
    ensures Matches(M, u) == prev + Emit(es, |t|)
  {
  }

  /** No pattern is a suffix of a word that ends in a character no pattern
      ends in. */
  lemma {:induction false} NoOutputsAtLast<V>(M: map<string, V>, w: string)
    requires w != [] && forall p :: p in M ==> p != [] && p[|p| - 1] != w[|w| - 1]
    ensures SuffixOutputs(M, w) == []
    decreases |w|
  {
    if |w| > 1 {
      NoOutputsAtLast(M, w[1..]);
    }
  }

  /** Moving a single match. */
  lemma ShiftOne<V>(x: Match<V>, d: int)
    ensures Shift([x], d) == [Match(x.index + d, x.pattern, x.value)]
  {
  }

  /** Moving no match. */
  lemma ShiftNone<V>(d: int)
    ensures Shift<V>([], d) == []
  {
  }

  /** The matches for one output entry. */
  lemma EmitOne<V>(p: string, v: V, i: int)
    ensures Emit([(p, v)], i) == [Match(i - |p| + 1, p, v)]
  {
  }

  /** The matches for two output entries. */
  lemma EmitTwo<V>(p: string, v: V, q: string, w: V, i: int)
    ensures Emit([(p, v), (q, w)], i) == [Match(i - |p| + 1, p, v), Match(i - |q| + 1, q, w)]
  {
  }
}

/** The Aho-Corasick automaton: a trie of the patterns whose nodes live in an
    arena indexed by `nat`, with failure links and merged output lists, and
    the scanner that walks it over a text. */
module AhoCorasick {
  import opened Suffixes
  import opened MatchSpec
  import opened Trie
  import opened BreadthFirst

  class Automaton<V> {
    /** Node `n`'s `Children`: the node reached by each outgoing character. */
    var children: seq<map<char, nat>>
    /** Node `n`'s `Outputs`: the (pattern, value) entries reported there. */
    var outputs: seq<seq<(string, V)>>
    /** Node `n`'s `Failure`: a node index, or -1 where the link is null. */
    var failure: seq<int>

    /** The pattern mapping the automaton was built from. */
    ghost var patterns: map<string, V>
    /** The word each node stands for, the node one character up, and the
        node of each word. */
    ghost var labels: seq<string>
    ghost var parent: seq<nat>
    ghost var index: map<string, nat>

    /** The arena is a trie holding every (non-empty) pattern as a label. */
    ghost predicate Trie()
      reads this`children, this`labels, this`parent, this`index, this`patterns
    {
      && Shape(children, labels, parent, index)
      && NonEmptyPatterns(patterns)
      && (forall p :: p in patterns ==> p in index)
    }

    /** The nodes are exactly the prefixes of the patterns, the root being
        the empty prefix. */
    ghost predicate NodesArePrefixes()
      reads this`index, this`patterns
    {
      index.Keys == {[]} + PatternPrefixes(patterns)
    }

    /** Node `n` is linked: its failure link points to the node for the
        longest proper suffix of its label that is a label, and its outputs
        are the patterns that are suffixes of its label, longest first. */
    ghost predicate Linked(n: nat)
      reads this`failure, this`outputs, this`labels, this`index, this`patterns
    {
      n < |failure| && n < |outputs| && n < |labels| && LinkedEntry(patterns, index.Keys, labels, labels[n], failure[n], outputs[n])
    }

    /** The finished automaton: the root has no failure link and no outputs,
        and every other node is linked. */
    ghost predicate Valid()
      reads this
    {
      && Trie()
      && AllLinked(patterns, index.Keys, labels, failure, outputs)
      && failure[0] == -1 && outputs[0] == []
    }

    /** Builds the automaton for `patterns`: the trie first, then the failure
        links and merged outputs. */
    constructor (patterns: map<string, V>)
      requires NonEmptyPatterns(patterns)
      ensures Valid() && NodesArePrefixes() && this.patterns == patterns
    {
      children, outputs, failure := [map[]], [[]], [-1];
      labels, parent, index := [[]], [0], map[[] := 0];
      this.patterns := map[];
      new;
      BuildTrie(patterns);
      ghost var index0 := index;
      assert NodesArePrefixes();
      BuildFailureAndDictionaryLinks();
      assert index == index0;
    }

    /** The arena is a trie holding the entries of `M`, as the builder leaves
        it before any failure link is set: no node has a failure link, each
        node outputs only the entry of `M` its label is, if any, and every key
        of `M` is a label. */
    ghost predicate Unlinked(M: map<string, V>)
      reads this
    {
      && Shape(children, labels, parent, index)
      && failure == NoLinks(|children|)
      && outputs == OwnAll(M, labels)
      && M.Keys <= index.Keys
    }

    /** `Unlinked(M)`, and the labels are exactly the prefixes of the keys. */
    ghost predicate TrieOf(M: map<string, V>)
      reads this
    {
      Unlinked(M) && index.Keys == {[]} + PatternPrefixes(M)
    }

    /** Inserts every pattern into the trie and appends (pattern, value) to
        the node where the pattern ends. The patterns are taken in an
        unspecified order. */
    method BuildTrie(pats: map<string, V>)
      requires NonEmptyPatterns(pats)
      requires children == [map[]] && outputs == [[]] && failure == [-1]
      requires labels == [[]] && parent == [0] && index == map[[] := 0]
      modifies this
      ensures Trie() && NodesArePrefixes() && patterns == pats
      ensures Unlinked(patterns)
    {
      patterns := pats;
      var remaining := pats.Keys;
      assert PatternPrefixes(pats - remaining) == {} by {
        assert pats - remaining == map[];
      }
      while remaining != {}
        invariant patterns == pats && remaining <= pats.Keys
        invariant TrieOf(pats - remaining)
        decreases remaining
      {
        var p :| p in remaining;
        var value := pats[p];
        RemoveKey(pats, remaining, p);
        Insert(p, value, pats - remaining);
        remaining := remaining - {p};
      }
      assert pats - remaining == pats;
    }

    /** Inserts one pattern not yet inserted: walks down `p`, creating the
        missing nodes, and appends (p, value) to the outputs of `p`'s node. */
    method Insert(p: string, value: V, ghost inserted: map<string, V>)
      requires TrieOf(inserted) && p !in inserted
      modifies this`children, this`labels, this`parent, this`index, this`outputs, this`failure
      ensures TrieOf(inserted[p := value])
    {
      var node := AddPath(p, inserted);
      PatternPrefixesAdd(inserted, p, value);
      OwnAllInsert(inserted, p, value, labels, index, node);
      outputs := outputs[node := outputs[node] + [(p, value)]];
    }

    /** Follows `p` down from the root, creating each missing child on the
        way; returns the node for `p`. The labels gained are the prefixes of
        `p`. */
    method AddPath(p: string, ghost M: map<string, V>) returns (node: nat)
      requires Unlinked(M)
      modifies this`children, this`labels, this`parent, this`index, this`outputs, this`failure
      ensures Unlinked(M)
      ensures node < |labels| && labels[node] == p
      ensures index.Keys == old(index.Keys) + Prefixes(p)
    {
      node := 0;
      for j := 0 to |p|
        invariant Unlinked(M)
        invariant node < |labels| && labels[node] == p[..j]
        invariant index.Keys == old(index.Keys) + Prefixes(p[..j])
      {
        assert p[..j + 1] == p[..j] + [p[j]];
        PrefixesSnoc(p[..j], p[j]);
        node := Descend(node, p[j], M);
      }
      assert p[..|p|] == p;
    }

    /** The child of `node` on `c`, created (with no failure link and no
        outputs) when it is missing. */
    method Descend(node: nat, c: char, ghost M: map<string, V>) returns (child: nat)
      requires Unlinked(M) && node < |labels|
      modifies this`children, this`labels, this`parent, this`index, this`outputs, this`failure
      ensures Unlinked(M)
      ensures child < |labels| && labels[child] == old(labels[node]) + [c]
      ensures index.Keys == old(index.Keys) + {labels[child]}
    {
      if c in children[node] {
        child := children[node][c];
      } else {
        child := |children|;
        var edges: map<char, nat> := children[node][c := child];
        ghost var w := labels[node] + [c];
        ghost var c0, l0, p0, i0 := children, labels, parent, index;
        children := children[node := edges] + [map[]];
        outputs := outputs + [[]];
        failure := failure + [-1];
        labels := labels + [w];
        parent := parent + [node];
        index := index[w := child];
        AddChild(c0, l0, p0, i0, node, c, children, labels, parent, index);
        OwnAllSnoc(M, l0, w);
        NoLinksSnoc(child);
      }
    }

    /** The state while the failure links are computed: every non-root node
        is linked exactly when its failure link is set. */
    ghost predicate Linking()
      reads this
    {
      && Trie()
      && Entries(patterns, index.Keys, labels, failure, outputs)
      && failure[0] == -1 && outputs[0] == []
    }

    /** The failure target of the child on `c` of node `current`: walk
        `current`'s failure chain until a node with an edge on `c` turns up
        and take that edge, or fall back to the root once the chain runs out.
        Needs the links of every node no deeper than `current`. */
    method FailureTarget(current: nat, c: char) returns (target: nat)
      requires Linking() && 0 < current < |children|
      requires LinkedUpTo(failure, labels, |labels[current]|)
      ensures target < |children| && |labels[target]| <= |labels[current]|
      ensures labels[target] == LongestSuffix(index.Keys, (labels[current] + [c])[1..])
    {
      ghost var K := index.Keys;
      ghost var w := labels[current];
      LabelsPrefixClosed(children, labels, parent, index);
      EdgesComplete(children, labels, parent, index);
      assert Linked(current);
      var f := failure[current];
      SuffixOfTail(labels[f], w);
      StartWalk(K, w, 1, c);
      while f != -1 && c !in children[f]
        invariant -1 <= f < |children| && |labels| == |children|
        invariant f != -1 ==> IsSuffix(labels[f], w) && |w| - |labels[f]| >= 1
        invariant NoLongerExtension(K, w, 1, if f == -1 then -1 else |labels[f]|, c)
        decreases if f == -1 then 0 else |labels[f]| + 1
      {
        FollowFailure(K, w, 1, labels[f], c);
        if f != 0 {
          assert Linked(f);
        }
        f := failure[f];
      }
      if f != -1 {
        WalkFound(K, w, 1, labels[f], c);
        target := children[f][c];
      } else {
        WalkExhausted(K, w, 1, c);
        target := 0;
      }
      assert |(w + [c])[1..]| == |w|;
    }

    /** Links a child of the root: its failure link is the root, and its
        outputs stay its own. */
    method LinkToRoot(child: nat)
      requires Linking() && 0 < child < |children| && failure[child] == -1
      requires |labels[child]| == 1
      modifies this`failure
      ensures Linking()
      ensures failure == old(failure)[child := 0]
    {
      assert labels[child][1..] == [];
      InheritOutputs(patterns, index.Keys, labels[child], labels[0], outputs[child], []);
      assert outputs[child] + [] == outputs[child];
      EntriesUpdate(patterns, index.Keys, labels, failure, outputs, child, 0, outputs[child]);
      assert outputs[child := outputs[child]] == outputs;
      failure := failure[child := 0];
    }

    /** Links `child` to `target`, the node of the longest proper suffix of
        its label that is a label, and appends the target's outputs to its
        own. */
    method LinkChild(child: nat, target: nat)
      requires Linking() && 0 < child < |children| && failure[child] == -1
      requires labels[child] != [] && target < |children| && (target == 0 || failure[target] != -1)
      requires labels[target] == LongestSuffix(index.Keys, labels[child][1..])
      modifies this`failure, this`outputs
      ensures Linking()
      ensures failure == old(failure)[child := target]
      ensures outputs == old(outputs)[child := old(outputs[child]) + old(outputs[target])]
    {
      if target != 0 {
        assert Linked(target);
      }
      assert patterns.Keys <= index.Keys by {
        forall p | p in patterns ensures p in index {
        }
      }
      var merged := outputs[child] + outputs[target];
      InheritOutputs(patterns, index.Keys, labels[child], labels[target], outputs[child], outputs[target]);
      EntriesUpdate(patterns, index.Keys, labels, failure, outputs, child, target, merged);
      failure := failure[child := target];
      outputs := outputs[child := merged];
    }

    /** Links the root's children to the root and returns them as the first
        breadth-first queue, in an unspecified order. */
    method LinkRootChildren() returns (queue: seq<nat>)
      requires Linking() && LinkedBelow(failure, parent, {})
      modifies this`failure
      ensures Linking() && LinkedBelow(failure, parent, {0})
      ensures Depths(labels, parent) && Kids(parent, 0, queue)
    {
      ghost var failure0 := failure;
      KidsStart(children, labels, parent, index, 0);
      AddedLinksStart(failure);
      queue := [];
      var rootKeys := children[0].Keys;
      while rootKeys != {}
        invariant rootKeys <= children[0].Keys
        invariant Linking()
        invariant AddedLinks(failure0, failure, queue)
        invariant KidsSoFar(labels, parent, 0, rootKeys, queue)
        decreases rootKeys
      {
        var c :| c in rootKeys;
        var child := children[0][c];
        ChildFacts(children, labels, parent, index, 0, c);
        KidsStep(children, labels, parent, index, 0, rootKeys, queue, c);
        AddedLinksStep(failure0, failure, queue, child, 0);
        assert child !in queue;
        LinkToRoot(child);
        queue := queue + [child];
        rootKeys := rootKeys - {c};
      }
      KidsDone(labels, parent, 0, queue);
      LinkedBelowStep(failure0, failure, parent, {}, 0, queue);
      assert {} + {0} == {0};
    }

    /** Links every node breadth-first: the root's children fail to the root;
        then each dequeued node gives each of its children the failure target
        found by `FailureTarget` and appends that target's outputs to the
        child's own; the children join the back of the queue. */
    method BuildFailureAndDictionaryLinks()
      requires Trie() && Unlinked(patterns)
      modifies this`failure, this`outputs
      ensures Valid()
    {
      EntriesStart(patterns, index.Keys, labels);
      LinkedBelowStart(failure, parent);
      var queue := LinkRootChildren();
      ghost var P: set<nat> := {0};
      FrontierStart(labels, parent, queue);
      while queue != []
        invariant Linking() && Depths(labels, parent)
        invariant LinkedBelow(failure, parent, P)
        invariant Frontier(labels, parent, P, queue)
        decreases index.Values - P
      {
        var current: nat := queue[0];
        BfsHead(failure, labels, parent, P, queue);
        NodeOfLabel(children, labels, parent, index, current);
        ghost var failure0 := failure;
        var kids := LinkChildren(current);
        BfsStep(failure0, failure, labels, parent, P, queue, kids);
        queue := queue[1..] + kids;
        P := P + {current};
      }
      LinkedAll(failure, labels, parent, P);
      EntriesAllLinked(patterns, index.Keys, labels, failure, outputs);
    }

    /** Processes one dequeued node `current`: each child gets the failure
        target `FailureTarget` finds and the target's outputs appended to its
        own. Returns the children in the order they were taken (unspecified),
        which is the order they join the queue. */
    method LinkChildren(current: nat) returns (kids: seq<nat>)
      requires Linking() && 0 < current < |children|
      requires LinkedUpTo(failure, labels, |labels[current]|)
      requires forall n :: 0 < n < |failure| && parent[n] == current ==> failure[n] == -1
      modifies this`failure, this`outputs
      ensures Linking() && AddedLinks(old(failure), failure, kids)
      ensures Depths(labels, parent) && Kids(parent, current, kids)
    {
      ghost var failure0 := failure;
      KidsStart(children, labels, parent, index, current);
      AddedLinksStart(failure);
      kids := [];
      var cs := children[current].Keys;
      while cs != {}
        invariant cs <= children[current].Keys
        invariant Linking() && LinkedUpTo(failure, labels, |labels[current]|)
        invariant AddedLinks(failure0, failure, kids)
        invariant KidsSoFar(labels, parent, current, cs, kids)
        decreases cs
      {
        var c :| c in cs;
        var child := children[current][c];
        ChildFacts(children, labels, parent, index, current, c);
        KidsStep(children, labels, parent, index, current, cs, kids, c);
        assert child !in kids && failure0[child] == -1;
        var target := FailureTarget(current, c);
        AddedLinksStep(failure0, failure, kids, child, target);
        LinkedUpToUpdate(failure, labels, |labels[current]|, child, target);
        kids := kids + [child];
        assert labels[child] == labels[current] + [c];
        LinkChild(child, target);
        cs := cs - {c};
      }
      KidsDone(labels, parent, current, kids);
    }

    /** One scanner step from the node for the longest suffix of `u` that is
        a label: follow failure links while not at the root and there is no
        edge on `c`, then take the edge on `c` or fall back to the root. The
        node reached is the one for the longest suffix of `u + [c]` that is a
        label. */
    method Step(node: nat, c: char, ghost u: string) returns (next: nat)
      requires Valid() && node < |children|
      requires labels[node] == LongestSuffix(index.Keys, u)
      ensures next < |children|
      ensures labels[next] == LongestSuffix(index.Keys, u + [c])
    {
      ghost var K := index.Keys;
      LabelsPrefixClosed(children, labels, parent, index);
      EdgesComplete(children, labels, parent, index);
      assert u[0..] == u;
      StartWalk(K, u, 0, c);
      var cur: nat := node;
      while cur != 0 && c !in children[cur]
        invariant cur < |children| && IsSuffix(labels[cur], u)
        invariant NoLongerExtension(K, u, 0, |labels[cur]|, c)
        decreases |labels[cur]|
      {
        FollowFailure(K, u, 0, labels[cur], c);
        assert Linked(cur);
        cur := failure[cur];
      }
      if c in children[cur] {
        WalkFound(K, u, 0, labels[cur], c);
        next := children[cur][c];
      } else {
        FollowFailure(K, u, 0, labels[cur], c);
        WalkExhausted(K, u, 0, c);
        next := 0;
      }
      assert (u + [c])[0..] == u + [c];
    }

    /** Scans `text` once, left to right, and reports every occurrence of
        every pattern: at each position, each entry of the current node's
        outputs, with start index `i - |pattern| + 1`. */
    method Search(text: string) returns (matches: seq<Match<V>>)
      requires Valid()
      ensures matches == Matches(patterns, text)
    {
      matches := [];
      var node: nat := 0;
      for i := 0 to |text|
        invariant node < |children|
        invariant labels[node] == LongestSuffix(index.Keys, text[..i])
        invariant matches == Matches(patterns, text[..i])
      {
        node := Step(node, text[i], text[..i]);
        TakeSnoc(text, i);
        var found := Report(node, i, text[..i + 1]);
        matches := matches + found;
      }
      TakeAll(text);
    }

    /** The matches reported at text position `i` while standing on `node`,
        the node of the longest suffix of the text read so far, `w`: one per
        output entry, in the order of the entries. */
    method Report(node: nat, i: int, ghost w: string) returns (found: seq<Match<V>>)
      requires Valid() && node < |children|
      requires labels[node] == LongestSuffix(index.Keys, w)
      ensures found == Emit(SuffixOutputs(patterns, w), i)
    {
      assert patterns.Keys <= index.Keys by {
        forall p | p in patterns ensures p in index {
        }
      }
      SuffixOutputsOfLongest(patterns, index.Keys, w);
      if node != 0 {
        assert Linked(node);
      }
      found := EmitAll(outputs[node], i);
    }

    /** The whole list of matches that `Search` produces: every match is an
        occurrence of its pattern with the pattern's value, every occurrence
        is among them, and they come strictly in scan order (so none comes
        twice). */
    method SearchAll(text: string) returns (matches: seq<Match<V>>)
      requires Valid()
      ensures matches == Matches(patterns, text)
      ensures forall k :: 0 <= k < |matches| ==> Occurs(patterns, text, matches[k])
      ensures forall x :: Occurs(patterns, text, x) ==> x in matches
      ensures forall k1, k2 :: 0 <= k1 < k2 < |matches| ==> Precedes(matches[k1], matches[k2])
    {
      matches := Search(text);
      MatchesSound(patterns, text);
      MatchesOrdered(patterns, text);
      forall x | Occurs(patterns, text, x)
        ensures x in matches
      {
        MatchesComplete(patterns, text, x);
      }
    }

    /** Every non-root node has a failure link. Its target is the node whose
        label is the longest proper suffix of the node's own label that is a
        label at all: a proper suffix, so a shallower node, and no label is a
        longer proper suffix. */
    lemma FailureLinkFacts(n: nat)
      requires Valid() && 0 < n < |children|
      ensures 0 <= failure[n] < |children|
      ensures IsSuffix(labels[failure[n]], labels[n]) && |labels[failure[n]]| < |labels[n]|
      ensures forall k :: 1 <= k <= |labels[n]| && labels[n][k..] in index ==>
        |labels[n]| - k <= |labels[failure[n]]|
    {
      assert Linked(n);
      var w := labels[n];
      SuffixOfTail(labels[failure[n]], w);
      forall k | 1 <= k <= |w| && w[k..] in index
        ensures |w| - k <= |labels[failure[n]]|
      {
        assert w[1..][k - 1..] == w[k..];
      }
    }

    /** The children of the root fail to the root. */
    lemma DepthOneFailsToRoot(n: nat)
      requires Valid() && 0 < n < |children| && |labels[n]| == 1
      ensures failure[n] == 0
    {
      assert Linked(n);
      assert labels[n][1..] == [];
      assert labels[failure[n]] == [];
      assert index[labels[failure[n]]] == failure[n];
    }

    /** Each node reports exactly the patterns that are suffixes of its
        label, each with its value, each once and longest first; the root
        reports nothing. */
    lemma OutputsAreSuffixPatterns(n: nat)
      requires Valid() && n < |children|
      ensures forall k :: 0 <= k < |outputs[n]| ==>
        outputs[n][k].0 in patterns && outputs[n][k].1 == patterns[outputs[n][k].0] &&
        IsSuffix(outputs[n][k].0, labels[n])
      ensures forall p :: p in patterns && IsSuffix(p, labels[n]) ==> (p, patterns[p]) in outputs[n]
      ensures forall k1, k2 :: 0 <= k1 < k2 < |outputs[n]| ==> |outputs[n][k1].0| > |outputs[n][k2].0|
    {
      var w := labels[n];
      if n != 0 {
        assert Linked(n);
      }
      assert outputs[n] == SuffixOutputs(patterns, w);
      SuffixOutputsSpec(patterns, w);
      forall p | p in patterns && IsSuffix(p, w)
        ensures (p, patterns[p]) in outputs[n]
      {
        assert w[|w| - |p|..] == p;
      }
    }

    /** Following child edges from the root along a pattern reaches the node
        labelled by the pattern, and its first output entry is the pattern
        with its value. */
    lemma PatternReachable(p: string)
      requires Valid() && p in patterns
      ensures EdgesInRange(children) && Walk(children, 0, p).Some?
      ensures var n := Walk(children, 0, p).value;
        labels[n] == p && outputs[n] != [] && outputs[n][0] == (p, patterns[p])
    {
      WalkReachesLabel(children, labels, parent, index, 0, p);
      assert labels[0] + p == p;
      var n := index[p];
      assert labels[n] == p;
      assert Linked(n);
      assert outputs[n] == [(p, patterns[p])] + SuffixOutputs(patterns, p[1..]);
    }

    /** The nodes stand one to one for the root and the distinct prefixes of
        the patterns: a word can be walked from the root exactly when it is
        empty or a prefix of some pattern, and no two nodes share a label. */
    lemma NodesCorrespondToPrefixes(w: string)
      requires Trie() && NodesArePrefixes()
      ensures EdgesInRange(children)
      ensures Walk(children, 0, w).Some? <==> w == [] || w in PatternPrefixes(patterns)
      ensures Walk(children, 0, w).Some? ==> labels[Walk(children, 0, w).value] == w
      ensures forall n, m :: 0 <= n < m < |children| ==> labels[n] != labels[m]
    {
      WalkReachesLabel(children, labels, parent, index, 0, w);
      assert labels[0] + w == w;
    }
  }

  /** Each word of `ps` with its position in `ps`, the values an automaton
      built from a plain sequence of patterns reports. */
  function Positions(ps: seq<string>): (m: map<string, int>)
    requires Distinct(ps)
    ensures forall i :: 0 <= i < |ps| ==> ps[i] in m && m[ps[i]] == i
    ensures forall p :: p in m ==> exists i :: 0 <= i < |ps| && ps[i] == p
    decreases |ps|
  {
    if ps == [] then map[] else Positions(ps[..|ps| - 1])[ps[|ps| - 1] := |ps| - 1]
  }

  /** Builds the automaton for a sequence of distinct, non-empty patterns,
      each pattern's value being its position in the sequence. */
  method FromSequence(ps: seq<string>) returns (a: Automaton<int>)
    requires Distinct(ps) && forall i :: 0 <= i < |ps| ==> ps[i] != []
    ensures fresh(a) && a.Valid() && a.NodesArePrefixes() && a.patterns == Positions(ps)
  {
    var m := Positions(ps);
    a := new Automaton(m);
  }

  /** The matches for the entries `es` at text position `i`, one per entry,
      in the order of the entries. */
  method EmitAll<V>(es: seq<(string, V)>, i: int) returns (found: seq<Match<V>>)
    ensures found == Emit(es, i)
  {
    found := [];
    for k := 0 to |es|
      invariant found == Emit(es[..k], i)
    {
      var (pattern, value) := es[k];
      found := found + [Match(i - |pattern| + 1, pattern, value)];
      EmitSnoc(es, k, i);
    }
    TakeAll(es);
  }

  /** Taking one more key `p` of `M` out of the keys `R` still to do. */
  lemma RemoveKey<V>(M: map<string, V>, R: set<string>, p: string)
    requires p in R && R <= M.Keys
    ensures p !in M - R && (M - R)[p := M[p]] == M - (R - {p})
  {
  }

  /** Reading one more character of `t`. */
  lemma TakeSnoc(t: string, i: nat)
    requires i < |t|
    ensures t[..i] + [t[i]] == t[..i + 1] && t[..i + 1][..i] == t[..i]
  {
  }

  lemma TakeAll<T>(s: seq<T>)
    ensures s[..|s|] == s
  {
  }

  /** Emitting one more entry. */
  lemma EmitSnoc<V>(es: seq<(string, V)>, k: nat, i: int)
    requires k < |es|
    ensures Emit(es[..k + 1], i) == Emit(es[..k], i) + [Match(i - |es[k].0| + 1, es[k].0, es[k].1)]
  {
  }

  /** The entries of a linked node labelled `w` (`labels` being the labels of
      all nodes): failure link `f` leads to the node of the longest proper
      suffix of `w` in `K`, and its outputs `o` are the entries of the
      patterns of `M` that are suffixes of `w`, longest first. */
  ghost predicate LinkedEntry<V>(M: map<string, V>, K: set<string>, labels: seq<string>, w: string,
                                 f: int, o: seq<(string, V)>)
  {
    w != [] && 0 <= f < |labels| && labels[f] == LongestSuffix(K, w[1..]) && o == SuffixOutputs(M, w)
  }

  /** The entries of a node while the failure links are computed: not yet
      linked (no failure link and only its own entry), or linked. */
  ghost predicate Entry<V>(M: map<string, V>, K: set<string>, labels: seq<string>, w: string,
                           f: int, o: seq<(string, V)>)
  {
    if f == -1 then o == Own(M, w) else LinkedEntry(M, K, labels, w, f, o)
  }

  /** Every non-root node is linked. */
  ghost predicate AllLinked<V>(M: map<string, V>, K: set<string>, labels: seq<string>,
                               failure: seq<int>, outputs: seq<seq<(string, V)>>)
  {
    && |failure| == |outputs| == |labels|
    && forall n {:trigger failure[n]} :: 0 < n < |labels| ==>
         LinkedEntry(M, K, labels, labels[n], failure[n], outputs[n])
  }

  /** Every non-root node is either linked or not yet touched. */
  ghost predicate Entries<V>(M: map<string, V>, K: set<string>, labels: seq<string>,
                             failure: seq<int>, outputs: seq<seq<(string, V)>>)
  {
    && |failure| == |outputs| == |labels|
    && forall n {:trigger failure[n]} :: 0 < n < |labels| ==>
         Entry(M, K, labels, labels[n], failure[n], outputs[n])
  }

  /** Linking one more node keeps every node linked or untouched. */
  lemma EntriesUpdate<V>(M: map<string, V>, K: set<string>, labels: seq<string>,
                         failure: seq<int>, outputs: seq<seq<(string, V)>>,
                         n: nat, f: int, o: seq<(string, V)>)
    requires Entries(M, K, labels, failure, outputs) && 0 < n < |labels|
    requires LinkedEntry(M, K, labels, labels[n], f, o)
    ensures Entries(M, K, labels, failure[n := f], outputs[n := o])
  {
    var failure', outputs' := failure[n := f], outputs[n := o];
    forall m | 0 < m < |labels|
      ensures Entry(M, K, labels, labels[m], failure'[m], outputs'[m])
    {
      if m != n {
        assert failure'[m] == failure[m] && outputs'[m] == outputs[m];
      }
    }
  }

  /** Before any failure link is set, every node is untouched. */
  lemma EntriesStart<V>(M: map<string, V>, K: set<string>, labels: seq<string>)
    ensures Entries(M, K, labels, NoLinks(|labels|), OwnAll(M, labels))
  {
  }

  /** Once every failure link is set, every node is linked. */
  lemma EntriesAllLinked<V>(M: map<string, V>, K: set<string>, labels: seq<string>,
                            failure: seq<int>, outputs: seq<seq<(string, V)>>)
    requires Entries(M, K, labels, failure, outputs)
    requires forall n :: 0 < n < |labels| ==> failure[n] != -1
    ensures AllLinked(M, K, labels, failure, outputs)
  {
  }

  /** A node's own entry followed by the outputs of the node for the longest
      proper suffix of its label that is a label are the node's outputs. */
  lemma InheritOutputs<V>(M: map<string, V>, K: set<string>, w: string, f: string,
                          own: seq<(string, V)>, inherited: seq<(string, V)>)
    requires NonEmptyPatterns(M) && M.Keys <= K && w != []
    requires f == LongestSuffix(K, w[1..]) && own == Own(M, w)
    requires inherited == SuffixOutputs(M, f) || (f == [] && inherited == [])
    ensures own + inherited == SuffixOutputs(M, w)
  {
    SuffixOutputsOfLongest(M, K, w[1..]);
  }

  /** The failure links of `n` nodes that have none yet. */
  function NoLinks(n: nat): seq<int>
  {
    seq(n, _ => -1)
  }

  lemma NoLinksSnoc(n: nat)
    ensures NoLinks(n) + [-1] == NoLinks(n + 1)
  {
  }

  /** The outputs the trie builder gives the nodes labelled `labels`: each
      node the entry of `M` its label is, if any. */
  function OwnAll<V>(M: map<string, V>, labels: seq<string>): seq<seq<(string, V)>>
  {
    seq(|labels|, n requires 0 <= n < |labels| => Own(M, labels[n]))
  }

  /** A new node whose label is no key of `M` gets no outputs. */
  lemma OwnAllSnoc<V>(M: map<string, V>, labels: seq<string>, w: string)
    requires w !in M
    ensures OwnAll(M, labels + [w]) == OwnAll(M, labels) + [[]]
  {
  }

  /** Appending (p, value) to the outputs of the node for `p`, a word that
      is no key of `M`, gives the outputs for `M[p := value]`. */
  lemma OwnAllInsert<V>(M: map<string, V>, p: string, value: V, labels: seq<string>, index: map<string, nat>, node: nat)
    requires node < |labels| && labels[node] == p && p !in M
    requires forall n :: 0 <= n < |labels| ==> labels[n] in index && index[labels[n]] == n
    ensures var own := OwnAll(M, labels); OwnAll(M[p := value], labels) == own[node := own[node] + [(p, value)]]
  {
    var own, own' := OwnAll(M, labels), OwnAll(M[p := value], labels);
    forall n | 0 <= n < |labels|
      ensures own'[n] == own[node := own[node] + [(p, value)]][n]
    {
      if n != node {
        assert labels[n] != p;
      }
    }
  }
}

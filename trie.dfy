/** The node arena of the automaton seen as a trie. Node `n` stands for the
    word `labels[n]`; node 0 is the root and stands for the empty word;
    `children[n]` maps a character `c` to the node for `labels[n] + [c]`;
    `index` maps each label back to its node and `parent[n]` is the node one
    character up. */
module Trie {
  import opened Suffixes

  datatype Option<T> = None | Some(value: T)

  /** The last character of a non-empty word. */
  function Last(w: string): char
    requires w != []
  {
    w[|w| - 1]
  }

  /** The arena is a trie: labels and nodes correspond one to one, every
      non-root node hangs below its parent by the edge on its last character,
      and every edge on `c` below `n` leads to the node for `labels[n] + [c]`. */
  ghost predicate Shape(children: seq<map<char, nat>>, labels: seq<string>, parent: seq<nat>, index: map<string, nat>)
  {
    && |children| == |labels| == |parent| > 0
    && labels[0] == []
    && (forall n {:trigger labels[n]} :: 0 <= n < |labels| ==> labels[n] in index && index[labels[n]] == n)
    && (forall w {:trigger index[w]} :: w in index ==> index[w] < |labels| && labels[index[w]] == w)
    && (forall n {:trigger parent[n]} :: 0 < n < |labels| ==>
          && parent[n] < |labels|
          && labels[n] != []
          && labels[parent[n]] == labels[n][..|labels[n]| - 1]
          && Last(labels[n]) in children[parent[n]]
          && children[parent[n]][Last(labels[n])] == n)
    && (forall n, c {:trigger children[n][c]} :: 0 <= n < |children| && c in children[n] ==>
          children[n][c] < |labels| && labels[children[n][c]] == labels[n] + [c])
  }

  /** The child on `c` below `n` is a non-root node whose parent is `n` and
      whose label ends in `c`. */
  lemma ChildFacts(children: seq<map<char, nat>>, labels: seq<string>, parent: seq<nat>, index: map<string, nat>,
                   n: nat, c: char)
    requires Shape(children, labels, parent, index) && n < |children| && c in children[n]
    ensures 0 < children[n][c] < |children| && parent[children[n][c]] == n && Last(labels[children[n][c]]) == c
  {
    var k := children[n][c];
    assert labels[k] == labels[n] + [c];
    assert labels[k][..|labels[k]| - 1] == labels[n];
    assert labels[parent[k]] == labels[n];
  }

  /** The child on `c` below `n` is the only child of `n` whose label ends
      in `c`. */
  lemma OneChildPerEdge(children: seq<map<char, nat>>, labels: seq<string>, parent: seq<nat>, index: map<string, nat>,
                        n: nat, c: char)
    requires Shape(children, labels, parent, index) && n < |children| && c in children[n]
    ensures forall m :: 0 < m < |parent| && parent[m] == n && Last(labels[m]) == c ==> m == children[n][c]
  {
    forall m | 0 < m < |parent| && parent[m] == n && Last(labels[m]) == c
      ensures m == children[n][c]
    {
      assert children[parent[m]][Last(labels[m])] == m;
    }
  }

  /** Every node is the node of its label. */
  lemma NodeOfLabel(children: seq<map<char, nat>>, labels: seq<string>, parent: seq<nat>, index: map<string, nat>,
                    n: nat)
    requires Shape(children, labels, parent, index) && n < |labels|
    ensures n in index.Values
  {
    assert index[labels[n]] == n;
  }

  /** The labels are closed under prefixes. */
  lemma LabelsPrefixClosed(children: seq<map<char, nat>>, labels: seq<string>, parent: seq<nat>, index: map<string, nat>)
    requires Shape(children, labels, parent, index)
    ensures PrefixClosed(index.Keys)
  {
    forall u | u in index && u != []
      ensures u[..|u| - 1] in index
    {
      var n := index[u];
      assert labels[n] == u;
      assert labels[parent[n]] == u[..|u| - 1];
    }
  }

  /** An edge on `c` exists below `n` exactly when `labels[n] + [c]` is a label. */
  lemma EdgeComplete(children: seq<map<char, nat>>, labels: seq<string>, parent: seq<nat>, index: map<string, nat>,
                     n: nat, c: char)
    requires Shape(children, labels, parent, index) && n < |children|
    ensures c in children[n] <==> labels[n] + [c] in index
  {
    var w := labels[n] + [c];
    if w in index {
      var k := index[w];
      assert labels[k] == w;
      assert w[..|w| - 1] == labels[n];
      assert labels[parent[k]] == labels[n];
    }
  }

  /** `EdgeComplete` for every node and character at once. */
  lemma EdgesComplete(children: seq<map<char, nat>>, labels: seq<string>, parent: seq<nat>, index: map<string, nat>)
    requires Shape(children, labels, parent, index)
    ensures forall n: nat, c :: n < |children| ==> (c in children[n] <==> labels[n] + [c] in index)
  {
    forall n: nat, c | n < |children|
      ensures c in children[n] <==> labels[n] + [c] in index
    {
      EdgeComplete(children, labels, parent, index, n, c);
    }
  }

  /** Adding the missing edge `c` below `node`, to a new node at the end of
      the arena, keeps the arena a trie; the new label was no label before. */
  lemma AddChild(children: seq<map<char, nat>>, labels: seq<string>, parent: seq<nat>, index: map<string, nat>,
                 node: nat, c: char,
                 children': seq<map<char, nat>>, labels': seq<string>, parent': seq<nat>, index': map<string, nat>)
    requires Shape(children, labels, parent, index)
    requires node < |children| && c !in children[node]
    requires var edges: map<char, nat> := children[node][c := |children|];
      children' == children[node := edges] + [map[]]
    requires labels' == labels + [labels[node] + [c]] && parent' == parent + [node]
    requires index' == index[labels[node] + [c] := |children|]
    ensures labels[node] + [c] !in index
    ensures Shape(children', labels', parent', index')
  {
    EdgeComplete(children, labels, parent, index, node, c);
    var w := labels[node] + [c];
    var N := |children|;
    assert w[..|w| - 1] == labels[node];
    forall n | 0 <= n < |labels'|
      ensures labels'[n] in index' && index'[labels'[n]] == n
    {
      if n < N {
        assert labels'[n] == labels[n];
      }
    }
    forall v | v in index'
      ensures index'[v] < |labels'| && labels'[index'[v]] == v
    {
      if v != w {
        assert labels'[index[v]] == labels[index[v]];
      }
    }
    forall n | 0 < n < |labels'|
      ensures && parent'[n] < |labels'|
              && labels'[n] != []
              && labels'[parent'[n]] == labels'[n][..|labels'[n]| - 1]
              && Last(labels'[n]) in children'[parent'[n]]
              && children'[parent'[n]][Last(labels'[n])] == n
    {
      if n < N {
        assert labels'[n] == labels[n] && parent'[n] == parent[n];
        assert labels'[parent[n]] == labels[parent[n]];
        if parent[n] == node {
          assert labels[n] == labels[node] + [Last(labels[n])];
        }
      }
    }
    forall n, d | 0 <= n < |children'| && d in children'[n]
      ensures children'[n][d] < |labels'| && labels'[children'[n][d]] == labels'[n] + [d]
    {
      assert n < N;
      assert labels'[n] == labels[n];
      if n == node && d == c {
        assert children'[n][d] == N;
      } else {
        var k := children[n][d];
        assert children'[n][d] == k;
        assert labels'[k] == labels[k];
      }
    }
  }

  /** The prefixes of `w`, from the empty word to `w` itself. */
  ghost function Prefixes(w: string): set<string>
  {
    set k | 0 <= k <= |w| :: w[..k]
  }

  /** Extending a word by one character adds exactly the new word to its
      prefixes. */
  lemma PrefixesSnoc(w: string, c: char)
    ensures Prefixes(w + [c]) == Prefixes(w) + {w + [c]}
  {
    var v := w + [c];
    assert v[..|v|] == v;
    forall u | u in Prefixes(v)
      ensures u in Prefixes(w) + {v}
    {
      var k :| 0 <= k <= |v| && u == v[..k];
      if k <= |w| {
        assert v[..k] == w[..k];
      }
    }
    forall u | u in Prefixes(w)
      ensures u in Prefixes(v)
    {
      var k :| 0 <= k <= |w| && u == w[..k];
      assert v[..k] == w[..k];
    }
  }

  /** The prefixes of the keys of `M`. */
  ghost function PatternPrefixes<V>(M: map<string, V>): set<string>
  {
    set p, k | p in M && 0 <= k <= |p| :: p[..k]
  }

  /** Adding a key adds its prefixes. */
  lemma PatternPrefixesAdd<V>(M: map<string, V>, p: string, v: V)
    ensures PatternPrefixes(M[p := v]) == PatternPrefixes(M) + Prefixes(p)
  {
    forall u | u in PatternPrefixes(M[p := v])
      ensures u in PatternPrefixes(M) + Prefixes(p)
    {
      var q, k :| q in M[p := v] && 0 <= k <= |q| && u == q[..k];
      if q != p {
        assert q in M;
      }
    }
  }

  /** Every edge leads to a node of the arena. */
  ghost predicate EdgesInRange(children: seq<map<char, nat>>)
  {
    forall n, c :: 0 <= n < |children| && c in children[n] ==> children[n][c] < |children|
  }

  /** Follows child edges from node `n` along the word `s`: the node reached,
      or `None` as soon as an edge is missing. */
  function Walk(children: seq<map<char, nat>>, n: nat, s: string): (r: Option<nat>)
    requires n < |children| && EdgesInRange(children)
    ensures r.Some? ==> r.value < |children|
    decreases |s|
  {
    if s == [] then Some(n)
    else if s[0] in children[n] then Walk(children, children[n][s[0]], s[1..])
    else None
  }

  /** Walking from node `n` along `s` reaches exactly the node labelled
      `labels[n] + s`, and fails exactly when that word is no label. */
  lemma {:induction false} WalkReachesLabel(children: seq<map<char, nat>>, labels: seq<string>, parent: seq<nat>,
                                            index: map<string, nat>, n: nat, s: string)
    requires Shape(children, labels, parent, index) && n < |children|
    ensures EdgesInRange(children)
    ensures Walk(children, n, s) == if labels[n] + s in index then Some(index[labels[n] + s]) else None
    decreases |s|
  {
    if s != [] {
      var c, rest := s[0], s[1..];
      EdgeComplete(children, labels, parent, index, n, c);
      LabelsPrefixClosed(children, labels, parent, index);
      assert labels[n] + s == (labels[n] + [c]) + rest;
      if c in children[n] {
        var k := children[n][c];
        assert labels[k] == labels[n] + [c];
        WalkReachesLabel(children, labels, parent, index, k, rest);
        assert Walk(children, n, s) == Walk(children, k, rest);
      } else {
        assert labels[n] + [c] !in index;
        PrefixNotLabel(index, labels[n] + [c], rest);
        assert Walk(children, n, s) == None;
      }
    } else {
      assert labels[n] + s == labels[n];
    }
  }

  /** In a prefix-closed set, no extension of a non-member is a member. */
  lemma {:induction false} PrefixNotLabel(index: map<string, nat>, u: string, v: string)
    requires PrefixClosed(index.Keys) && u !in index
    ensures u + v !in index
    decreases |v|
  {
    if v != [] {
      var v' := v[..|v| - 1];
      assert (u + v)[..|u + v| - 1] == u + v';
      PrefixNotLabel(index, u, v');
    } else {
      assert u + v == u;
    }
  }

  /** If every parent of a node in `P` puts that node in `P`, and the root is
      in `P`, then every node is in `P` (the arena has no loose nodes). */
  lemma {:induction false} AllReached(labels: seq<string>, parent: seq<nat>, P: set<nat>, n: nat)
    requires |parent| == |labels| && n < |labels|
    requires forall m :: 0 < m < |labels| ==> parent[m] < |labels| && |labels[parent[m]]| + 1 == |labels[m]|
    requires 0 in P
    requires forall m :: 0 < m < |labels| && parent[m] in P ==> m in P
    ensures n in P
    decreases |labels[n]|
  {
    if n != 0 {
      AllReached(labels, parent, P, parent[n]);
    }
  }
}

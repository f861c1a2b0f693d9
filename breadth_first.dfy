/** The bookkeeping of the breadth-first pass that sets the failure links,
    stated on values: which nodes have been dequeued (`P`), which wait in the
    queue, and why the queue visits the nodes level by level. The depth of
    node `n` is `|labels[n]|`. */
module BreadthFirst {
  import opened Trie

  /** No element of `q` occurs twice. */
  predicate Distinct<T(==)>(q: seq<T>)
  {
    forall k1, k2 :: 0 <= k1 < k2 < |q| ==> q[k1] != q[k2]
  }

  /** The root alone has depth 0, and every other node lies one level below
      its parent. */
  ghost predicate Depths(labels: seq<string>, parent: seq<nat>)
  {
    && |parent| == |labels| > 0 && labels[0] == []
    && (forall n {:trigger parent[n]} :: 0 < n < |labels| ==> parent[n] < |labels| && |labels[parent[n]]| + 1 == |labels[n]|)
  }

  /** `kids` lists the children of `current`, each exactly once. */
  ghost predicate Kids(parent: seq<nat>, current: nat, kids: seq<nat>)
  {
    && (forall k :: 0 <= k < |kids| ==> 0 < kids[k] < |parent| && parent[kids[k]] == current)
    && (forall n :: 0 < n < |parent| && parent[n] == current ==> n in kids)
    && Distinct(kids)
  }

  /** Part way through the children of `current`: `kids` lists, each once,
      the children whose edge character is no longer in `cs`. */
  ghost predicate KidsSoFar(labels: seq<string>, parent: seq<nat>, current: nat, cs: set<char>, kids: seq<nat>)
    requires Depths(labels, parent)
  {
    && (forall k :: 0 <= k < |kids| ==>
          0 < kids[k] < |parent| && parent[kids[k]] == current && Last(labels[kids[k]]) !in cs)
    && (forall n :: 0 < n < |parent| && parent[n] == current && Last(labels[n]) !in cs ==> n in kids)
    && Distinct(kids)
  }

  /** Before the first child: every child's edge character is still to come. */
  lemma KidsStart(children: seq<map<char, nat>>, labels: seq<string>, parent: seq<nat>, index: map<string, nat>, current: nat)
    requires Shape(children, labels, parent, index) && current < |children|
    ensures Depths(labels, parent) && KidsSoFar(labels, parent, current, children[current].Keys, [])
  {
  }

  /** Taking the child on `c` next. */
  lemma KidsStep(children: seq<map<char, nat>>, labels: seq<string>, parent: seq<nat>, index: map<string, nat>,
                 current: nat, cs: set<char>, kids: seq<nat>, c: char)
    requires Shape(children, labels, parent, index) && current < |children|
    requires Depths(labels, parent) && KidsSoFar(labels, parent, current, cs, kids)
    requires c in cs && c in children[current]
    ensures KidsSoFar(labels, parent, current, cs - {c}, kids + [children[current][c]])
  {
    ChildFacts(children, labels, parent, index, current, c);
    OneChildPerEdge(children, labels, parent, index, current, c);
    KidsAppend(labels, parent, current, cs, kids, c, children[current][c]);
  }

  /** Appending `child`, the one child of `current` whose edge character is
      `c`. */
  lemma KidsAppend(labels: seq<string>, parent: seq<nat>, current: nat, cs: set<char>, kids: seq<nat>, c: char, child: nat)
    requires Depths(labels, parent) && KidsSoFar(labels, parent, current, cs, kids) && c in cs
    requires 0 < child < |parent| && parent[child] == current && Last(labels[child]) == c
    requires forall m :: 0 < m < |parent| && parent[m] == current && Last(labels[m]) == c ==> m == child
    ensures KidsSoFar(labels, parent, current, cs - {c}, kids + [child])
  {
    var kids' := kids + [child];
    forall k | 0 <= k < |kids'|
      ensures 0 < kids'[k] < |parent| && parent[kids'[k]] == current && Last(labels[kids'[k]]) !in cs - {c}
    {
      if k < |kids| {
        assert kids'[k] == kids[k];
      }
    }
    assert child !in kids;
  }

  /** All children taken. */
  lemma KidsDone(labels: seq<string>, parent: seq<nat>, current: nat, kids: seq<nat>)
    requires Depths(labels, parent) && KidsSoFar(labels, parent, current, {}, kids)
    ensures Kids(parent, current, kids)
  {
  }

  /** The state of the breadth-first pass once the nodes in `P` have been
      dequeued: `queue` holds, each once, exactly the nodes whose parent was
      dequeued and that were not dequeued themselves; the queue spans at most
      two consecutive levels, shallower first; and the dequeued nodes are
      the nodes shallower than the head of the queue and some at its level. */
  ghost predicate Frontier(labels: seq<string>, parent: seq<nat>, P: set<nat>, queue: seq<nat>)
    requires Depths(labels, parent)
  {
    && 0 in P && (forall x :: x in P ==> x < |labels|)
    && Waiting(labels, parent, P, queue)
    && Covered(labels, parent, P, queue)
    && Distinct(queue)
    && Levels(labels, queue)
    && Dequeued(labels, P, queue)
  }

  /** The queue holds non-root nodes below dequeued ones, none dequeued. */
  ghost predicate Waiting(labels: seq<string>, parent: seq<nat>, P: set<nat>, queue: seq<nat>)
    requires Depths(labels, parent)
  {
    forall k :: 0 <= k < |queue| ==> 0 < queue[k] < |labels| && parent[queue[k]] in P && queue[k] !in P
  }

  /** Every node below a dequeued node is dequeued or in the queue. */
  ghost predicate Covered(labels: seq<string>, parent: seq<nat>, P: set<nat>, queue: seq<nat>)
    requires Depths(labels, parent)
  {
    forall n :: 0 < n < |labels| && parent[n] in P && n !in P ==> n in queue
  }

  /** The queue spans at most two consecutive levels, shallower first. */
  ghost predicate Levels(labels: seq<string>, queue: seq<nat>)
  {
    forall k1, k2 :: 0 <= k1 <= k2 < |queue| && queue[k1] < |labels| && queue[k2] < |labels| ==>
      |labels[queue[k1]]| <= |labels[queue[k2]]| <= |labels[queue[k1]]| + 1
  }

  /** The dequeued nodes are the nodes shallower than the head of the queue
      and some at its level. */
  ghost predicate Dequeued(labels: seq<string>, P: set<nat>, queue: seq<nat>)
  {
    queue != [] && queue[0] < |labels| ==>
      && (forall n :: 0 <= n < |labels| && |labels[n]| < |labels[queue[0]]| ==> n in P)
      && (forall x :: x in P && x < |labels| ==> |labels[x]| <= |labels[queue[0]]|)
  }

  /** The queue that holds the root's children, with only the root dequeued. */
  lemma FrontierStart(labels: seq<string>, parent: seq<nat>, queue: seq<nat>)
    requires Depths(labels, parent) && Kids(parent, 0, queue)
    ensures Frontier(labels, parent, {0}, queue)
  {
    forall k | 0 <= k < |queue|
      ensures |labels[queue[k]]| == 1
    {
    }
    forall n | 0 < n < |labels|
      ensures |labels[n]| >= 1
    {
      assert |labels[parent[n]]| + 1 == |labels[n]|;
    }
  }

  /** Every node no deeper than the head of the queue hangs below a dequeued
      node. */
  lemma FrontierHead(labels: seq<string>, parent: seq<nat>, P: set<nat>, queue: seq<nat>)
    requires Depths(labels, parent) && Frontier(labels, parent, P, queue) && queue != []
    ensures forall n :: 0 < n < |labels| && |labels[n]| <= |labels[queue[0]]| ==> parent[n] in P
  {
  }

  /** Dequeuing the head and enqueuing its children keeps the frontier. */
  lemma FrontierStep(labels: seq<string>, parent: seq<nat>, P: set<nat>, queue: seq<nat>, kids: seq<nat>)
    requires Depths(labels, parent) && Frontier(labels, parent, P, queue) && queue != []
    requires Kids(parent, queue[0], kids)
    ensures Frontier(labels, parent, P + {queue[0]}, queue[1..] + kids)
  {
    StepLevels(labels, parent, P, queue, kids);
    StepMembers(labels, parent, P, queue, kids);
    StepCovers(labels, parent, P, queue, kids);
    StepDistinct(labels, parent, P, queue, kids);
    StepHead(labels, parent, P, queue, kids);
  }

  /** The children lie one level below the head, and the queue at the
      head's level or one below. */
  lemma StepLevels(labels: seq<string>, parent: seq<nat>, P: set<nat>, queue: seq<nat>, kids: seq<nat>)
    requires Depths(labels, parent) && Frontier(labels, parent, P, queue) && queue != []
    requires Kids(parent, queue[0], kids)
    ensures forall k :: 0 <= k < |kids| ==> |labels[kids[k]]| == |labels[queue[0]]| + 1
    ensures Levels(labels, queue[1..] + kids)
  {
    var q' := queue[1..] + kids;
    var d := |labels[queue[0]]|;
    assert forall k :: 0 <= k < |kids| ==> |labels[kids[k]]| == d + 1;
    assert forall k :: 0 <= k < |queue| ==> d <= |labels[queue[k]]| <= d + 1;
    forall k | 0 <= k < |q'|
      ensures d <= |labels[q'[k]]| <= d + 1
      ensures k < |queue| - 1 ==> q'[k] == queue[k + 1]
    {
    }
  }

  /** The new queue holds non-dequeued nodes below dequeued ones. */
  lemma StepMembers(labels: seq<string>, parent: seq<nat>, P: set<nat>, queue: seq<nat>, kids: seq<nat>)
    requires Depths(labels, parent) && Frontier(labels, parent, P, queue) && queue != []
    requires Kids(parent, queue[0], kids)
    ensures Waiting(labels, parent, P + {queue[0]}, queue[1..] + kids)
  {
    var h, q' := queue[0], queue[1..] + kids;
    forall k | 0 <= k < |q'|
      ensures 0 < q'[k] < |labels| && parent[q'[k]] in P + {h} && q'[k] !in P + {h}
    {
      if k < |queue| - 1 {
        assert q'[k] == queue[k + 1];
      } else {
        var x := kids[k - |queue| + 1];
        assert q'[k] == x;
        assert |labels[x]| == |labels[h]| + 1;
      }
    }
  }

  /** Every node below a dequeued node, not dequeued itself, is in the new
      queue. */
  lemma StepCovers(labels: seq<string>, parent: seq<nat>, P: set<nat>, queue: seq<nat>, kids: seq<nat>)
    requires Depths(labels, parent) && Frontier(labels, parent, P, queue) && queue != []
    requires Kids(parent, queue[0], kids)
    ensures Covered(labels, parent, P + {queue[0]}, queue[1..] + kids)
  {
    var h, q' := queue[0], queue[1..] + kids;
    forall n | 0 < n < |labels| && parent[n] in P + {h} && n !in P + {h}
      ensures n in q'
    {
      if parent[n] == h {
        assert n in kids;
      } else {
        var k :| 0 <= k < |queue| && queue[k] == n;
        assert q'[k - 1] == n;
      }
    }
  }

  /** The new queue has no repetition. */
  lemma StepDistinct(labels: seq<string>, parent: seq<nat>, P: set<nat>, queue: seq<nat>, kids: seq<nat>)
    requires Depths(labels, parent) && Frontier(labels, parent, P, queue) && queue != []
    requires Kids(parent, queue[0], kids)
    ensures Distinct(queue[1..] + kids)
  {
    var h, q' := queue[0], queue[1..] + kids;
    forall k1, k2 | 0 <= k1 < k2 < |q'|
      ensures q'[k1] != q'[k2]
    {
      if k2 < |queue| - 1 {
        assert q'[k1] == queue[k1 + 1] && q'[k2] == queue[k2 + 1];
      } else if k1 >= |queue| - 1 {
        assert q'[k1] == kids[k1 - |queue| + 1] && q'[k2] == kids[k2 - |queue| + 1];
      } else {
        assert parent[q'[k2]] == h && q'[k1] == queue[k1 + 1];
      }
    }
  }

  /** The dequeued nodes are still the shallower ones and some at the level
      of the new head. */
  lemma StepHead(labels: seq<string>, parent: seq<nat>, P: set<nat>, queue: seq<nat>, kids: seq<nat>)
    requires Depths(labels, parent) && Frontier(labels, parent, P, queue) && queue != []
    requires Kids(parent, queue[0], kids)
    ensures Dequeued(labels, P + {queue[0]}, queue[1..] + kids)
  {
    var h, q' := queue[0], queue[1..] + kids;
    var d := |labels[h]|;
    if q' != [] {
      assert d <= |labels[q'[0]]| <= d + 1 by {
        if |queue| > 1 {
          assert q'[0] == queue[1];
        } else {
          assert q'[0] == kids[0];
        }
      }
      forall n | 0 <= n < |labels| && |labels[n]| < |labels[q'[0]]|
        ensures n in P + {h}
      {
        if |labels[n]| >= d && n !in P {
          ShallowParentDequeued(labels, parent, P, queue, n);
          var k :| 0 <= k < |queue| && queue[k] == n;
        }
      }
    }
  }

  /** A node at the level of the head hangs below a dequeued node, so it is
      dequeued or waiting in the queue. */
  lemma ShallowParentDequeued(labels: seq<string>, parent: seq<nat>, P: set<nat>, queue: seq<nat>, n: nat)
    requires Depths(labels, parent) && Frontier(labels, parent, P, queue) && queue != []
    requires n < |labels| && |labels[n]| == |labels[queue[0]]| && n !in P
    ensures n in queue
  {
    assert n != 0;
  }

  /** An empty queue: every node has been dequeued. */
  lemma FrontierDone(labels: seq<string>, parent: seq<nat>, P: set<nat>)
    requires Depths(labels, parent) && Frontier(labels, parent, P, [])
    ensures forall n :: 0 <= n < |labels| ==> n in P
  {
    forall n | 0 <= n < |labels|
      ensures n in P
    {
      AllReached(labels, parent, P, n);
    }
  }

  /** `failure1` has the failure links of `failure0` and, in addition,
      exactly those of the nodes in `kids` (-1 stands for no link). */
  ghost predicate AddedLinks(failure0: seq<int>, failure1: seq<int>, kids: seq<nat>)
  {
    && |failure1| == |failure0|
    && forall n {:trigger failure1[n]} :: 0 < n < |failure0| ==>
         (failure1[n] != -1 <==> failure0[n] != -1 || n in kids)
  }

  lemma AddedLinksStart(failure: seq<int>)
    ensures AddedLinks(failure, failure, [])
  {
  }

  /** Setting the link of one more node. */
  lemma AddedLinksStep(failure0: seq<int>, failure1: seq<int>, kids: seq<nat>, child: nat, target: int)
    requires AddedLinks(failure0, failure1, kids) && 0 < child < |failure0| && target != -1
    ensures AddedLinks(failure0, failure1[child := target], kids + [child])
  {
    var failure2 := failure1[child := target];
    forall n | 0 < n < |failure0|
      ensures failure2[n] != -1 <==> failure0[n] != -1 || n in kids + [child]
    {
      if n != child {
        assert failure2[n] == failure1[n];
      }
    }
  }

  /** Exactly the nodes whose parent has been dequeued are linked. */
  ghost predicate LinkedBelow(failure: seq<int>, parent: seq<nat>, P: set<nat>)
  {
    && |failure| == |parent|
    && forall n {:trigger failure[n]} :: 0 < n < |failure| ==> (failure[n] != -1 <==> parent[n] in P)
  }

  /** After `current` is dequeued and its children are linked. */
  lemma LinkedBelowStep(failure0: seq<int>, failure1: seq<int>, parent: seq<nat>, P: set<nat>,
                        current: nat, kids: seq<nat>)
    requires LinkedBelow(failure0, parent, P) && AddedLinks(failure0, failure1, kids)
    requires Kids(parent, current, kids)
    ensures LinkedBelow(failure1, parent, P + {current})
  {
    forall n | 0 < n < |failure1|
      ensures failure1[n] != -1 <==> parent[n] in P + {current}
    {
      assert failure0[n] != -1 <==> parent[n] in P;
    }
  }

  /** Before the first node is dequeued, no node hangs below a dequeued one. */
  lemma LinkedBelowStart(failure: seq<int>, parent: seq<nat>)
    requires |failure| == |parent|
    requires forall n :: 0 < n < |failure| ==> failure[n] == -1
    ensures LinkedBelow(failure, parent, {})
  {
  }

  /** The children of a node not yet dequeued are not linked. */
  lemma NotLinkedBelow(failure: seq<int>, parent: seq<nat>, P: set<nat>, current: nat)
    requires LinkedBelow(failure, parent, P) && current !in P
    ensures forall n :: 0 < n < |failure| && parent[n] == current ==> failure[n] == -1
  {
  }

  /** Every non-root node at most `d` deep is linked. */
  ghost predicate LinkedUpTo(failure: seq<int>, labels: seq<string>, d: nat)
  {
    && |failure| == |labels|
    && forall n {:trigger failure[n]} :: 0 < n < |labels| && |labels[n]| <= d ==> failure[n] != -1
  }

  /** Setting one more link keeps the nodes up to depth `d` linked. */
  lemma LinkedUpToUpdate(failure: seq<int>, labels: seq<string>, d: nat, n: nat, f: int)
    requires LinkedUpTo(failure, labels, d) && n < |failure| && f != -1
    ensures LinkedUpTo(failure[n := f], labels, d)
  {
    forall m | 0 < m < |labels| && |labels[m]| <= d
      ensures failure[n := f][m] != -1
    {
      if m != n {
        assert failure[n := f][m] == failure[m];
      }
    }
  }

  /** Every node no deeper than the head of the queue is linked. */
  lemma LinkedUpToHead(failure: seq<int>, labels: seq<string>, parent: seq<nat>, P: set<nat>, queue: seq<nat>)
    requires Depths(labels, parent) && Frontier(labels, parent, P, queue) && queue != []
    requires LinkedBelow(failure, parent, P)
    ensures LinkedUpTo(failure, labels, |labels[queue[0]]|)
  {
    FrontierHead(labels, parent, P, queue);
  }

  /** With every node dequeued, every non-root node is linked. */
  lemma LinkedAll(failure: seq<int>, labels: seq<string>, parent: seq<nat>, P: set<nat>)
    requires Depths(labels, parent) && Frontier(labels, parent, P, [])
    requires LinkedBelow(failure, parent, P)
    ensures forall n :: 0 < n < |failure| ==> failure[n] != -1
  {
    FrontierDone(labels, parent, P);
    forall n | 0 < n < |failure|
      ensures failure[n] != -1
    {
      assert parent[n] in P;
    }
  }

  /** What the breadth-first pass knows of the head of its queue: it is a
      non-root node not yet dequeued, every node no deeper is linked, and its
      children are not. */
  lemma BfsHead(failure: seq<int>, labels: seq<string>, parent: seq<nat>, P: set<nat>, queue: seq<nat>)
    requires Depths(labels, parent) && Frontier(labels, parent, P, queue) && queue != []
    requires LinkedBelow(failure, parent, P)
    ensures 0 < queue[0] < |labels| && queue[0] !in P
    ensures LinkedUpTo(failure, labels, |labels[queue[0]]|)
    ensures forall n :: 0 < n < |failure| && parent[n] == queue[0] ==> failure[n] == -1
  {
    LinkedUpToHead(failure, labels, parent, P, queue);
    NotLinkedBelow(failure, parent, P, queue[0]);
  }

  /** One round of the breadth-first pass: the head is dequeued, and its
      children, now linked, are enqueued. */
  lemma BfsStep(failure0: seq<int>, failure1: seq<int>, labels: seq<string>, parent: seq<nat>,
                P: set<nat>, queue: seq<nat>, kids: seq<nat>)
    requires Depths(labels, parent) && Frontier(labels, parent, P, queue) && queue != []
    requires LinkedBelow(failure0, parent, P)
    requires AddedLinks(failure0, failure1, kids) && Kids(parent, queue[0], kids)
    ensures Frontier(labels, parent, P + {queue[0]}, queue[1..] + kids)
    ensures LinkedBelow(failure1, parent, P + {queue[0]})
  {
    LinkedBelowStep(failure0, failure1, parent, P, queue[0], kids);
    FrontierStep(labels, parent, P, queue, kids);
  }
}

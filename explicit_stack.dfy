/**
 * The bookkeeping of `nonrecursiveDFS`: depth-first search with an
 * explicit stack and one iterator position per adjacency list. Its state
 * is a `Frame`; `Traversing` is the loop invariant, and each of the three
 * things one pass of the loop can do (discover a new vertex, skip a marked
 * one, pop a finished one) has a lemma carrying the invariant across it
 * and showing that the termination measure goes down. Line numbers in
 * this module refer to DepthFirstPaths.java.
 */
module ExplicitStack {
  import opened Graphs
  import opened ParentTrees

  /**
   * m, edge, dist, pre, post: the fields `marked`, `edgeTo`, `distTo`,
   * `preorder`, `postorder`; stack: the stack, bottom first; next[u]: how
   * many entries of adj(u) the iterator over adj(u) has already returned.
   */
  datatype Frame = Frame(m: seq<bool>, edge: seq<int>, dist: seq<int>, pre: seq<int>, post: seq<int>,
                         stack: seq<int>, next: seq<nat>)

  ghost predicate FrameSized(g: Graph, f: Frame) {
    |f.m| == |g| && |f.edge| == |g| && |f.dist| == |g| && |f.next| == |g|
  }

  /** The vertices on the stack. */
  ghost function Members(q: seq<int>): set<int> {
    set x | x in q
  }

  /**
   * The stack is a path of g from s, without repetition, of marked
   * vertices, the one at height i having depth i.
   */
  ghost predicate OnStack(g: Graph, s: int, f: Frame)
    requires FrameSized(g, f)
  {
    (f.stack != [] ==> f.stack[0] == s)
    && (forall i :: 0 <= i < |f.stack| ==> 0 <= f.stack[i] < |g| && f.m[f.stack[i]] && f.dist[f.stack[i]] == i)
    && (forall i :: 0 <= i < |f.stack| - 1 ==> f.stack[i + 1] in g[f.stack[i]])
    && Distinct(f.stack)
  }

  /**
   * Every entry an iterator has returned is marked, and the iterator of a
   * marked vertex that has left the stack is exhausted.
   */
  ghost predicate Scanned(g: Graph, f: Frame)
    requires IsGraph(g) && FrameSized(g, f)
  {
    (forall u :: 0 <= u < |g| ==> f.next[u] <= |g[u]|)
    && (forall u, j :: 0 <= u < |g| && 0 <= j < |g[u]| && j < f.next[u] ==> f.m[g[u][j]])
    && (forall u :: 0 <= u < |g| && f.m[u] && u !in Members(f.stack) ==> f.next[u] == |g[u]|)
  }

  /**
   * A marked vertex other than s that has left the stack points at the
   * vertex below it when it was popped, a marked neighbour one level up.
   */
  ghost predicate Popped(g: Graph, s: int, f: Frame)
    requires FrameSized(g, f)
  {
    (forall u {:trigger HasParent(f.m, f.edge, f.dist, u)} ::
       0 <= u < |g| && f.m[u] && u !in Members(f.stack) && u != s ==> HasParent(f.m, f.edge, f.dist, u))
    && (forall u :: 0 <= u < |g| && f.m[u] && u !in Members(f.stack) && u != s ==>
          0 <= f.edge[u] < |g| && u in g[f.edge[u]])
  }

  /**
   * Past their lengths pre0 and post0 at the start, preorder lists the
   * marked vertices, s first, and postorder those that have left the
   * stack, s last once the stack is empty.
   */
  ghost predicate Queued(s: int, pre0: seq<int>, post0: seq<int>, f: Frame) {
    Extends(f.pre, pre0) && |f.pre| > |pre0| && f.pre[|pre0|] == s
    && Lists(f.pre[|pre0|..], MarkedSet(f.m))
    && Extends(f.post, post0)
    && Lists(f.post[|post0|..], MarkedSet(f.m) - Members(f.stack))
    && (f.stack == [] ==> |f.post| > |post0| && f.post[|f.post| - 1] == s)
  }

  /** The invariant of the loop at lines 341-358. */
  ghost predicate Traversing(g: Graph, s: int, pre0: seq<int>, post0: seq<int>, f: Frame)
    requires IsGraph(g)
  {
    FrameSized(g, f) && 0 <= s < |g| && f.m[s] && f.dist[s] == 0
    && OnStack(g, s, f) && Scanned(g, f) && Popped(g, s, f) && Queued(s, pre0, post0, f)
  }

  /** The (vertex, position) pairs the iterators have not yet returned. */
  ghost function Pending(g: Graph, next: seq<nat>): set<(int, int)>
    requires |next| == |g|
  {
    set u, j | 0 <= u < |g| && 0 <= j < |g[u]| && next[u] <= j :: (u, j)
  }

  lemma PendingShrinks(g: Graph, next: seq<nat>, v: int)
    requires |next| == |g| && 0 <= v < |g| && next[v] < |g[v]|
    ensures Pending(g, next[v := next[v] + 1]) < Pending(g, next)
  {
    assert (v, next[v]) in Pending(g, next) - Pending(g, next[v := next[v] + 1]);
  }

  /**
   * Lines 329-340: a fresh `marked` with only s set, every iterator at the
   * start of its list, the stack [s] and s appended to preorder.
   */
  lemma TraverseStart(g: Graph, s: int, pre0: seq<int>, post0: seq<int>, f: Frame)
    requires IsGraph(g) && 0 <= s < |g| && FrameSized(g, f)
    requires forall u :: 0 <= u < |g| ==> f.m[u] == (u == s) && f.next[u] == 0
    requires f.dist[s] == 0 && f.pre == pre0 + [s] && f.post == post0 && f.stack == [s]
    ensures Traversing(g, s, pre0, post0, f)
  {
    assert MarkedSet(f.m) == {s};
    assert Members(f.stack) == {s};
    assert f.pre[|pre0|..] == [s];
    assert f.post[|post0|..] == [];
  }

  /**
   * Lines 344-351: the top v's iterator returns an unmarked w, which is
   * appended to preorder, marked, given depth `stack.size()` and pushed.
   */
  lemma Discover(g: Graph, s: int, pre0: seq<int>, post0: seq<int>, f: Frame, v: int, w: int, f1: Frame)
    requires IsGraph(g) && Traversing(g, s, pre0, post0, f) && f.stack != []
    requires v == f.stack[|f.stack| - 1] && f.next[v] < |g[v]| && w == g[v][f.next[v]] && !f.m[w]
    requires f1 == f.(pre := f.pre + [w], m := f.m[w := true], dist := f.dist[w := |f.stack|],
                      stack := f.stack + [w], next := f.next[v := f.next[v] + 1])
    ensures Traversing(g, s, pre0, post0, f1) && Unmarked(f1.m) < Unmarked(f.m)
  {
    assert FrameSized(g, f1);
    assert w in g[v];
    assert w !in Members(f.stack);
    assert Members(f1.stack) == Members(f.stack) + {w};
    DiscoverStack(g, s, f, v, w, f1);
    DiscoverScanned(g, f, v, w, f1);
    DiscoverPopped(g, s, f, w, f1);
    assert MarkedSet(f1.m) == MarkedSet(f.m) + {w};
    ListsAppend(f.pre[|pre0|..], MarkedSet(f.m), [w], {w});
    ExtendsAppend(f.pre, pre0, [w]);
    assert MarkedSet(f1.m) - Members(f1.stack) == MarkedSet(f.m) - Members(f.stack);
    UnmarkedShrinks(f.m, f1.m, w);
  }

  lemma DiscoverStack(g: Graph, s: int, f: Frame, v: int, w: int, f1: Frame)
    requires IsGraph(g) && FrameSized(g, f) && OnStack(g, s, f) && f.stack != []
    requires v == f.stack[|f.stack| - 1] && w in g[v] && w < |g| && w !in Members(f.stack)
    requires f1 == f.(pre := f.pre + [w], m := f.m[w := true], dist := f.dist[w := |f.stack|],
                      stack := f.stack + [w], next := f.next[v := f.next[v] + 1])
    ensures FrameSized(g, f1) && OnStack(g, s, f1)
  {
    forall i | 0 <= i < |f1.stack| ensures 0 <= f1.stack[i] < |g| && f1.m[f1.stack[i]] && f1.dist[f1.stack[i]] == i {
      if i < |f.stack| {
        assert f1.stack[i] == f.stack[i] && f.stack[i] in Members(f.stack);
      }
    }
    forall i, j | 0 <= i < j < |f1.stack| ensures f1.stack[i] != f1.stack[j] {
      if j == |f.stack| {
        assert f.stack[i] in Members(f.stack);
      }
    }
  }

  lemma DiscoverScanned(g: Graph, f: Frame, v: int, w: int, f1: Frame)
    requires IsGraph(g) && FrameSized(g, f) && Scanned(g, f) && 0 <= v < |g| && v in Members(f.stack)
    requires f.next[v] < |g[v]| && w == g[v][f.next[v]]
    requires f1.m == f.m[w := true] && f1.next == f.next[v := f.next[v] + 1]
    requires |f1.edge| == |g| && |f1.dist| == |g| && Members(f1.stack) == Members(f.stack) + {w}
    ensures FrameSized(g, f1) && Scanned(g, f1)
  {
  }

  lemma DiscoverPopped(g: Graph, s: int, f: Frame, w: int, f1: Frame)
    requires IsGraph(g) && FrameSized(g, f) && Popped(g, s, f) && 0 <= w < |g| && !f.m[w]
    requires |f1.dist| == |g| && f1.m == f.m[w := true] && f1.edge == f.edge && f1.dist == f.dist[w := f1.dist[w]]
    requires |f1.next| == |g| && Members(f1.stack) == Members(f.stack) + {w}
    ensures FrameSized(g, f1) && Popped(g, s, f1)
  {
    forall u | 0 <= u < |g| && f1.m[u] && u !in Members(f1.stack) && u != s
      ensures HasParent(f1.m, f1.edge, f1.dist, u)
    {
      assert HasParent(f.m, f.edge, f.dist, u);
    }
  }

  /** Lines 344-345: the iterator returns an entry that is already marked, which is passed over. */
  lemma Skip(g: Graph, s: int, pre0: seq<int>, post0: seq<int>, f: Frame, v: int, f1: Frame)
    requires IsGraph(g) && Traversing(g, s, pre0, post0, f) && f.stack != []
    requires v == f.stack[|f.stack| - 1] && f.next[v] < |g[v]| && f.m[g[v][f.next[v]]]
    requires f1 == f.(next := f.next[v := f.next[v] + 1])
    ensures Traversing(g, s, pre0, post0, f1) && Pending(g, f1.next) < Pending(g, f.next)
  {
    assert v in Members(f.stack);
    PendingShrinks(g, f.next, v);
  }

  /**
   * Lines 352-357: the top v's iterator is exhausted; v is appended to
   * postorder and popped, and if the stack is not empty v's parent becomes
   * the new top.
   */
  lemma Pop(g: Graph, s: int, pre0: seq<int>, post0: seq<int>, f: Frame, v: int, f1: Frame)
    requires IsGraph(g) && Traversing(g, s, pre0, post0, f) && f.stack != []
    requires v == f.stack[|f.stack| - 1] && f.next[v] == |g[v]|
    requires f1 == f.(post := f.post + [v], stack := f.stack[..|f.stack| - 1],
                      edge := if |f.stack| > 1 then f.edge[v := f.stack[|f.stack| - 2]] else f.edge)
    ensures Traversing(g, s, pre0, post0, f1)
    ensures f1.m == f.m && f1.next == f.next && |f1.stack| < |f.stack| && f1.edge[s] == f.edge[s]
  {
    var n := |f.stack|;
    assert Members(f.stack) == Members(f1.stack) + {v};
    assert v !in Members(f1.stack);
    assert n > 1 ==> v != s by {
      if n > 1 {
        assert f.stack[0] != f.stack[n - 1];
      }
    }
    assert n == 1 ==> v == s;
    PopStack(g, s, f, f1);
    PopScanned(g, f, v, f1);
    PopPopped(g, s, f, v, f1);
    assert MarkedSet(f1.m) - Members(f1.stack) == (MarkedSet(f.m) - Members(f.stack)) + {v};
    ListsAppend(f.post[|post0|..], MarkedSet(f.m) - Members(f.stack), [v], {v});
    ExtendsAppend(f.post, post0, [v]);
  }

  lemma PopStack(g: Graph, s: int, f: Frame, f1: Frame)
    requires FrameSized(g, f) && OnStack(g, s, f) && f.stack != []
    requires |f1.m| == |g| && |f1.edge| == |g| && |f1.next| == |g|
    requires f1.m == f.m && f1.dist == f.dist && f1.stack == f.stack[..|f.stack| - 1]
    ensures FrameSized(g, f1) && OnStack(g, s, f1)
  {
    forall i | 0 <= i < |f1.stack| ensures 0 <= f1.stack[i] < |g| && f1.m[f1.stack[i]] && f1.dist[f1.stack[i]] == i {
      assert f1.stack[i] == f.stack[i];
    }
    forall i | 0 <= i < |f1.stack| - 1 ensures f1.stack[i + 1] in g[f1.stack[i]] {
      assert f1.stack[i] == f.stack[i] && f1.stack[i + 1] == f.stack[i + 1];
    }
    forall i, j | 0 <= i < j < |f1.stack| ensures f1.stack[i] != f1.stack[j] {
      assert f1.stack[i] == f.stack[i] && f1.stack[j] == f.stack[j];
    }
  }

  lemma PopScanned(g: Graph, f: Frame, v: int, f1: Frame)
    requires IsGraph(g) && FrameSized(g, f) && Scanned(g, f) && 0 <= v < |g| && f.next[v] == |g[v]|
    requires f1.m == f.m && f1.next == f.next && |f1.edge| == |g| && |f1.dist| == |g|
    requires Members(f.stack) == Members(f1.stack) + {v}
    ensures FrameSized(g, f1) && Scanned(g, f1)
  {
  }

  lemma PopPopped(g: Graph, s: int, f: Frame, v: int, f1: Frame)
    requires IsGraph(g) && FrameSized(g, f) && OnStack(g, s, f) && Popped(g, s, f)
    requires |f.stack| > 0 && v == f.stack[|f.stack| - 1] && (|f.stack| > 1 ==> v != s)
    requires f1.m == f.m && f1.dist == f.dist && |f1.next| == |g|
    requires f1.edge == if |f.stack| > 1 then f.edge[v := f.stack[|f.stack| - 2]] else f.edge
    requires Members(f.stack) == Members(f1.stack) + {v} && v !in Members(f1.stack)
    ensures FrameSized(g, f1) && Popped(g, s, f1)
  {
    var n := |f.stack|;
    forall u | 0 <= u < |g| && f1.m[u] && u !in Members(f1.stack) && u != s
      ensures HasParent(f1.m, f1.edge, f1.dist, u) && 0 <= f1.edge[u] < |g| && u in g[f1.edge[u]]
    {
      if u == v {
        var p := f.stack[n - 2];
        assert f1.edge[v] == p;
        assert f.dist[p] == n - 2 && f.dist[v] == n - 1 && f.m[p];
        assert f.stack[n - 1] in g[f.stack[n - 2]];
      } else {
        assert u !in Members(f.stack);
        assert HasParent(f.m, f.edge, f.dist, u);
      }
    }
  }

  /**
   * Once the stack is empty every marked vertex is finished and has a
   * parent: the marked set is closed under adjacency and carries a parent
   * tree rooted at s, and both queues list it.
   */
  lemma TraverseDone(g: Graph, s: int, pre0: seq<int>, post0: seq<int>, f: Frame)
    requires IsGraph(g) && Traversing(g, s, pre0, post0, f) && f.stack == []
    ensures f.m[s] && ClosedUnder(g, f.m) && IsParentTree(g, s, f.m, f.edge, f.dist)
    ensures Extends(f.pre, pre0) && |f.pre| > |pre0| && f.pre[|pre0|] == s
    ensures Lists(f.pre[|pre0|..], MarkedSet(f.m))
    ensures Extends(f.post, post0) && |f.post| > |post0| && f.post[|f.post| - 1] == s
    ensures Lists(f.post[|post0|..], MarkedSet(f.m))
  {
    assert Members(f.stack) == {};
    forall u | 0 <= u < |g| && f.m[u] ensures Finished(g, f.m, u) {
      assert f.next[u] == |g[u]|;
    }
    forall w | 0 <= w < |f.m| && f.m[w] && w != s ensures HasParent(f.m, f.edge, f.dist, w) {
      assert w !in Members(f.stack);
    }
    assert MarkedSet(f.m) - Members(f.stack) == MarkedSet(f.m);
  }
}

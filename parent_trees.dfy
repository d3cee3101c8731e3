/**
 * What a depth-first traversal leaves behind: the `marked`, `edgeTo` and
 * `distTo` arrays read as a tree of parent edges rooted at the source,
 * and the walk `pathTo` performs back along those edges.
 */
module ParentTrees {
  import opened Graphs

  /** The marked vertex w has a marked parent one level closer to the root. */
  ghost predicate HasParent(m: seq<bool>, edge: seq<int>, dist: seq<int>, w: int)
    requires |edge| == |m| && |dist| == |m| && 0 <= w < |m|
  {
    0 <= edge[w] < |m| && m[edge[w]] && dist[w] >= 1 && dist[w] == dist[edge[w]] + 1
  }

  /**
   * Every marked vertex other than the source s has a parent edge one
   * level up, and s sits at depth 0: following `edgeTo` from a marked
   * vertex strictly decreases `distTo` until it reaches s.
   */
  ghost predicate IsRootedTree(s: int, m: seq<bool>, edge: seq<int>, dist: seq<int>) {
    |edge| == |m| && |dist| == |m| && 0 <= s < |m| && dist[s] == 0
    && forall w {:trigger HasParent(m, edge, dist, w)} :: 0 <= w < |m| && m[w] && w != s ==> HasParent(m, edge, dist, w)
  }

  /** A rooted tree whose every parent-child pair is an edge of g (the child is in adj(parent)). */
  ghost predicate IsParentTree(g: Graph, s: int, m: seq<bool>, edge: seq<int>, dist: seq<int>) {
    |g| == |m| && IsRootedTree(s, m, edge, dist)
    && forall w :: 0 <= w < |m| && m[w] && w != s ==> 0 <= edge[w] < |g| && w in g[edge[w]]
  }

  /**
   * The list `pathTo(v)` builds: v, edgeTo[v], edgeTo[edgeTo[v]], ..., s.
   * Its termination is the termination of the source's while loop.
   */
  function PathToRoot(s: int, m: seq<bool>, edge: seq<int>, dist: seq<int>, v: int): (p: seq<int>)
    requires IsRootedTree(s, m, edge, dist) && 0 <= v < |m| && (m[v] || v == s)
    ensures |p| == dist[v] + 1 && |p| > 0 && p[0] == v && p[|p| - 1] == s
    ensures forall i :: 0 <= i < |p| ==> 0 <= p[i] < |m| && (m[p[i]] || p[i] == s)
    ensures forall i :: 0 <= i < |p| - 1 ==> p[i] != s && p[i + 1] == edge[p[i]]
    decreases dist[v]
  {
    if v == s then [s]
    else
      assert HasParent(m, edge, dist, v);
      [v] + PathToRoot(s, m, edge, dist, edge[v])
  }

  /** Each step of the path to the root goes from a child to its parent, an edge of g. */
  lemma PathToRootEdges(g: Graph, s: int, m: seq<bool>, edge: seq<int>, dist: seq<int>, v: int)
    requires IsParentTree(g, s, m, edge, dist) && 0 <= v < |m| && (m[v] || v == s)
    ensures var p := PathToRoot(s, m, edge, dist, v);
      forall i :: 0 <= i < |p| - 1 ==> p[i] in g[p[i + 1]]
  {
    var p := PathToRoot(s, m, edge, dist, v);
    forall i | 0 <= i < |p| - 1 ensures p[i] in g[p[i + 1]] {
      var w := p[i];
      assert w != s && m[w] && p[i + 1] == edge[w];
      assert w in g[edge[w]];
    }
  }

  /** Read backwards, the path to the root is a walk of g from s to v. */
  lemma PathToRootIsWalk(g: Graph, s: int, m: seq<bool>, edge: seq<int>, dist: seq<int>, v: int)
    requires IsParentTree(g, s, m, edge, dist) && 0 <= v < |m| && (m[v] || v == s)
    ensures IsWalk(g, Reverse(PathToRoot(s, m, edge, dist, v)))
  {
    PathToRootEdges(g, s, m, edge, dist, v);
    ReverseBackWalk(g, PathToRoot(s, m, edge, dist, v));
  }

  /** In a symmetric graph the path to the root is itself a walk from v to s. */
  lemma PathToRootIsWalkBack(g: Graph, s: int, m: seq<bool>, edge: seq<int>, dist: seq<int>, v: int)
    requires Symmetric(g) && IsParentTree(g, s, m, edge, dist) && 0 <= v < |m| && (m[v] || v == s)
    ensures IsWalk(g, PathToRoot(s, m, edge, dist, v))
  {
    var p := PathToRoot(s, m, edge, dist, v);
    PathToRootEdges(g, s, m, edge, dist, v);
    forall i | 0 <= i < |p| - 1 ensures p[i + 1] in g[p[i]] {
      assert p[i] in g[p[i + 1]];
    }
  }

  /** Every vertex of a parent tree is reachable from its root. */
  lemma TreeReachable(g: Graph, s: int, m: seq<bool>, edge: seq<int>, dist: seq<int>, v: int)
    requires IsParentTree(g, s, m, edge, dist) && 0 <= v < |m| && (m[v] || v == s)
    ensures Reachable(g, s, v)
  {
    PathToRootIsWalk(g, s, m, edge, dist, v);
    var r := Reverse(PathToRoot(s, m, edge, dist, v));
    assert r[0] == s && r[|r| - 1] == v;
  }

  /**
   * A parent tree rooted at a marked s whose marked set is closed under
   * adjacency marks exactly the vertices reachable from s.
   */
  lemma MarkedIsReachable(g: Graph, s: int, m: seq<bool>, edge: seq<int>, dist: seq<int>)
    requires IsParentTree(g, s, m, edge, dist) && m[s] && ClosedUnder(g, m)
    ensures forall v :: 0 <= v < |g| ==> (m[v] <==> Reachable(g, s, v))
  {
    forall v | 0 <= v < |g| ensures m[v] <==> Reachable(g, s, v) {
      if m[v] {
        TreeReachable(g, s, m, edge, dist, v);
      }
      if Reachable(g, s, v) {
        ClosedHoldsReachable(g, m, s, v);
      }
    }
  }

  /**
   * What the arrays say after a search of g from s: exactly the vertices
   * reachable from s are marked, and they carry a parent tree of g rooted
   * at s.
   */
  ghost predicate Explored(g: Graph, s: int, m: seq<bool>, edge: seq<int>, dist: seq<int>) {
    |m| == |g| && 0 <= s < |g|
    && (forall v :: 0 <= v < |g| ==> (m[v] <==> Reachable(g, s, v)))
    && IsParentTree(g, s, m, edge, dist)
  }

  /**
   * The outcome of a complete depth-first search from s, started with the
   * queues at pre0 and post0: the arrays are `Explored`, and each marked
   * vertex has been appended once to preorder (s first) and once to
   * postorder (s last).
   */
  ghost predicate Searched(g: Graph, s: int, m: seq<bool>, edge: seq<int>, dist: seq<int>,
                           pre0: seq<int>, pre: seq<int>, post0: seq<int>, post: seq<int>) {
    Explored(g, s, m, edge, dist)
    && Extends(pre, pre0) && |pre| > |pre0| && pre[|pre0|] == s
    && Lists(pre[|pre0|..], MarkedSet(m))
    && Extends(post, post0) && |post| > |post0| && post[|post| - 1] == s
    && Lists(post[|post0|..], MarkedSet(m))
  }

  /** A closed parent tree with both queues complete is the outcome of a complete search. */
  lemma ClosedSearched(g: Graph, s: int, m: seq<bool>, edge: seq<int>, dist: seq<int>,
                       pre0: seq<int>, pre: seq<int>, post0: seq<int>, post: seq<int>)
    requires IsParentTree(g, s, m, edge, dist) && m[s] && ClosedUnder(g, m)
    requires Extends(pre, pre0) && |pre| > |pre0| && pre[|pre0|] == s
    requires Lists(pre[|pre0|..], MarkedSet(m))
    requires Extends(post, post0) && |post| > |post0| && post[|post| - 1] == s
    requires Lists(post[|post0|..], MarkedSet(m))
    ensures Searched(g, s, m, edge, dist, pre0, pre, post0, post)
  {
    MarkedIsReachable(g, s, m, edge, dist);
  }
}

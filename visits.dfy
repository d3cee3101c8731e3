/**
 * The bookkeeping of one recursive depth-first visit, shared by the
 * deterministic `dfs` and the randomized `recRandomDFS`: both mark v,
 * append it to preorder, scan a list of v's neighbours, visit every
 * unmarked one with v as its parent and the depth one more, and append v
 * to postorder. The lemmas here carry the scan's loop invariant across one
 * step; the two methods differ only in which list they scan. Line numbers
 * in this module refer to DepthFirstPaths.java.
 */
module Visits {
  import opened Graphs
  import opened ParentTrees

  /** The traversal state: `marked`, `edgeTo`, `distTo` and the two queues. */
  datatype Snapshot = Snapshot(m: seq<bool>, edge: seq<int>, dist: seq<int>, pre: seq<int>, post: seq<int>)

  ghost predicate Sized(g: Graph, a: Snapshot) {
    |a.m| == |g| && |a.edge| == |g| && |a.dist| == |g|
  }

  /** b marks everything a marks and keeps their parents and depths. */
  ghost predicate Grows(g: Graph, a: Snapshot, b: Snapshot)
    requires Sized(g, a) && Sized(g, b)
  {
    forall u {:trigger a.m[u]} :: 0 <= u < |g| && a.m[u] ==> b.m[u] && b.edge[u] == a.edge[u] && b.dist[u] == a.dist[u]
  }

  /** The vertices b marks that a does not. */
  ghost function Found(a: Snapshot, b: Snapshot): set<int> {
    MarkedSet(b.m) - MarkedSet(a.m)
  }

  /**
   * What a visit of v begun in state a (with v unmarked and `edgesCount`
   * equal to depth) guarantees of the state b it returns in.
   */
  ghost predicate Visited(g: Graph, s: int, v: int, depth: int, a: Snapshot, b: Snapshot)
    requires Sized(g, a) && Sized(g, b) && 0 <= v < |g|
  {
    Grows(g, a, b)
    && b.m[v] && b.edge[v] == a.edge[v] && b.dist[v] == depth
    && IsParentTree(g, s, b.m, b.edge, b.dist)
    && (forall u {:trigger Finished(g, b.m, u)} :: 0 <= u < |g| && b.m[u] && !a.m[u] ==> Finished(g, b.m, u))
    && Extends(b.pre, a.pre) && |b.pre| > |a.pre| && b.pre[|a.pre|] == v
    && Lists(b.pre[|a.pre|..], Found(a, b))
    && Extends(b.post, a.post) && |b.post| > |a.post| && b.post[|b.post| - 1] == v
    && Lists(b.post[|a.post|..], Found(a, b))
  }

  /**
   * The invariant of the loop over adj (the neighbour list being scanned),
   * after i of its entries: a is the state when v's visit began, c the
   * current one.
   */
  ghost predicate Scanning(g: Graph, s: int, v: int, depth: int, adj: seq<nat>, i: int, a: Snapshot, c: Snapshot)
    requires Sized(g, a) && Sized(g, c) && 0 <= v < |g|
  {
    0 <= i <= |adj| && (forall j :: 0 <= j < |adj| ==> adj[j] < |g|)
    && Grows(g, a, c) && !a.m[v]
    && IsParentTree(g, s, c.m, c.edge, c.dist)
    && c.m[v] && c.edge[v] == a.edge[v] && c.dist[v] == depth && c.m[s]
    && (forall j :: 0 <= j < i ==> c.m[adj[j]])
    && (forall u {:trigger Finished(g, c.m, u)} :: 0 <= u < |g| && c.m[u] && !a.m[u] && u != v ==> Finished(g, c.m, u))
    && Extends(c.pre, a.pre) && |c.pre| > |a.pre| && c.pre[|a.pre|] == v
    && Lists(c.pre[|a.pre|..], Found(a, c))
    && Extends(c.post, a.post)
    && Lists(c.post[|a.post|..], Found(a, c) - {v})
  }

  /**
   * What a visit of v needs of the state a it starts in: v is unmarked, the
   * marked vertices form a parent tree, and unless v is the source it
   * already points at a marked neighbour one level above the depth it is
   * visited at.
   */
  ghost predicate CanVisit(g: Graph, s: int, v: int, depth: int, a: Snapshot)
    requires Sized(g, a) && 0 <= v < |g|
  {
    !a.m[v] && IsParentTree(g, s, a.m, a.edge, a.dist)
    && (v == s ==> depth == 0)
    && (v != s ==> a.m[s] && 0 <= a.edge[v] < |g| && a.m[a.edge[v]]
                   && v in g[a.edge[v]] && depth == a.dist[a.edge[v]] + 1)
  }

  /** Finished stays true as more vertices get marked. */
  lemma FinishedGrows(g: Graph, m1: seq<bool>, m2: seq<bool>, u: int)
    requires 0 <= u < |g| && |m1| == |g| && |m2| == |g| && Finished(g, m1, u)
    requires forall x :: 0 <= x < |g| && m1[x] ==> m2[x]
    ensures Finished(g, m2, u)
  {
    forall j | 0 <= j < |g[u]| ensures g[u][j] < |m2| && m2[g[u][j]] {
      assert m1[g[u][j]];
    }
  }

  /**
   * Lines 309-312: once v is marked, appended to preorder and given depth
   * `edgesCount`, the scan of its neighbours can start.
   */
  lemma ScanStart(g: Graph, s: int, v: int, depth: int, adj: seq<nat>, a: Snapshot, c: Snapshot)
    requires IsGraph(g) && Sized(g, a) && 0 <= v < |g| && CanVisit(g, s, v, depth, a)
    requires forall j :: 0 <= j < |adj| ==> adj[j] < |g|
    requires c == a.(m := a.m[v := true], dist := a.dist[v := depth], pre := a.pre + [v])
    ensures Sized(g, c) && Scanning(g, s, v, depth, adj, 0, a, c)
  {
    assert c.pre[|a.pre|..] == [v];
    assert Found(a, c) == {v};
    assert c.post[|a.post|..] == [];
    forall w | 0 <= w < |c.m| && c.m[w] && w != s ensures HasParent(c.m, c.edge, c.dist, w) && w in g[c.edge[w]] {
      if w != v {
        assert a.m[w] && HasParent(a.m, a.edge, a.dist, w);
        assert a.edge[w] != v;
      } else if a.edge[v] != s {
        assert HasParent(a.m, a.edge, a.dist, a.edge[v]);
      }
    }
  }

  /** An entry that is already marked is skipped. */
  lemma ScanSkip(g: Graph, s: int, v: int, depth: int, adj: seq<nat>, i: int, a: Snapshot, c: Snapshot)
    requires Sized(g, a) && Sized(g, c) && 0 <= v < |g|
    requires Scanning(g, s, v, depth, adj, i, a, c) && i < |adj| && c.m[adj[i]]
    ensures Scanning(g, s, v, depth, adj, i + 1, a, c)
  {
  }

  /**
   * Lines 316-318: an unmarked entry w gets parent v (`previousNode`) and
   * depth `edgesCount + 1`; the state c1 so prepared meets the
   * preconditions of the recursive visit of w.
   */
  lemma ScanPrepare(g: Graph, s: int, v: int, depth: int, adj: seq<nat>, i: int, a: Snapshot, c: Snapshot, c1: Snapshot)
    requires IsGraph(g) && Sized(g, a) && Sized(g, c) && 0 <= v < |g|
    requires Scanning(g, s, v, depth, adj, i, a, c) && i < |adj| && !c.m[adj[i]]
    requires adj[i] in g[v]
    requires c1 == c.(edge := c.edge[adj[i] := v], dist := c.dist[adj[i] := depth + 1])
    ensures Sized(g, c1) && adj[i] != v && CanVisit(g, s, adj[i], depth + 1, c1)
  {
    var w := adj[i];
    forall u | 0 <= u < |c1.m| && c1.m[u] && u != s ensures HasParent(c1.m, c1.edge, c1.dist, u) && u in g[c1.edge[u]] {
      assert HasParent(c.m, c.edge, c.dist, u);
      assert u != w && c.edge[u] != w;
    }
  }

  /**
   * Lines 319-321: after the recursive visit of w returns in state n, the
   * scan has covered entry i as well.
   */
  lemma ScanChild(g: Graph, s: int, v: int, depth: int, adj: seq<nat>, i: int, a: Snapshot, c: Snapshot, c1: Snapshot, n: Snapshot)
    requires IsGraph(g) && Sized(g, a) && Sized(g, c) && Sized(g, n) && 0 <= v < |g|
    requires Scanning(g, s, v, depth, adj, i, a, c) && i < |adj| && !c.m[adj[i]]
    requires c1 == c.(edge := c.edge[adj[i] := v], dist := c.dist[adj[i] := depth + 1])
    requires Visited(g, s, adj[i], depth + 1, c1, n)
    ensures Scanning(g, s, v, depth, adj, i + 1, a, n)
  {
    var w := adj[i];
    assert Sized(g, c1) && w != v;
    ChildGrows(g, s, v, depth, adj, i, a, c, c1, n);
    ChildQueues(c.pre, a.pre, n.pre, Found(a, c), Found(c1, n));
    ChildQueues(c.post, a.post, n.post, Found(a, c) - {v}, Found(c1, n));
    assert Found(c, c1) == {};
    assert Found(a, c) + Found(c1, n) == Found(a, n);
    assert (Found(a, c) - {v}) + Found(c1, n) == Found(a, n) - {v};
  }

  /** The marks, parents and depths part of ScanChild. */
  lemma ChildGrows(g: Graph, s: int, v: int, depth: int, adj: seq<nat>, i: int, a: Snapshot, c: Snapshot, c1: Snapshot, n: Snapshot)
    requires IsGraph(g) && Sized(g, a) && Sized(g, c) && Sized(g, n) && 0 <= v < |g|
    requires Scanning(g, s, v, depth, adj, i, a, c) && i < |adj| && !c.m[adj[i]]
    requires c1 == c.(edge := c.edge[adj[i] := v], dist := c.dist[adj[i] := depth + 1])
    requires Visited(g, s, adj[i], depth + 1, c1, n)
    ensures Grows(g, a, n) && n.m[v] && n.edge[v] == a.edge[v] && n.dist[v] == depth
    ensures forall j :: 0 <= j < i + 1 ==> n.m[adj[j]]
    ensures forall u :: 0 <= u < |g| && n.m[u] && !a.m[u] && u != v ==> Finished(g, n.m, u)
  {
    var w := adj[i];
    forall u | 0 <= u < |g| && a.m[u] ensures n.m[u] && n.edge[u] == a.edge[u] && n.dist[u] == a.dist[u] {
      assert c.m[u] && u != w;
    }
    forall u | 0 <= u < |g| && n.m[u] && !a.m[u] && u != v ensures Finished(g, n.m, u) {
      if c.m[u] {
        FinishedGrows(g, c.m, n.m, u);
      }
    }
  }

  /** A queue that lists A past q0 and then gains B (disjoint from A) past q lists A + B past q0. */
  lemma ChildQueues(q: seq<int>, q0: seq<int>, q1: seq<int>, A: set<int>, B: set<int>)
    requires Extends(q, q0) && Lists(q[|q0|..], A)
    requires Extends(q1, q) && Lists(q1[|q|..], B) && A !! B
    ensures Extends(q1, q0) && Lists(q1[|q0|..], A + B)
  {
    ExtendsTrans(q1, q, q0);
    ListsAppend(q[|q0|..], A, q1[|q|..], B);
  }

  /**
   * Line 324: when the scan has covered a list holding every neighbour of
   * v, appending v to postorder completes the visit.
   */
  lemma ScanDone(g: Graph, s: int, v: int, depth: int, adj: seq<nat>, a: Snapshot, c: Snapshot, d: Snapshot)
    requires Sized(g, a) && Sized(g, c) && 0 <= v < |g|
    requires Scanning(g, s, v, depth, adj, |adj|, a, c)
    requires forall x :: x in g[v] ==> x in adj
    requires d == c.(post := c.post + [v])
    ensures Sized(g, d) && Visited(g, s, v, depth, a, d)
  {
    CoveredIsFinished(g, c.m, v, adj);
    assert v in Found(a, c);
    CloseQueue(c.post, a.post, Found(a, c), v);
    assert Found(a, d) == Found(a, c);
  }

  /** Appending v to a queue whose tail lists S without v makes the tail list S, v last. */
  lemma CloseQueue(q: seq<int>, q0: seq<int>, S: set<int>, v: int)
    requires Extends(q, q0) && Lists(q[|q0|..], S - {v}) && v in S
    ensures Extends(q + [v], q0) && |q + [v]| > |q0| && (q + [v])[|q| ] == v
    ensures Lists((q + [v])[|q0|..], S)
  {
    ListsAppend(q[|q0|..], S - {v}, [v], {v});
    ExtendsAppend(q, q0, [v]);
    assert S - {v} + {v} == S;
  }

  /** If every entry of adj is marked and adj holds all of v's neighbours, v is finished. */
  lemma CoveredIsFinished(g: Graph, m: seq<bool>, v: int, adj: seq<nat>)
    requires |m| == |g| && 0 <= v < |g|
    requires forall j :: 0 <= j < |adj| ==> adj[j] < |g| && m[adj[j]]
    requires forall x :: x in g[v] ==> x in adj
    ensures Finished(g, m, v)
  {
    forall j | 0 <= j < |g[v]| ensures g[v][j] < |m| && m[g[v][j]] {
      var x := g[v][j];
      assert x in adj;
      var k :| 0 <= k < |adj| && adj[k] == x;
    }
  }

  /**
   * Lines 302-304: a visit of s begun with nothing marked and depth 0 is a
   * complete search from s.
   */
  lemma SearchDone(g: Graph, s: int, a: Snapshot, b: Snapshot)
    requires IsGraph(g) && Sized(g, a) && Sized(g, b) && 0 <= s < |g|
    requires forall u :: 0 <= u < |g| ==> !a.m[u]
    requires Visited(g, s, s, 0, a, b)
    ensures Searched(g, s, b.m, b.edge, b.dist, a.pre, b.pre, a.post, b.post)
  {
    forall u | 0 <= u < |g| && b.m[u] ensures Finished(g, b.m, u) {
      assert !a.m[u];
    }
    assert MarkedSet(a.m) == {};
    assert Found(a, b) == MarkedSet(b.m);
    ClosedSearched(g, s, b.m, b.edge, b.dist, a.pre, b.pre, a.post, b.post);
  }
}

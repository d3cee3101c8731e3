/**
 * `Maze`: an N x N grid of junctions, numbered 0 .. N*N-1, whose corridors
 * are the tree edges a randomized depth-first search of the grid leaves
 * behind, and the path query that runs the explicit-stack search over it.
 * Line numbers in this module refer to Maze.java.
 */
module Mazes {
  import opened Graphs
  import opened ParentTrees
  import opened RandomDepthFirst
  import opened DepthFirst

  /**
   * Lines 84-88: the grid loop, at vertex a < N*N-1, links a to a+N when
   * that is still a vertex and to a+1 unless a+1 starts a new row.
   */
  ghost predicate Link(n: int, a: int, b: int) {
    n > 0 && 0 <= a < n * n - 1
    && ((b == a + n && b <= n * n - 1) || (b == a + 1 && b % n != 0))
  }

  /** u and x are joined in the grid. */
  ghost predicate GridAdjacent(n: int, u: int, x: int) {
    Link(n, u, x) || Link(n, x, u)
  }

  /** g is the N x N grid: N*N vertices, and x is in adj(u) exactly when the grid joins them. */
  ghost predicate IsGrid(n: int, g: Graph) {
    n >= 0 && |g| == n * n && IsGraph(g)
    && forall u, x :: 0 <= u < |g| && 0 <= x < |g| ==> (x in g[u] <==> GridAdjacent(n, u, x))
  }

  /** How many links the loop adds at vertex a. */
  function LinkCount(n: int, a: int): nat
    requires n > 0
  {
    (if a + n <= n * n - 1 then 1 else 0) + (if (a + 1) % n != 0 then 1 else 0)
  }

  /** How many links the loop adds at the vertices below i. */
  function Links(n: int, i: nat): nat
    requires n > 0
  {
    if i == 0 then 0 else Links(n, i - 1) + LinkCount(n, i - 1)
  }

  lemma {:induction false} MulAtLeast(a: int, n: int)
    requires a >= 1 && n > 0
    ensures a * n >= n
    decreases a
  {
    if a > 1 {
      MulAtLeast(a - 1, n);
      assert a * n == (a - 1) * n + n;
    }
  }

  lemma ZeroFactor(a: int, n: int)
    requires n > 0 && -n < a * n < n
    ensures a == 0
  {
    if a >= 1 {
      MulAtLeast(a, n);
    } else if a <= -1 {
      MulAtLeast(-a, n);
    }
  }

  /** Quotient and remainder are the only q, r with x == q * n + r and 0 <= r < n. */
  lemma DivModUnique(x: int, n: int, q: int, r: int)
    requires n > 0 && 0 <= r < n && x == q * n + r
    ensures x / n == q && x % n == r
  {
    var q0, r0 := x / n, x % n;
    assert x == q0 * n + r0 && 0 <= r0 < n;
    assert (q - q0) * n == r0 - r;
    ZeroFactor(q - q0, n);
  }

  /** Moving from i-1 to i, the quotient by n goes up by one exactly when i is a multiple of n. */
  lemma DivStep(n: int, i: int)
    requires n > 0 && i > 0
    ensures i / n == (i - 1) / n + (if i % n == 0 then 1 else 0)
  {
    var q, r := (i - 1) / n, (i - 1) % n;
    assert i == q * n + r + 1 && 0 <= r < n;
    if r == n - 1 {
      assert i == (q + 1) * n;
      DivModUnique(i, n, q + 1, 0);
    } else {
      DivModUnique(i, n, q, r + 1);
    }
  }

  /** Below vertex i the loop has made min(i, N*N-N) links of the first kind and i - i/N of the second. */
  lemma {:induction false} LinksBelow(n: int, i: nat)
    requires n > 0 && i <= n * n - 1
    ensures Links(n, i) == (if i <= n * n - n then i else n * n - n) + (i - i / n)
  {
    if i > 0 {
      LinksBelow(n, i - 1);
      DivStep(n, i);
      assert LinkCount(n, i - 1) == (if i <= n * n - n then 1 else 0) + (if i % n != 0 then 1 else 0);
    }
  }

  /** The whole grid loop makes 2N(N-1) links. */
  lemma GridLinks(n: int)
    requires n > 0
    ensures Links(n, n * n - 1) == 2 * n * (n - 1)
    ensures 2 * Links(n, n * n - 1) == 4 * n * (n - 1)
  {
    DivModUnique(n * n - 1, n, n - 1, n - 1);
    LinksBelow(n, n * n - 1);
  }

  /**
   * The board's own geometry, independent of the loop: junctions u and x
   * are one step apart when they share u / N and their u % N differ by
   * one, or share u % N and their u / N differ by one.
   */
  ghost predicate Neighbours(n: int, u: int, x: int) {
    n > 0 && 0 <= u < n * n && 0 <= x < n * n
    && ((u / n == x / n && (x % n == u % n + 1 || u % n == x % n + 1))
        || (u % n == x % n && (x / n == u / n + 1 || u / n == x / n + 1)))
  }

  /** For u < x, the loop's two tests link u to x exactly when x is one board step from u. */
  lemma LinkStep(n: int, u: int, x: int)
    requires n > 0 && 0 <= u < x < n * n
    ensures Link(n, u, x) <==> Neighbours(n, u, x)
  {
    if Link(n, u, x) {
      LinkIsStep(n, u, x);
    }
    if Neighbours(n, u, x) {
      StepIsLink(n, u, x);
    }
  }

  /** A link the loop makes is one board step. */
  lemma LinkIsStep(n: int, u: int, x: int)
    requires n > 0 && 0 <= u < x < n * n && Link(n, u, x)
    ensures Neighbours(n, u, x)
  {
    var q, r := u / n, u % n;
    assert u == q * n + r && 0 <= r < n;
    if x == u + n {
      assert x == (q + 1) * n + r;
      DivModUnique(x, n, q + 1, r);
    } else if r == n - 1 {
      assert x == (q + 1) * n;
      DivModUnique(x, n, q + 1, 0);
    } else {
      DivModUnique(x, n, q, r + 1);
    }
  }

  /** A board step from u to a larger x is a link the loop makes. */
  lemma StepIsLink(n: int, u: int, x: int)
    requires n > 0 && 0 <= u < x < n * n && Neighbours(n, u, x)
    ensures Link(n, u, x)
  {
    var q, r := u / n, u % n;
    var q', r' := x / n, x % n;
    assert u == q * n + r && x == q' * n + r';
    if q == q' {
      assert x - u == r' - r;
      assert x == u + 1;
    } else {
      assert x == q * n + n + r';
      assert r == r' && x == u + n;
    }
  }

  /** The grid never wraps: two junctions are joined exactly when they are one board step apart. */
  lemma GridGeometry(n: int, u: int, x: int)
    requires n > 0 && 0 <= u < n * n && 0 <= x < n * n
    ensures GridAdjacent(n, u, x) <==> Neighbours(n, u, x)
  {
    if u < x {
      LinkStep(n, u, x);
    } else if x < u {
      LinkStep(n, x, u);
    }
  }

  /** So the grid the loop builds joins each junction to exactly its board neighbours. */
  lemma GridIsBoard(n: int, g: Graph)
    requires n > 0 && IsGrid(n, g)
    ensures forall u, x :: 0 <= u < |g| && 0 <= x < |g| ==> (x in g[u] <==> Neighbours(n, u, x))
  {
    forall u, x | 0 <= u < |g| && 0 <= x < |g| ensures x in g[u] <==> Neighbours(n, u, x) {
      GridGeometry(n, u, x);
    }
  }

  /** In the grid every vertex is reachable from vertex 0: along its row, then down the first column. */
  lemma {:induction false} GridReachable(n: int, g: Graph, v: int)
    requires IsGrid(n, g) && 0 <= v < |g|
    ensures Reachable(g, 0, v)
    decreases v
  {
    if v == 0 {
      ReachableSelf(g, 0);
    } else if v % n != 0 {
      assert Link(n, v - 1, v);
      GridReachable(n, g, v - 1);
      ReachableStep(g, 0, v - 1, v);
    } else {
      DivModUnique(v, n, v / n, 0);
      MulAtLeast(v / n, n);
      assert Link(n, v - n, v);
      GridReachable(n, g, v - n);
      ReachableStep(g, 0, v - n, v);
    }
  }

  /** After the grid loop has handled the vertices below i: the links they made, and twice their number of adjacency entries. */
  ghost predicate GridUpTo(n: int, g: Graph, i: int) {
    n > 0 && 0 <= i && |g| == n * n && IsGraph(g)
    && (forall u, x :: 0 <= u < |g| && 0 <= x < |g| ==>
         (x in g[u] <==> (Link(n, u, x) && u < i) || (Link(n, x, u) && x < i)))
    && DegreeSum(g) == 2 * Links(n, i)
  }

  /** Only unfolds `Link` at a = i, the hint GridStep needs for each of its two additions. */
  lemma LinkAt(n: int, i: int, x: int)
    requires n > 0 && 0 <= i < n * n - 1
    ensures Link(n, i, x) <==> (x == i + n && i + n <= n * n - 1) || (x == i + 1 && (i + 1) % n != 0)
  {
  }

  /** One pass of the grid loop's body at vertex i, the two conditional additions, handles vertex i. */
  lemma GridStep(n: int, g0: Graph, g1: Graph, g2: Graph, i: int)
    requires GridUpTo(n, g0, i) && i < |g0| - 1
    requires g1 == if i + n <= |g0| - 1 then AddEdge(g0, i, i + n) else g0
    requires g2 == if (i + 1) % n != 0 then AddEdge(g1, i, i + 1) else g1
    ensures GridUpTo(n, g2, i + 1)
  {
    var k1 := if i + n <= |g0| - 1 then 1 else 0;
    var k2 := if (i + 1) % n != 0 then 1 else 0;
    if k1 == 1 {
      AddEdgeKeepsGraph(g0, i, i + n);
      DegreeSumAddEdge(g0, i, i + n);
    }
    assert IsGraph(g1) && DegreeSum(g1) == DegreeSum(g0) + 2 * k1;
    if k2 == 1 {
      AddEdgeKeepsGraph(g1, i, i + 1);
      DegreeSumAddEdge(g1, i, i + 1);
    }
    assert IsGraph(g2) && DegreeSum(g2) == DegreeSum(g1) + 2 * k2;
    assert Links(n, i + 1) == Links(n, i) + k1 + k2;
    forall u, x | 0 <= u < |g2| && 0 <= x < |g2|
      ensures x in g2[u] <==> (Link(n, u, x) && u < i + 1) || (Link(n, x, u) && x < i + 1)
    {
      LinkAt(n, i, x);
      LinkAt(n, i, u);
      assert x in g1[u] <==> x in g0[u] || (k1 == 1 && ((u == i && x == i + n) || (u == i + n && x == i)));
      assert x in g2[u] <==> x in g1[u] || (k2 == 1 && ((u == i && x == i + 1) || (u == i + 1 && x == i)));
    }
  }

  /** The grid is connected: every vertex is reachable from every other. */
  lemma GridConnected(n: int, g: Graph, u: int, v: int)
    requires IsGrid(n, g) && 0 <= u < |g| && 0 <= v < |g|
    ensures Reachable(g, u, v)
  {
    GridReachable(n, g, u);
    GridReachable(n, g, v);
    assert Symmetric(g) by {
      forall a, b | 0 <= a < |g| && 0 <= b < |g| ensures b in g[a] <==> a in g[b] {
        assert GridAdjacent(n, a, b) <==> GridAdjacent(n, b, a);
      }
    }
    ReachableSymmetric(g, 0, u);
    ReachableTrans(g, u, 0, v);
  }

  /**
   * Lines 105-107 with the loop starting at vertex i and leaving out the
   * vertex skip: the corridors (u, e[u]) added to m, in order. The loop as
   * written is `MazeEdges(m, e, 1, -1)`; the corrected loop, which leaves
   * out the start vertex instead of vertex 0, is `MazeEdges(m, e, 0, startnode)`.
   */
  function MazeEdges(m: Graph, e: seq<int>, i: nat, skip: int): (r: Graph)
    requires |m| == |e| && forall u :: 0 <= u < |e| ==> 0 <= e[u] < |e|
    ensures |r| == |m|
    decreases |e| - i
  {
    if i >= |e| then m
    else if i == skip then MazeEdges(m, e, i + 1, skip)
    else MazeEdges(AddEdge(m, i, e[i]), e, i + 1, skip)
  }

  /** x is in adj(u) after the loop exactly when it was before or the loop joined u and x. */
  lemma {:induction false} MazeEdgesHas(m: Graph, e: seq<int>, i: nat, skip: int, u: int, x: int)
    requires |m| == |e| && forall u :: 0 <= u < |e| ==> 0 <= e[u] < |e|
    requires 0 <= u < |m|
    ensures x in MazeEdges(m, e, i, skip)[u] <==>
      x in m[u] || (i <= u < |e| && u != skip && x == e[u]) || (i <= x < |e| && x != skip && u == e[x])
    decreases |e| - i
  {
    if i < |e| {
      if i == skip {
        MazeEdgesHas(m, e, i + 1, skip, u, x);
      } else {
        MazeEdgesHas(AddEdge(m, i, e[i]), e, i + 1, skip, u, x);
      }
    }
  }

  /** The loop adds one corridor, two adjacency entries, per vertex it does not skip. */
  lemma {:induction false} MazeEdgesDegree(m: Graph, e: seq<int>, i: nat, skip: int)
    requires |m| == |e| && forall u :: 0 <= u < |e| ==> 0 <= e[u] < |e|
    requires i <= |e|
    ensures DegreeSum(MazeEdges(m, e, i, skip)) == DegreeSum(m) + 2 * (|e| - i) - (if i <= skip < |e| then 2 else 0)
    decreases |e| - i
  {
    if i < |e| {
      if i == skip {
        MazeEdgesDegree(m, e, i + 1, skip);
      } else {
        DegreeSumAddEdge(m, i, e[i]);
        MazeEdgesDegree(AddEdge(m, i, e[i]), e, i + 1, skip);
      }
    }
  }

  /** The corrected loop joins u and x when one of them is the other's parent and is not the start vertex. */
  ghost predicate Corridor(e: seq<int>, s: int, u: int, x: int) {
    (0 <= u < |e| && u != s && x == e[u]) || (0 <= x < |e| && x != s && u == e[x])
  }

  /** The adjacency lists the corrected loop builds from nothing: u is joined to its parent and to its children. */
  lemma MazeEdgesFromEmpty(e: seq<int>, s: int)
    requires forall u :: 0 <= u < |e| ==> 0 <= e[u] < |e|
    ensures var M := MazeEdges(Empty(|e|), e, 0, s);
      |M| == |e| && forall u, x :: 0 <= u < |e| ==> (x in M[u] <==> Corridor(e, s, u, x))
  {
    forall u, x | 0 <= u < |e| ensures x in MazeEdges(Empty(|e|), e, 0, s)[u] <==> Corridor(e, s, u, x) {
      MazeEdgesHas(Empty(|e|), e, 0, s, u, x);
      assert Empty(|e|)[u] == [];
    }
  }

  lemma {:induction false} DegreeSumEmpty(k: nat)
    ensures DegreeSum(Empty(k)) == 0
  {
    if k > 0 {
      assert Empty(k)[..k - 1] == Empty(k - 1);
      DegreeSumEmpty(k - 1);
    }
  }

  /**
   * The maze is a spanning tree of the N x N grid: every corridor joins two
   * grid neighbours, every junction is reachable from every other, and
   * there are N*N-1 corridors (each counted once in two adjacency lists).
   */
  ghost predicate SpanningTree(n: int, g: Graph) {
    n >= 0 && |g| == n * n && IsGraph(g) && Symmetric(g)
    && (forall u, x :: 0 <= u < |g| && x in g[u] ==> GridAdjacent(n, u, x))
    && (forall u, v :: 0 <= u < |g| && 0 <= v < |g| ==> Reachable(g, u, v))
    && DegreeSum(g) == 2 * (n * n - 1)
  }

  /** Each corridor the corrected loop adds joins a vertex to its parent in the tree, a grid edge. */
  lemma MazeInGrid(n: int, g: Graph, s: int, m: seq<bool>, e: seq<int>, d: seq<int>)
    requires IsGrid(n, g) && Explored(g, s, m, e, d) && forall v :: 0 <= v < |g| ==> m[v]
    requires forall u :: 0 <= u < |e| ==> 0 <= e[u] < |e|
    ensures var M := MazeEdges(Empty(|g|), e, 0, s);
      forall u, x :: 0 <= u < |M| && x in M[u] ==> 0 <= x < |M| && GridAdjacent(n, u, x)
  {
    var M := MazeEdges(Empty(|g|), e, 0, s);
    MazeEdgesFromEmpty(e, s);
    forall u, x | 0 <= u < |M| && x in M[u] ensures 0 <= x < |M| && GridAdjacent(n, u, x) {
      assert Corridor(e, s, u, x);
      if u != s && x == e[u] {
        assert HasParent(m, e, d, u) && u in g[e[u]];
      } else {
        assert x != s && u == e[x];
        assert HasParent(m, e, d, x) && x in g[u];
      }
    }
  }

  /** The corrected loop keeps every parent edge as a corridor, so the tree the search left is a parent tree of the maze. */
  lemma MazeTree(g: Graph, s: int, m: seq<bool>, e: seq<int>, d: seq<int>)
    requires Explored(g, s, m, e, d)
    requires forall u :: 0 <= u < |e| ==> 0 <= e[u] < |e|
    ensures var M := MazeEdges(Empty(|g|), e, 0, s);
      Symmetric(M) && IsParentTree(M, s, m, e, d)
  {
    var M := MazeEdges(Empty(|g|), e, 0, s);
    MazeEdgesFromEmpty(e, s);
    forall w | 0 <= w < |m| && m[w] && w != s ensures 0 <= e[w] < |M| && w in M[e[w]] {
      assert Corridor(e, s, e[w], w);
    }
    forall v, w | 0 <= v < |M| && 0 <= w < |M| ensures w in M[v] <==> v in M[w] {
      assert Corridor(e, s, v, w) <==> Corridor(e, s, w, v);
    }
  }

  /** In a symmetric graph where every vertex is reachable from s, every vertex is reachable from every other. */
  lemma ConnectedFromRoot(g: Graph, s: int)
    requires Symmetric(g) && forall v :: 0 <= v < |g| ==> Reachable(g, s, v)
    ensures forall u, v :: 0 <= u < |g| && 0 <= v < |g| ==> Reachable(g, u, v)
  {
    forall u, v | 0 <= u < |g| && 0 <= v < |g| ensures Reachable(g, u, v) {
      ReachableSymmetric(g, s, u);
      ReachableTrans(g, u, s, v);
    }
  }

  /** The maze built from a search that marked everything connects every junction to every other. */
  lemma MazeConnected(g: Graph, s: int, m: seq<bool>, e: seq<int>, d: seq<int>)
    requires Explored(g, s, m, e, d) && forall v :: 0 <= v < |g| ==> m[v]
    requires forall u :: 0 <= u < |e| ==> 0 <= e[u] < |e|
    ensures var M := MazeEdges(Empty(|g|), e, 0, s);
      Symmetric(M) && forall u, v :: 0 <= u < |M| && 0 <= v < |M| ==> Reachable(M, u, v)
  {
    var M := MazeEdges(Empty(|g|), e, 0, s);
    MazeTree(g, s, m, e, d);
    forall v | 0 <= v < |M| ensures Reachable(M, s, v) {
      TreeReachable(M, s, m, e, d, v);
    }
    ConnectedFromRoot(M, s);
  }

  /**
   * Lines 98-107, corrected: when the random search from s explored the
   * whole grid, the corridors (u, edgeTo[u]) for u != s form a spanning
   * tree of it.
   */
  lemma MazeSpans(n: int, g: Graph, s: int, m: seq<bool>, e: seq<int>, d: seq<int>)
    requires IsGrid(n, g) && Explored(g, s, m, e, d) && forall v :: 0 <= v < |g| ==> m[v]
    requires forall u :: 0 <= u < |e| ==> 0 <= e[u] < |e|
    ensures SpanningTree(n, MazeEdges(Empty(|g|), e, 0, s))
  {
    var M := MazeEdges(Empty(|g|), e, 0, s);
    MazeInGrid(n, g, s, m, e, d);
    forall v, j | 0 <= v < |M| && 0 <= j < |M[v]| ensures M[v][j] < |M| {
      assert M[v][j] in M[v];
    }
    MazeConnected(g, s, m, e, d);
    MazeEdgesDegree(Empty(|g|), e, 0, s);
    DegreeSumEmpty(|g|);
    assert DegreeSum(M) == 2 * (|g| - 1);
  }

  /** The loop as written joins u and x when one of them is at least 1 and has the other as its parent. */
  ghost predicate AsWrittenCorridor(e: seq<int>, u: int, x: int) {
    (1 <= u < |e| && x == e[u]) || (1 <= x < |e| && u == e[x])
  }

  /**
   * Lines 105-107 as written: the loop from vertex 1 over every vertex, the
   * start vertex included. Whatever the start vertex is, it joins exactly
   * the `AsWrittenCorridor` pairs, and it adds |e| - 1 corridors.
   */
  function RebuildAsWritten(e: seq<int>): (r: Graph)
    requires forall u :: 0 <= u < |e| ==> 0 <= e[u] < |e|
    ensures |r| == |e|
    ensures forall u, x :: 0 <= u < |e| ==> (x in r[u] <==> AsWrittenCorridor(e, u, x))
    ensures |e| > 0 ==> DegreeSum(r) == 2 * (|e| - 1)
  {
    AsWrittenEdges(e);
    AsWrittenDegree(e);
    MazeEdges(Empty(|e|), e, 1, -1)
  }

  /** The corridors the loop from vertex 1 adds to the empty graph. */
  lemma AsWrittenEdges(e: seq<int>)
    requires forall u :: 0 <= u < |e| ==> 0 <= e[u] < |e|
    ensures forall u, x :: 0 <= u < |e| ==> (x in MazeEdges(Empty(|e|), e, 1, -1)[u] <==> AsWrittenCorridor(e, u, x))
  {
    forall u, x | 0 <= u < |e| ensures x in MazeEdges(Empty(|e|), e, 1, -1)[u] <==> AsWrittenCorridor(e, u, x) {
      MazeEdgesHas(Empty(|e|), e, 1, -1, u, x);
      assert Empty(|e|)[u] == [];
    }
  }

  /** The loop from vertex 1 adds one corridor for each vertex but 0. */
  lemma AsWrittenDegree(e: seq<int>)
    requires forall u :: 0 <= u < |e| ==> 0 <= e[u] < |e|
    ensures |e| > 0 ==> DegreeSum(MazeEdges(Empty(|e|), e, 1, -1)) == 2 * (|e| - 1)
  {
    if |e| > 0 {
      MazeEdgesDegree(Empty(|e|), e, 1, -1);
      DegreeSumEmpty(|e|);
    }
  }

  /**
   * The loop as written on the 2 x 2 grid searched from junction 3: the
   * search may leave edgeTo = [1, 3, 0, 0], and the loop then joins 3 to 0,
   * which are not grid neighbours, and never joins 0 to its parent 1.
   */
  lemma BuildMazeAsWrittenOffGrid()
    ensures var g := [[2, 1], [0, 3], [0, 3], [1, 2]];
      var m := [true, true, true, true];
      var e := [1, 3, 0, 0];
      var d := [2, 1, 3, 0];
      IsGrid(2, g) && Explored(g, 3, m, e, d) && e[3] == 0
      && 0 in RebuildAsWritten(e)[3] && !GridAdjacent(2, 3, 0)
      && 1 !in RebuildAsWritten(e)[0]
      && !SpanningTree(2, RebuildAsWritten(e))
  {
    var g: Graph := [[2, 1], [0, 3], [0, 3], [1, 2]];
    var m := [true, true, true, true];
    var e := [1, 3, 0, 0];
    var d := [2, 1, 3, 0];
    forall u, x | 0 <= u < |g| && 0 <= x < |g| ensures x in g[u] <==> GridAdjacent(2, u, x) {
      assert u == 0 || u == 1 || u == 2 || u == 3;
      assert x == 0 || x == 1 || x == 2 || x == 3;
    }
    assert IsGrid(2, g);
    assert HasParent(m, e, d, 0) && HasParent(m, e, d, 1) && HasParent(m, e, d, 2);
    assert IsParentTree(g, 3, m, e, d);
    forall v | 0 <= v < |g| ensures m[v] <==> Reachable(g, 3, v) {
      TreeReachable(g, 3, m, e, d, v);
    }
    assert AsWrittenCorridor(e, 3, 0) && !AsWrittenCorridor(e, 0, 1);
    assert !GridAdjacent(2, 3, 0);
  }

  /**
   * When the search from s has explored the N x N grid and left edgeTo[s]
   * at 0, every junction is marked, every parent edge names a junction,
   * and the corrected loop builds a spanning tree of the grid.
   */
  lemma GridSearchSpans(n: int, g: Graph, s: int, m: seq<bool>, e: seq<int>, d: seq<int>)
    requires IsGrid(n, g) && Explored(g, s, m, e, d) && e[s] == 0
    ensures forall v :: 0 <= v < |g| ==> m[v]
    ensures forall u :: 0 <= u < |e| ==> 0 <= e[u] < |e|
    ensures SpanningTree(n, MazeEdges(Empty(|g|), e, 0, s))
  {
    forall v | 0 <= v < |g| ensures m[v] {
      GridConnected(n, g, s, v);
    }
    forall u | 0 <= u < |e| ensures 0 <= e[u] < |e| {
      if u != s {
        assert HasParent(m, e, d, u);
      }
    }
    MazeSpans(n, g, s, m, e, d);
  }

  /** With startnode 0 the loop as written and the corrected loop add the same corridors. */
  lemma {:induction false} AsWrittenFromZero(m: Graph, e: seq<int>, i: nat)
    requires |m| == |e| && forall u :: 0 <= u < |e| ==> 0 <= e[u] < |e|
    requires i >= 1
    ensures MazeEdges(m, e, i, -1) == MazeEdges(m, e, i, 0)
    decreases |e| - i
  {
    if i < |e| {
      AsWrittenFromZero(AddEdge(m, i, e[i]), e, i + 1);
    }
  }

  /** The corrected loop from vertex 0 skipping s = 0 is the loop as written. */
  lemma StartZeroAsWritten(m: Graph, e: seq<int>)
    requires |m| == |e| && |e| > 0 && forall u :: 0 <= u < |e| ==> 0 <= e[u] < |e|
    ensures MazeEdges(m, e, 0, 0) == MazeEdges(m, e, 1, -1)
  {
    AsWrittenFromZero(m, e, 1);
  }

  /** Lines 98-107 as written, with startnode 0: the maze is a spanning tree of the grid. */
  lemma AsWrittenSpansFromZero(n: int, g: Graph, m: seq<bool>, e: seq<int>, d: seq<int>)
    requires IsGrid(n, g) && Explored(g, 0, m, e, d) && e[0] == 0
    ensures (forall u :: 0 <= u < |e| ==> 0 <= e[u] < |e|) && SpanningTree(n, RebuildAsWritten(e))
  {
    GridSearchSpans(n, g, 0, m, e, d);
    StartZeroAsWritten(Empty(|e|), e);
  }

  /** The loop as written builds an undirected graph on the junctions. */
  lemma AsWrittenUndirected(e: seq<int>)
    requires forall u :: 0 <= u < |e| ==> 0 <= e[u] < |e|
    ensures IsGraph(RebuildAsWritten(e)) && Symmetric(RebuildAsWritten(e))
  {
    var R := RebuildAsWritten(e);
    forall u, j | 0 <= u < |R| && 0 <= j < |R[u]| ensures R[u][j] < |R| {
      assert R[u][j] in R[u] && AsWrittenCorridor(e, u, R[u][j]);
    }
    forall u, x | 0 <= u < |R| && 0 <= x < |R| ensures x in R[u] <==> u in R[x] {
      assert AsWrittenCorridor(e, u, x) <==> AsWrittenCorridor(e, x, u);
    }
  }

  /**
   * In the maze as written every junction still reaches the start s: a
   * junction v >= 1 other than s keeps the corridor to its parent, and
   * junction 0, when it is not s, has lost its own parent corridor but is
   * joined to s because edgeTo[s] stays 0.
   */
  lemma {:induction false} AsWrittenReachesStart(g: Graph, s: int, m: seq<bool>, e: seq<int>, d: seq<int>, v: int)
    requires Explored(g, s, m, e, d) && forall u :: 0 <= u < |g| ==> m[u]
    requires forall u :: 0 <= u < |e| ==> 0 <= e[u] < |e|
    requires e[s] == 0 && 0 <= v < |g|
    ensures Reachable(RebuildAsWritten(e), v, s)
    decreases d[v]
  {
    var R := RebuildAsWritten(e);
    AsWrittenUndirected(e);
    if v == s {
      ReachableSelf(R, s);
    } else if v == 0 {
      assert AsWrittenCorridor(e, 0, s);
      ReachableSelf(R, 0);
      ReachableStep(R, 0, 0, s);
    } else {
      assert HasParent(m, e, d, v);
      assert AsWrittenCorridor(e, v, e[v]);
      AsWrittenReachesStart(g, s, m, e, d, e[v]);
      ReachableSelf(R, v);
      ReachableStep(R, v, v, e[v]);
      ReachableTrans(R, v, e[v], s);
    }
  }

  /** So the maze as written is connected, whatever the start (0 included). */
  lemma AsWrittenConnected(g: Graph, s: int, m: seq<bool>, e: seq<int>, d: seq<int>)
    requires Explored(g, s, m, e, d) && forall u :: 0 <= u < |g| ==> m[u]
    requires forall u :: 0 <= u < |e| ==> 0 <= e[u] < |e|
    requires e[s] == 0
    ensures forall u, v :: 0 <= u < |g| && 0 <= v < |g| ==> Reachable(RebuildAsWritten(e), u, v)
  {
    var R := RebuildAsWritten(e);
    AsWrittenUndirected(e);
    forall v | 0 <= v < |R| ensures Reachable(R, s, v) {
      AsWrittenReachesStart(g, s, m, e, d, v);
      ReachableSymmetric(R, v, s);
    }
    ConnectedFromRoot(R, s);
  }

  /** A start s != 0 is a grid neighbour of junction 0 exactly when it is 1 or N. */
  lemma StartNextToZero(n: int, s: int)
    requires n > 0 && 0 < s < n * n
    ensures GridAdjacent(n, s, 0) <==> s == 1 || s == n
  {
    if n > 1 {
      DivModUnique(1, n, 0, 1);
    }
  }

  /** Every corridor of the maze as written is a grid edge when the start s is 0, 1 or N. */
  lemma AsWrittenInGrid(n: int, g: Graph, s: int, m: seq<bool>, e: seq<int>, d: seq<int>)
    requires IsGrid(n, g) && Explored(g, s, m, e, d) && forall u :: 0 <= u < |g| ==> m[u]
    requires forall u :: 0 <= u < |e| ==> 0 <= e[u] < |e|
    requires e[s] == 0 && (s == 0 || GridAdjacent(n, s, 0))
    ensures var R := RebuildAsWritten(e);
      forall u, x :: 0 <= u < |R| && x in R[u] ==> GridAdjacent(n, u, x)
  {
    var R := RebuildAsWritten(e);
    forall u, x | 0 <= u < |R| && x in R[u] ensures GridAdjacent(n, u, x) {
      assert AsWrittenCorridor(e, u, x);
      if 1 <= u && x == e[u] {
        if u != s {
          assert HasParent(m, e, d, u) && u in g[e[u]];
        }
      } else {
        assert u == e[x] && 1 <= x;
        if x != s {
          assert HasParent(m, e, d, x) && x in g[u];
        }
      }
    }
  }

  /**
   * Lines 98-107 as written build a spanning tree of the grid exactly when
   * startnode is 0 or one of its grid neighbours 1 and N. For any other
   * start the maze has the corridor between startnode and 0, which crosses
   * a wall.
   */
  lemma AsWrittenSpansIff(n: int, g: Graph, s: int, m: seq<bool>, e: seq<int>, d: seq<int>)
    requires IsGrid(n, g) && Explored(g, s, m, e, d) && e[s] == 0
    ensures forall u :: 0 <= u < |e| ==> 0 <= e[u] < |e|
    ensures s != 0 ==> 0 in RebuildAsWritten(e)[s]
    ensures SpanningTree(n, RebuildAsWritten(e)) <==> s == 0 || s == 1 || s == n
  {
    GridSearchSpans(n, g, s, m, e, d);
    var R := RebuildAsWritten(e);
    if s == 0 {
      AsWrittenSpansFromZero(n, g, m, e, d);
    } else {
      assert AsWrittenCorridor(e, s, 0);
      StartNextToZero(n, s);
      if s == 1 || s == n {
        AsWrittenUndirected(e);
        AsWrittenInGrid(n, g, s, m, e, d);
        AsWrittenConnected(g, s, m, e, d);
        assert SpanningTree(n, R);
      }
    }
  }

  /**
   * Lines 65-71, `hasEdge(G, v, w)`: false when either vertex is at least V,
   * true when v == w, and otherwise whether w is in adj(v) or v in adj(w).
   * Asking adj(x) of a negative x fails, so a negative vertex that gets that
   * far is an error.
   */
  function HasEdgeIn(G: Graph, v: int, w: int): (r: Result<bool>)
    ensures r.Err? <==> v < |G| && w < |G| && v != w && (v < 0 || w < 0)
    ensures r.Err? ==> r.error == VertexOutOfRange(if v < 0 then v else w, |G|)
    ensures r == Ok(true) <==> (v == w && v < |G|) || (0 <= v < |G| && 0 <= w < |G| && (w in G[v] || v in G[w]))
    ensures Symmetric(G) && 0 <= v < |G| && 0 <= w < |G| ==> r == Ok(v == w || w in G[v])
  {
    if v >= |G| || w >= |G| then Ok(false)
    else if v == w then Ok(true)
    else if v < 0 then Err(VertexOutOfRange(v, |G|))
    else if w in G[v] then Ok(true)
    else if w < 0 then Err(VertexOutOfRange(w, |G|))
    else Ok(v in G[w])
  }

  /** The answer does not depend on the order of the two vertices. */
  lemma HasEdgeSymmetric(G: Graph, v: int, w: int)
    ensures HasEdgeIn(G, v, w).Ok? <==> HasEdgeIn(G, w, v).Ok?
    ensures HasEdgeIn(G, v, w).Ok? ==> HasEdgeIn(G, v, w) == HasEdgeIn(G, w, v)
  {
  }

  /** A maze of N x N junctions whose corridors are the graph M. */
  class Maze {
    const N: int
    var M: Graph
    var startnode: int

    /** M has the N*N junctions and its corridors run both ways. */
    ghost predicate Valid()
      reads this
    {
      N >= 0 && |M| == N * N && IsGraph(M) && Symmetric(M)
    }

    /** Lines 15-18: N must not be negative; M starts with no corridors. */
    constructor (N: int, startnode: int)
      requires N >= 0
      ensures this.N == N && this.startnode == startnode && M == Empty(N * N)
      ensures Valid()
    {
      this.N := N;
      this.startnode := startnode;
      M := Empty(N * N);
    }

    /**
     * Lines 13-20, `new Maze(N, startnode)`: fails on a negative N, then
     * builds the maze, which fails when startnode is not a junction;
     * otherwise M is a spanning tree of the grid.
     */
    static method New(N: int, startnode: int) returns (r: Result<Maze>)
      ensures N < 0 ==> r == Err(NegativeSize(N))
      ensures N >= 0 && !(0 <= startnode < N * N) ==> r == Err(VertexOutOfRange(startnode, N * N))
      ensures N >= 0 && 0 <= startnode < N * N ==> r.Ok?
      ensures r.Ok? ==> fresh(r.value) && r.value.N == N && r.value.startnode == startnode
      ensures r.Ok? ==> r.value.Valid() && SpanningTree(N, r.value.M)
    {
      if N < 0 {
        return Err(NegativeSize(N));
      }
      var maze := new Maze(N, startnode);
      var o := maze.BuildMaze();
      if o.Fail? {
        return Err(o.error);
      }
      return Ok(maze);
    }

    /**
     * Lines 36-40, `addEdge(v, w)`: rejects a v that is not a junction and
     * otherwise adds the corridor v-w; the graph's own `addEdge` rejects a
     * w that is not a junction.
     */
    method AddEdge(v: int, w: int) returns (o: Outcome)
      requires Valid()
      modifies this`M
      ensures o.Fail? <==> !(0 <= v < |M|) || !(0 <= w < |M|)
      ensures !(0 <= v < |M|) ==> o == Fail(VertexOutOfRange(v, |M|))
      ensures 0 <= v < |M| && !(0 <= w < |M|) ==> o == Fail(VertexOutOfRange(w, |M|))
      ensures o.Fail? ==> M == old(M)
      ensures o.Pass? ==> 0 <= v < |old(M)| && 0 <= w < |old(M)| && M == Graphs.AddEdge(old(M), v, w)
      ensures Valid()
    {
      if v < 0 || v >= |M| {
        return Fail(VertexOutOfRange(v, |M|));
      }
      if w < 0 || w >= |M| {
        return Fail(VertexOutOfRange(w, |M|));
      }
      AddEdgeKeepsGraph(M, v, w);
      M := Graphs.AddEdge(M, v, w);
      return Pass;
    }

    /** Lines 49-55, `hasEdge(v, w)`: whether the maze has the corridor v-w. */
    function HasEdge(v: int, w: int): (r: Result<bool>)
      reads this
      ensures r.Err? <==> v < |M| && w < |M| && v != w && (v < 0 || w < 0)
      ensures Valid() && 0 <= v < |M| && 0 <= w < |M| ==> r == Ok(v == w || w in M[v])
    {
      HasEdgeIn(M, v, w)
    }

    /**
     * Lines 78-92, `mazegrid()`: the N x N grid, each junction i linked to
     * i+N and, unless i+1 starts a new row, to i+1; 2N(N-1) corridors.
     */
    method MazeGrid() returns (g: Graph)
      requires N >= 0
      ensures IsGrid(N, g)
      ensures N > 0 ==> DegreeSum(g) == 4 * N * (N - 1)
    {
      g := Empty(N * N);
      var maxValue := N * N - 1;
      if N == 0 {
        return;
      }
      MulAtLeast(N, N);
      DegreeSumEmpty(N * N);
      var i := 0;
      while i < maxValue
        invariant i <= maxValue && GridUpTo(N, g, i)
      {
        ghost var g0 := g;
        if i + N <= maxValue {
          g := Graphs.AddEdge(g, i, i + N);
        }
        ghost var g1 := g;
        if (i + 1) % N != 0 {
          g := Graphs.AddEdge(g, i, i + 1);
        }
        GridStep(N, g0, g1, g, i);
        i := i + 1;
      }
      GridLinks(N);
    }

    /**
     * Lines 98-108, corrected: search the grid from startnode with the
     * randomized search and keep, as corridors, the tree edges
     * (u, edgeTo[u]) of every junction u other than startnode.
     */
    method BuildMaze() returns (o: Outcome)
      requires N >= 0 && M == Empty(N * N)
      modifies this`M
      ensures o.Fail? <==> !(0 <= startnode < N * N)
      ensures o.Fail? ==> o.error == VertexOutOfRange(startnode, N * N) && M == old(M)
      ensures o.Pass? ==> SpanningTree(N, M)
    {
      var G := MazeGrid();
      var res := RandomDepthFirstPaths.New(G, startnode);
      if res.Err? {
        return Fail(res.error);
      }
      var rdfp := res.value;
      rdfp.RandomDfs(G);
      var edgeTo := rdfp.Edge();
      GridSearchSpans(N, G, startnode, rdfp.marked[..], edgeTo, rdfp.distTo[..]);
      Rebuild(edgeTo);
      return Pass;
    }

    /** Lines 105-107, corrected: add the corridor (i, edgeTo[i]) for every junction i but startnode. */
    method Rebuild(edgeTo: seq<int>)
      requires |M| == |edgeTo| && forall u :: 0 <= u < |edgeTo| ==> 0 <= edgeTo[u] < |edgeTo|
      modifies this`M
      ensures M == MazeEdges(old(M), edgeTo, 0, startnode)
    {
      ghost var M0 := M;
      for i := 0 to |edgeTo|
        invariant |M| == |edgeTo|
        invariant MazeEdges(M, edgeTo, i, startnode) == MazeEdges(M0, edgeTo, 0, startnode)
      {
        if i != startnode {
          M := Graphs.AddEdge(M, i, edgeTo[i]);
        }
      }
    }

    /**
     * Lines 117-127, `findWay(v, w)`: search the maze from w with the
     * explicit-stack search and return the path from v back to w. It fails
     * when w or v is not a junction, and with a null path when w cannot
     * reach v; in a maze built by `New` it finds every way.
     */
    method FindWay(v: int, w: int) returns (r: Result<seq<int>>)
      requires Valid()
      ensures !(0 <= w < |M|) ==> r == Err(VertexOutOfRange(w, |M|))
      ensures 0 <= w < |M| && !(0 <= v < |M|) ==> r == Err(VertexOutOfRange(v, |M|))
      ensures 0 <= w < |M| && 0 <= v < |M| ==> (r.Err? <==> !Reachable(M, w, v))
      ensures 0 <= w < |M| && 0 <= v < |M| && r.Err? ==> r.error == NullPointer
      ensures r.Ok? ==> IsWalk(M, r.value) && r.value[0] == v && r.value[|r.value| - 1] == w
      ensures r.Ok? && v == w ==> r.value == [v]
      ensures SpanningTree(N, M) && 0 <= w < |M| && 0 <= v < |M| ==> r.Ok?
    {
      var res := DepthFirstPaths.New(M, w);
      if res.Err? {
        return Err(res.error);
      }
      var dfp := res.value;
      dfp.NonrecursiveDfs(M);
      var p := dfp.PathTo(v, M);
      if p.Err? {
        return Err(p.error);
      }
      if p.value.None? {
        return Err(NullPointer);
      }
      return Ok(p.value.value);
    }
  }
}

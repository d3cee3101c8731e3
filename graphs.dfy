/**
 * Undirected graphs over the vertices 0 .. V-1, given as one adjacency
 * sequence per vertex, and the outcomes the traversal classes report.
 *
 * The graph class of the repository is not part of this model; its
 * `Graph(V)` constructor is `Empty`, its `addEdge(v, w)` is `AddEdge`
 * (recording w in adj(v) and v in adj(w)), and `adj(v)` is `g[v]`.
 */
module Graphs {

  type Graph = seq<seq<nat>>

  /** The exceptions the Java code throws, as values. */
  datatype Error =
    | VertexOutOfRange(vertex: int, bound: int)  // IllegalArgumentException from validateVertex / addEdge
    | NegativeSize(n: int)                       // IllegalArgumentException from the Maze constructor
    | NullPointer                                // NullPointerException: copying a null path

  datatype Result<T> = Ok(value: T) | Err(error: Error)

  datatype Option<T> = None | Some(value: T)

  datatype Outcome = Pass | Fail(error: Error)

  /** Every adjacency entry names a vertex of the graph. */
  ghost predicate IsGraph(g: Graph) {
    forall v, j :: 0 <= v < |g| && 0 <= j < |g[v]| ==> g[v][j] < |g|
  }

  /** w is adjacent to v exactly when v is adjacent to w. */
  ghost predicate Symmetric(g: Graph) {
    forall v, w :: 0 <= v < |g| && 0 <= w < |g| ==> (w in g[v] <==> v in g[w])
  }

  /** `new Graph(V)`: V vertices and no edges. */
  function Empty(n: nat): (g: Graph)
    ensures |g| == n && IsGraph(g) && Symmetric(g)
    ensures forall v :: 0 <= v < n ==> g[v] == []
  {
    seq(n, _ => [])
  }

  /** `addEdge(v, w)`: appends w to adj(v), then v to adj(w). */
  function AddEdge(g: Graph, v: nat, w: nat): (h: Graph)
    requires v < |g| && w < |g|
    ensures |h| == |g|
    ensures forall u, x :: 0 <= u < |g| ==>
      (x in h[u] <==> x in g[u] || (u == v && x == w) || (u == w && x == v))
  {
    var g1 := g[v := g[v] + [w]];
    g1[w := g1[w] + [v]]
  }

  lemma AddEdgeKeepsGraph(g: Graph, v: nat, w: nat)
    requires IsGraph(g) && v < |g| && w < |g|
    ensures IsGraph(AddEdge(g, v, w))
    ensures Symmetric(g) ==> Symmetric(AddEdge(g, v, w))
  {
    var h := AddEdge(g, v, w);
    forall u, j | 0 <= u < |h| && 0 <= j < |h[u]| ensures h[u][j] < |h| {
      assert h[u][j] in h[u];
    }
  }

  /** The sum of the adjacency-list lengths: twice the number of edges added. */
  function DegreeSum(g: Graph): nat {
    if g == [] then 0 else DegreeSum(g[..|g| - 1]) + |g[|g| - 1]|
  }

  lemma {:induction false} DegreeSumUpdate(g: Graph, v: nat, a: seq<nat>)
    requires v < |g|
    ensures DegreeSum(g[v := a]) == DegreeSum(g) - |g[v]| + |a|
    decreases |g|
  {
    var h := g[v := a];
    if v < |g| - 1 {
      assert h[..|h| - 1] == g[..|g| - 1][v := a];
      DegreeSumUpdate(g[..|g| - 1], v, a);
    } else {
      assert h[..|h| - 1] == g[..|g| - 1];
    }
  }

  /** Each `addEdge` adds one to the length of two adjacency lists. */
  lemma DegreeSumAddEdge(g: Graph, v: nat, w: nat)
    requires v < |g| && w < |g|
    ensures DegreeSum(AddEdge(g, v, w)) == DegreeSum(g) + 2
  {
    var g1 := g[v := g[v] + [w]];
    DegreeSumUpdate(g, v, g[v] + [w]);
    DegreeSumUpdate(g1, w, g1[w] + [v]);
  }

  /** A walk: vertices of g, each one adjacent to the one before it. */
  ghost predicate IsWalk(g: Graph, p: seq<int>) {
    |p| > 0
    && (forall i :: 0 <= i < |p| ==> 0 <= p[i] < |g|)
    && (forall i :: 0 <= i < |p| - 1 ==> p[i + 1] in g[p[i]])
  }

  /** There is a walk in g from s to v. */
  ghost predicate Reachable(g: Graph, s: int, v: int) {
    exists p :: IsWalk(g, p) && p[0] == s && p[|p| - 1] == v
  }

  lemma ReachableSelf(g: Graph, s: int)
    requires 0 <= s < |g|
    ensures Reachable(g, s, s)
  {
    assert IsWalk(g, [s]);
  }

  lemma ReachableStep(g: Graph, s: int, u: int, v: int)
    requires IsGraph(g) && Reachable(g, s, u) && 0 <= u < |g| && v in g[u]
    ensures Reachable(g, s, v)
  {
    var p :| IsWalk(g, p) && p[0] == s && p[|p| - 1] == u;
    var q := p + [v];
    assert q[|q| - 1] == v;
    assert IsWalk(g, q);
  }

  lemma ReachableTrans(g: Graph, a: int, b: int, c: int)
    requires Reachable(g, a, b) && Reachable(g, b, c)
    ensures Reachable(g, a, c)
  {
    var p :| IsWalk(g, p) && p[0] == a && p[|p| - 1] == b;
    var q :| IsWalk(g, q) && q[0] == b && q[|q| - 1] == c;
    var r := p + q[1..];
    assert forall i :: 0 <= i < |r| - 1 ==> r[i + 1] in g[r[i]] by {
      forall i | 0 <= i < |r| - 1 ensures r[i + 1] in g[r[i]] {
        if i < |p| - 1 {
        } else {
          assert r[i] == q[i - |p| + 1] && r[i + 1] == q[i - |p| + 2];
        }
      }
    }
    assert IsWalk(g, r);
  }

  function Reverse(p: seq<int>): (r: seq<int>)
    ensures |r| == |p| && forall i :: 0 <= i < |p| ==> r[i] == p[|p| - 1 - i]
  {
    if p == [] then [] else Reverse(p[1..]) + [p[0]]
  }

  /** In a symmetric graph a walk read backwards is again a walk. */
  lemma ReverseWalk(g: Graph, p: seq<int>)
    requires Symmetric(g) && IsWalk(g, p)
    ensures IsWalk(g, Reverse(p))
  {
    var r := Reverse(p);
    forall i | 0 <= i < |r| - 1 ensures r[i + 1] in g[r[i]] {
      var k := |p| - 2 - i;
      assert r[i] == p[k + 1] && r[i + 1] == p[k];
      assert p[k + 1] in g[p[k]];
    }
  }

  /** A sequence each of whose entries is adjacent to the NEXT one is a walk when read backwards. */
  lemma ReverseBackWalk(g: Graph, p: seq<int>)
    requires |p| > 0 && forall i :: 0 <= i < |p| ==> 0 <= p[i] < |g|
    requires forall i :: 0 <= i < |p| - 1 ==> p[i] in g[p[i + 1]]
    ensures IsWalk(g, Reverse(p))
  {
    var r := Reverse(p);
    forall i | 0 <= i < |r| ensures 0 <= r[i] < |g| {
      assert r[i] == p[|p| - 1 - i];
    }
    forall i | 0 <= i < |r| - 1 ensures r[i + 1] in g[r[i]] {
      var k := |p| - 2 - i;
      assert r[i] == p[k + 1] && r[i + 1] == p[k];
      assert p[k] in g[p[k + 1]];
    }
  }

  lemma ReachableSymmetric(g: Graph, a: int, b: int)
    requires Symmetric(g) && Reachable(g, a, b)
    ensures Reachable(g, b, a)
  {
    var p :| IsWalk(g, p) && p[0] == a && p[|p| - 1] == b;
    ReverseWalk(g, p);
    var r := Reverse(p);
    assert r[0] == b && r[|r| - 1] == a;
  }

  /** The vertices m marks. */
  ghost function MarkedSet(m: seq<bool>): set<int> {
    set u | 0 <= u < |m| && m[u]
  }

  /** The vertices m does not mark. */
  ghost function Unmarked(m: seq<bool>): set<int> {
    set u | 0 <= u < |m| && !m[u]
  }

  /** Marking the unmarked v removes it from the unmarked set, which bounds the recursion. */
  lemma UnmarkedShrinks(a: seq<bool>, b: seq<bool>, v: int)
    requires |a| == |b| && 0 <= v < |a| && !a[v] && b[v]
    requires forall u :: 0 <= u < |a| && a[u] ==> b[u]
    ensures Unmarked(b) < Unmarked(a)
  {
    assert v in Unmarked(a) - Unmarked(b);
  }

  /** Every neighbour of u is marked. */
  ghost predicate Finished(g: Graph, m: seq<bool>, u: int)
    requires 0 <= u < |g| && |m| == |g|
  {
    forall j :: 0 <= j < |g[u]| ==> g[u][j] < |m| && m[g[u][j]]
  }

  /** The marked set is closed under adjacency. */
  ghost predicate ClosedUnder(g: Graph, m: seq<bool>)
    requires |m| == |g|
  {
    forall u :: 0 <= u < |g| && m[u] ==> Finished(g, m, u)
  }

  /** A marked set that holds s and is closed under adjacency holds every vertex reachable from s. */
  lemma {:induction false} ClosedHoldsReachable(g: Graph, m: seq<bool>, s: int, v: int)
    requires |m| == |g| && 0 <= s < |g| && m[s] && ClosedUnder(g, m)
    requires Reachable(g, s, v)
    ensures 0 <= v < |g| && m[v]
  {
    var p :| IsWalk(g, p) && p[0] == s && p[|p| - 1] == v;
    var i := 0;
    while i < |p| - 1
      invariant 0 <= i < |p| && m[p[i]]
    {
      assert Finished(g, m, p[i]);
      assert p[i + 1] in g[p[i]];
      i := i + 1;
    }
  }

  /** The elements of q, each appearing once. */
  ghost predicate Distinct(q: seq<int>) {
    forall i, j :: 0 <= i < j < |q| ==> q[i] != q[j]
  }

  /** q lists the set S, each element exactly once. */
  ghost predicate Lists(q: seq<int>, S: set<int>) {
    Distinct(q) && forall u :: u in q <==> u in S
  }

  /** q begins with q0. */
  ghost predicate Extends(q: seq<int>, q0: seq<int>) {
    |q0| <= |q| && q[..|q0|] == q0
  }

  lemma ListsAppend(a: seq<int>, A: set<int>, b: seq<int>, B: set<int>)
    requires Lists(a, A) && Lists(b, B) && A !! B
    ensures Lists(a + b, A + B)
  {
    var c := a + b;
    forall i, j | 0 <= i < j < |c| ensures c[i] != c[j] {
      if j < |a| {
      } else if i >= |a| {
        assert c[i] == b[i - |a|] && c[j] == b[j - |a|];
      } else {
        assert c[i] == a[i] && a[i] in a && c[j] == b[j - |a|] && b[j - |a|] in b;
      }
    }
  }

  /** Appending b to a queue q that extends q0 keeps the prefix and adds b to the tail. */
  lemma ExtendsAppend(q: seq<int>, q0: seq<int>, b: seq<int>)
    requires Extends(q, q0)
    ensures Extends(q + b, q0) && (q + b)[|q0|..] == q[|q0|..] + b
  {
    assert (q + b)[..|q0|] == q[..|q0|];
  }

  /** Extension is transitive, and the tail past q0 splits at the middle queue. */
  lemma ExtendsTrans(q: seq<int>, mid: seq<int>, q0: seq<int>)
    requires Extends(q, mid) && Extends(mid, q0)
    ensures Extends(q, q0) && q[|q0|..] == mid[|q0|..] + q[|mid|..]
  {
    assert q[..|q0|] == q[..|mid|][..|q0|];
    assert q == mid + q[|mid|..];
  }
}

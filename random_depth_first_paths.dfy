/**
 * `RandomDepthFirstPaths`: the recursive depth-first search of
 * `DepthFirstPaths`, except that each vertex scans a shuffled copy of its
 * adjacency list. The shuffle is an arbitrary permutation, so everything
 * proved here holds for every order the shuffle can produce. Line numbers
 * in this module refer to RandomDepthFirstPaths.java.
 */
module RandomDepthFirst {
  import opened Graphs
  import opened ParentTrees
  import opened Visits

  /**
   * Lines 49-51: the scan order is a shuffled clone of adj(v).
   * The copy holds the same entries, each as often as the original; the
   * original, a value here, is untouched.
   */
  method Shuffle(xs: seq<nat>) returns (ys: seq<nat>)
    ensures multiset(ys) == multiset(xs)
  {
    ys :| multiset(ys) == multiset(xs);
  }

  /** A permutation of adj(v) names only neighbours of v, and all of them. */
  lemma ShuffledNeighbours(g: Graph, v: int, adj: seq<nat>)
    requires IsGraph(g) && 0 <= v < |g| && multiset(adj) == multiset(g[v])
    ensures forall j :: 0 <= j < |adj| ==> adj[j] in g[v] && adj[j] < |g|
    ensures forall x :: x in g[v] ==> x in adj
  {
    forall j | 0 <= j < |adj| ensures adj[j] in g[v] && adj[j] < |g| {
      assert adj[j] in multiset(adj);
      var k :| 0 <= k < |g[v]| && g[v][k] == adj[j];
    }
    forall x | x in g[v] ensures x in adj {
      assert x in multiset(g[v]);
    }
  }

  class RandomDepthFirstPaths {
    var marked: array<bool>   // marked[v]: is there an s-v path?
    var edgeTo: array<int>    // edgeTo[v]: the vertex v was reached from
    const s: int              // the source vertex
    var distTo: array?<int>   // distTo[v]: number of edges on the tree path s-v; null until randomDFS
    var preorder: seq<int>    // vertices in preorder
    var postorder: seq<int>   // vertices in postorder

    var previousNode: int     // cursor: the vertex whose neighbours are being scanned
    var edgesCount: int       // depth of the vertex currently being visited

    /** `distTo` has been allocated; the arrays have one entry per vertex, and s is one of them. */
    ghost predicate Shape()
      reads this
    {
      distTo != null && marked.Length == edgeTo.Length == distTo.Length && edgeTo != distTo
      && 0 <= s < marked.Length
    }

    /**
     * The object invariant between public calls: the depth counter is at 0;
     * before `randomDFS` allocates `distTo` nothing is marked, and after it
     * the marked vertices form a tree of parent edges rooted at s.
     */
    ghost predicate Valid()
      reads this, marked, edgeTo, distTo
    {
      marked.Length == edgeTo.Length && 0 <= s < marked.Length && edgesCount == 0
      && (distTo == null ==> forall v :: 0 <= v < marked.Length ==> !marked[v])
      && (distTo != null ==> Shape() && IsRootedTree(s, marked[..], edgeTo[..], distTo[..]))
    }

    /** Lines 22-26: the state once s has been validated; nothing is marked and `distTo` is not allocated. */
    constructor (G: Graph, s: int)
      requires 0 <= s < |G|
      ensures Valid() && this.s == s && marked.Length == |G| && distTo == null
      ensures forall v :: 0 <= v < |G| ==> !marked[v] && edgeTo[v] == 0
      ensures fresh(marked) && fresh(edgeTo)
    {
      this.s := s;
      edgeTo := new int[|G|](_ => 0);
      marked := new bool[|G|](_ => false);
      distTo := null;
      preorder, postorder := [], [];
      previousNode, edgesCount := 0, 0;
    }

    /** `new RandomDepthFirstPaths(G, s)`, which throws unless 0 <= s < V. */
    static method New(G: Graph, s: int) returns (r: Result<RandomDepthFirstPaths>)
      ensures r.Err? <==> !(0 <= s < |G|)
      ensures r.Err? ==> r.error == VertexOutOfRange(s, |G|)
      ensures r.Ok? ==> fresh(r.value) && fresh(r.value.marked) && fresh(r.value.edgeTo)
      ensures r.Ok? ==> r.value.Valid() && r.value.s == s && r.value.marked.Length == |G| && r.value.distTo == null
      ensures r.Ok? ==> forall v :: 0 <= v < |G| ==> !r.value.marked[v] && r.value.edgeTo[v] == 0
    {
      if !(0 <= s < |G|) {
        return Err(VertexOutOfRange(s, |G|));
      }
      var d := new RandomDepthFirstPaths(G, s);
      return Ok(d);
    }

    /** The traversal state as values. */
    ghost function Snap(): Snapshot
      requires distTo != null
      reads this`marked, this`edgeTo, this`distTo, this`preorder, this`postorder, marked, edgeTo, distTo
    {
      Snapshot(marked[..], edgeTo[..], distTo[..], preorder, postorder)
    }

    /**
     * Lines 29-39: `randomDFS(G)` on a fresh object allocates `distTo`,
     * empties both queues and visits s. Afterwards the search from s is
     * complete, whatever order the shuffles chose, and `edgeTo[s]` still
     * holds its initial value.
     */
    method RandomDfs(G: Graph)
      requires Valid() && IsGraph(G) && |G| == marked.Length
      requires forall v :: 0 <= v < marked.Length ==> !marked[v]
      modifies this`distTo, this`preorder, this`postorder, this`previousNode, this`edgesCount, marked, edgeTo
      ensures Valid() && fresh(distTo) && previousNode == s && edgeTo[s] == old(edgeTo[s])
      ensures Searched(G, s, marked[..], edgeTo[..], distTo[..], [], preorder, [], postorder)
    {
      distTo := new int[|G|](_ => 0);
      postorder := [];
      preorder := [];
      ghost var a := Snap();
      assert CanVisit(G, s, s, edgesCount, a);
      ghost var b := RecRandomDfs(G, s, a);
      SearchDone(G, s, a, b);
    }

    /**
     * Lines 42-64: the recursive visit of v, entered with v unmarked and,
     * unless v is s, with `edgeTo[v]` a marked neighbour one level up. On
     * return `edgesCount` is restored, `previousNode` is v, and `Visited`
     * holds between the entry and exit states.
     */
    method RecRandomDfs(G: Graph, v: int, ghost a: Snapshot) returns (ghost b: Snapshot)
      requires Shape() && IsGraph(G) && |G| == marked.Length
      requires a == Snap() && 0 <= v < |G| && CanVisit(G, s, v, edgesCount, a)
      modifies this`previousNode, this`edgesCount, this`preorder, this`postorder, marked, edgeTo, distTo
      decreases Unmarked(marked[..]), 1
      ensures edgesCount == old(edgesCount) && previousNode == v
      ensures b == Snap() && Sized(G, a) && Sized(G, b)
      ensures Visited(G, s, v, old(edgesCount), a, b)
    {
      marked[v] := true;
      preorder := preorder + [v];
      previousNode := v;
      distTo[v] := edgesCount;
      var adjCopy := Shuffle(G[v]);
      ShuffledNeighbours(G, v, adjCopy);
      ghost var c := Snap();
      ScanStart(G, s, v, edgesCount, adjCopy, a, c);
      UnmarkedShrinks(a.m, c.m, v);

      for i := 0 to |adjCopy|
        invariant previousNode == v && edgesCount == old(edgesCount)
        invariant c == Snap() && Sized(G, c) && Scanning(G, s, v, old(edgesCount), adjCopy, i, a, c)
        invariant Unmarked(c.m) < Unmarked(a.m)
      {
        c := ScanEntry(G, v, adjCopy, i, a, c);
        UnmarkedShrinks(a.m, c.m, v);
      }
      postorder := postorder + [v];
      b := Snap();
      ScanDone(G, s, v, old(edgesCount), adjCopy, a, c, b);
    }

    /** Lines 53-62, one pass of the loop over `adjCopy`: an unmarked entry is visited, a marked one skipped. */
    method ScanEntry(G: Graph, v: int, adj: seq<nat>, i: int, ghost a: Snapshot, ghost c: Snapshot) returns (ghost n: Snapshot)
      requires Shape() && IsGraph(G) && |G| == marked.Length && 0 <= v < |G|
      requires 0 <= i < |adj| && adj[i] in G[v] && adj[i] < |G| && Sized(G, a)
      requires previousNode == v && c == Snap() && Sized(G, c) && Scanning(G, s, v, edgesCount, adj, i, a, c)
      modifies this`previousNode, this`edgesCount, this`preorder, this`postorder, marked, edgeTo, distTo
      decreases Unmarked(marked[..]), 3
      ensures previousNode == v && edgesCount == old(edgesCount)
      ensures n == Snap() && Sized(G, n) && Scanning(G, s, v, edgesCount, adj, i + 1, a, n)
    {
      var w := adj[i];
      if !marked[w] {
        n := VisitChild(G, v, adj, i, a, c);
      } else {
        n := c;
        ScanSkip(G, s, v, edgesCount, adj, i, a, c);
      }
    }

    /**
     * Lines 55-60: the unmarked entry w gets parent `previousNode` (which
     * is v) and depth `edgesCount + 1`, is visited, and the cursor and
     * counter are put back.
     */
    method VisitChild(G: Graph, v: int, adj: seq<nat>, i: int, ghost a: Snapshot, ghost c: Snapshot) returns (ghost n: Snapshot)
      requires Shape() && IsGraph(G) && |G| == marked.Length && 0 <= v < |G|
      requires 0 <= i < |adj| && adj[i] in G[v] && adj[i] < |G| && Sized(G, a) && !marked[adj[i]]
      requires previousNode == v && c == Snap() && Sized(G, c) && Scanning(G, s, v, edgesCount, adj, i, a, c)
      modifies this`previousNode, this`edgesCount, this`preorder, this`postorder, marked, edgeTo, distTo
      decreases Unmarked(marked[..]), 2
      ensures previousNode == v && edgesCount == old(edgesCount)
      ensures marked[adj[i]] && edgeTo[adj[i]] == v && distTo[adj[i]] == old(edgesCount) + 1
      ensures n == Snap() && Sized(G, n) && Scanning(G, s, v, edgesCount, adj, i + 1, a, n)
    {
      var w := adj[i];
      edgeTo[w] := previousNode;
      edgesCount := edgesCount + 1;
      distTo[w] := edgesCount;
      ghost var c1 := c.(edge := c.edge[w := v], dist := c.dist[w := old(edgesCount) + 1]);
      assert Snap() == c1;
      ScanPrepare(G, s, v, old(edgesCount), adj, i, a, c, c1);
      n := RecRandomDfs(G, w, c1);
      previousNode := v;
      edgesCount := edgesCount - 1;
      ScanChild(G, s, v, old(edgesCount), adj, i, a, c, c1, n);
    }

    /**
     * Lines 77-80: `hasPathTo(v)` throws unless v is a vertex, and
     * otherwise reads `marked[v]`; after `randomDFS(G)` that is whether v
     * is reachable from s.
     */
    method HasPathTo(v: int, ghost G: Graph) returns (r: Result<bool>)
      ensures r.Err? <==> !(0 <= v < marked.Length)
      ensures r.Err? ==> r.error == VertexOutOfRange(v, marked.Length)
      ensures r.Ok? ==> r.value == marked[v]
      ensures r.Ok? && distTo != null && Explored(G, s, marked[..], edgeTo[..], distTo[..]) ==> (r.value <==> Reachable(G, s, v))
    {
      if v < 0 || v >= marked.Length {
        return Err(VertexOutOfRange(v, marked.Length));
      }
      return Ok(marked[v]);
    }

    /**
     * Lines 93-106: `pathTo(v)` follows `edgeTo` from v to s and returns
     * v, its parent, ..., s, or null (here `None`) when v is not marked;
     * before `randomDFS` nothing is marked. The list is the path to the
     * root of the parent tree; read backwards it is a walk of G from s to
     * v, and when G is undirected it is itself a walk from v to s.
     */
    method PathTo(v: int, ghost G: Graph) returns (r: Result<Option<seq<int>>>)
      requires Valid()
      ensures r.Err? <==> !(0 <= v < marked.Length)
      ensures r.Err? ==> r.error == VertexOutOfRange(v, marked.Length)
      ensures r.Ok? ==> (r.value.None? <==> !marked[v])
      ensures r.Ok? && r.value.Some? ==> distTo != null && r.value.value == PathToRoot(s, marked[..], edgeTo[..], distTo[..], v)
      ensures r.Ok? && r.value.Some? ==> distTo != null && |r.value.value| == distTo[v] + 1
      ensures r.Ok? && r.value.Some? && v == s ==> r.value.value == [s]
      ensures r.Ok? && r.value.Some? && IsParentTree(G, s, marked[..], edgeTo[..], distTo[..]) ==>
                IsWalk(G, Reverse(r.value.value)) && (Symmetric(G) ==> IsWalk(G, r.value.value))
      ensures r.Ok? && distTo != null && Explored(G, s, marked[..], edgeTo[..], distTo[..]) ==> (r.value.Some? <==> Reachable(G, s, v))
    {
      if v < 0 || v >= marked.Length {
        return Err(VertexOutOfRange(v, marked.Length));
      }
      if !marked[v] {
        return Ok(None);
      }
      ghost var p := PathToRoot(s, marked[..], edgeTo[..], distTo[..], v);
      var path: seq<int> := [];
      var tmpNode := v;
      while tmpNode != s
        invariant |path| < |p| && path == p[..|path|] && tmpNode == p[|path|]
        decreases |p| - |path|
      {
        assert p[|path| + 1] == edgeTo[tmpNode];
        path := path + [tmpNode];
        tmpNode := edgeTo[tmpNode];
      }
      assert |path| == |p| - 1;
      assert path + [s] == p;
      path := path + [s];
      if IsParentTree(G, s, marked[..], edgeTo[..], distTo[..]) {
        PathToRootIsWalk(G, s, marked[..], edgeTo[..], distTo[..], v);
        if Symmetric(G) {
          PathToRootIsWalkBack(G, s, marked[..], edgeTo[..], distTo[..], v);
        }
      }
      return Ok(Some(path));
    }

    /**
     * Lines 108-110: `edge()`. Under the object invariant every marked
     * vertex other than s points at a marked vertex.
     */
    function Edge(): (r: seq<int>)
      requires Valid()
      reads this, marked, edgeTo, distTo
      ensures |r| == marked.Length
      ensures forall w :: 0 <= w < |r| && marked[w] && w != s ==> 0 <= r[w] < |r| && marked[r[w]]
    {
      assert distTo != null ==> forall w :: 0 <= w < marked.Length && marked[w] && w != s ==> HasParent(marked[..], edgeTo[..], distTo[..], w);
      edgeTo[..]
    }
  }
}

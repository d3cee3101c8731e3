/**
 * `DepthFirstPaths`: depth-first search from a source vertex s, in a
 * recursive form (`Dfs`) and an explicit-stack form (`NonrecursiveDfs`),
 * both filling `marked`, `edgeTo`, `distTo` and the preorder and postorder
 * queues, and the path queries that read the result. Line numbers in
 * this module refer to DepthFirstPaths.java.
 */
module DepthFirst {
  import opened Graphs
  import opened ParentTrees
  import opened Visits
  import opened ExplicitStack

  class DepthFirstPaths {
    var marked: array<bool>   // marked[v]: is there an s-v path?
    var edgeTo: array<int>    // edgeTo[v]: the vertex v was reached from
    var distTo: array<int>    // distTo[v]: number of edges on the tree path s-v
    const s: int              // the source vertex
    var preorder: seq<int>    // vertices in preorder (a queue: appended at the end)
    var postorder: seq<int>   // vertices in postorder

    var previousNode: int     // cursor: the vertex whose neighbours are being scanned
    var edgesCount: int       // depth of the vertex currently being visited

    /** The arrays have one entry per vertex, and s is one of the vertices. */
    ghost predicate Shape()
      reads this
    {
      marked.Length == edgeTo.Length == distTo.Length && edgeTo != distTo
      && 0 <= s < marked.Length
    }

    /**
     * The object invariant between public calls: the depth counter is back
     * at 0 and the marked vertices form a tree of parent edges rooted at s.
     */
    ghost predicate Valid()
      reads this, marked, edgeTo, distTo
    {
      Shape() && edgesCount == 0
      && IsRootedTree(s, marked[..], edgeTo[..], distTo[..])
    }

    /** Lines 291-298: the state once s has been validated; nothing is marked yet. */
    constructor (G: Graph, s: int)
      requires 0 <= s < |G|
      ensures Valid() && this.s == s && marked.Length == |G|
      ensures forall v :: 0 <= v < |G| ==> !marked[v] && edgeTo[v] == 0 && distTo[v] == 0
      ensures preorder == [] && postorder == []
      ensures fresh(marked) && fresh(edgeTo) && fresh(distTo)
    {
      this.s := s;
      edgeTo := new int[|G|](_ => 0);
      marked := new bool[|G|](_ => false);
      distTo := new int[|G|](_ => 0);
      postorder := [];
      preorder := [];
      previousNode, edgesCount := 0, 0;
    }

    /** `new DepthFirstPaths(G, s)`, which throws unless 0 <= s < V. */
    static method New(G: Graph, s: int) returns (r: Result<DepthFirstPaths>)
      ensures r.Err? <==> !(0 <= s < |G|)
      ensures r.Err? ==> r.error == VertexOutOfRange(s, |G|)
      ensures r.Ok? ==> fresh(r.value) && fresh(r.value.marked) && fresh(r.value.edgeTo) && fresh(r.value.distTo)
      ensures r.Ok? ==> r.value.Valid() && r.value.s == s && r.value.marked.Length == |G|
      ensures r.Ok? ==> r.value.preorder == [] && r.value.postorder == []
      ensures r.Ok? ==> forall v :: 0 <= v < |G| ==> !r.value.marked[v] && r.value.edgeTo[v] == 0 && r.value.distTo[v] == 0
    {
      if !(0 <= s < |G|) {
        return Err(VertexOutOfRange(s, |G|));
      }
      var d := new DepthFirstPaths(G, s);
      return Ok(d);
    }

    /** The traversal state as values. */
    ghost function Snap(): Snapshot
      reads this`marked, this`edgeTo, this`distTo, this`preorder, this`postorder, marked, edgeTo, distTo
    {
      Snapshot(marked[..], edgeTo[..], distTo[..], preorder, postorder)
    }

    /**
     * Lines 302-304: `dfs(G)` on a fresh object. Afterwards exactly the
     * vertices reachable from s are marked, the parent edges form a tree
     * of G rooted at s, and each of them has been appended once to preorder
     * (s first) and once to postorder (s last).
     */
    method Dfs(G: Graph)
      requires Valid() && IsGraph(G) && |G| == marked.Length
      requires forall v :: 0 <= v < marked.Length ==> !marked[v]
      modifies this`previousNode, this`edgesCount, this`preorder, this`postorder, marked, edgeTo, distTo
      ensures Valid() && previousNode == s && edgeTo[s] == old(edgeTo[s])
      ensures Searched(G, s, marked[..], edgeTo[..], distTo[..], old(preorder), preorder, old(postorder), postorder)
    {
      ghost var a := Snap();
      assert CanVisit(G, s, s, edgesCount, a);
      ghost var b := DfsFrom(G, s, a);
      SearchDone(G, s, a, b);
    }

    /**
     * Lines 307-325: the recursive visit of v, entered with v unmarked and,
     * unless v is s, with `edgeTo[v]` a marked neighbour one level up. On
     * return `edgesCount` is restored, `previousNode` is v, and `Visited`
     * holds between the entry and exit states: v has depth
     * `old(edgesCount)`, what was marked keeps its parent and depth, every
     * vertex this call marked has all its neighbours marked, and the queues
     * grew by exactly those vertices, v first in preorder and last in
     * postorder.
     */
    method DfsFrom(G: Graph, v: int, ghost a: Snapshot) returns (ghost b: Snapshot)
      requires Shape() && IsGraph(G) && |G| == marked.Length
      requires a == Snap() && 0 <= v < |G| && CanVisit(G, s, v, edgesCount, a)
      modifies this`previousNode, this`edgesCount, this`preorder, this`postorder, marked, edgeTo, distTo
      decreases Unmarked(marked[..]), 1
      ensures edgesCount == old(edgesCount) && previousNode == v
      ensures b == Snap() && Sized(G, a) && Sized(G, b)
      ensures Visited(G, s, v, old(edgesCount), a, b)
    {
      marked[v] := true;
      preorder := preorder + [v];
      previousNode := v;
      distTo[v] := edgesCount;
      var adj := G[v];
      ghost var c := Snap();
      ScanStart(G, s, v, edgesCount, adj, a, c);
      UnmarkedShrinks(a.m, c.m, v);

      for i := 0 to |adj|
        invariant previousNode == v && edgesCount == old(edgesCount)
        invariant c == Snap() && Sized(G, c) && Scanning(G, s, v, old(edgesCount), adj, i, a, c)
        invariant Unmarked(c.m) < Unmarked(a.m)
      {
        c := ScanEntry(G, v, adj, i, a, c);
        UnmarkedShrinks(a.m, c.m, v);
      }
      postorder := postorder + [v];
      b := Snap();
      ScanDone(G, s, v, old(edgesCount), adj, a, c, b);
    }

    /**
     * Lines 315-322, one pass of the loop in `dfs(G, v)`: entry i of adj(v)
     * is visited when it is not yet marked, and skipped otherwise.
     */
    method ScanEntry(G: Graph, v: int, adj: seq<nat>, i: int, ghost a: Snapshot, ghost c: Snapshot) returns (ghost n: Snapshot)
      requires Shape() && IsGraph(G) && |G| == marked.Length && 0 <= v < |G|
      requires adj == G[v] && 0 <= i < |adj| && Sized(G, a)
      requires previousNode == v && c == Snap() && Sized(G, c) && Scanning(G, s, v, edgesCount, adj, i, a, c)
      modifies this`previousNode, this`edgesCount, this`preorder, this`postorder, marked, edgeTo, distTo
      decreases Unmarked(marked[..]), 3
      ensures previousNode == v && edgesCount == old(edgesCount)
      ensures n == Snap() && Sized(G, n) && Scanning(G, s, v, edgesCount, adj, i + 1, a, n)
    {
      var w := adj[i];
      assert w == G[v][i] && w < |G|;
      if !marked[w] {
        n := VisitChild(G, v, adj, i, a, c);
      } else {
        n := c;
        ScanSkip(G, s, v, edgesCount, adj, i, a, c);
      }
    }

    /**
     * Lines 316-321: the unmarked entry w = adj[i] gets parent
     * `previousNode` (which is v) and depth `edgesCount + 1`, is visited,
     * and the cursor and counter are put back.
     */
    method VisitChild(G: Graph, v: int, adj: seq<nat>, i: int, ghost a: Snapshot, ghost c: Snapshot) returns (ghost n: Snapshot)
      requires Shape() && IsGraph(G) && |G| == marked.Length && 0 <= v < |G|
      requires adj == G[v] && 0 <= i < |adj| && adj[i] < |G| && Sized(G, a) && !marked[adj[i]]
      requires previousNode == v && c == Snap() && Sized(G, c) && Scanning(G, s, v, edgesCount, adj, i, a, c)
      modifies this`previousNode, this`edgesCount, this`preorder, this`postorder, marked, edgeTo, distTo
      decreases Unmarked(marked[..]), 2
      ensures previousNode == v && edgesCount == old(edgesCount)
      ensures marked[adj[i]] && edgeTo[adj[i]] == v && distTo[adj[i]] == old(edgesCount) + 1
      ensures n == Snap() && Sized(G, n) && Scanning(G, s, v, edgesCount, adj, i + 1, a, n)
    {
      var w := adj[i];
      assert w in G[v];
      edgeTo[w] := previousNode;
      edgesCount := edgesCount + 1;
      distTo[w] := edgesCount;
      ghost var c1 := c.(edge := c.edge[w := v], dist := c.dist[w := old(edgesCount) + 1]);
      assert Snap() == c1;
      ScanPrepare(G, s, v, old(edgesCount), adj, i, a, c, c1);
      n := DfsFrom(G, w, c1);
      previousNode := v;
      edgesCount := edgesCount - 1;
      ScanChild(G, s, v, old(edgesCount), adj, i, a, c, c1, n);
    }

    /** The state of `nonrecursiveDFS` as values, with the stack and the iterator positions. */
    ghost function FrameOf(stack: seq<int>, next: array<nat>): Frame
      reads this`marked, this`edgeTo, this`distTo, this`preorder, this`postorder, marked, edgeTo, distTo, next
    {
      Frame(marked[..], edgeTo[..], distTo[..], preorder, postorder, stack, next[..])
    }

    /**
     * Lines 327-359: `nonrecursiveDFS(G)`. It replaces `marked` by a fresh
     * array and leaves `edgeTo[s]` and `distTo[s]` alone; afterwards exactly
     * the vertices reachable from s are marked, they carry a parent tree of
     * G rooted at s, and each of them has been appended once to preorder
     * (s first) and once to postorder (s last).
     */
    method NonrecursiveDfs(G: Graph)
      requires Valid() && IsGraph(G) && |G| == marked.Length
      modifies this`marked, this`preorder, this`postorder, edgeTo, distTo
      ensures Valid() && fresh(marked) && marked.Length == |G|
      ensures edgeTo[s] == old(edgeTo[s]) && distTo[s] == old(distTo[s])
      ensures Searched(G, s, marked[..], edgeTo[..], distTo[..], old(preorder), preorder, old(postorder), postorder)
    {
      var adj, stack, f := StartTraversal(G);

      while stack != []
        invariant adj.Length == |G| && fresh(marked) && marked.Length == |G|
        invariant f == FrameOf(stack, adj) && Traversing(G, s, old(preorder), old(postorder), f)
        invariant edgeTo[s] == old(edgeTo[s]) && distTo[s] == old(distTo[s])
        decreases Unmarked(f.m), Pending(G, f.next), |f.stack|
      {
        stack, f := Advance(G, adj, stack, old(preorder), old(postorder), f);
      }
      assert f.m == marked[..] && f.edge == edgeTo[..] && f.dist == distTo[..];
      assert f.pre == preorder && f.post == postorder;
      TraverseDone(G, s, old(preorder), old(postorder), f);
      ClosedSearched(G, s, f.m, f.edge, f.dist, old(preorder), f.pre, old(postorder), f.post);
    }

    /**
     * Lines 331-340, the set-up of `nonrecursiveDFS`: a fresh `marked` with
     * only s marked, every iterator at its first entry, s pushed on the
     * stack and appended to preorder.
     */
    method StartTraversal(G: Graph) returns (adj: array<nat>, stack: seq<int>, ghost f: Frame)
      requires Shape() && IsGraph(G) && |G| == marked.Length
      requires IsRootedTree(s, marked[..], edgeTo[..], distTo[..])
      modifies this`marked, this`preorder
      ensures fresh(marked) && fresh(adj) && marked.Length == |G| && adj.Length == |G|
      ensures preorder == old(preorder) + [s] && stack == [s]
      ensures forall u :: 0 <= u < |G| ==> adj[u] == 0 && (marked[u] <==> u == s)
      ensures f == FrameOf(stack, adj) && Traversing(G, s, old(preorder), postorder, f)
    {
      marked := new bool[|G|](_ => false);
      adj := new nat[|G|];
      for v := 0 to |G|
        modifies adj
        invariant forall u :: 0 <= u < v ==> adj[u] == 0
      {
        adj[v] := 0;
      }
      assert forall u :: 0 <= u < |G| ==> adj[u] == 0;
      stack := [];
      marked[s] := true;
      assert forall u :: 0 <= u < |G| ==> (marked[u] <==> u == s);
      stack := stack + [s];
      preorder := preorder + [s];
      f := FrameOf(stack, adj);
      TraverseStart(G, s, old(preorder), postorder, f);
    }

    /**
     * Lines 342-357, one pass of the loop in `nonrecursiveDFS`: the top v
     * of the stack either gets its next neighbour w from its iterator
     * (pushing w if it is unmarked) or, its iterator exhausted, is appended
     * to postorder and popped, pointing at the new top as its parent. The
     * marked set grows, or else fewer iterator entries remain, or else the
     * stack shrinks.
     */
    method Advance(G: Graph, adj: array<nat>, stack: seq<int>, ghost pre0: seq<int>, ghost post0: seq<int>, ghost f: Frame)
        returns (stack': seq<int>, ghost f': Frame)
      requires Shape() && IsGraph(G) && |G| == marked.Length && adj.Length == |G|
      requires stack != [] && f == FrameOf(stack, adj) && Traversing(G, s, pre0, post0, f)
      modifies this`preorder, this`postorder, marked, edgeTo, distTo, adj
      ensures f' == FrameOf(stack', adj) && Traversing(G, s, pre0, post0, f')
      ensures edgeTo[s] == old(edgeTo[s]) && distTo[s] == old(distTo[s])
      ensures Unmarked(f'.m) < Unmarked(f.m)
              || (Unmarked(f'.m) == Unmarked(f.m) && Pending(G, f'.next) < Pending(G, f.next))
              || (Unmarked(f'.m) == Unmarked(f.m) && Pending(G, f'.next) == Pending(G, f.next) && |f'.stack| < |f.stack|)
    {
      var v := stack[|stack| - 1];
      if adj[v] < |G[v]| {
        var w := G[v][adj[v]];
        if !marked[w] {
          stack', f' := PushNeighbour(G, adj, stack, pre0, post0, f);
        } else {
          stack', f' := SkipNeighbour(G, adj, stack, pre0, post0, f);
        }
      } else {
        stack', f' := PopVertex(G, adj, stack, pre0, post0, f);
      }
    }

    /** Lines 345-351: the next neighbour w of the top v is unmarked; it is marked, given depth |stack| and pushed. */
    method PushNeighbour(G: Graph, adj: array<nat>, stack: seq<int>, ghost pre0: seq<int>, ghost post0: seq<int>, ghost f: Frame)
        returns (stack': seq<int>, ghost f': Frame)
      requires Shape() && IsGraph(G) && |G| == marked.Length && adj.Length == |G|
      requires stack != [] && f == FrameOf(stack, adj) && Traversing(G, s, pre0, post0, f)
      requires adj[stack[|stack| - 1]] < |G[stack[|stack| - 1]]|
      requires !marked[G[stack[|stack| - 1]][adj[stack[|stack| - 1]]]]
      modifies this`preorder, marked, distTo, adj
      ensures f' == FrameOf(stack', adj) && Traversing(G, s, pre0, post0, f')
      ensures distTo[s] == old(distTo[s]) && Unmarked(f'.m) < Unmarked(f.m)
      ensures var v := stack[|stack| - 1]; var w := G[v][old(adj[v])];
        stack' == stack + [w] && preorder == old(preorder) + [w]
        && marked[..] == old(marked[..])[w := true] && distTo[..] == old(distTo[..])[w := |stack|]
        && adj[..] == old(adj[..])[v := old(adj[v]) + 1]
    {
      var v := stack[|stack| - 1];
      var w := G[v][adj[v]];
      adj[v] := adj[v] + 1;
      preorder := preorder + [w];
      marked[w] := true;
      distTo[w] := |stack|;
      stack' := stack + [w];
      f' := f.(pre := f.pre + [w], m := f.m[w := true], dist := f.dist[w := |f.stack|],
               stack := f.stack + [w], next := f.next[v := f.next[v] + 1]);
      Discover(G, s, pre0, post0, f, v, w, f');
    }

    /** Lines 345-346: the next neighbour of the top is already marked; only the iterator moves. */
    method SkipNeighbour(G: Graph, adj: array<nat>, stack: seq<int>, ghost pre0: seq<int>, ghost post0: seq<int>, ghost f: Frame)
        returns (stack': seq<int>, ghost f': Frame)
      requires Shape() && IsGraph(G) && |G| == marked.Length && adj.Length == |G|
      requires stack != [] && f == FrameOf(stack, adj) && Traversing(G, s, pre0, post0, f)
      requires adj[stack[|stack| - 1]] < |G[stack[|stack| - 1]]|
      requires marked[G[stack[|stack| - 1]][adj[stack[|stack| - 1]]]]
      modifies adj
      ensures f' == FrameOf(stack', adj) && Traversing(G, s, pre0, post0, f')
      ensures Unmarked(f'.m) == Unmarked(f.m) && Pending(G, f'.next) < Pending(G, f.next)
      ensures stack' == stack
      ensures adj[..] == old(adj[..])[stack[|stack| - 1] := old(adj[stack[|stack| - 1]]) + 1]
    {
      var v := stack[|stack| - 1];
      adj[v] := adj[v] + 1;
      stack' := stack;
      f' := f.(next := f.next[v := f.next[v] + 1]);
      Skip(G, s, pre0, post0, f, v, f');
    }

    /**
     * Lines 352-356: the top v has no neighbours left; it is appended to
     * postorder, popped, and points at the new top (if any) as its parent.
     */
    method PopVertex(G: Graph, adj: array<nat>, stack: seq<int>, ghost pre0: seq<int>, ghost post0: seq<int>, ghost f: Frame)
        returns (stack': seq<int>, ghost f': Frame)
      requires Shape() && IsGraph(G) && |G| == marked.Length && adj.Length == |G|
      requires stack != [] && f == FrameOf(stack, adj) && Traversing(G, s, pre0, post0, f)
      requires adj[stack[|stack| - 1]] >= |G[stack[|stack| - 1]]|
      modifies this`postorder, edgeTo
      ensures f' == FrameOf(stack', adj) && Traversing(G, s, pre0, post0, f')
      ensures edgeTo[s] == old(edgeTo[s])
      ensures Unmarked(f'.m) == Unmarked(f.m) && Pending(G, f'.next) == Pending(G, f.next) && |f'.stack| < |f.stack|
      ensures stack' == stack[..|stack| - 1] && postorder == old(postorder) + [stack[|stack| - 1]]
      ensures edgeTo[..] == if stack' != [] then old(edgeTo[..])[stack[|stack| - 1] := stack'[|stack'| - 1]] else old(edgeTo[..])
    {
      var v := stack[|stack| - 1];
      postorder := postorder + [stack[|stack| - 1]];
      var tmpNode := stack[|stack| - 1];
      stack' := stack[..|stack| - 1];
      if stack' != [] {
        edgeTo[tmpNode] := stack'[|stack'| - 1];
      }
      f' := f.(post := f.post + [v], stack := f.stack[..|f.stack| - 1],
               edge := if |f.stack| > 1 then f.edge[v := f.stack[|f.stack| - 2]] else f.edge);
      Pop(G, s, pre0, post0, f, v, f');
    }

    /**
     * Lines 367-370: `hasPathTo(v)` throws unless v is a vertex, and
     * otherwise reads `marked[v]`; after a search of G (the graph passed to
     * `dfs` or `nonrecursiveDFS`) that is whether v is reachable from s.
     */
    method HasPathTo(v: int, ghost G: Graph) returns (r: Result<bool>)
      ensures r.Err? <==> !(0 <= v < marked.Length)
      ensures r.Err? ==> r.error == VertexOutOfRange(v, marked.Length)
      ensures r.Ok? ==> r.value == marked[v]
      ensures r.Ok? && Explored(G, s, marked[..], edgeTo[..], distTo[..]) ==> (r.value <==> Reachable(G, s, v))
    {
      if v < 0 || v >= marked.Length {
        return Err(VertexOutOfRange(v, marked.Length));
      }
      return Ok(marked[v]);
    }

    /**
     * Lines 382-395: `pathTo(v)` follows `edgeTo` from v until it reaches
     * s, listing v, its parent, ..., s; it returns null (here `None`)
     * when v is not marked. The list is the path to the root of the parent
     * tree; read backwards it is a walk of G from s to v, and when G is
     * undirected it is itself a walk from v to s.
     */
    method PathTo(v: int, ghost G: Graph) returns (r: Result<Option<seq<int>>>)
      requires Valid()
      ensures r.Err? <==> !(0 <= v < marked.Length)
      ensures r.Err? ==> r.error == VertexOutOfRange(v, marked.Length)
      ensures r.Ok? ==> (r.value.None? <==> !marked[v])
      ensures r.Ok? && r.value.Some? ==> r.value.value == PathToRoot(s, marked[..], edgeTo[..], distTo[..], v)
      ensures r.Ok? && r.value.Some? ==> |r.value.value| == distTo[v] + 1
      ensures r.Ok? && r.value.Some? && v == s ==> r.value.value == [s]
      ensures r.Ok? && r.value.Some? && IsParentTree(G, s, marked[..], edgeTo[..], distTo[..]) ==>
                IsWalk(G, Reverse(r.value.value)) && (Symmetric(G) ==> IsWalk(G, r.value.value))
      ensures r.Ok? && Explored(G, s, marked[..], edgeTo[..], distTo[..]) ==> (r.value.Some? <==> Reachable(G, s, v))
    {
      if v < 0 || v >= marked.Length {
        return Err(VertexOutOfRange(v, marked.Length));
      }
      if !marked[v] {
        return Ok(None);
      }
      ghost var p := PathToRoot(s, marked[..], edgeTo[..], distTo[..], v);
      var path: seq<int> := [];
      var tmpNode := v;
      while tmpNode != s
        invariant |path| < |p| && path == p[..|path|] && tmpNode == p[|path|]
        decreases |p| - |path|
      {
        assert p[|path| + 1] == edgeTo[tmpNode];
        path := path + [tmpNode];
        tmpNode := edgeTo[tmpNode];
      }
      assert |path| == |p| - 1;
      path := path + [s];
      assert path == p;
      if IsParentTree(G, s, marked[..], edgeTo[..], distTo[..]) {
        PathToRootIsWalk(G, s, marked[..], edgeTo[..], distTo[..], v);
        if Symmetric(G) {
          PathToRootIsWalkBack(G, s, marked[..], edgeTo[..], distTo[..], v);
        }
      }
      return Ok(Some(path));
    }

    /**
     * Lines 417-419: `edge()`. Under the object invariant every marked
     * vertex other than s points at a marked vertex.
     */
    function Edge(): (r: seq<int>)
      requires Valid()
      reads this, marked, edgeTo, distTo
      ensures |r| == marked.Length
      ensures forall w :: 0 <= w < |r| && marked[w] && w != s ==> 0 <= r[w] < |r| && marked[r[w]]
    {
      assert forall w :: 0 <= w < marked.Length && marked[w] && w != s ==> HasParent(marked[..], edgeTo[..], distTo[..], w);
      edgeTo[..]
    }

    /**
     * Lines 425-427: `dist()`. Under the object invariant s is at depth 0
     * and every other marked vertex is one deeper than its parent.
     */
    function Dist(): (r: seq<int>)
      requires Valid()
      reads this, marked, edgeTo, distTo
      ensures |r| == marked.Length && r[s] == 0
      ensures forall w :: 0 <= w < |r| && marked[w] && w != s ==> 0 <= edgeTo[w] < |r| && r[w] == r[edgeTo[w]] + 1
    {
      assert forall w :: 0 <= w < marked.Length && marked[w] && w != s ==> HasParent(marked[..], edgeTo[..], distTo[..], w);
      distTo[..]
    }
  }
}

# Depth-first search paths and random mazes

This project is a Dafny model of a depth-first-search engine and the maze built on top of it.

`DepthFirstPaths` searches an undirected graph from a source vertex s in two forms:
- a recursive form, which threads a `previousNode` cursor and an `edgesCount` depth counter through the recursion;
- an explicit-stack form, which keeps one iterator position per adjacency list.

Both forms fill `marked`, `edgeTo`, `distTo` and the preorder and postorder queues. `pathTo` follows the parent edges back to s.

`RandomDepthFirstPaths` is the recursive search with each vertex's neighbours in shuffled order. `Maze` uses it on an N x N grid:
- the tree edges the search leaves behind become the corridors of the maze;
- the way between two junctions comes from the explicit-stack search over the maze.

The graph is a sequence of adjacency sequences (module `Graphs`):
- `Empty(V)` stands for `new Graph(V)`;
- `AddEdge(g, v, w)` stands for `addEdge`, which appends w to adj(v) and v to adj(w);
- `g[v]` stands for `adj(v)`.

The exceptions (`IllegalArgumentException`, and the `NullPointerException` from copying a null path) are values of type `Error`. Methods return them in a `Result` or an `Outcome`.

The main results:
- After either search, exactly the vertices reachable from s are marked (`Explored`).
- The marked vertices carry a tree of parent edges, each one an edge of the graph, with `distTo` one more than the parent's depth (`IsParentTree`).
- Preorder lists each marked vertex once with s first, and postorder lists each once with s last (`Searched`).
- `pathTo(v)` is the list v, edgeTo[v], ..., s of length distTo[v] + 1. Read backwards it is a walk of the graph; in an undirected graph it is also a walk forwards.
- The randomized search meets the same contract for every order the shuffle can produce.
- `mazegrid` builds exactly the N x N grid: no row wraps, there are 2N(N-1) corridors, and the grid is connected.
- The maze is a spanning tree of the grid on the corrected loop: every corridor joins grid neighbours, every junction reaches every other, and there are N*N-1 corridors.
- The loop as written builds a spanning tree of the grid exactly when the start junction is 0 or one of its grid neighbours 1 and N. For any other start the maze has the corridor between the start and 0, which crosses a wall (see Findings).

## Model

| member | source | states |
|---|---|---|
| DepthFirst.DepthFirstPaths.constructor | DepthFirstPaths.java:291-300 | for a valid s, allocates `marked`, `edgeTo` and `distTo` at length V with nothing marked, and leaves both queues empty |
| DepthFirst.DepthFirstPaths.New | DepthFirstPaths.java:291-300 | fails with VertexOutOfRange(s, V) exactly when s is not in [0, V) (validateVertex, lines 430-434); otherwise returns the fresh object above: nothing marked, `edgeTo` and `distTo` all 0 |
| DepthFirst.DepthFirstPaths.Dfs | DepthFirstPaths.java:302-304 | on a fresh object: the vertices reachable from s become marked, and no others; they carry a parent tree of G rooted at s; preorder gains each of them once, s first; postorder gains each once, s last; `previousNode` ends at s and edgeTo[s] is untouched |
| DepthFirst.DepthFirstPaths.DfsFrom | DepthFirstPaths.java:307-325 | the visit of an unmarked v (whose edgeTo, unless v is s, is a marked neighbour one level up) marks v at depth edgesCount, keeps the parents and depths of what was marked, leaves every vertex it marked with all neighbours marked and the marked set a parent tree of G; edgesCount is restored and previousNode ends at v; both queues gain exactly the newly marked vertices, v first in preorder and last in postorder |
| DepthFirst.DepthFirstPaths.ScanEntry | DepthFirstPaths.java:314-323 | one pass of the `for (int w : G.adj(v))` loop keeps the scan invariant `Scanning` with one more entry covered |
| DepthFirst.DepthFirstPaths.VisitChild | DepthFirstPaths.java:315-322 | the unmarked entry w ends marked, with edgeTo[w] == v and distTo[w] one more than v's edgesCount; the scan invariant holds with one more entry covered, and previousNode and edgesCount come back to v and their entry value |
| DepthFirst.DepthFirstPaths.NonrecursiveDfs | DepthFirstPaths.java:327-359 | with a freshly cleared `marked`, ends with exactly the reachable vertices marked, a parent tree of G rooted at s, and the queues extended as for Dfs; edgeTo[s] and distTo[s] are untouched |
| DepthFirst.DepthFirstPaths.StartTraversal | DepthFirstPaths.java:329-340 | a fresh `marked` in which exactly s is marked, a fresh iterator array with every position 0 (each iterator at the start of its list), the stack [s], and s appended to preorder, so the loop invariant `Traversing` holds |
| DepthFirst.DepthFirstPaths.Advance | DepthFirstPaths.java:341-357 | one pass of the while loop keeps `Traversing` and decreases the measure (unmarked vertices, pending iterator entries, stack height) |
| DepthFirst.DepthFirstPaths.PushNeighbour | DepthFirstPaths.java:343-351 | when the next neighbour w of the top v is unmarked: w is pushed and appended to preorder, marked[w] is set, distTo[w] becomes the old stack height, v's iterator moves one entry, and nothing else changes; `Traversing` still holds, distTo[s] is untouched and the unmarked set shrinks |
| DepthFirst.DepthFirstPaths.SkipNeighbour | DepthFirstPaths.java:343-345 | when the next neighbour of the top is marked, only the top's iterator moves one entry and the stack stays; `Traversing` still holds, the marks stay and one fewer iterator entry is pending |
| DepthFirst.DepthFirstPaths.PopVertex | DepthFirstPaths.java:352-357 | when the top v's iterator is exhausted: v is appended to postorder and popped, edgeTo[v] becomes the new top when there is one, and no other edgeTo changes; `Traversing` still holds, edgeTo[s] is untouched (so the final pop of s writes no edgeTo), and the marks and iterators stay |
| DepthFirst.DepthFirstPaths.HasPathTo | DepthFirstPaths.java:367-370 | fails with VertexOutOfRange(v, V) exactly when v is not a vertex; otherwise returns marked[v], which after a search holds iff v is reachable from s |
| DepthFirst.DepthFirstPaths.PathTo | DepthFirstPaths.java:382-395 | fails exactly for a v out of range; gives no path exactly when v is unmarked; otherwise the list v, edgeTo[v], ..., s of length distTo[v] + 1, [s] for v == s; on a parent tree of G it is a walk of G when reversed, and a walk itself on an undirected G; after a search a path exists iff v is reachable |
| DepthFirst.DepthFirstPaths.Edge | DepthFirstPaths.java:417-419 | `edgeTo` has length V, and each marked w other than s points at a marked vertex |
| DepthFirst.DepthFirstPaths.Dist | DepthFirstPaths.java:425-427 | distTo[s] == 0, and each marked w other than s is one deeper than edgeTo[w] |
| ParentTrees.PathToRoot | DepthFirstPaths.java:386-392 | the list the `while (tmpNode != s)` loop builds: it starts at v, ends at s, has length distTo[v] + 1, and each step goes to the parent; it terminates because distTo falls by one at each step |
| ParentTrees.PathToRootIsWalk | DepthFirstPaths.java:382-395 | on a parent tree of g, the reversed path is a walk of g from s to v |
| ParentTrees.PathToRootIsWalkBack | DepthFirstPaths.java:382-395 | on a parent tree of an undirected g, the path itself is a walk of g from v to s |
| ParentTrees.TreeReachable | RandomDepthFirstPaths.java:97-102 | following edgeTo from any marked vertex reaches s, so every marked vertex is reachable from s |
| ParentTrees.MarkedIsReachable | DepthFirstPaths.java:307-325 | a parent tree with s marked whose marked set is closed under adjacency marks exactly the vertices reachable from s |
| Visits.ScanStart | DepthFirstPaths.java:309-312 | marking v, appending it to preorder and setting distTo[v] = edgesCount starts the scan invariant |
| Visits.ScanPrepare | DepthFirstPaths.java:316-318 | setting edgeTo[w] = previousNode = v and distTo[w] = edgesCount + 1 puts w in a state where it can be visited |
| Visits.ScanChild | DepthFirstPaths.java:319-321 | after the recursive visit of w the scan has covered one more entry |
| Visits.ScanDone | DepthFirstPaths.java:324 | once the scanned list holds every neighbour of v, appending v to postorder completes the visit |
| Visits.SearchDone | DepthFirstPaths.java:302-304 | a completed visit of s from the empty state is a complete search: `Searched` |
| ExplicitStack.TraverseStart | DepthFirstPaths.java:329-340 | the set-up establishes the loop invariant: the stack is a path of marked vertices from s with depths 0, 1, ..., every iterator entry returned so far is marked, popped vertices have parents, and the queues list what they should |
| ExplicitStack.Discover | DepthFirstPaths.java:344-351 | the update the source makes for an unmarked next neighbour w (appended to preorder, marked, depth `stack.size()`, pushed, iterator advanced) keeps `Traversing` and shrinks the unmarked set |
| ExplicitStack.Skip | DepthFirstPaths.java:344-345 | advancing the iterator past a marked entry keeps `Traversing` and shrinks the pending entries |
| ExplicitStack.Pop | DepthFirstPaths.java:352-357 | appending the exhausted top v to postorder, popping it and setting edgeTo[v] to the new top (when there is one) keeps `Traversing`, making v a child of its discoverer, a neighbour one level up; marks, iterators and edgeTo[s] stay |
| ExplicitStack.TraverseDone | DepthFirstPaths.java:341 | when the stack is empty, the marked set holds s, is closed under adjacency and carries a parent tree of g; preorder (s first) and postorder (s last) each list it once |
| ExplicitStack.PendingShrinks | DepthFirstPaths.java:343-344 | advancing an iterator removes one pending entry, part of the termination measure |
| RandomDepthFirst.Shuffle | RandomDepthFirstPaths.java:49-51 | the scan order is some permutation of adj(v): the same entries, each as often |
| RandomDepthFirst.ShuffledNeighbours | RandomDepthFirstPaths.java:49-53 | every entry of the shuffled copy is a neighbour of v and a vertex, and every neighbour of v is in it |
| RandomDepthFirst.RandomDepthFirstPaths.constructor | RandomDepthFirstPaths.java:22-27 | for a valid s, `marked` and `edgeTo` have length V, nothing is marked, edgeTo is all 0 and `distTo` is not allocated |
| RandomDepthFirst.RandomDepthFirstPaths.New | RandomDepthFirstPaths.java:22-27 | fails with VertexOutOfRange(s, V) exactly when s is not in [0, V) (validateVertex, lines 113-117); otherwise the object above |
| RandomDepthFirst.RandomDepthFirstPaths.RandomDfs | RandomDepthFirstPaths.java:29-39 | allocates `distTo` and empty queues, then searches: exactly the reachable vertices are marked, with a parent tree of G rooted at s; preorder lists them with s first and postorder with s last; edgeTo[s] keeps its value |
| RandomDepthFirst.RandomDepthFirstPaths.RecRandomDfs | RandomDepthFirstPaths.java:42-64 | the contract of DfsFrom, for whatever order the shuffle yields |
| RandomDepthFirst.RandomDepthFirstPaths.ScanEntry | RandomDepthFirstPaths.java:53-62 | one pass of the loop over the shuffled copy keeps the scan invariant |
| RandomDepthFirst.RandomDepthFirstPaths.VisitChild | RandomDepthFirstPaths.java:54-61 | the unmarked entry w of the shuffled copy ends marked, with edgeTo[w] == v and distTo[w] one more than v's edgesCount; the scan invariant holds with one more entry covered, and previousNode and edgesCount are restored |
| RandomDepthFirst.RandomDepthFirstPaths.HasPathTo | RandomDepthFirstPaths.java:77-80 | fails exactly for v out of range; otherwise marked[v], which after a search holds iff v is reachable |
| RandomDepthFirst.RandomDepthFirstPaths.PathTo | RandomDepthFirstPaths.java:93-106 | fails exactly for v out of range; no path iff v is unmarked; otherwise v, edgeTo[v], ..., s of length distTo[v] + 1, [s] for v == s; on a parent tree of G a walk of G when reversed, and a walk itself on an undirected G; after a search a path exists iff v is reachable |
| RandomDepthFirst.RandomDepthFirstPaths.Edge | RandomDepthFirstPaths.java:108-110 | `edgeTo` has length V, and each marked w other than s points at a marked vertex |
| Mazes.LinkStep | Maze.java:84-88 | for u < x, the loop's two tests (`u + N <= maxValue`, `(u + 1) % N != 0`) link u to x exactly when x is one board step from u: same u / N and u % N one apart, or same u % N and u / N one apart |
| Mazes.GridGeometry | Maze.java:83-90 | two junctions are grid-adjacent exactly when they are one board step apart, so no link wraps from the end of one row to the start of the next |
| Mazes.GridIsBoard | Maze.java:78-92 | the grid the loop builds has x in adj(u) exactly when u and x are one board step apart |
| Mazes.GridStep | Maze.java:83-90 | one pass of the mazegrid loop adds exactly the links of vertex i, and the adjacency-entry count grows by twice their number |
| Mazes.GridLinks | Maze.java:83-90 | the loop makes 2N(N-1) links in all |
| Mazes.GridReachable | Maze.java:83-90 | in the grid every junction is reachable from junction 0, along its row and then down the first column |
| Mazes.GridConnected | Maze.java:83-90 | the grid is connected: every junction is reachable from every other |
| Mazes.MazeEdges | Maze.java:105-107 | the rebuild loop, started at vertex i and leaving out one vertex, keeps the number of junctions; what it adds is stated by MazeEdgesHas and MazeEdgesDegree |
| Mazes.MazeEdgesHas | Maze.java:105-107 | after the rebuild loop from vertex i with one vertex skipped, x is in adj(u) exactly when it was before or one of u, x is the other's parent and was not skipped |
| Mazes.MazeEdgesDegree | Maze.java:105-107 | the rebuild loop adds two adjacency entries for each vertex it does not skip |
| Mazes.MazeEdgesFromEmpty | Maze.java:105-107 | from an empty graph, the corrected loop joins u and x exactly when one is the other's parent and that one is not the start |
| Mazes.MazeInGrid | Maze.java:98-107 | every corridor of the corrected maze joins two grid neighbours |
| Mazes.MazeTree | Maze.java:98-107 | the search's parent tree is a parent tree of the maze, and the maze is undirected |
| Mazes.MazeConnected | Maze.java:98-107 | every junction of the corrected maze reaches every other |
| Mazes.MazeSpans | Maze.java:98-107 | the corrected maze is a spanning tree of the grid: corridors are grid edges, it is connected, and it has N*N-1 corridors |
| Mazes.GridSearchSpans | Maze.java:100-107 | a search that explored the grid and left edgeTo[s] at 0 marks everything, leaves every parent edge in range, and the corrected loop builds a spanning tree |
| Mazes.StartZeroAsWritten | Maze.java:105-107 | with start 0, the loop as written and the corrected loop add the same corridors |
| Mazes.AsWrittenSpansFromZero | Maze.java:98-107 | with startnode 0 the loop as written builds a spanning tree of the grid |
| Mazes.RebuildAsWritten | Maze.java:105-107 | the loop as written, from i = 1 with startnode included: x is in adj(u) exactly when u >= 1 has parent x or x >= 1 has parent u, whatever startnode is; on a non-empty edgeTo it adds edgeTo.length - 1 corridors |
| Mazes.AsWrittenUndirected | Maze.java:105-107 | the loop as written builds an undirected graph whose entries are all junctions |
| Mazes.AsWrittenReachesStart | Maze.java:105-107 | in the maze as written, for every start s, every junction reaches s: each junction from 1 up other than s keeps its parent corridor, and 0, when it is not s, is joined to s because edgeTo[s] stays 0 |
| Mazes.AsWrittenConnected | Maze.java:105-107 | the maze as written is connected for every start, 0 included |
| Mazes.StartNextToZero | Maze.java:84-88 | a junction s other than 0 is a grid neighbour of 0 exactly when s is 1 or N |
| Mazes.AsWrittenInGrid | Maze.java:105-107 | when the start is 0 or a grid neighbour of 0, every corridor of the maze as written joins two grid neighbours |
| Mazes.AsWrittenSpansIff | Maze.java:98-107 | after a search of the grid, the loop as written builds a spanning tree of the grid exactly when startnode is 0, 1 or N; for startnode other than 0 it always has the corridor startnode-0 |
| Mazes.BuildMazeAsWrittenOffGrid | Maze.java:105-107 | on the 2 x 2 grid searched from junction 3, the loop as written adds corridor 3-0 between non-neighbours, leaves out 0-1, and yields no spanning tree of the grid |
| Mazes.HasEdgeIn | Maze.java:65-71 | false when v or w is at least V; true when v == w; otherwise true iff w is in adj(v) or v is in adj(w); a negative vertex reaching adj fails; on an undirected graph with both in range it is v == w or w in adj(v) |
| Mazes.HasEdgeSymmetric | Maze.java:65-71 | whether it succeeds, and its answer, do not depend on the order of v and w |
| Mazes.Maze.HasEdge | Maze.java:49-55 | fails exactly when v and w differ, both are below V and one of them is negative; on the maze with both in range it answers v == w or w in adj(v) |
| Mazes.Maze.constructor | Maze.java:13-18 | for N >= 0, M is the graph with N*N junctions and no corridors |
| Mazes.Maze.New | Maze.java:13-20 | fails with NegativeSize(N) for N < 0; fails with VertexOutOfRange(startnode, N*N) when startnode is not a junction (the random search's constructor); otherwise, with the corrected rebuild loop, M is a spanning tree of the N x N grid |
| Mazes.Maze.AddEdge | Maze.java:36-40 | fails for v out of range, then for w out of range, with M unchanged; otherwise M gains the corridor v-w and stays undirected |
| Mazes.Maze.MazeGrid | Maze.java:78-92 | returns exactly the N x N grid, with 4N(N-1) adjacency entries, that is 2N(N-1) corridors |
| Mazes.Maze.BuildMaze | Maze.java:98-108 | fails exactly when startnode is not a junction, with M unchanged; otherwise, with the corrected rebuild loop, M is a spanning tree of the grid |
| Mazes.Maze.Rebuild | Maze.java:105-107 | the corrected rebuild loop: adds the corridor (i, edgeTo[i]) for every junction i except startnode, from i = 0 |
| Mazes.Maze.FindWay | Maze.java:117-127 | fails for w out of range, then for v out of range; fails with NullPointer iff v is not reachable from w; otherwise a walk of M from v to w, [v] when v == w; on a spanning-tree maze it never fails for junctions |

## Left out

- `Maze(In in)` (Maze.java:22-26) is not modelled. It reads a graph from a stream through an `In` class that is not part of this model, and it takes a floating-point square root.
- `Maze.main` (Maze.java:137-185) is not modelled. It is a demo driver that draws the maze.
- `randomNonrecursiveDFS` (RandomDepthFirstPaths.java:66-68) is an empty placeholder.
- RandomDepthFirst.Shuffle: guarantees only that the copy is a permutation of adj(v). The distribution of `Collections.shuffle` is randomness and is not modelled.
- `Graph`, `In` and `GridGraph` are not part of this model.
  - A graph is modelled as its adjacency sequences.
  - `addEdge` is assumed to append w to adj(v), then v to adj(w).
- Mazes.Maze.AddEdge: for a w that is not a junction, the model fails and leaves M unchanged, as the method's own comment (Maze.java:34) says. Whether the graph's `addEdge` changes adj(v) before it fails is not modelled.
- Mazes.HasEdgeIn: a negative vertex that reaches `adj` is a VertexOutOfRange error. The graph's exact exception is not modelled.
  - `hasEdge` tests only the upper bound (Maze.java:50, 66), so a negative vertex reaches `adj` and fails instead of yielding false.
- 32-bit arithmetic is not modelled; integers are unbounded. In Java, `N * N` overflows for N above 46340.
- The depth of the recursion in `dfs` and `recRandomDFS` is not modelled (no StackOverflowError).
- The accessors `pre()`, `post()` and `M()` are reads of the fields `preorder`, `postorder` and `M`. `edge()` and `dist()` return the array contents as values, so Java's aliasing of the returned array or queue is not modelled.
- DepthFirst.DepthFirstPaths.Dfs: requires an object on which no vertex is marked yet, so it covers one search per object. It also requires that G has the size the constructor was given. With an object already searched, Java would scan again. With a larger G, Java may index out of bounds, when the search reaches a vertex at or beyond V. With a smaller G that contains s, Java searches normally. The model covers neither case.
- DepthFirst.DepthFirstPaths.NonrecursiveDfs: requires that G has the size the constructor was given, as Dfs does. With a larger G, Java may index out of bounds, when the search reaches a vertex at or beyond V. With a smaller G that contains s, it reallocates `marked` (line 329) and searches normally. The model covers neither case.
- RandomDepthFirst.RandomDepthFirstPaths.RandomDfs: has the same two requirements as Dfs, with the same consequences. A larger G may make Java index out of bounds, when the search reaches a vertex at or beyond V. A smaller G that contains s is searched normally in Java. The model covers neither case.
- DepthFirst.DepthFirstPaths.Dfs, DepthFirst.DepthFirstPaths.NonrecursiveDfs and RandomDepthFirst.RandomDepthFirstPaths.RandomDfs do not promise that the `edgeTo` and `distTo` entries of unmarked vertices keep their values. Java keeps them and `edge()`/`dist()` expose them, but they mean nothing about the search.
- Before `randomDFS` runs, Java's queues and `distTo` are null.
  - The model starts with empty queues and no `distTo`.
  - Its PathTo requires the object invariant, under which nothing is marked before the search.
- HasPathTo and PathTo of both classes take the graph as a ghost parameter. It is used only to state reachability; the Java methods take no graph.
- Several methods are named parts of a single source method body, not Java methods of their own.
  - `dfs` loop: ScanEntry and VisitChild.
  - `nonrecursiveDFS` loop: StartTraversal, Advance, PushNeighbour, SkipNeighbour and PopVertex.
  - `buildMaze` loop: Rebuild.
- The iterator over adj(v) is modelled as a position in an `array<nat>`, one position per vertex.
- Mazes.Maze.MazeGrid: returns at once for N = 0. There the source's loop runs no pass, so the result is the same.
- Mazes.MazeSpans: acyclicity is not stated as a predicate of its own. A spanning tree is stated as connected with N*N-1 corridors on N*N junctions, which for a graph is the same thing.
- Mazes.Maze.BuildMaze: models the corrected loop (see Findings). The loop as written is RebuildAsWritten.
- Mazes.Maze.New: its spanning-tree promise is for the corrected rebuild loop. With the loop as written and startnode other than 0, 1 and N, the Java constructor builds a maze with the off-grid corridor startnode-0, so it is no spanning tree of the grid (see Findings and Mazes.AsWrittenSpansIff).
- Mazes.Maze.Rebuild: models the corrected loop, from i = 0 and skipping startnode, not the loop as written from i = 1. The loop as written is Mazes.RebuildAsWritten.
- Mazes.MazeEdges: its own contract gives only the number of junctions. The corridors and the degree count it adds are the lemmas MazeEdgesHas and MazeEdgesDegree, kept apart from the recursive function so that each proof stays small.

## Findings

| source | as written | input that shows it | evidently intended | confidence | as-written member | corrected member |
|---|---|---|---|---|---|---|
| Maze.java:105-107 | the rebuild loop starts at i = 1 and adds (i, edgeTo[i]) for every i from 1, the start junction included; edgeTo[startnode] is never written and stays 0 | N = 2, startnode = 3: the search may leave edgeTo = [1, 3, 0, 0]; the loop adds 3-0, which are not grid neighbours, and never adds 0-1, so the result is no spanning tree of the grid; for every startnode other than 0, 1 and N the corridor startnode-0 appears | add (i, edgeTo[i]) for every junction i other than startnode; for startnode 0 this is the loop as written, and for startnode 1 or N the loop as written happens to give a spanning tree too | not executed | Mazes.BuildMazeAsWrittenOffGrid | Mazes.Maze.BuildMaze |

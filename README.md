# algorithms-fourth-edition in Dafny

A verified model of the TypeScript implementations of the algorithms from
Sedgewick and Wayne's *Algorithms, 4th edition*. The core is the graph engine:
the indexed min-priority queue `IndexMinPQ`, the four graph representations
(`Graph`, `Digraph`, `EdgeWeightedGraph`, `EdgeWeightedDigraph`) built on the
head-insertion `Bag`, the traversals (breadth-first paths, multi-source
depth-first reachability, depth-first orders, directed-cycle detection,
Kosaraju–Sharir strong components, connected components), Dijkstra's shortest
paths and Prim's minimum spanning forest. The sequence containers, symbol
tables, string algorithms and comparison sorts of the repository are modelled
beside it.

Each source file becomes one Dafny module. Objects whose fields the source
updates in place are classes. Their JavaScript arrays are `seq` or `array`
fields. The linked chains of `Bag` and of the fundamental `Queue` are `seq`
fields that the methods reassign. `LinkedList` and the queue of queue/index.ts
keep real `Node` objects and a ghost sequence of the nodes from head to tail.
Loops are `while`/`for` loops with invariants. Every method is proved
against a specification function or predicate. Results that the source reports
with `throw` are `Result` values, and `null` or `undefined` results are
`Option` values. Numbers are unbounded integers, and `+Infinity` is an explicit
`Infinity` label. An iterator is modelled as the `seq` it yields.

Shared definitions:

- `common.dfy`: `Option`, `Result`, `Reverse` and sums.
- `paths.dfy`: paths, reachability, mutual reachability and cycles, over adjacency lists given as `seq<seq<int>>`.
- `dfs_theory.dfy`, `bfs_theory.dfy` and `order_theory.dfy`: the invariants shared by the traversals and their proofs.
- `distance_labels.dfy`: the finite/infinite labels Dijkstra and Prim keep.
- `ring.dfy`: slot arithmetic and window lemmas for the ring buffers of `Deque` and `CircularQueue`.
- `sort_basics.dfy`: sortedness, `exchange` and the permutation facts the sorts share.
- `string_order.dfy`: the code-unit order on strings and the common-prefix length `Lcp`.
- `key_indexed.dfy`: key-indexed counting (count, cumulate, distribute, copy back), shared by counting sort and LSD radix sort.

The drawing beside the demo in binary-search-tree/index.ts puts 16 to the
right of 18. `insert` sends 16 left, since 16 <= 18, and the model follows
the code.

## Model

| member | source | states |
|---|---|---|
| Bags.Bag.constructor | fundamental-data-structures/bag/index.ts:13-15 | a new bag yields nothing |
| Bags.Bag.Add | fundamental-data-structures/bag/index.ts:17-22 | the added item comes first, followed by the earlier items in their previous order |
| Bags.Bag.Iterate | fundamental-data-structures/bag/index.ts:24-30 | iteration yields the bag's items and changes nothing |
| Bags.FilledIsReverse | fundamental-data-structures/bag/index.ts:17-29 | a bag filled from xs yields Reverse(xs); every added item appears once (same multiset) |
| Bags.AddExtendsFilled | fundamental-data-structures/bag/index.ts:17-22 | adding x to a bag filled from xs gives the bag filled from xs + [x] |
| Graphs.Graph.constructor | graphs/graph.ts:8-15 | V vertices, E = 0, every adjacency list empty |
| Graphs.Graph.V | graphs/graph.ts:17-19 | V is the number of adjacency lists |
| Graphs.Graph.E | graphs/graph.ts:21-23 | 2·E is the total length of the adjacency lists |
| Graphs.Graph.AddEdge | graphs/graph.ts:25-31 | w goes in front of adj[v] and v in front of adj[w]; E grows by one; the same graph is returned |
| Graphs.AddUndirectedProperties | graphs/graph.ts:25-28 | after addEdge(v, w): a self-loop puts v twice in front of adj[v]; other lists are unchanged; symmetry and vertex range are kept; total length grows by 2 |
| Graphs.Graph.Adjacent | graphs/graph.ts:33-35 | adjacent(v) yields adj[v], most recently added neighbour first |
| Digraphs.Digraph.constructor | graphs/directed/digraph.ts:8-15 | V vertices, E = 0, every out-list empty |
| Digraphs.Digraph.V | graphs/directed/digraph.ts:17-19 | V is the number of out-lists |
| Digraphs.Digraph.E | graphs/directed/digraph.ts:21-23 | E is the total length of the out-lists |
| Digraphs.Digraph.AddEdge | graphs/directed/digraph.ts:25-31 | w goes in front of adj[v] only; E grows by one; the same digraph is returned |
| Digraphs.Digraph.Adjacent | graphs/directed/digraph.ts:33-35 | adjacent(v) yields adj[v] |
| Digraphs.Digraph.Reverse | graphs/directed/digraph.ts:36-45 | reverse() is a new digraph with the same V and E whose lists are the reversed lists of the original |
| Digraphs.Digraph.AddReversedEdges | graphs/directed/digraph.ts:39-41 | the inner loop of reverse adds v to the list of every w in ws and adds the length of ws to E |
| Digraphs.ReversedProperties | graphs/directed/digraph.ts:36-45 | reverse contains w→v exactly as often as the original contains v→w; same V and total length; reversing twice gives back every list's multiset |
| Digraphs.AddIntoCount | graphs/directed/digraph.ts:39-41 | one pass of the inner loop adds v to list x once for each occurrence of x in ws |
| EdgeWeightedGraphs.Edge.GetWeight | graphs/undirected/edge-weighted-graph.ts:18-20 | getWeight returns the constructor's weight |
| EdgeWeightedGraphs.Edge.Either | graphs/undirected/edge-weighted-graph.ts:22-24 | either returns the first endpoint |
| EdgeWeightedGraphs.Edge.Other | graphs/undirected/edge-weighted-graph.ts:26-30 | other(x) is w for x = v, v for x = w (v for a self-loop), and an error for any other vertex |
| EdgeWeightedGraphs.OtherEither | graphs/undirected/edge-weighted-graph.ts:22-30 | other(either()) is the second endpoint, and other is its own inverse on the endpoints |
| EdgeWeightedGraphs.Edge.CompareTo | graphs/undirected/edge-weighted-graph.ts:32-36 | compareTo is -1, 0 or 1 exactly when the weight is smaller, equal or larger |
| EdgeWeightedGraphs.CompareAntisymmetric | graphs/undirected/edge-weighted-graph.ts:32-36 | compareTo is antisymmetric and transitive |
| EdgeWeightedGraphs.EdgeWeightedGraph.constructor | graphs/undirected/edge-weighted-graph.ts:44-52 | V vertices, E = 0, every bag empty |
| EdgeWeightedGraphs.EdgeWeightedGraph.V | graphs/undirected/edge-weighted-graph.ts:54-56 | V is the number of bags |
| EdgeWeightedGraphs.EdgeWeightedGraph.E | graphs/undirected/edge-weighted-graph.ts:58-60 | E is the number of addEdge calls |
| EdgeWeightedGraphs.EdgeWeightedGraph.AddEdge | graphs/undirected/edge-weighted-graph.ts:62-70 | the same edge goes in front of adj[v] and adj[w] (twice into adj[v] for a self-loop); E grows by one |
| EdgeWeightedGraphs.BuiltIncidence | graphs/undirected/edge-weighted-graph.ts:62-69 | the bag of x holds one entry per endpoint of an added edge equal to x, and each is incident to x |
| EdgeWeightedGraphs.BuiltUndirected | graphs/undirected/edge-weighted-graph.ts:62-69 | an edge in the bag of one endpoint is in the bag of the other |
| EdgeWeightedGraphs.EdgeWeightedGraph.Adjacent | graphs/undirected/edge-weighted-graph.ts:76-78 | adjacent(v) yields the bag of v, whose edges are all incident to v |
| EdgeWeightedGraphs.EdgeWeightedGraph.DegreeAsWritten | graphs/undirected/edge-weighted-graph.ts:72-74 | degree as written always fails: Bag has no size() |
| EdgeWeightedGraphs.EdgeWeightedGraph.Degree | graphs/undirected/edge-weighted-graph.ts:72-74 | the intended degree: the length of adj[v], one per endpoint of an added edge equal to v |
| EdgeWeightedGraphs.EdgeWeightedGraph.GetEdges | graphs/undirected/edge-weighted-graph.ts:80-95 | getEdges lists each added edge exactly once, self-loops included, so its length is E |
| EdgeWeightedGraphs.EdgeWeightedGraph.PickFrom | graphs/undirected/edge-weighted-graph.ts:84-91 | the inner loop adds an edge when its other end is larger, and every second copy of a self-loop |
| EdgeWeightedGraphs.EdgesOnce | graphs/undirected/edge-weighted-graph.ts:80-95 | the edges picked from all bags are exactly the added edges, as a multiset |
| EdgeWeightedDigraphs.DirectedEdge.From | graphs/directed/edge-weighted-digraph.ts:14-16 | from() returns the first constructor argument |
| EdgeWeightedDigraphs.DirectedEdge.To | graphs/directed/edge-weighted-digraph.ts:18-20 | to() returns the second constructor argument |
| EdgeWeightedDigraphs.DirectedEdge.GetWeight | graphs/directed/edge-weighted-digraph.ts:22-24 | getWeight() returns the weight argument |
| EdgeWeightedDigraphs.EdgeWeightedDigraph.constructor | graphs/directed/edge-weighted-digraph.ts:32-40 | V vertices, E = 0, every bag empty |
| EdgeWeightedDigraphs.EdgeWeightedDigraph.V | graphs/directed/edge-weighted-digraph.ts:42-44 | V is the number of bags |
| EdgeWeightedDigraphs.EdgeWeightedDigraph.E | graphs/directed/edge-weighted-digraph.ts:46-48 | E is the number of addEdge calls |
| EdgeWeightedDigraphs.EdgeWeightedDigraph.AddEdge | graphs/directed/edge-weighted-digraph.ts:50-55 | e goes in front of adj[e.from()] only; E grows by one |
| EdgeWeightedDigraphs.EdgeWeightedDigraph.Adjacent | graphs/directed/edge-weighted-digraph.ts:57-59 | adjacent(v) yields the bag of v, and every edge in it has from() = v |
| EdgeWeightedDigraphs.BuiltTails | graphs/directed/edge-weighted-digraph.ts:50-59 | every edge stored in the bag of v leaves v |
| EdgeWeightedDigraphs.FlatBuilt | graphs/directed/edge-weighted-digraph.ts:50-55 | the bags together hold every added edge once |
| EdgeWeightedDigraphs.EdgeWeightedDigraph.GetEdges | graphs/directed/edge-weighted-digraph.ts:61-71 | getEdges yields every stored edge once, so its length is E |
| IndexMinPriorityQueue.IndexMinPQ.constructor | sorting/index-min-priority-queue/index.ts:32-42 | a new queue for indices 0..maxN holds no index |
| IndexMinPriorityQueue.IndexMinPQ.IsEmpty | sorting/index-min-priority-queue/index.ts:44-46 | isEmpty holds iff no index is held |
| IndexMinPriorityQueue.IndexMinPQ.Contains | sorting/index-min-priority-queue/index.ts:48-50 | contains(i) holds iff i is held; an index outside the table reads undefined, which is not -1 |
| IndexMinPriorityQueue.IndexMinPQ.Size | sorting/index-min-priority-queue/index.ts:52-54 | size is the number of held indices |
| IndexMinPriorityQueue.IndexMinPQ.Insert | sorting/index-min-priority-queue/index.ts:56-68 | insert(i, k) fails, changing nothing, when i is held; otherwise i is held with key k, other keys are kept and size grows by one |
| IndexMinPriorityQueue.IndexMinPQ.MinKey | sorting/index-min-priority-queue/index.ts:70-73 | minKey underflows on an empty queue; otherwise it is a held key no larger than any held key |
| IndexMinPriorityQueue.IndexMinPQ.MinIndex | sorting/index-min-priority-queue/index.ts:72-77 | the heap root pq[1] is a held index with a minimal key |
| IndexMinPriorityQueue.IndexMinPQ.DelMin | sorting/index-min-priority-queue/index.ts:75-85 | delMin underflows on an empty queue; otherwise it returns a held index with a minimal key, which is no longer held, while the others keep their keys |
| IndexMinPriorityQueue.IndexMinPQ.KeyOf | sorting/index-min-priority-queue/index.ts:87-91 | keyOf(i) fails for an absent index and otherwise is i's key |
| IndexMinPriorityQueue.IndexMinPQ.ChangeKey | sorting/index-min-priority-queue/index.ts:93-98 | changeKey(i, k) fails for an absent index and otherwise gives i the key k, changing nothing else |
| IndexMinPriorityQueue.IndexMinPQ.Delete | sorting/index-min-priority-queue/index.ts:100-108 | delete(i) fails for an absent index and otherwise removes i only |
| IndexMinPriorityQueue.IndexMinPQ.Swim | sorting/index-min-priority-queue/index.ts:110-115 | swim permutes pq[1..n] only, keeps the held indices and keys, and restores heap order from a position that is too light |
| IndexMinPriorityQueue.IndexMinPQ.Sink | sorting/index-min-priority-queue/index.ts:117-125 | sink permutes pq[1..n] only, keeps the held indices and keys, and restores heap order from a position that is too heavy |
| IndexMinPriorityQueue.IndexMinPQ.SwimSink | sorting/index-min-priority-queue/index.ts:96-97 | swim then sink at one position restores heap order after one key changed |
| IndexMinPriorityQueue.IndexMinPQ.Exchange | sorting/index-min-priority-queue/index.ts:127-131 | the corrected exchange swaps two heap slots and updates qp so that qp[pq[k]] = k still holds |
| IndexMinPriorityQueue.IndexMinPQ.Greater | sorting/index-min-priority-queue/index.ts:133-138 | greater(a, b) holds iff the key at slot a exceeds the key at slot b |
| IndexMinPriorityQueue.HeapRoot | sorting/index-min-priority-queue/index.ts:110-125 | in heap order the root's key is no larger than any held key |
| IndexMinPriorityQueue.ExchangeInverse | sorting/index-min-priority-queue/index.ts:28 | swapping two slots and their qp entries keeps qp the inverse of pq |
| IndexMinPriorityQueue.QueuedSize | sorting/index-min-priority-queue/index.ts:28 | when qp inverts pq[1..n], exactly n indices are held |
| IndexMinPQAsWritten.Exchange | sorting/index-min-priority-queue/index.ts:127-131 | exchange as written swaps two pq slots and changes nothing else, qp included |
| IndexMinPQAsWritten.ExchangeBreaksInverse | sorting/index-min-priority-queue/index.ts:127-131 | after any swap of two distinct positions qp[pq[k]] = k no longer holds |
| IndexMinPQAsWritten.DeleteRemovesWrongIndex | sorting/index-min-priority-queue/index.ts:100-108 | insert(0, 3), insert(1, 2), delete(0): the next delMin still returns 0 |
| IndexMinPQAsWritten.ChangeKeyLosesMinimum | sorting/index-min-priority-queue/index.ts:93-98 | insert(0, 3), insert(1, 1), insert(2, 2), changeKey(1, 4): delMin returns 0 although 2 has a smaller key |
| IndexMinPQAsWritten.Insert | sorting/index-min-priority-queue/index.ts:56-68 | insert as written fails exactly when the index is held |
| IndexMinPQAsWritten.DelMin | sorting/index-min-priority-queue/index.ts:75-85 | delMin as written underflows exactly on an empty queue, returns pq[1] and nulls that index's key, which the numeric comparator reads as 0 |
| IndexMinPQAsWritten.ChangeKey | sorting/index-min-priority-queue/index.ts:93-98 | changeKey as written fails exactly for an absent index and sets its key |
| IndexMinPQAsWritten.Delete | sorting/index-min-priority-queue/index.ts:100-108 | delete as written fails exactly for an absent index, clears its qp entry and nulls its key, which the numeric comparator reads as 0 |
| IndexMinPQAsWritten.NulledKeyStaysOnTop | sorting/index-min-priority-queue/index.ts:56-108 | insert(0, 3), insert(1, 2), delete(0), insert(2, 1): the deleted index stays at the root with its nulled key below 1, and delMin returns 0 |
| UndirectedBfs.BreadthFirstPath.constructor | graphs/undirected/breadth-first-paths.ts:10-15 | builds the breadth-first tree of the source |
| UndirectedBfs.BreadthFirstPath.Bfs | graphs/undirected/breadth-first-paths.ts:17-32 | the marked set is closed, edgeTo forms a tree rooted at the source along graph edges, and tree depths are BFS levels |
| UndirectedBfs.BreadthFirstPath.HasPathTo | graphs/undirected/breadth-first-paths.ts:34-36 | hasPathTo(v) holds iff v is connected to the source |
| UndirectedBfs.BreadthFirstPath.PathTo | graphs/undirected/breadth-first-paths.ts:38-48 | pathTo(v) is null iff v is not connected; otherwise it yields a path from the source to v no longer than any other |
| DirectedBfs.BreadthFirstPath.constructor | graphs/directed/breadth-first-paths.ts:10-17 | builds the breadth-first tree of the source |
| DirectedBfs.BreadthFirstPath.Bfs | graphs/directed/breadth-first-paths.ts:19-34 | the marked set is closed under out-edges, edgeTo follows edges v→w, and tree depths are BFS levels |
| DirectedBfs.BreadthFirstPath.HasPathTo | graphs/directed/breadth-first-paths.ts:36-38 | hasPathTo(v) holds iff v is reachable from the source |
| DirectedBfs.BreadthFirstPath.PathTo | graphs/directed/breadth-first-paths.ts:40-50 | pathTo(v) is null iff v is unreachable; otherwise it is a directed path from the source of minimum length |
| BfsTheory.MarkedIffReach | graphs/undirected/breadth-first-paths.ts:17-32 | after the search a vertex is marked iff it is reachable from the source |
| BfsTheory.TreePathShortest | graphs/directed/breadth-first-paths.ts:19-34 | the tree path to a marked vertex is no longer than any path to it |
| DepthFirstDirected.SourceList | graphs/directed/depth-first-directed.ts:10 | a single number becomes a one-element source list; a list is kept |
| DepthFirstDirected.DepthFirstDirected.constructor | graphs/directed/depth-first-directed.ts:6-17 | searches from every source in order |
| DepthFirstDirected.DepthFirstDirected.Search | graphs/directed/depth-first-directed.ts:12-16 | after the source loop, each marked vertex is reachable from some source and the marked set is closed |
| DepthFirstDirected.DepthFirstDirected.Dfs | graphs/directed/depth-first-directed.ts:19-26 | dfs(v) marks v and exactly the unmarked vertices reachable from it, and keeps the marked set closed |
| DepthFirstDirected.MarkedIffReachFromSome | graphs/directed/depth-first-directed.ts:6-26 | after the loop a vertex is marked iff it is reachable from at least one source |
| DepthFirstDirected.DepthFirstDirected.HasPathTo | graphs/directed/depth-first-directed.ts:28-30 | hasPathTo(v) holds iff v is reachable from at least one source |
| ConnectedComponents.ConnectedComponents.constructor | graphs/undirected/connected-components.ts:8-20 | labels every vertex |
| ConnectedComponents.ConnectedComponents.Label | graphs/undirected/connected-components.ts:14-19 | the loop starts one search per unmarked vertex, counts it, and labels its component with the count |
| ConnectedComponents.ConnectedComponents.Dfs | graphs/undirected/connected-components.ts:22-30 | dfs(v) marks and labels with c exactly the unmarked vertices connected to v |
| ConnectedComponents.ReachSymmetric | graphs/undirected/connected-components.ts:22-30 | in an undirected graph reachability is symmetric |
| ConnectedComponents.ConnectedComponents.Connected | graphs/undirected/connected-components.ts:32-34 | connected(v, w) holds iff v and w are connected (two out-of-range ids both read undefined) |
| ConnectedComponents.ConnectedComponents.GetId | graphs/undirected/connected-components.ts:36-38 | getId(v) lies in [0, count) and names a component containing v |
| ConnectedComponents.ConnectedComponents.GetCount | graphs/undirected/connected-components.ts:40-42 | count is the number of components: each id names one, distinct ids name disconnected seeds, each seed is its component's smallest vertex, id[0] = 0 |
| DepthFirstOrder.DepthFirstOrder.constructor | graphs/directed/depth-first-order.ts:14-30 | runs dfs from every unmarked vertex in order |
| DepthFirstOrder.DepthFirstOrder.Search | graphs/directed/depth-first-order.ts:25-29 | every vertex ends up marked and in both queues, with pre and post counting queue positions |
| DepthFirstOrder.DepthFirstOrder.Dfs | graphs/directed/depth-first-order.ts:32-43 | dfs(v) enqueues v in preorder first and in postorder last; every vertex discovered inside dfs(v) has a larger pre and a smaller post than v |
| DepthFirstOrder.DepthFirstOrder.Scan | graphs/directed/depth-first-order.ts:36-40 | the neighbour loop of dfs keeps the order invariants |
| DepthFirstOrder.DepthFirstOrder.GetPre | graphs/directed/depth-first-order.ts:45-47 | getPre(v) is v's position in the preorder queue |
| DepthFirstOrder.DepthFirstOrder.GetPost | graphs/directed/depth-first-order.ts:49-51 | getPost(v) is v's position in the postorder queue |
| DepthFirstOrder.DepthFirstOrder.GetPreOrder | graphs/directed/depth-first-order.ts:53-55 | the preorder lists every vertex, by increasing pre |
| DepthFirstOrder.DepthFirstOrder.GetPostOrder | graphs/directed/depth-first-order.ts:57-59 | the postorder lists every vertex, by increasing post |
| DepthFirstOrder.DepthFirstOrder.GetReversePostOrder | graphs/directed/depth-first-order.ts:61-68 | the stack holds the postorder, so it yields exactly its reverse, by decreasing post |
| DepthFirstOrder.DepthFirstOrder.Permutations | graphs/directed/depth-first-order.ts:25-43 | pre and post are permutations of 0..V-1 |
| DepthFirstOrder.DepthFirstOrder.Topological | graphs/directed/depth-first-order.ts:32-68 | in a DAG post[w] < post[v] for every edge v→w, so v precedes w in the reverse postorder |
| DepthFirstOrder.DepthFirstOrder.ComponentsFinishLast | graphs/directed/depth-first-order.ts:32-43 | for every u, either everything reachable from u finishes no later than u, or a vertex mutually reachable with u finishes after u |
| DfsOrderTheory.Nesting | graphs/directed/depth-first-order.ts:32-43 | a vertex discovered inside dfs(v) is discovered after v and finishes before v |
| DirectedCycle.DirectedCycle.constructor | graphs/directed/directed-cycle.ts:10-24 | runs dfs from every unmarked vertex |
| DirectedCycle.DirectedCycle.Search | graphs/directed/directed-cycle.ts:19-23 | either no cycle was recorded and the search state proves the digraph acyclic, or the recorded stack is a cycle |
| DirectedCycle.DirectedCycle.Dfs | graphs/directed/directed-cycle.ts:26-45 | once a cycle is recorded dfs returns at the next step and keeps it; without one, onStack[v] is cleared when dfs(v) completes |
| DirectedCycle.DirectedCycle.BuildCycle | graphs/directed/directed-cycle.ts:36-41 | walking edgeTo from v back to w and pushing w and v yields v, the stack from w to v, and v again |
| DirectedCycle.StackCycle | graphs/directed/directed-cycle.ts:35-41 | an edge from the top of the DFS stack back into the stack closes a directed cycle |
| DirectedCycle.NoCycleAcyclic | graphs/directed/directed-cycle.ts:19-45 | a search that finds no back edge proves the digraph acyclic |
| DirectedCycle.DirectedCycle.HasCycle | graphs/directed/directed-cycle.ts:47-49 | hasCycle holds iff the digraph has a directed cycle |
| DirectedCycle.DirectedCycle.GetCycle | graphs/directed/directed-cycle.ts:51-53 | getCycle is null iff there is no cycle; otherwise it starts and ends at the same vertex and each consecutive pair is an edge |
| StrongComponents.StronglyConnectedComponents.constructor | graphs/directed/stongly-connected-components.ts:14-27 | labels every vertex with its strong component |
| StrongComponents.StronglyConnectedComponents.FirstPass | graphs/directed/stongly-connected-components.ts:20 | the first pass takes the reverse postorder of digraph.reverse() |
| StrongComponents.StronglyConnectedComponents.Label | graphs/directed/stongly-connected-components.ts:21-26 | the second pass starts one search per unmarked vertex of that order, counts it, and labels exactly that vertex's strong component |
| StrongComponents.StronglyConnectedComponents.Dfs | graphs/directed/stongly-connected-components.ts:29-37 | dfs(v) marks and labels with c exactly the unmarked vertices reachable from v |
| StrongComponents.ReverseFinish | graphs/directed/stongly-connected-components.ts:20-23 | finishing order on the reverse digraph: whatever can reach u finishes before u or shares u's component with a later finisher |
| StrongComponents.OnlyComponent | graphs/directed/stongly-connected-components.ts:21-26 | in that order, the unmarked vertices reachable from the next start all share its strong component |
| StrongComponents.StronglyConnectedComponents.StronglyConnected | graphs/directed/stongly-connected-components.ts:39-41 | stronglyConnected(v, w) holds iff v and w are mutually reachable |
| StrongComponents.StronglyConnectedComponents.Equivalence | graphs/directed/stongly-connected-components.ts:39-41 | stronglyConnected is reflexive, symmetric and transitive |
| StrongComponents.StronglyConnectedComponents.GetId | graphs/directed/stongly-connected-components.ts:43-45 | getId(v) lies in [0, count) and names v's strong component |
| StrongComponents.StronglyConnectedComponents.GetCount | graphs/directed/stongly-connected-components.ts:47-49 | count is the number of second-pass searches, and the components they label are distinct |
| DijkstraShortestPaths.DijkstraSP.constructor | graphs/directed/dijkstra-shortest-path.ts:13-33 | labels the source 0 and every other vertex +infinity, then runs the delMin loop |
| DijkstraShortestPaths.Start | graphs/directed/dijkstra-shortest-path.ts:24-29 | the initial labels and queue satisfy the loop invariant |
| DijkstraShortestPaths.DijkstraSP.Run | graphs/directed/dijkstra-shortest-path.ts:30-32 | the delMin loop keeps the invariant and ends with an empty queue |
| DijkstraShortestPaths.DijkstraSP.Relax | graphs/directed/dijkstra-shortest-path.ts:35-45 | relax(v) keeps the invariant, only lowers labels, and leaves every edge out of v relaxed |
| DijkstraShortestPaths.Improve | graphs/directed/dijkstra-shortest-path.ts:38-42 | an update sets distTo[w] = distTo[v] + weight(e) with edgeTo[w] = e, and lowers the label |
| DijkstraShortestPaths.ChainIsPath | graphs/directed/dijkstra-shortest-path.ts:58-65 | following edgeTo back from a settled vertex gives a path from the source whose weight is its label |
| DijkstraShortestPaths.PushChain | graphs/directed/dijkstra-shortest-path.ts:58-65 | the push loop leaves that chain in the stack, source end on top |
| DijkstraShortestPaths.DijkstraSP.EdgesRelaxed | graphs/directed/dijkstra-shortest-path.ts:29-45 | at completion distTo[w] ≤ distTo[v] + weight(e) for every edge v→w with finite distTo[v] |
| DijkstraShortestPaths.DijkstraSP.NoShorterPath | graphs/directed/dijkstra-shortest-path.ts:29-45 | no path from the source is lighter than the label of its end |
| DijkstraShortestPaths.DijkstraSP.Shortest | graphs/directed/dijkstra-shortest-path.ts:29-53 | distTo[v] is finite iff v is reachable, and then it is the shortest-path weight |
| DijkstraShortestPaths.DijkstraSP.DistTo | graphs/directed/dijkstra-shortest-path.ts:47-49 | getDistTo(v) is the shortest-path weight, +infinity when unreachable |
| DijkstraShortestPaths.DijkstraSP.HasPathTo | graphs/directed/dijkstra-shortest-path.ts:51-53 | hasPathTo(v) holds iff v is reachable from the source |
| DijkstraShortestPaths.DijkstraSP.PathTo | graphs/directed/dijkstra-shortest-path.ts:55-68 | getPathTo(v) is null iff hasPathTo(v) is false; otherwise it yields chained edges from the source to v whose weights sum to distTo[v] |
| DistanceLabels.Enqueue | graphs/directed/dijkstra-shortest-path.ts:41-42 | the contains-then-changeKey-or-insert step leaves w in the queue with the new key and changes no other entry |
| PrimMinimumSpanningForest.PrimMST.constructor | graphs/undirected/max-spanning-tree.ts:11-30 | labels every vertex +infinity and runs prim from each unmarked vertex, leaving every vertex marked and scanned |
| PrimMinimumSpanningForest.PrimMST.Forest | graphs/undirected/max-spanning-tree.ts:26-29 | prim starts once per connected component, at its smallest vertex |
| PrimMinimumSpanningForest.PrimMST.Grow | graphs/undirected/max-spanning-tree.ts:52-59 | prim(s) scans exactly s's component and only lowers labels |
| PrimMinimumSpanningForest.PrimMST.Drain | graphs/undirected/max-spanning-tree.ts:55-58 | the delMin loop keeps the tree invariants until the queue is empty |
| PrimMinimumSpanningForest.PrimMST.Step | graphs/undirected/max-spanning-tree.ts:56-57 | one delMin and scan marks one more vertex and keeps the invariants |
| PrimMinimumSpanningForest.PrimMST.Scan | graphs/undirected/max-spanning-tree.ts:61-74 | scan(v) marks v, skips edges to marked vertices and lowers the label of every other neighbour to at most the edge weight, recording the edge |
| PrimMinimumSpanningForest.PrimMST.Edges | graphs/undirected/max-spanning-tree.ts:32-41 | edges() holds the defined edgeTo entries in vertex order |
| PrimMinimumSpanningForest.PrimMST.Weight | graphs/undirected/max-spanning-tree.ts:43-50 | weight() is the sum of the weights of edges() |
| PrimMinimumSpanningForest.PrimMST.SpanningForest | graphs/undirected/max-spanning-tree.ts:26-41 | every vertex is marked; the chosen edges are graph edges, one per vertex that is not a root, so their number is V minus the number of components; each component has one root |
| PrimMinimumSpanningForest.PrimMST.ChosenEdge | graphs/undirected/max-spanning-tree.ts:61-68 | a defined edgeTo[w] is incident to w, its other end was marked earlier, distTo[w] is its weight, and it is a lightest edge leaving the vertices marked before w |
| PrimMinimumSpanningForest.PrimMST.ChosenInGraph | graphs/undirected/max-spanning-tree.ts:63-68 | a chosen edge is in the graph |
| LinkedQueue.Queue.constructor | fundamental-data-structures/queue/index.ts:41-45 | a new queue is empty |
| LinkedQueue.Queue.IsEmpty | fundamental-data-structures/queue/index.ts:47-49 | isEmpty holds iff the queue holds nothing, iff size = 0 |
| LinkedQueue.Queue.Size | fundamental-data-structures/queue/index.ts:51-53 | size is the number of held values |
| LinkedQueue.Queue.Enqueue | fundamental-data-structures/queue/index.ts:59-71 | enqueue appends at the back, increments size and returns the same queue |
| LinkedQueue.Queue.Dequeue | fundamental-data-structures/queue/index.ts:73-85 | dequeue on an empty queue returns undefined and changes nothing; otherwise it removes and returns the front and decrements size |
| LinkedQueue.Queue.Iterate | fundamental-data-structures/queue/index.ts:12-34 | iteration yields front to back without removing anything |
| ResizingStack.ArrayStack.constructor | fundamental-data-structures/array-stack/index.ts:24-27 | a new stack is empty, with an array of the given capacity |
| ResizingStack.ArrayStack.Default | fundamental-data-structures/array-stack/index.ts:24 | the default capacity is 10 |
| ResizingStack.ArrayStack.Push | fundamental-data-structures/array-stack/index.ts:29-34 | push appends the item on top; the array doubles when n equals its length, so nothing is overwritten |
| ResizingStack.ArrayStack.Pop | fundamental-data-structures/array-stack/index.ts:36-43 | pop needs a non-empty stack, returns the top item and removes it; the array halves (rounded up) when n falls to a quarter of its length |
| ResizingStack.ArrayStack.Resize | fundamental-data-structures/array-stack/index.ts:45-51 | resize keeps arr[0..n) and sets the array length |
| ResizingStack.ArrayStack.Size | fundamental-data-structures/array-stack/index.ts:57-59 | size is the number of held items |
| ResizingStack.ArrayStack.IsEmpty | fundamental-data-structures/array-stack/index.ts:53-55 | isEmpty holds iff the stack holds nothing |
| ResizingStack.ArrayStack.Iterate | fundamental-data-structures/array-stack/index.ts:3-18 | iteration yields the items from top to bottom |
| LinkedLists.LinkedList.constructor | fundamental-data-structures/linked-list/index.ts:16-20 | a new list has no nodes and holds nothing |
| LinkedLists.LinkedList.IsEmpty | fundamental-data-structures/linked-list/index.ts:22-24 | isEmpty (head is null) holds iff the list holds nothing |
| LinkedLists.LinkedList.Len | fundamental-data-structures/linked-list/index.ts:26-28 | len is the number of nodes in the chain |
| LinkedLists.LinkedList.Push | fundamental-data-structures/linked-list/index.ts:30-42 | push links a new node after the tail, appends the data at the back and returns the same list; the chain stays well linked |
| LinkedLists.LinkedList.WalkToEnd | fundamental-data-structures/linked-list/index.ts:56-61 | the walk from the head stops at the last node, with the one before it in `previous` |
| LinkedLists.LinkedList.Pop | fundamental-data-structures/linked-list/index.ts:44-67 | pop on an empty list returns null; otherwise it unlinks and returns the last node, its data was the last item, and the rest stay in order |
| LinkedLists.LinkedList.Unshift | fundamental-data-structures/linked-list/index.ts:69-81 | unshift links a new node before the head, prepends the data and returns the same list |
| LinkedLists.LinkedList.Shift | fundamental-data-structures/linked-list/index.ts:83-91 | shift on an empty list returns null; otherwise it unlinks and returns the head node, with the first item; emptying the list also clears tail |
| LinkedLists.LinkedList.GetByIndex | fundamental-data-structures/linked-list/index.ts:93-102 | the walk returns the node at position index, and null for an index outside 0..len()-1 |
| LinkedLists.LinkedList.Get | fundamental-data-structures/linked-list/index.ts:104-108 | get(i) is the i-th item for 0 ≤ i < len(), and null otherwise |
| LinkedLists.LinkedList.Set | fundamental-data-structures/linked-list/index.ts:110-115 | set(i, v) replaces the i-th item for 0 ≤ i < len() and changes nothing otherwise; same nodes, same list returned |
| LinkedLists.LinkedList.Insert | fundamental-data-structures/linked-list/index.ts:117-130 | insert(i, x) answers true iff 0 ≤ i ≤ len(), and then x is at position i with the other items in order; otherwise nothing changes |
| LinkedLists.LinkedList.LinkBefore | fundamental-data-structures/linked-list/index.ts:122-128 | the general case links a fresh node between positions i - 1 and i and keeps the chain well linked |
| LinkedLists.LinkedList.Remove | fundamental-data-structures/linked-list/index.ts:132-144 | remove(i) returns a node iff 0 ≤ i < len(): the i-th node, which leaves the chain, with the other items in order; otherwise it returns null and changes nothing |
| LinkedLists.LinkedList.Unlink | fundamental-data-structures/linked-list/index.ts:137-143 | the general case unlinks the i-th node by linking its predecessor to its successor |
| LinkedLists.LinkedList.Find | fundamental-data-structures/linked-list/index.ts:146-158 | find returns null iff compare accepts no item; otherwise the first item from the head that it accepts |
| LinkedLists.LinkedList.Relink | fundamental-data-structures/linked-list/index.ts:164-171 | the for loop turns every link around: each node points at the one before it, and the first at null; no data changes |
| LinkedLists.LinkedList.Reverse | fundamental-data-structures/linked-list/index.ts:160-174 | reverse swaps head and tail and leaves the items and nodes in reverse order, still well linked |
| LinkedLists.LinkedList.Iterate | fundamental-data-structures/linked-list/index.ts:184-190 | iteration yields the items from head to tail |
| LinkedLists.BackwardsLinked | fundamental-data-structures/linked-list/index.ts:160-174 | a chain linked backwards, read back to front, is linked forwards and has no repeated node |
| LinkedLists.RemoveInserted | fundamental-data-structures/linked-list/index.ts:117-144 | removing at position i what insert put there gives back the inserted item and the old list |
| LinkedLists.InsertRemoved | fundamental-data-structures/linked-list/index.ts:117-144 | inserting the removed item back at its position gives back the old list |
| LinkedListAsWritten.Empty | fundamental-data-structures/linked-list/index.ts:16-20 | the fields of a new list: no nodes, null head and tail, length 0 |
| LinkedListAsWritten.IsEmpty | fundamental-data-structures/linked-list/index.ts:22-24 | isEmpty looks only at head |
| LinkedListAsWritten.Len | fundamental-data-structures/linked-list/index.ts:26-28 | len reads the counter |
| LinkedListAsWritten.Push | fundamental-data-structures/linked-list/index.ts:30-42 | push throws exactly when head is set but tail is null; otherwise the new node is the tail and the counter grows by one |
| LinkedListAsWritten.Shift | fundamental-data-structures/linked-list/index.ts:83-91 | shift as written moves head on and decrements the counter but leaves tail unchanged |
| LinkedListAsWritten.Relink | fundamental-data-structures/linked-list/index.ts:164-171 | the relinking loop throws when it meets null before its `length` steps are done |
| LinkedListAsWritten.Reverse | fundamental-data-structures/linked-list/index.ts:160-174 | reverse as written swaps head and tail and keeps the counter; with length 0 no link is touched |
| LinkedListAsWritten.Walk | fundamental-data-structures/linked-list/index.ts:96-99 | the walk stops at once on a null node or an exhausted index |
| LinkedListAsWritten.GetByIndex | fundamental-data-structures/linked-list/index.ts:93-102 | getByIndex gives null outside 0..len()-1 and head for index 0 |
| LinkedListAsWritten.WalkToEnd | fundamental-data-structures/linked-list/index.ts:56-61 | the walk ends at a node whose next is null |
| LinkedListAsWritten.Pop | fundamental-data-structures/linked-list/index.ts:44-67 | pop as written: null on an empty list, the emptied list when head is tail, the counter decremented otherwise |
| LinkedListAsWritten.Remove | fundamental-data-structures/linked-list/index.ts:132-144 | remove as written: null beyond the guard, shift for index 0, pop for index len()-1 |
| LinkedListAsWritten.RemoveAtLengthThrows | fundamental-data-structures/linked-list/index.ts:132-144 | on the one-node list [7], remove(1) passes the guard and throws a TypeError on `null.next` |
| LinkedListAsWritten.StaleTailAfterShift | fundamental-data-structures/linked-list/index.ts:83-91 | after push(1), shift(), reverse() the list is not empty although len() is 0, and push(2) throws |
| NodeQueue.Queue.constructor | queue/index.ts:17-21 | a new queue holds nothing |
| NodeQueue.Queue.IsEmpty | queue/index.ts:23-25 | isEmpty (head is null) holds iff the queue holds nothing |
| NodeQueue.Queue.Size | queue/index.ts:27-29 | size is the number of queued values |
| NodeQueue.Queue.Enqueue | queue/index.ts:31-41 | enqueue links a fresh node after the old tail and appends the value at the back |
| NodeQueue.Queue.Dequeue | queue/index.ts:43-55 | dequeue on an empty queue returns undefined; otherwise it returns the front value and removes it, clearing tail when the queue empties |
| NodeQueue.FirstInFirstOut | queue/index.ts:31-55 | values enqueued into a new queue come out of dequeue in the order they went in |
| BoundedStack.ArrayStack.constructor | array-stack/index.ts:8-12 | a new stack is empty (n = -1) over an array of the given capacity |
| BoundedStack.ArrayStack.IsEmpty | array-stack/index.ts:29-31 | isEmpty (n = -1) holds iff the stack holds nothing |
| BoundedStack.ArrayStack.Push | array-stack/index.ts:14-20 | push throws 'Stack is full' iff the stack holds capacity items, changing nothing; otherwise the item goes on top |
| BoundedStack.ArrayStack.Pop | array-stack/index.ts:22-27 | pop throws 'Stack is empty' on an empty stack; otherwise it returns the top item and removes it |
| Rings.Wrap | fundamental-data-structures/deque/index.ts:97-99 | a slot index below twice the capacity wraps to a slot of the ring |
| Rings.ModWrap | fundamental-data-structures/deque/index.ts:116 | `(x) % capacity` equals the wrapped index for 0 ≤ x < 2 capacity |
| Rings.PushFront | fundamental-data-structures/deque/index.ts:111-121 | writing the slot before head extends the window at the front |
| Rings.PushBack | fundamental-data-structures/deque/index.ts:123-132 | writing the slot at tail extends the window at the back |
| Rings.PopFront | fundamental-data-structures/deque/index.ts:145-154 | the head slot holds the front value, and the window without it starts one slot on |
| Rings.PopBack | fundamental-data-structures/deque/index.ts:134-143 | the slot before tail holds the back value, and the window without it keeps its head |
| Deques.Deque.constructor | fundamental-data-structures/deque/index.ts:68-74 | a new deque is empty over `capacity` undefined slots |
| Deques.Deque.IsFull | fundamental-data-structures/deque/index.ts:76-78 | isFull holds iff the deque holds `capacity` values |
| Deques.Deque.IsEmpty | fundamental-data-structures/deque/index.ts:80-82 | isEmpty holds iff the deque holds nothing |
| Deques.Deque.Front | fundamental-data-structures/deque/index.ts:84-90 | front throws 'Deque is empty' on an empty deque, and is the front value otherwise |
| Deques.Deque.Back | fundamental-data-structures/deque/index.ts:92-100 | back throws 'Deque is empty' on an empty deque, and is the back value otherwise |
| Deques.Deque.Get | fundamental-data-structures/deque/index.ts:102-109 | get(i) throws 'Index out of bounds' outside 0..size, is the i-th value for i < size, and for i = size reads the slot at tail |
| Deques.Deque.InsertFront | fundamental-data-structures/deque/index.ts:111-121 | insertFront throws 'Deque is full' on a full deque, changing nothing; otherwise it prepends the value and returns the same deque |
| Deques.Deque.InsertBack | fundamental-data-structures/deque/index.ts:123-132 | insertBack throws 'Deque is full' on a full deque, changing nothing; otherwise it appends the value and returns the same deque |
| Deques.Deque.DeleteBack | fundamental-data-structures/deque/index.ts:134-143 | deleteBack throws 'Deque is empty' on an empty deque; otherwise it removes and returns the back value |
| Deques.Deque.DeleteFront | fundamental-data-structures/deque/index.ts:145-154 | deleteFront throws 'Deque is empty' on an empty deque; otherwise it removes and returns the front value |
| Deques.Deque.Iterate | fundamental-data-structures/deque/index.ts:23-59 | iteration yields the values from front to back |
| CircularQueues.CircularQueue.constructor | fundamental-data-structures/circural-queue/index.ts:69-75 | a new queue is empty |
| CircularQueues.CircularQueue.IsFull | fundamental-data-structures/circural-queue/index.ts:77-79 | isFull holds iff the queue holds `capacity` values |
| CircularQueues.CircularQueue.IsEmpty | fundamental-data-structures/circural-queue/index.ts:81-83 | isEmpty holds iff the queue holds nothing |
| CircularQueues.CircularQueue.Size | fundamental-data-structures/circural-queue/index.ts:114-116 | size is the number of queued values |
| CircularQueues.CircularQueue.Peek | fundamental-data-structures/circural-queue/index.ts:85-92 | peek(i) throws 'Index out of bounds' outside 0..size(), is the i-th oldest value for i < size(), and for i = size() reads the slot at tail |
| CircularQueues.CircularQueue.Enqueue | fundamental-data-structures/circural-queue/index.ts:94-101 | enqueue throws 'Queue is full' on a full queue, changing nothing; otherwise it appends the value |
| CircularQueues.CircularQueue.Dequeue | fundamental-data-structures/circural-queue/index.ts:103-112 | dequeue throws 'Queue is empty' on an empty queue; otherwise it removes and returns the oldest value |
| CircularQueues.CircularQueue.Iterate | fundamental-data-structures/circural-queue/index.ts:22-60 | iteration yields the values oldest first |
| MinPriorityQueue.PQMin.constructor | sorting/priority-queue/index.ts:15-19 | a new queue is empty over `capacity` slots, none for a negative capacity, and keeps the comparator |
| MinPriorityQueue.PQMin.IsEmpty | sorting/priority-queue/index.ts:21-23 | isEmpty holds iff nothing is queued |
| MinPriorityQueue.PQMin.Size | sorting/priority-queue/index.ts:25-27 | size is the number of values queued |
| MinPriorityQueue.PQMin.Min | sorting/priority-queue/index.ts:29-33 | min throws 'Priority queue underflow' on an empty queue, and otherwise returns a queued value whose key is no larger than any other queued key |
| MinPriorityQueue.PQMin.Insert | sorting/priority-queue/index.ts:35-40 | insert adds the value to the queued multiset and keeps the heap order; a full array is replaced by one twice as long |
| MinPriorityQueue.PQMin.DelMin | sorting/priority-queue/index.ts:42-52 | delMin throws 'Priority queue underflow' on an empty queue; otherwise it removes and returns one queued value whose key is least, and the array halves exactly when n == (length - 1) / 4 afterwards |
| MinPriorityQueue.PQMin.Resize | sorting/priority-queue/index.ts:54-60 | the new array has `capacity` slots and the same values in slots 1..n |
| MinPriorityQueue.PQMin.Exchange | sorting/priority-queue/index.ts:62-66 | the array afterwards is the old one with slots i and j exchanged |
| MinPriorityQueue.PQMin.Swim | sorting/priority-queue/index.ts:72-77 | from a heap broken only at slot k upward, swim restores heap order over 1..n and keeps the multiset of values in 1..n |
| MinPriorityQueue.PQMin.Sink | sorting/priority-queue/index.ts:79-87 | from a heap broken only at slot k downward, sink restores heap order over 1..n and keeps the multiset of values in 1..n |
| MinPriorityQueue.SwimFromLast | sorting/priority-queue/index.ts:38-39 | writing a value into slot n + 1 of a heap leaves a heap broken only at that slot, holding one more value |
| MinPriorityQueue.SwimStep | sorting/priority-queue/index.ts:73-75 | exchanging a slot with its larger parent moves the break up to the parent |
| MinPriorityQueue.SinkStep | sorting/priority-queue/index.ts:81-85 | exchanging a slot with its smaller child, the smaller of the two, moves the break down to that child |
| MinPriorityQueue.SinkFromRoot | sorting/priority-queue/index.ts:45-47 | exchanging the root with slot n and dropping slot n leaves a heap broken only at the root, without the old root value |
| MinPriorityQueue.RootBelow | sorting/priority-queue/index.ts:29-33 | in a heap-ordered array the root's key is no larger than any key in slots 1..n |
| MinPriorityQueue.HeapMin | sorting/priority-queue/index.ts:29-33 | the root of a non-empty heap is queued and has the least key of the queued values |
| MinPriorityQueue.DrainInOrder | sorting/priority-queue/index.ts:90-99 | inserting every value and then calling delMin until the queue is empty yields a permutation of the values in non-decreasing key order |
| MinPriorityQueue.DelMinAll | sorting/priority-queue/index.ts:97-99 | calling delMin until the queue is empty yields the queued values in non-decreasing key order |
| PQMinAsWritten.Swim | sorting/priority-queue/index.ts:72-77 | swim as written keeps the values; it throws only with the compareTo comparator, at an odd slot whose parent index k / 2 is fractional |
| PQMinAsWritten.Insert | sorting/priority-queue/index.ts:35-40 | insert as written puts the value in slot n + 1 and swims it, throwing only with the compareTo comparator |
| PQMinAsWritten.Min | sorting/priority-queue/index.ts:29-33 | min as written throws on an empty queue and is slot 1 otherwise |
| PQMinAsWritten.DifferenceNeverThrows | sorting/priority-queue/index.ts:72-77 | with the numeric comparator swim never throws |
| PQMinAsWritten.OddSlotStays | sorting/priority-queue/index.ts:72-77 | with the numeric comparator swim from an odd slot moves nothing |
| PQMinAsWritten.MinMissesSmallest | sorting/priority-queue/index.ts:72-77 | after insert(5), insert(10), insert(1) with (a, b) => a - b, min() is 5 although 1 is queued |
| PQMinAsWritten.ThirdInsertThrows | sorting/priority-queue/index.ts:72-77 | with the compareTo comparator the third insert into an empty queue throws for any three values |
| SortBasics.Exchange | sorting/selection-sort/index.ts:14-18 | exchange swaps slots i and j, changes nothing else, and so keeps the multiset of values |
| SortBasics.IsSorted | sorting/merge-sort/index.ts:37-45 | isSorted is true iff the array is non-decreasing; at i = 0 the comparison with the undefined a[-1] is false |
| SortBasics.AdjacentIsSorted | sorting/merge-sort/index.ts:37-45 | order between neighbours, which is what isSorted checks, is order between every pair |
| SelectionSort.MinFrom | sorting/selection-sort/index.ts:4-9 | the inner loop ends with min at a smallest value of a[i..] |
| SelectionSort.SettledStep | sorting/selection-sort/index.ts:3-11 | after exchanging that minimum into slot i, a[0..i] is sorted and no value in it exceeds a later one |
| SelectionSort.Sort | sorting/selection-sort/index.ts:2-12 | sort leaves a sorted permutation of the array |
| ShellSort.InitialGap | sorting/shell-sort/index.ts:3-6 | the first h of 1, 4, 13, ... that is not below floor(n / 3) |
| ShellSort.NextGap | sorting/shell-sort/index.ts:17 | floor(h / 3) of a gap is again a gap, or 0 exactly after the gap 1 |
| ShellSort.ExceptStep | sorting/shell-sort/index.ts:9-14 | one exchange of the inner loop moves the one unsorted pair h slots down |
| ShellSort.HPass | sorting/shell-sort/index.ts:8-16 | the pass for h leaves the array h-sorted and permuted |
| ShellSort.OneSorted | sorting/shell-sort/index.ts:7-18 | after the pass for h = 1 the array is sorted |
| ShellSort.Sort | sorting/shell-sort/index.ts:2-19 | sort leaves a sorted permutation of the array |
| MergeSort.MergedMultiset | sorting/merge-sort/index.ts:20-30 | the merge holds exactly the values of both runs |
| MergeSort.MergedSorted | sorting/merge-sort/index.ts:12-31 | the merge of two sorted runs is sorted |
| MergeSort.MergeFromIsMerged | sorting/merge-sort/index.ts:20-30 | the loop's four cases produce Merged, the merge that takes from the right run only on a strictly smaller value |
| MergeSort.MergeStep | sorting/merge-sort/index.ts:21-29 | one pass of the loop writes the next value of the merge into array[k] and advances i or j |
| MergeSort.MergeBack | sorting/merge-sort/index.ts:20-30 | the loop leaves array[lo..hi] equal to the merge of aux[lo..mid] and aux[mid+1..hi] and touches nothing else |
| MergeSort.CopyToAux | sorting/merge-sort/index.ts:13-19 | aux is a new array holding array[lo..hi] at the same positions |
| MergeSort.Merge | sorting/merge-sort/index.ts:12-31 | merge turns array[lo..hi] into the merge of its old two halves, left value first on ties, and touches nothing else |
| MergeSort.Sort | sorting/merge-sort/index.ts:2-10 | sort(a, lo, hi) leaves a[lo..hi] sorted and permuted and the rest unchanged; for hi <= lo it changes nothing |
| QuickSort.ScanRight | sorting/quick-sort/index.ts:21 | the first inner loop stops at the first slot after i whose value is not below v, or at hi |
| QuickSort.ScanLeft | sorting/quick-sort/index.ts:22 | the second inner loop stops at the first slot before j whose value is not above v, or at lo |
| QuickSort.SwapStep | sorting/quick-sort/index.ts:23-24 | exchanging a[i] >= v with a[j] <= v extends both settled sides |
| QuickSort.CrossedStep | sorting/quick-sort/index.ts:23-26 | once the pointers cross, exchanging v into slot j leaves nothing larger before it and nothing smaller after it |
| QuickSort.Partition | sorting/quick-sort/index.ts:16-29 | partition returns j in [lo, hi] holding the original a[lo], with a[lo..j) <= a[j] <= a(j..hi], and only permutes a[lo..hi] |
| QuickSort.InsertionSort | sorting/quick-sort/index.ts:8 | InsertionSort.sort(array) leaves the whole array sorted and permuted |
| QuickSort.Sort | sorting/quick-sort/index.ts:6-14 | every call of sort leaves the whole array sorted and permuted, whatever lo and hi are |
| QuickSort3.BelowStep | sorting/quick-sort-3-way/index.ts:12 | exchange(lt++, i++) for a[i] < v keeps a[lo..lt) < v, a[lt..i) = v and a(gt..hi] > v |
| QuickSort3.AboveStep | sorting/quick-sort-3-way/index.ts:13 | exchange(i, gt--) for a[i] > v keeps the three bands |
| QuickSort3.ThreeWay | sorting/quick-sort-3-way/index.ts:6-15 | the loop ends with a[lo..lt) < v, a[lt..gt] = v and a(gt..hi] > v for v the original a[lo], permuting only a[lo..hi] |
| QuickSort3.Combine | sorting/quick-sort-3-way/index.ts:16-17 | sorting the lower and the upper band leaves a[lo..hi] sorted, permuted and the rest unchanged |
| QuickSort3.Sort | sorting/quick-sort-3-way/index.ts:2-18 | sort(a, lo, hi) leaves a[lo..hi] sorted and permuted and the rest unchanged; for hi <= lo it changes nothing |
| SymbolTableBST.SizeCounts | searching/binary-search-tree/index.ts:65-72 | in a search tree whose size fields are right, the root's size is the number of keys |
| SymbolTableBST.TreeGet | searching/binary-search-tree/index.ts:82-96 | _get yields a value only for a key of the tree, and in a search tree it yields one for every key of the tree |
| SymbolTableBST.TreePut | searching/binary-search-tree/index.ts:102-118 | _put returns a node whose keys are the old keys plus key, and keeps the search order |
| SymbolTableBST.PutSizes | searching/binary-search-tree/index.ts:102-118 | _put leaves every size field equal to one plus the sizes of the children |
| SymbolTableBST.GetAfterPut | searching/binary-search-tree/index.ts:78-118 | after put(key, value), get(key) is value and get of every other key is what it was |
| SymbolTableBST.TreeFloor | searching/binary-search-tree/index.ts:126-139 | _floor finds a key of the tree not above key; in a search tree no key not above key is larger, and it finds none only when every key is above key |
| SymbolTableBST.TreeCeil | searching/binary-search-tree/index.ts:147-160 | _ceil finds a key of the tree not below key; in a search tree no key not below key is smaller, and it finds none only when every key is below key |
| SymbolTableBST.MinNode | searching/binary-search-tree/index.ts:168-174 | _min reaches a node of the tree; in a search tree its key is the smallest and its value is get of that key |
| SymbolTableBST.MaxNode | searching/binary-search-tree/index.ts:182-188 | _max reaches a node of the tree; in a search tree its key is the largest and its value is get of that key |
| SymbolTableBST.TreeDeleteMin | searching/binary-search-tree/index.ts:196-204 | _deleteMin removes keys only; in a search tree it removes exactly the smallest key and keeps the order |
| SymbolTableBST.DeleteMinSizes | searching/binary-search-tree/index.ts:196-204 | _deleteMin leaves every size field right |
| SymbolTableBST.GetAfterDeleteMin | searching/binary-search-tree/index.ts:190-204 | after deleteMin, get of the smallest key is null and get of every other key is what it was |
| SymbolTableBST.TreeDeleteMax | searching/binary-search-tree/index.ts:211-221 | _deleteMax recursing to the right removes exactly the largest key of a search tree and keeps the order |
| SymbolTableBST.DeleteMaxSizes | searching/binary-search-tree/index.ts:211-221 | the corrected _deleteMax leaves every size field right |
| SymbolTableBST.GetAfterDeleteMax | searching/binary-search-tree/index.ts:206-221 | after the corrected deleteMax, get of the largest key is null and get of every other key is what it was |
| SymbolTableBST.TreeDeleteMaxAsWritten | searching/binary-search-tree/index.ts:211-221 | as written, _deleteMax throws exactly when there is a right child and no left one; without a right child it returns the left one; otherwise the right link becomes _deleteMin of the left subtree |
| SymbolTableBST.TreeDelete | searching/binary-search-tree/index.ts:229-253 | _delete removes keys only; in a search tree it removes exactly key, putting the successor in place of a node with two children, and keeps the order |
| SymbolTableBST.DeleteSizes | searching/binary-search-tree/index.ts:229-253 | _delete leaves every size field right |
| SymbolTableBST.GetAfterDelete | searching/binary-search-tree/index.ts:223-253 | after delete(key), get(key) is null and get of every other key is what it was |
| SymbolTableBST.PopPending | searching/binary-search-tree/index.ts:25-27 | popping a node and pushing its right, then its left child, puts the node's value first and its subtrees' preorder next |
| SymbolTableBST.PopWeight | searching/binary-search-tree/index.ts:25-27 | each step of the iterator leaves one node fewer to visit |
| SymbolTableBST.PreorderValues | searching/binary-search-tree/index.ts:3-34 | the iterator yields the values in preorder: a node, then its left subtree, then its right subtree |
| SymbolTableBST.DemoShape | searching/binary-search-tree/index.ts:260-268 | the demo's five puts build 7 with 4 (right child 6) on the left and 10 (right child 12) on the right, sizes included |
| SymbolTableBST.DemoQueries | searching/binary-search-tree/index.ts:270-272 | the demo's answers: ceil(10) = 10, ceil(11) = 12 and floor(5) = 4 |
| SymbolTableBST.DeleteMaxLosesKeys | searching/binary-search-tree/index.ts:206-221 | as written, deleteMax on the demo's tree keeps only 4, 6 and 7, and the result is not a search tree |
| SymbolTableBST.DeleteMaxThrows | searching/binary-search-tree/index.ts:211-217 | as written, deleteMax on a root whose only child is on the right throws |
| SymbolTableBST.BinarySearchTree.constructor | searching/binary-search-tree/index.ts:56-59 | a new table is an empty search tree |
| SymbolTableBST.BinarySearchTree.Size | searching/binary-search-tree/index.ts:65-67 | size() is the number of keys |
| SymbolTableBST.BinarySearchTree.IsEmpty | searching/binary-search-tree/index.ts:61-63 | isEmpty() holds exactly when there are no keys |
| SymbolTableBST.BinarySearchTree.Get | searching/binary-search-tree/index.ts:78-80 | get(key) is null exactly when key is absent |
| SymbolTableBST.BinarySearchTree.Contains | searching/binary-search-tree/index.ts:74-76 | contains(key) holds exactly when key is present |
| SymbolTableBST.BinarySearchTree.Floor | searching/binary-search-tree/index.ts:120-124 | floor(key) is the largest key not above key; it is undefined exactly when every key is above key |
| SymbolTableBST.BinarySearchTree.Ceil | searching/binary-search-tree/index.ts:141-145 | ceil(key) is the smallest key not below key; it is undefined exactly when every key is below key |
| SymbolTableBST.BinarySearchTree.Min | searching/binary-search-tree/index.ts:162-166 | min() is the value of the smallest key, null exactly when the table is empty |
| SymbolTableBST.BinarySearchTree.Max | searching/binary-search-tree/index.ts:176-180 | max() is the value of the largest key, null exactly when the table is empty |
| SymbolTableBST.BinarySearchTree.Put | searching/binary-search-tree/index.ts:98-100 | put keeps a search tree with sizes right, adds key, and changes get of key alone, to value |
| SymbolTableBST.BinarySearchTree.DeleteMin | searching/binary-search-tree/index.ts:190-194 | deleteMin does nothing on an empty table and otherwise removes the smallest key alone |
| SymbolTableBST.BinarySearchTree.DeleteMax | searching/binary-search-tree/index.ts:206-209 | the corrected deleteMax does nothing on an empty table and otherwise removes the largest key alone |
| SymbolTableBST.BinarySearchTree.DeleteMaxAsWritten | searching/binary-search-tree/index.ts:206-209 | as written, deleteMax leaves an empty table alone, reports the throw and keeps the root, or installs the as-written _deleteMax result |
| SymbolTableBST.BinarySearchTree.Delete | searching/binary-search-tree/index.ts:223-227 | delete(key) keeps a search tree with sizes right and removes key alone |
| SymbolTableBST.BinarySearchTree.Values | searching/binary-search-tree/index.ts:255-257 | iterating the table yields its values in preorder |
| RedBlackTree.RotateLeft | searching/red-black-tree/index.ts:277-286 | the right child rises with x's colour and x's size field, x becomes its red left child, and the in-order key sequence is unchanged |
| RedBlackTree.RotateRight | searching/red-black-tree/index.ts:288-298 | the left child rises with x's colour and x's size field, x becomes its red right child, and the in-order key sequence is unchanged |
| RedBlackTree.RotateLeftSizes | searching/red-black-tree/index.ts:277-286 | on a node whose sizes are right, rotateLeft leaves every size right: the size n inherits is its new one |
| RedBlackTree.RotateRightSizes | searching/red-black-tree/index.ts:288-298 | on a node whose sizes are right, rotateRight leaves every size right: the size n inherits is its new one |
| RedBlackTree.RotateLeftSearch | searching/red-black-tree/index.ts:277-286 | rotateLeft keeps the keys, the search order and get of every key |
| RedBlackTree.RotateRightSearch | searching/red-black-tree/index.ts:288-298 | rotateRight keeps the keys, the search order and get of every key |
| RedBlackTree.FlipColors | searching/red-black-tree/index.ts:300-304 | flipColors makes x red and both children black and leaves the search tree as it was |
| RedBlackTree.BalanceSearch | searching/red-black-tree/index.ts:126-131 | the fix-up after _put keeps the keys, the search order and get of every key |
| RedBlackTree.BalanceSizes | searching/red-black-tree/index.ts:126-131 | with both subtrees sized right, the fix-up leaves every size right; line 131 repairs the stale size a rotation hands up |
| RedBlackTree.Ins | searching/red-black-tree/index.ts:111-134 | _put always returns a node, and a new key becomes a red leaf of size 1 |
| RedBlackTree.TreePut | searching/red-black-tree/index.ts:106-109 | after put the root is black |
| RedBlackTree.InsKeys | searching/red-black-tree/index.ts:111-134 | _put adds exactly key to the keys |
| RedBlackTree.InsOrdered | searching/red-black-tree/index.ts:111-134 | _put on a search tree returns a search tree, and the node it rebuilds is one before the fix-up too |
| RedBlackTree.InsSizes | searching/red-black-tree/index.ts:111-134 | _put leaves every size field right |
| RedBlackTree.GetAfterIns | searching/red-black-tree/index.ts:111-134 | after _put(key, value) on a search tree, get(key) is value and get of every other key is what it was |
| RedBlackTree.BalanceBlack | searching/red-black-tree/index.ts:126-130 | the fix-up of a black node below which _put has worked gives a balanced tree of the same black height |
| RedBlackTree.BalanceRed | searching/red-black-tree/index.ts:126-130 | the fix-up of a red node below which _put has worked gives a red node with a black right link, which may lean left twice |
| RedBlackTree.InsBalanced | searching/red-black-tree/index.ts:111-134 | _put keeps the black height, returns a balanced tree below a black node or null, and a red node leaning left below a red one |
| RedBlackTree.PutBalanced | searching/red-black-tree/index.ts:106-109 | put keeps a balanced tree balanced (no red right link, no two reds in a row, equal black height) and leaves the root black |
| RedBlackTree.PutSearch | searching/red-black-tree/index.ts:106-134 | put on a search tree gives a search tree with key added, get(key) = value and every other key's value kept |
| RedBlackTree.BalancedHeight | searching/red-black-tree/index.ts:126-130 | a balanced tree is at most twice its black height high (one more for a red root) and holds at least 2^bh - 1 nodes |
| RedBlackTree.MinNode | searching/red-black-tree/index.ts:185-191 | _min reaches the node the search tree's _min reaches |
| RedBlackTree.MaxNode | searching/red-black-tree/index.ts:199-205 | _max reaches the node the search tree's _max reaches |
| RedBlackTree.TreeDeleteMin | searching/red-black-tree/index.ts:213-221 | _deleteMin, colours aside, is the search tree's _deleteMin |
| RedBlackTree.TreeDeleteMax | searching/red-black-tree/index.ts:228-238 | _deleteMax recursing to the right, colours aside, is the search tree's corrected _deleteMax |
| RedBlackTree.TreeDeleteMaxAsWritten | searching/red-black-tree/index.ts:228-238 | as written, _deleteMax throws and returns exactly what the search tree's as-written _deleteMax does, colours aside |
| RedBlackTree.TreeDelete | searching/red-black-tree/index.ts:246-270 | _delete, colours aside, is the search tree's Hibbard _delete, the successor keeping its own colour |
| RedBlackTree.DeleteMaxLosesKeys | searching/red-black-tree/index.ts:228-238 | as written, deleteMax on a balanced search tree of the keys 1 to 4 keeps only 2 and 3 and leaves a tree out of order |
| RedBlackTree.RedBlackTree.constructor | searching/red-black-tree/index.ts:64-67 | a new table is empty and balanced |
| RedBlackTree.RedBlackTree.Size | searching/red-black-tree/index.ts:73-80 | size() is the number of keys |
| RedBlackTree.RedBlackTree.IsEmpty | searching/red-black-tree/index.ts:69-71 | isEmpty() holds exactly when there are no keys |
| RedBlackTree.RedBlackTree.Get | searching/red-black-tree/index.ts:86-104 | get(key) is null exactly when key is absent |
| RedBlackTree.RedBlackTree.Contains | searching/red-black-tree/index.ts:82-84 | contains(key) holds exactly when key is present |
| RedBlackTree.RedBlackTree.Floor | searching/red-black-tree/index.ts:136-156 | floor(key) is the largest key not above key; it is undefined exactly when every key is above key |
| RedBlackTree.RedBlackTree.Ceil | searching/red-black-tree/index.ts:158-177 | ceil(key) is the smallest key not below key; it is undefined exactly when every key is below key |
| RedBlackTree.RedBlackTree.Min | searching/red-black-tree/index.ts:179-183 | min() is the value of the smallest key, null exactly when the table is empty |
| RedBlackTree.RedBlackTree.Max | searching/red-black-tree/index.ts:193-197 | max() is the value of the largest key, null exactly when the table is empty |
| RedBlackTree.RedBlackTree.Put | searching/red-black-tree/index.ts:106-109 | put keeps a search tree with sizes right, adds key, changes get of key alone, leaves the root black and keeps a balanced tree balanced |
| RedBlackTree.RedBlackTree.DeleteMin | searching/red-black-tree/index.ts:207-211 | deleteMin does nothing on an empty table and otherwise removes the smallest key alone |
| RedBlackTree.RedBlackTree.DeleteMax | searching/red-black-tree/index.ts:223-226 | the corrected deleteMax does nothing on an empty table and otherwise removes the largest key alone |
| RedBlackTree.RedBlackTree.DeleteMaxAsWritten | searching/red-black-tree/index.ts:223-226 | as written, deleteMax leaves an empty table alone, reports the throw and keeps the root, or installs the as-written _deleteMax result |
| RedBlackTree.RedBlackTree.Delete | searching/red-black-tree/index.ts:240-244 | delete(key) keeps a search tree with sizes right and removes key alone |
| RedBlackTree.RedBlackTree.Values | searching/red-black-tree/index.ts:9-40 | iterating the table yields its values in preorder |
| PlainBST.StrictIsWeak | binary-search-tree/index.ts:53-58 | the order insert builds (left not above, right above) implies the weak order (left not above, right not below) |
| PlainBST.TreeInsert | binary-search-tree/index.ts:49-60 | the result is a node holding the old values plus one more copy of value |
| PlainBST.InsertVals | binary-search-tree/index.ts:49-60 | the distinct values after insert are the old ones plus value |
| PlainBST.InsertWeak | binary-search-tree/index.ts:49-60 | insert keeps the weak order |
| PlainBST.InsertStrict | binary-search-tree/index.ts:49-60 | insert keeps the strict order: a value not above a node goes left, a larger one right |
| PlainBST.TreeSearch | binary-search-tree/index.ts:94-107 | a node found holds value; on a weakly ordered tree a node is found exactly when value occurs |
| PlainBST.MinNode | binary-search-tree/index.ts:23-28 | the leftmost node holds a value of the tree, and on a weakly ordered tree no value is smaller; the value argument plays no part |
| PlainBST.MaxNode | binary-search-tree/index.ts:37-42 | the rightmost node holds a value of the tree, and on a weakly ordered tree no value is larger; the value argument plays no part |
| PlainBST.DeleteVals | binary-search-tree/index.ts:66-86 | delete never brings in a value that was not in the tree |
| PlainBST.DeleteWeak | binary-search-tree/index.ts:66-86 | on a weakly ordered tree delete keeps the weak order, successor copy included |
| PlainBST.DeleteElems | binary-search-tree/index.ts:66-86 | on a weakly ordered tree delete removes exactly one copy of value, or nothing when value is absent |
| PlainBST.DeleteLosesStrictOrder | binary-search-tree/index.ts:79-81 | insert 5, 3, 10, 10, then delete 5: the copied successor 10 has the other 10 on its right, so the strict order is lost while the weak one holds |
| PlainBST.DeleteKeepsRoot | binary-search-tree/index.ts:62-64 | after insert 5, _delete(root, 5) returns an empty tree, yet the tree delete leaves still holds 5 |
| PlainBST.Inorder | binary-search-tree/index.ts:149-156 | the in-order walk visits every value of the tree with its multiplicity |
| PlainBST.InorderSorted | binary-search-tree/index.ts:149-156 | on a weakly ordered tree the in-order walk never decreases |
| PlainBST.FloorUnique | binary-search-tree/index.ts:109-125 | a tree and a value have at most one floor |
| PlainBST.CeilUnique | binary-search-tree/index.ts:127-143 | a tree and a value have at most one ceiling |
| PlainBST.FloorLeft | binary-search-tree/index.ts:116-117 | stepping left when value is below the cursor keeps the floor loop state: no value not above value is lost |
| PlainBST.FloorRight | binary-search-tree/index.ts:118-120 | recording the cursor as floorNode and stepping right when value is above it keeps the floor loop state |
| PlainBST.FloorHit | binary-search-tree/index.ts:114-115 | a cursor holding value makes value its own floor |
| PlainBST.FloorMiss | binary-search-tree/index.ts:124 | when the cursor falls off, floorNode holds the floor, and no floorNode means no value is at most value |
| PlainBST.CeilLeft | binary-search-tree/index.ts:134-136 | recording the cursor as ceilNode and stepping left when value is below it keeps the ceil loop state |
| PlainBST.CeilRight | binary-search-tree/index.ts:137-138 | stepping right when value is above the cursor keeps the ceil loop state |
| PlainBST.CeilHit | binary-search-tree/index.ts:132-133 | a cursor holding value makes value its own ceiling |
| PlainBST.CeilMiss | binary-search-tree/index.ts:142 | when the cursor falls off, ceilNode holds the ceiling, and no ceilNode means no value is at least value |
| PlainBST.DemoShape | binary-search-tree/index.ts:159-169 | the demo inserts build 15 over 5 and 20, 3 under 5, 18 and 80 under 20, and 16 left of 18 |
| PlainBST.DemoWeak | binary-search-tree/index.ts:169 | the demo tree is weakly ordered |
| PlainBST.DemoValues | binary-search-tree/index.ts:169 | the demo tree holds 3, 5, 15, 16, 18, 20 and 80 |
| PlainBST.DemoSearch | binary-search-tree/index.ts:171-172 | search(15) is true and search(25) false on the demo tree |
| PlainBST.DemoFloor | binary-search-tree/index.ts:175-177 | on the demo tree floor(15) is 15, floor(17) is 16 and floor(2) is null |
| PlainBST.DemoCeil | binary-search-tree/index.ts:178-179 | on the demo tree ceil(17) is 18 and ceil(4) is 5 |
| PlainBST.BinarySearchTree.constructor | binary-search-tree/index.ts:14 | a new tree is empty |
| PlainBST.BinarySearchTree.Min | binary-search-tree/index.ts:16-21 | null exactly for an empty tree; otherwise a leftmost node holding a smallest value |
| PlainBST.BinarySearchTree.Max | binary-search-tree/index.ts:30-35 | null exactly for an empty tree; otherwise a rightmost node holding a largest value |
| PlainBST.BinarySearchTree.Insert | binary-search-tree/index.ts:44-47 | root becomes the insert of value, with one more copy of value, both orders kept, and the tree itself returned for chaining |
| PlainBST.BinarySearchTree.Search | binary-search-tree/index.ts:88-92 | true exactly when value occurs in the tree |
| PlainBST.BinarySearchTree.DeleteAsWritten | binary-search-tree/index.ts:62-64 | returns _delete's result without storing it: root keeps its node when that node holds value and has at most one child |
| PlainBST.BinarySearchTree.Delete | binary-search-tree/index.ts:62-64 | with the result stored in root, exactly one copy of value goes and the weak order is kept |
| PlainBST.BinarySearchTree.Floor | binary-search-tree/index.ts:109-125 | the cursor loop returns the largest value not above value, or null when there is none |
| PlainBST.BinarySearchTree.Ceil | binary-search-tree/index.ts:127-143 | the cursor loop returns the smallest value not below value, or null when there is none |
| PlainBST.BinarySearchTree.InorderValues | binary-search-tree/index.ts:145-147 | the iteratee is handed every value, with its multiplicity, in non-decreasing order |
| HashTables.Wrap32 | searching/hash-table/index.ts:45-46 | the result is a signed 32-bit integer |
| HashTables.WrapUnique | searching/hash-table/index.ts:45-46 | the one 32-bit value that differs from x by a multiple of 2^32 is the wrap of x |
| HashTables.ShiftStep | searching/hash-table/index.ts:45-46 | `(hash << 5) - hash + char` followed by `hash & hash` equals 31·hash + char wrapped to 32 bits once |
| HashTables.HashCode | searching/hash-table/index.ts:40-47 | the accumulated hash of every key is a signed 32-bit integer |
| HashTables.JsRem | searching/hash-table/index.ts:49 | JavaScript's `%`: the remainder lies strictly between -m and m and has the sign of the dividend |
| HashTables.Mask31 | searching/hash-table/index.ts:49 | the corrected index clears the sign bit: a value in [0, 2^31), unchanged for non-negative hashes |
| HashTables.IndexAsWritten | searching/hash-table/index.ts:39-50 | hash as written lies strictly between -m and m, and is negative exactly when the 32-bit hash is negative and not a multiple of m |
| HashTables.Bucket | searching/hash-table/index.ts:49 | the corrected index is always one of the m buckets |
| HashTables.IndexAgrees | searching/hash-table/index.ts:49 | for a non-negative 32-bit hash the index as written and the corrected one agree |
| HashTables.EmptyKey | searching/hash-table/index.ts:40-41 | the empty key hashes to 0 |
| HashTables.NegativeIndex | searching/hash-table/index.ts:39-50 | "aaaaaaa" has the 32-bit hash -1236860927, and hash("aaaaaaa") with 997 buckets is -673 |
| HashTables.FindEntry | searching/hash-table/index.ts:28-30 | find returns the first entry whose key is key, and finds none exactly when no entry has that key |
| HashTables.InBucketMembers | searching/hash-table/index.ts:36 | every entry of the bucket list was put and hashes to that bucket |
| HashTables.InBucketAppend | searching/hash-table/index.ts:36 | a put pushes its entry onto the end of its own bucket and changes no other bucket |
| HashTables.FindInBucket | searching/hash-table/index.ts:27-33 | searching the key's bucket finds what a search of every put in order would: the earliest entry with that key |
| HashTables.FindAfterPut | searching/hash-table/index.ts:27-37 | after one more put, get gives the earlier answer if the key was present, else the new value for its key and nothing for other keys |
| HashTables.HashTable.constructor | searching/hash-table/index.ts:18-25 | m empty buckets and no entries |
| HashTables.HashTable.Accumulate | searching/hash-table/index.ts:40-47 | the loop yields the 32-bit hash of key |
| HashTables.HashTable.HashAsWritten | searching/hash-table/index.ts:39-50 | hash returns the index as written, early return for the empty key included |
| HashTables.HashTable.Hash | searching/hash-table/index.ts:39-50 | the corrected hash returns the key's bucket, always in [0, m) |
| HashTables.HashTable.Get | searching/hash-table/index.ts:27-33 | the value of the earliest put with key; null exactly when no put used key |
| HashTables.HashTable.Put | searching/hash-table/index.ts:35-37 | the new entry goes on the end of the key's bucket, even when the key is already present; no other bucket changes; the table invariant is kept |
| StringOrder.LexLessAt | strings/suffix-array/index.ts:26-35 | two strings that agree up to a position where the first ends or has the smaller code are in ascending order |
| StringOrder.LexIrreflexive | strings/suffix-array/index.ts:26-35 | no string comes before itself |
| StringOrder.LexTrans | strings/suffix-array/index.ts:26-35 | the order of compareTo is transitive |
| StringOrder.LexTotal | strings/suffix-array/index.ts:26-35 | of two different strings exactly one comes first |
| StringOrder.LeqTrans | strings/suffix-array/index.ts:26-35 | the order with equality allowed is transitive |
| StringOrder.Lcp | strings/suffix-array/index.ts:79-86 | the common-prefix length is at most both lengths, the strings agree up to it and differ at it when both go on |
| StringOrder.LexAtLcp | strings/suffix-array/index.ts:26-35 | one string precedes another exactly when it is a proper prefix of it or has the smaller code at the first difference |
| SuffixArrays.Str | strings/suffix-array/index.ts:37-39 | toString has length() characters |
| SuffixArrays.CharAt | strings/suffix-array/index.ts:22-24 | charAt(i) is the character at index + i of the text, and '' outside the suffix |
| SuffixArrays.FirstDifference | strings/suffix-array/index.ts:29-32 | at the first differing character the smaller code decides the order, in one direction only |
| SuffixArrays.ByLength | strings/suffix-array/index.ts:34 | strings that agree on their common length are ordered by length, and equal exactly when the lengths are |
| SuffixArrays.CompareTo | strings/suffix-array/index.ts:26-35 | compareTo is negative, zero or positive exactly as this suffix comes before, equals or comes after that one lexicographically |
| SuffixArrays.CompareQuery | strings/suffix-array/index.ts:103-110 | compare(query, suffix) is negative, zero or positive exactly as query comes before, equals or comes after the suffix |
| SuffixArrays.LcpSuffix | strings/suffix-array/index.ts:79-86 | lcpSuffix returns the length of the longest common prefix of the two suffixes |
| SuffixArrays.LcpIs | strings/suffix-array/index.ts:80-85 | the position where two strings first differ, or where the shorter ends, is their common-prefix length |
| SuffixArrays.AllSuffixes | strings/suffix-array/index.ts:46-50 | the constructor's loop makes n suffixes of the text, the i-th starting at i |
| SuffixArrays.InsertSuffix | strings/suffix-array/index.ts:51 | inserting adds exactly one element and keeps every element a suffix of the text |
| SuffixArrays.SortSuffixes | strings/suffix-array/index.ts:51 | the sort returns a permutation of its input |
| SuffixArrays.InsertAtLeast | strings/suffix-array/index.ts:51 | a bound below the inserted suffix and every listed one bounds the result |
| SuffixArrays.InsertSorted | strings/suffix-array/index.ts:51 | inserting into an ascending list keeps it ascending |
| SuffixArrays.SortSorted | strings/suffix-array/index.ts:51 | the sort returns the suffixes in ascending compareTo order |
| SuffixArrays.DistinctSuffixes | strings/suffix-array/index.ts:26-35 | two suffixes of one text that start at different places are different strings, so compareTo is zero only for the same suffix |
| SuffixArrays.TwiceCounted | strings/suffix-array/index.ts:45-52 | a suffix at two positions of the array is counted twice |
| SuffixArrays.AtMostOnce | strings/suffix-array/index.ts:48-50 | the filled array holds each suffix at most once |
| SuffixArrays.SuffixArray.constructor | strings/suffix-array/index.ts:45-52 | suffixes holds each start index 0..n-1 once, in ascending compareTo order |
| SuffixArrays.SuffixArray.Count | strings/suffix-array/index.ts:54-56 | length() is the length of the text |
| SuffixArrays.SuffixArray.Index | strings/suffix-array/index.ts:58-63 | index(i) throws exactly outside [0, n) and otherwise is the start of the i-th smallest suffix, in [0, n) |
| SuffixArrays.SuffixArray.Select | strings/suffix-array/index.ts:65-70 | select(i) throws exactly outside [0, n) and otherwise is the text from index(i) on |
| SuffixArrays.SuffixArray.SelectAscending | strings/suffix-array/index.ts:45-52 | each selected suffix comes strictly before the next |
| SuffixArrays.SuffixArray.IndicesDistinct | strings/suffix-array/index.ts:45-52 | no start index appears twice in the array |
| SuffixArrays.SuffixArray.LcpAt | strings/suffix-array/index.ts:72-77 | lcp(i) throws exactly outside [1, n) and otherwise is the common-prefix length of select(i) and select(i-1) |
| SuffixArrays.SuffixArray.Rank | strings/suffix-array/index.ts:88-101 | with a floored midpoint, rank is the position of a suffix equal to query, or else the number of suffixes before query, all later ones coming after it |
| SuffixArrays.SuffixArray.RankAsWritten | strings/suffix-array/index.ts:88-101 | as written, rank throws on every text of even length at least 2, and whenever it returns it returns what the floored rank would |
| SuffixArrays.SuffixArray.RankBelow | strings/suffix-array/index.ts:95 | a query before the middle suffix comes before every later suffix too |
| SuffixArrays.SuffixArray.RankAbove | strings/suffix-array/index.ts:96 | a query after the middle suffix comes after every earlier suffix too |
| Tries.EmptyNode | strings/trie/index.ts:10-13 | a new node has no value and R null links |
| Tries.GetNode | strings/trie/index.ts:32-39 | _get returns the node reached from x along the characters of key from position d on, null once the path breaks |
| Tries.DeadHoldsNothing | strings/trie/index.ts:91-97 | below a node with neither a value nor a child no key holds a value, so pruning it loses nothing |
| Tries.NullAsEmpty | strings/trie/index.ts:53 | a missing node and a freshly created one hold no value for any key |
| Tries.TriePut | strings/trie/index.ts:47-62 | _put returns a node with R links everywhere that holds a value or has a child |
| Tries.PutValue | strings/trie/index.ts:47-62 | after _put the rest of the key holds the new value and every other path holds what it held before |
| Tries.PutLiveBelow | strings/trie/index.ts:53-61 | _put never leaves a node without a value and without a child below the root |
| Tries.TrieDelete | strings/trie/index.ts:82-98 | _delete returns null or a node that holds a value or has a child |
| Tries.DeleteValue | strings/trie/index.ts:82-98 | after _delete the rest of the key holds nothing and every other path holds what it held before |
| Tries.DeleteLiveBelow | strings/trie/index.ts:82-98 | _delete keeps every node below the root holding a value or a child |
| Tries.Char | strings/trie/index.ts:74 | String.fromCharCode(c) is the character with code c |
| Tries.KeysMembership | strings/trie/index.ts:70-76 | _keys lists a key exactly when it extends the prefix and the rest of it leads to a node with a value |
| Tries.ChildKeysMembership | strings/trie/index.ts:73-75 | the links 0 to c-1 contribute exactly the keys whose next character is below c and that lead to a value |
| Tries.JoinSorted | strings/trie/index.ts:72-75 | two ascending lists, every key of the first below every key of the second, join into an ascending list |
| Tries.KeysSorted | strings/trie/index.ts:70-76 | _keys lists its keys in strictly ascending order, each one extending the prefix |
| Tries.ChildKeysSorted | strings/trie/index.ts:73-75 | the keys of links 0 to c-1 are strictly ascending, extend the prefix and continue with a code below c |
| Tries.SortedDistinct | strings/trie/index.ts:64-68 | a strictly ascending list of keys holds each key once |
| Tries.Trie.constructor | strings/trie/index.ts:20-22 | the new trie holds no value for any key |
| Tries.Trie.Get | strings/trie/index.ts:24-30 | get returns the value stored for key, null when there is none |
| Tries.Trie.Put | strings/trie/index.ts:41-45 | put makes key hold value, leaves every other key as it was, returns the trie and keeps every node below the root live |
| Tries.Trie.DeleteNode | strings/trie/index.ts:82-98 | the recursion with its loop over the links computes _delete |
| Tries.Trie.Delete | strings/trie/index.ts:78-80 | delete makes key hold nothing, leaves every other key as it was, and prunes so that every node below the root holds a value or a child |
| Tries.Trie.CollectKeys | strings/trie/index.ts:70-76 | _keys appends to the queue exactly the keys of KeysOf, in that order |
| Tries.Trie.Keys | strings/trie/index.ts:64-68 | keys lists exactly the keys that hold a value, each once, in ascending order with a prefix before its extensions |
| Substring.FirstMatch | strings/substring-search/index.ts:6-16 | the leftmost position where the pattern occurs, with no occurrence before it, or n when it occurs nowhere |
| Substring.FirstIs | strings/substring-search/index.ts:6-12 | an occurrence with no occurrence before it is the answer |
| Substring.NoneIs | strings/substring-search/index.ts:6-16 | with no occurrence at any start up to n - m the answer is n |
| Substring.LongPattern | strings/substring-search/index.ts:6-16 | a pattern longer than the text gives n |
| Substring.EmptyPattern | strings/substring-search/index.ts:6-13 | the empty pattern gives 0 |
| Substring.Search | strings/substring-search/index.ts:2-16 | search returns the leftmost start of the pattern in the text, or n when there is none, and a returned start below n agrees with the pattern character by character |
| Substring.MatchChars | strings/substring-search/index.ts:8-12 | an occurrence at i means pattern[j] = text[i + j] for every j < m |
| Kmp.BorderTrans | strings/kmp-substring-search/index.ts:15-17 | a border of a border of pattern[0..j) is a border of it, which is why falling back to lps[i - 1] stays on borders |
| Kmp.BorderExtend | strings/kmp-substring-search/index.ts:19-22 | a border of pattern[0..j] is a border of pattern[0..j) followed by pattern[j], and conversely |
| Kmp.KMP.constructor | strings/kmp-substring-search/index.ts:5-24 | lps[0] = 0 and lps[j] is the length of the longest proper prefix of pattern[0..j] that is also its suffix |
| Kmp.KMP.Fallback | strings/kmp-substring-search/index.ts:15-17 | the fallback loop ends on a border of pattern[0..j) whose next character is pattern[j], or on 0, skipping only borders that cannot be extended |
| Kmp.KMP.Extend | strings/kmp-substring-search/index.ts:19-22 | an extendable longest border i makes lps[j] = i + 1 the longest border |
| Kmp.KMP.NoExtend | strings/kmp-substring-search/index.ts:19-22 | when no border extends by pattern[j], lps[j] = 0 is right |
| Kmp.KMP.TableBounds | strings/kmp-substring-search/index.ts:8-23 | lps[0] = 0 and 0 ≤ lps[j] ≤ j |
| Kmp.KMP.Search | strings/kmp-substring-search/index.ts:26-46 | search, reading the object's own pattern, returns the smallest i with text[i..i + m) = pattern, or n when there is none |
| Kmp.SearchAsWritten | strings/kmp-substring-search/index.ts:26-46 | search as written, matching a given pattern against a given table, answers n once the text is exhausted and never an index past n |
| Kmp.AsWrittenMissesMatch | strings/kmp-substring-search/index.ts:26-50 | with the module's pattern and the table [0], the text "a" gets the answer 1, though "a" occurs at 0 |
| Kmp.KMP.AsWrittenAnswer | strings/kmp-substring-search/index.ts:5-50 | the table built for the pattern "a" is [0], so search as written answers 1 for the text "a" |
| Kmp.KMP.Advance | strings/kmp-substring-search/index.ts:33-42 | one round keeps the last j characters read equal to pattern[0..j) with no occurrence starting earlier, and either reports the match or makes progress |
| Kmp.KMP.Skip | strings/kmp-substring-search/index.ts:39-40 | falling back to lps[j - 1] after a mismatch skips no occurrence |
| Kmp.KMP.Restart | strings/kmp-substring-search/index.ts:41 | with nothing matched, a mismatch at i rules out an occurrence at i |
| Kmp.KMP.Found | strings/kmp-substring-search/index.ts:37-38 | a complete window answers i - j, the leftmost occurrence |
| Kmp.KMP.Exhausted | strings/kmp-substring-search/index.ts:45 | reaching the end of the text without a full match answers n, the leftmost-occurrence answer |
| BoyerMoore.LastOf | strings/boyer-moore-substring-search/index.ts:10-14 | the last position of a character in the pattern, or -1 when it is absent |
| BoyerMoore.BoyerMoore.constructor | strings/boyer-moore-substring-search/index.ts:5-15 | right[c] is the last position of c in the pattern for every code c below 256 |
| BoyerMoore.BoyerMoore.LastOfSnoc | strings/boyer-moore-substring-search/index.ts:12-14 | writing right[pattern[j]] = j keeps every entry the last position of its code in pattern[0..j] |
| BoyerMoore.BoyerMoore.RightTable | strings/boyer-moore-substring-search/index.ts:10-14 | right[c] lies in [-1, m), is -1 exactly for codes absent from the pattern, and otherwise is the largest j with pattern[j] = c |
| BoyerMoore.BoyerMoore.Search | strings/boyer-moore-substring-search/index.ts:17-37 | the corrected search returns the leftmost occurrence of the pattern, or n when there is none |
| BoyerMoore.BoyerMoore.Scan | strings/boyer-moore-substring-search/index.ts:23-33 | the corrected scan returns a skip of 0 only when the pattern occurs at i, and no occurrence starts in [i, i + skip) |
| BoyerMoore.BoyerMoore.SkipSafe | strings/boyer-moore-substring-search/index.ts:28-29 | with the text compared and the skip raised to at least 1, no occurrence starts before i + skip |
| BoyerMoore.CodeAt | strings/boyer-moore-substring-search/index.ts:26-28 | charCodeAt gives the code inside the string and NaN, here -1, outside it |
| BoyerMoore.ScanAsWritten | strings/boyer-moore-substring-search/index.ts:24-32 | the scan as written, comparing the pattern with itself, gives a skip of at most 1 |
| BoyerMoore.ScanAtZero | strings/boyer-moore-substring-search/index.ts:26 | at alignment 0 the as-written scan finds no mismatch |
| BoyerMoore.AsWrittenAnswersZero | strings/boyer-moore-substring-search/index.ts:22-36 | as written, search answers 0 whenever m ≤ n, and n otherwise |
| BoyerMoore.AsWrittenMissesMatch | strings/boyer-moore-substring-search/index.ts:22-36 | for the pattern "b" in "ab" the search as written answers 0, but the leftmost occurrence is at 1 |
| BoyerMoore.BoyerMoore.AsWrittenAnswer | strings/boyer-moore-substring-search/index.ts:17-37 | on a constructed table the as-written search answers 0 whenever the pattern fits in the text |
| KeyIndexed.KeyedMembers | strings/counting-sort/index.ts:16-18 | the elements dealt into a key's block are elements of the input with that key |
| KeyIndexed.KeyedAppend | strings/counting-sort/index.ts:16-18 | the block of a key of a concatenation is the concatenation of the blocks |
| KeyIndexed.KeyedOutside | strings/counting-sort/index.ts:3-8 | with every key in [0, R), no element has a key outside it |
| KeyIndexed.BelowNext | strings/counting-sort/index.ts:12-14 | the count below r + 1 is the count below r plus the count of r, which is what the cumulate step adds |
| KeyIndexed.BelowEnds | strings/counting-sort/index.ts:12-14 | no element has a key below 0, and all n have a key below R |
| KeyIndexed.BlocksSorted | strings/counting-sort/index.ts:16-22 | the blocks one after another are in order of key |
| KeyIndexed.BlocksMultiset | strings/counting-sort/index.ts:16-22 | the blocks one after another are a permutation of the input |
| KeyIndexed.BlocksStable | strings/counting-sort/index.ts:16-18 | the elements of each key keep their input order in the blocks |
| KeyIndexed.BlocksLength | strings/counting-sort/index.ts:12-18 | the blocks from key r on fill the positions from the count below r to the count below R |
| KeyIndexed.SlotInBlock | strings/counting-sort/index.ts:17 | the slot count[key] written for element i lies inside its key's block, so the written positions are distinct and stay in [0, n) |
| KeyIndexed.CountStep | strings/counting-sort/index.ts:7-9 | counting one more element adds one to the count of its key |
| KeyIndexed.FillStep | strings/counting-sort/index.ts:17 | dealing element i into slot count[key]++ keeps every block filled in input order |
| KeyIndexed.DealtAll | strings/counting-sort/index.ts:16-18 | after the last element every block is filled |
| KeyIndexed.SlicedBlocks | strings/counting-sort/index.ts:16-18 | filled blocks laid side by side are the blocks of key order |
| KeyIndexed.Tally | strings/counting-sort/index.ts:3-9 | count[0] = 0 and count[r + 1] is the number of elements with key r |
| KeyIndexed.Cumulate | strings/counting-sort/index.ts:12-14 | after the cumulate step count[r] is the number of elements with key below r |
| KeyIndexed.Distribute | strings/counting-sort/index.ts:16-18 | aux holds the elements block by block in order of key, each block in input order |
| KeyIndexed.Deal | strings/counting-sort/index.ts:17 | one deal keeps the counts and the filled blocks in step |
| KeyIndexed.CopyBack | strings/counting-sort/index.ts:20-22 | the array becomes a copy of aux |
| CountingSort.BlocksAreSorted | strings/counting-sort/index.ts:16-22 | numbers dealt in order of value are sorted and are a permutation of the input |
| CountingSort.BlockOfValue | strings/counting-sort/index.ts:7-9 | the block of v holds v exactly as often as the input does |
| CountingSort.Sort | strings/counting-sort/index.ts:2-23 | with every value in [0, radix), sort leaves the values sorted ascending and a permutation of the input |
| LsdRadixSort.Digit | strings/lsd-radix-sort/index.ts:10-20 | the key of the pass at d is the character code at d |
| LsdRadixSort.Part | strings/lsd-radix-sort/index.ts:7-25 | the characters d..W-1 of a string of at least W characters |
| LsdRadixSort.DigitLess | strings/lsd-radix-sort/index.ts:18-20 | a smaller code at d puts a string first on positions d..W-1 |
| LsdRadixSort.DigitEqual | strings/lsd-radix-sort/index.ts:18-20 | equal codes at d leave the order from d + 1 |
| LsdRadixSort.BlocksOrdered | strings/lsd-radix-sort/index.ts:18-24 | a pass at d on strings in order from d + 1 leaves them in order from d |
| LsdRadixSort.DigitKeys | strings/lsd-radix-sort/index.ts:7-11 | with every string fitting, the keys of the pass at d < W lie in [0, 256) |
| LsdRadixSort.FixedWidth | strings/lsd-radix-sort/index.ts:7-25 | strings of exactly W characters sorted on their first W characters are sorted |
| LsdRadixSort.TiesKeyed | strings/lsd-radix-sort/index.ts:18-20 | taking the strings of one code and taking the strings that tie commute |
| LsdRadixSort.TiesSplit | strings/lsd-radix-sort/index.ts:18-20 | the ties on positions e.. are the ties on e + 1.. among the strings with the same code at e |
| LsdRadixSort.TiesKept | strings/lsd-radix-sort/index.ts:8-24 | a stable pass at e takes ties from e + 1 in input order to ties from e in input order |
| LsdRadixSort.NothingCompared | strings/lsd-radix-sort/index.ts:7 | before the first pass no position is compared, so the array is trivially in order |
| LsdRadixSort.Pass | strings/lsd-radix-sort/index.ts:8-24 | each pass is a stable permutation keyed on the code at d: blocks in code order, each code's strings in input order |
| LsdRadixSort.Round | strings/lsd-radix-sort/index.ts:7-25 | after the pass for d the array is sorted on positions d..W-1 and its ties on them are in input order |
| LsdRadixSort.Sort | strings/lsd-radix-sort/index.ts:2-26 | with every string of length at least W and codes below 256, the array ends a permutation sorted on the first W characters, ties in input order |
| Quick3String.CharAt | strings/quick-3-string/index.ts:2-4 | charAt is -1 exactly for d ≥ \|s\| and the character code otherwise |
| Quick3String.Drop | strings/quick-3-string/index.ts:12-36 | what is left of a string from position d on |
| Quick3String.CodeLess | strings/quick-3-string/index.ts:25-32 | a smaller code at d, or the end of the string, puts a string first from d on |
| Quick3String.CodeEqual | strings/quick-3-string/index.ts:34 | equal codes at d and order from d + 1 give order from d |
| Quick3String.ThreeWay | strings/quick-3-string/index.ts:20-30 | after the loop a[lo..lt) has codes below v, a[lt..gt] code v and a(gt..hi] codes above v, and only a[lo..hi] was permuted |
| Quick3String.BelowStep | strings/quick-3-string/index.ts:27 | exchange(a, lt++, i++) keeps the three bands |
| Quick3String.AboveStep | strings/quick-3-string/index.ts:28 | exchange(a, i, gt--) keeps the three bands |
| Quick3String.MiddleFrom | strings/quick-3-string/index.ts:34 | the middle band is in order from d when it is sorted from d + 1, or when v = -1 and every string in it has ended |
| Quick3String.BandsSorted | strings/quick-3-string/index.ts:32-35 | three sorted bands below, at and above v make a sorted range |
| Quick3String.Combine | strings/quick-3-string/index.ts:33-35 | the three recursive calls leave a[lo..hi] sorted from d, permuted, with nothing outside it changed |
| Quick3String.SortFrom | strings/quick-3-string/index.ts:12-36 | _sort sorts a[lo..hi] on what is left of each string from d, as a permutation, and changes nothing outside [lo, hi]; for hi ≤ lo it does nothing |
| Quick3String.Sort | strings/quick-3-string/index.ts:38-40 | sort leaves a permutation of the input in character-code order with a proper prefix first |
| Quick3String.StillBounded | strings/quick-3-string/index.ts:12-36 | a permutation keeps the longest string, the measure under which the middle band recursion terminates |
| LongestRepeated.Lcp | strings/longest-repeated-string/index.ts:3-11 | lcp is the common-prefix length: at most both lengths, the strings agree up to it and differ at it when both go on |
| LongestRepeated.Suffixes | strings/longest-repeated-string/index.ts:17-21 | the first loop stores at k the suffix starting at k |
| LongestRepeated.SortedSuffixArray | strings/longest-repeated-string/index.ts:15-23 | the suffixes, sorted: a permutation of them in order |
| LongestRepeated.Find | strings/longest-repeated-string/index.ts:14-34 | find returns '' for n ≤ 1; a non-empty result occurs at two distinct positions, is as long as every repeated substring, and comes first among the repeats of its length |
| LongestRepeated.ScanStep | strings/longest-repeated-string/index.ts:26-31 | a strictly longer common prefix replaces lrs and any other leaves it, so the earliest maximal candidate is kept |
| LongestRepeated.Conclude | strings/longest-repeated-string/index.ts:23-33 | the kept prefix is the longest repeated substring and the least of that length |
| LongestRepeated.AdjacentRepeated | strings/longest-repeated-string/index.ts:27-29 | a common prefix of two neighbours occurs at two distinct positions |
| LongestRepeated.Neighbours | strings/longest-repeated-string/index.ts:23-31 | every repeated substring is a common prefix of some neighbours of the sorted suffixes |
| LongestRepeated.Apart | strings/longest-repeated-string/index.ts:17-23 | two places of the sorted suffixes hold different suffixes |
| LongestRepeated.Between | strings/longest-repeated-string/index.ts:23-31 | a string sorted between two strings that share their first L characters shares at least L characters with the first of them |
| LongestRepeated.Least | strings/longest-repeated-string/index.ts:28-30 | the first neighbours sharing L characters give the least repeated substring of length L |
| Huffman.ToByteString | strings/huffman-compression/index.ts:32-34 | toByteString gives binary digits whose value is the code, exactly eight of them for a code below 256 |
| Huffman.FromByteString | strings/huffman-compression/index.ts:36-38 | fromByteString gives the character whose code is the value of the digits |
| Huffman.ByteRoundTrip | strings/huffman-compression/index.ts:32-38 | fromByteString(toByteString(c)) = c for every code below 256 |
| Huffman.ByteStringRoundTrip | strings/huffman-compression/index.ts:32-38 | toByteString(fromByteString(b)) = b for every eight binary digits |
| Huffman.WriteTrie | strings/huffman-compression/index.ts:95-112 | writeTrie emits only binary digits, at least one |
| Huffman.Decode | strings/huffman-compression/index.ts:80-90 | each decode consumes at least one digit and leaves binary digits; running out of digits is the stack overflow |
| Huffman.DecodeWrite | strings/huffman-compression/index.ts:79-112 | decoding writeTrie(x) followed by anything gives x blanked and the rest |
| Huffman.ReadWrite | strings/huffman-compression/index.ts:79-112 | readTrie(writeTrie(t)) has t's shape and leaf characters, with frequencies reset to 0 |
| Huffman.PathsExtend | strings/huffman-compression/index.ts:43-54 | every code extends the path it was built from, strictly below an internal node |
| Huffman.PrefixFree | strings/huffman-compression/index.ts:43-54 | the leaf paths are prefix-free |
| Huffman.PathChars | strings/huffman-compression/index.ts:43-54 | the characters of the leaf paths are the leaf characters |
| Huffman.CodeTableSpec | strings/huffman-compression/index.ts:43-54 | with distinct leaves, buildCode sets each leaf character's entry to its path and no other entry |
| Huffman.BuildCode | strings/huffman-compression/index.ts:43-54 | buildCode writes into st the code table of the trie |
| Huffman.CodesPaths | strings/huffman-compression/index.ts:43-54 | a character gets a code exactly when it is on a leaf, and the code is its root path |
| Huffman.CodesPrefixFree | strings/huffman-compression/index.ts:43-54 | the codes of two characters are never prefixes of one another |
| Huffman.Walk | strings/huffman-compression/index.ts:119-125 | the inner loop of expand moves forward by at least one digit below an internal node and stays on a leaf |
| Huffman.WalkPath | strings/huffman-compression/index.ts:119-125 | digits that spell a leaf's path lead the walk to that leaf, just past the path |
| Huffman.Expand | strings/huffman-compression/index.ts:114-130 | expand reads the trie back (a truncated encoding is the stack overflow) and, below an internal root, decodes one character per walk to the end of the text; a one-leaf trie gives '' for an empty text and the non-termination error otherwise |
| Huffman.PresentCount | strings/huffman-compression/index.ts:61-67 | a leaf is queued for a character exactly when its count is positive |
| Huffman.Merge | strings/huffman-compression/index.ts:70-73 | joining two tries of the forest under a parent whose frequency is their sum keeps the forest's leaves |
| Huffman.TakeSmallest | strings/huffman-compression/index.ts:70-71 | the two delMin calls take out the two tries of smallest frequency |
| Huffman.LeafQueue | strings/huffman-compression/index.ts:57-67 | the queue holds one leaf for each character with a positive count, with that count |
| Huffman.JoinSmallest | strings/huffman-compression/index.ts:69-74 | one round joins the two smallest tries and shrinks the queue by one |
| Huffman.JoinAll | strings/huffman-compression/index.ts:69-76 | the loop and the final delMin give one trie holding every leaf of the forest, or the underflow error for an empty forest |
| Huffman.BuildTrieAsWritten | strings/huffman-compression/index.ts:56-77 | buildTrie throws the underflow exactly when no count is positive; otherwise each parent's frequency is the sum of its children's, and the leaves are exactly the characters with a positive count, each once |
| Huffman.BuildTrie | strings/huffman-compression/index.ts:56-77 | the corrected buildTrie: the same trie properties, with a padding leaf of count 0 beside a single character, so that the root is internal |
| Huffman.SameLeaf | strings/huffman-compression/index.ts:61-76 | with one distinct character the trie as written is a single leaf |
| Huffman.Tabulate | strings/huffman-compression/index.ts:133-138 | freq[c] is the number of occurrences of the character with code c |
| Huffman.CountsPresent | strings/huffman-compression/index.ts:133-140 | the characters with a positive count are exactly the input's characters below 256 |
| Huffman.EncodedLength | strings/huffman-compression/index.ts:148-154 | the compressed text is as long as the sum of the code lengths over the input's characters |
| Huffman.CompressedLength | strings/huffman-compression/index.ts:133-154 | the compressed length equals Σ freq[c] · \|code[c]\| |
| Huffman.Encode | strings/huffman-compression/index.ts:141-154 | compress returns the written trie and the codes of the input characters joined |
| Huffman.ExpandEncoded | strings/huffman-compression/index.ts:114-154 | expanding the codes of a text, after any prefix, gives back its characters below 256 |
| Huffman.RoundTrip | strings/huffman-compression/index.ts:114-154 | with an internal root, expand(writeTrie(root), codes of s) gives back the characters of s below 256 |
| Huffman.OneLeaf | strings/huffman-compression/index.ts:114-154 | with a one-leaf root every code is '', the compressed text is empty and expands to '' |
| Huffman.CompressAsWritten | strings/huffman-compression/index.ts:132-155 | compress throws the underflow exactly when no character is below 256 (so for ''); otherwise it returns the written trie and the codes joined; with one distinct character the compressed text is '' and expands to '', and with two or more expand gives back the input's characters below 256 |
| Huffman.Compress | strings/huffman-compression/index.ts:132-155 | the corrected compress: the same underflow, an internal root always, and expand(compress(s)) = s for every non-empty s of codes below 256 |
| Huffman.NarrowAll | strings/huffman-compression/index.ts:148-152 | an input whose characters are all below 256 is coded in full |

## Left out

- Demo blocks, `console.log` output and the readline REPLs are I/O. The demo graphs are not replayed.
- The JavaScript iterator protocol: each iterator is the `seq` it yields.
- Floating-point weights and `Number.POSITIVE_INFINITY`: weights and keys are integers, and infinity is an explicit label.
- `localeCompare` and other comparators: the priority queues keep integer keys ordered by `<`.
- Garbage-collection nulling in the corrected `IndexMinPQ.delMin` and `delete`, and the `pq[n + 1] = -1` write, have no observable effect beyond `contains` there, since a removed index never takes part in a later comparison. The as-written queue keeps removed indices in the heap, so IndexMinPQAsWritten models the nulled key, as 0.
- IndexMinPriorityQueue.IndexMinPQ.KeyOf, ChangeKey and Delete require an index in 0..maxN. Outside that range the source reads or writes `undefined` slots.
- The `pq` array has one spare slot, `maxN + 2` in all, for the slot index n + 1 of a full queue.
- Arrays that the source builds with `Array.from({ length })` and never fills are modelled with 0 or `None` in the unread slots.
- The recursive `dfs` methods thread `marked`, `id`, `edgeTo` and the order arrays as values and store them in the fields afterwards. The order and the values written are those of the source.
- Loop bodies are separate methods (BFS `Step`/`Scan`, Dijkstra `Run`/`Relax`/`PushChain`, Prim `Forest`/`Grow`/`Drain`/`Step`/`Scan`, `DistanceLabels.Enqueue`), so that each can be verified on its own.
- Edges are values: the source's `Edge` and `DirectedEdge` objects are never changed after construction, and nothing depends on their identity.
- Graphs.Graph.AddEdge, Graphs.Graph.Adjacent, Digraphs.Digraph.AddEdge, Digraphs.Digraph.Adjacent, EdgeWeightedGraphs.EdgeWeightedGraph.AddEdge, EdgeWeightedGraphs.EdgeWeightedGraph.Adjacent, EdgeWeightedGraphs.EdgeWeightedGraph.Degree, EdgeWeightedDigraphs.EdgeWeightedDigraph.AddEdge, EdgeWeightedDigraphs.EdgeWeightedDigraph.Adjacent, UndirectedBfs.BreadthFirstPath.constructor, DirectedBfs.BreadthFirstPath.constructor and DepthFirstDirected.DepthFirstDirected.constructor require their vertices, sources included, in 0..V-1, as callers of the graph classes are expected to ensure. The source checks none of these. Outside that range it throws a TypeError on the missing adjacency list, except that `Digraph.addEdge` stores an out-of-range w in adj[v], and `adj(v)` returns undefined.
- DijkstraShortestPaths.DijkstraSP.constructor requires 0 ≤ source < V and non-negative weights. The source throws on a source outside that range, and its shortest-path promise needs non-negative weights.
- PrimMinimumSpanningForest.PrimMST.SpanningForest states the forest structure and, through ChosenEdge, the cut property for each chosen edge. Global minimality of the total weight over all spanning forests is not proved.
- Prim's `pq.decreaseKey` does not exist on `IndexMinPQ`. The model calls `changeKey`, which is what the call evidently intends.
- The connected-components and breadth-first modules import `./graph` from `graphs/undirected`, which is taken to be graphs/graph.ts.
- IndexMinPQAsWritten models the queue as written only on values, and proves only the discrepancies. The graph algorithms use the corrected queue.
- LinkedList.print writes to the console and is left out with the other I/O.
- LinkedLists.LinkedList.Pop, Shift and Remove say which node they return and what data it holds. A node returned by shift or remove still links into the list, and what a caller could do through that link is not modelled.
- Deques.Deque.Get and CircularQueues.CircularQueue.Peek treat only undefined slots as null. The source also turns every other falsy value (0, '', false) into null, and the iterators stop at such a value.
- Deques.Deque.constructor and CircularQueues.CircularQueue.constructor take a capacity in the naturals. Negative and fractional capacities are not modelled.
- The CircularQueue container starts as `[]` and grows as slots are written. It is modelled as `capacity` undefined slots, which read the same.
- LinkedListAsWritten.WalkToEnd bounds pop's walk by the heap size. The source would walk a cyclic chain forever, and the model reports an error instead.
- MinPriorityQueue.PQMin: the comparator is modelled as the difference of integer keys, `key(x) - key(y)`. Other comparators are not modelled.
- MinPriorityQueue.PQMin: slots outside 1..n hold default values where the source holds `undefined` or stale values. Nothing reads them.
- MinPriorityQueue.PQMin.Insert on an array of length 0: the source writes pq[1] and the JavaScript array grows to length 2. The model moves the queue to an array of two slots.
- MinPriorityQueue.PQMin.DelMin halves the array only when n == (length - 1) / 4 holds exactly, so only for lengths of the form 4m + 1. `resize(length / 2)` then takes a length of 2m, as `Array.from` truncates the fractional length.
- PQMinAsWritten.Empty requires a capacity of at least one slot, so that the as-written insert always has slot n + 1 to write.
- MinPriorityQueue.PQMin.Swim floors the parent index; the unfloored `k / 2` of the source is modelled in PQMinAsWritten on values only.
- The five comparison sorts each carry their own copies of `exchange`, `less` and `isSorted`. These are the same code, modelled once in SortBasics.
- Sorted values are integers compared with `<`. The generic `T` of the source and JavaScript's `<` on strings or mixed types are not modelled.
- MergeSort.Merge: the stability of the merge shows only for records with equal keys. Integers cannot show it, so it is stated by the tie rule of Merged, which takes the left value first.
- MergeSort.CopyToAux allocates hi + 1 slots. The source allocates hi - lo + 1 and writes at lo..hi, which a JavaScript array allows by growing.
- Insertion sort (sorting/insertion-sort) is not part of this model. QuickSort.InsertionSort stands in for it with the gap-1 pass of shell sort, which is insertion sort.
- QuickSort.Sort: the base case calls InsertionSort.sort on the whole array, not on a[lo..hi], so the contract is about the whole array. The constant CUTOFF is never read; sort uses the literal 5.
- QuickSort.Partition requires lo < hi, which every call from sort meets. With lo == hi the first inner loop reads past hi.
- The `partition` of sorting/quick-sort-3-way is never called there and is the same code as that of sorting/quick-sort, modelled as QuickSort.Partition.
- SymbolTableBST and RedBlackTree: keys are integers ordered by `<`. For SymbolTableBST this is the comparator `(a, b) => a - b` of its demo at searching/binary-search-tree/index.ts:260-261. The only demo of RedBlackTree, at searching/red-black-tree/index.ts:311-312, is commented out and orders strings with `localeCompare`. Generic keys and other comparators are not modelled.
- SymbolTableBST and RedBlackTree: nodes are datatype values. A recursive helper that rewrites `left`, `right` and `size` returns the rebuilt path, and node identity is not modelled.
- SymbolTableBST.TreeDeleteMaxAsWritten: when the as-written `_deleteMax` leaves one node on both links of the root, the model holds two equal values. A later change made through one link would show through the other in the source, and the model does not capture that.
- RedBlackTree: the deletes do no rebalancing in the source, so only search order and sizes are proved after them. The balance invariant is not kept, as in the source.
- RedBlackTree: get, floor, ceil and the iterator are the code of the size-annotated search tree. They are modelled once, on the tree with its colours erased.
- PlainBST: values are integers ordered by `<`, `<=` and `===`; the generic `T` and JavaScript's comparison of other types are not modelled.
- PlainBST: `_insert` and `_delete` rewrite nodes in place; the model rebuilds trees as values, and DeleteInPlace records which of `_delete`'s changes reach the tree object when delete drops its result.
- PlainBST.BinarySearchTree.InorderValues: the iteratee callback is replaced by the sequence of values it would be handed.
- HashTables: a bucket is the sequence of its LinkedList's entries; push appends and find returns the first match, as LinkedLists.LinkedList models them.
- HashTables.HashTable.constructor: requires m >= 1. With m <= 0 the source builds no buckets, and every get and put then throws.
- HashTables: keys are `string`, and each character is one code unit. A character outside the Basic Multilingual Plane is two UTF-16 code units for `charCodeAt`, and the model does not split it.
- HashTables.JsRem: states the range and sign of JavaScript's remainder, not its congruence with the dividend.
- SuffixArrays: `Array.prototype.sort` is an insertion sort in the model (SortSuffixes); only its result, a permutation in ascending order, is relied on.
- SuffixArrays.CompareTo: the identity test `this == that` is value equality of suffixes. The loop returns 0 for equal values anyway, so the result is the same.
- SuffixArrays: the demo at the end of suffix-array/index.ts prints suffixes to the console and is not modelled.
- Tries: every key must consist of character codes below 256 (a precondition of get, put and delete). A larger code indexes past the R links, and the source then throws on the undefined link.
- Tries: values are never null. put(key, null) in the source clears a value without pruning; the model's put always stores a value.
- Tries: a node is a value, not an object; put and delete return the rebuilt path, which the root is reassigned to. The queue that keys fills is a sequence.
- Strings are sequences of UTF-16 code units: every `charCodeAt` is the code of one `char`. A character outside the Basic Multilingual Plane is two code units in the source and is not split here either.
- Kmp.KMP.Search reads the pattern stored in the object. The source's search reads the module constant `pattern = 'ababdabacdababcabab'` declared at strings/kmp-substring-search/index.ts:50, against the table built from the object's pattern; Kmp.SearchAsWritten models that, and the Findings table gives an input where it answers wrongly. The module's demo at lines 49-52 is not modelled.
- BoyerMoore.BoyerMoore.constructor requires every pattern code below 256. A larger code writes `right` past its 256 entries, which a JavaScript array allows by growing.
- BoyerMoore.BoyerMoore.Search requires every text code below 256, for the same reason: a larger code reads an undefined `right` entry, and the skip then becomes NaN.
- BoyerMoore.SearchAsWritten takes a fuel bound, because its skip of at most 1 is not a measure Dafny can see; from alignment 0, where search starts, one round already answers, since the scan finds no mismatch there.
- CountingSort.Sort requires every value in [0, radix). The source reads `count[a[i] + 1]` as undefined for other values and writes NaN counts.
- LsdRadixSort.Sort requires every string to have at least W characters with codes below 256. Past the end of a shorter string `charCodeAt` is NaN, and a larger code indexes past the 256 counts.
- LongestRepeated.Find sorts the suffixes with Quick3String.Sort, as the source does with `Quick3Sort.sort(suffixes)`.
- Huffman: the trie is built with the corrected MinPriorityQueue.PQMin. With the source's unfloored swim, the third insert of `buildTrie` compares against an undefined slot and throws, as the priority-queue finding below records.
- Huffman.Expand: a one-leaf trie never moves i forward, so the source's loop runs forever on a non-empty text. The model returns the NoProgress error instead.
- Huffman.Decode: a trie encoding that ends too early makes the source's readTrie recurse until the stack overflows. The model returns the StackOverflow error.
- Huffman.Compress: characters with codes of 256 or more are counted nowhere, get no code and are dropped from the compressed text, as in the source; the round trip is stated for the input's characters below 256.
- Huffman: the two strings that compress returns are not written to any stream; `BinaryStdOut` and its bit packing are not part of this model.

## Findings

| source | as written | input that shows it | evidently intended | confidence | as-written member | corrected member |
|---|---|---|---|---|---|---|
| sorting/index-min-priority-queue/index.ts:127-131 | `exchange` swaps `pq[i]` and `pq[j]` but never updates `qp`, so `changeKey` and `delete` start from stale positions | insert(0, 3), insert(1, 2), delete(0), then delMin returns the deleted index 0; adding insert(2, 1) before that delMin still returns 0, whose nulled key reads as 0; insert(0, 3), insert(1, 1), insert(2, 2), changeKey(1, 4), then delMin returns 0 although 2 has key 2 | `exchange` also sets `qp[pq[i]] = i` and `qp[pq[j]] = j` | high, not executed | IndexMinPQAsWritten.DeleteRemovesWrongIndex | IndexMinPriorityQueue.IndexMinPQ.Exchange |
| graphs/undirected/edge-weighted-graph.ts:72-74 | `degree(v)` calls `this.adj[v].size()`, which `Bag` does not define, so every call throws | degree(0) on any graph with a vertex | the size of `adj[v]` | high, not executed | EdgeWeightedGraphs.EdgeWeightedGraph.DegreeAsWritten | EdgeWeightedGraphs.EdgeWeightedGraph.Degree |
| fundamental-data-structures/linked-list/index.ts:132-144 | the guard `index > this.length` lets index == len() through, and for a list of n ≥ 1 nodes the general case reads `null.next` and throws | push(7), then remove(1) | the guard `index >= this.length`, so that remove(len()) returns null | high, not executed | LinkedListAsWritten.RemoveAtLengthThrows | LinkedLists.LinkedList.Remove |
| fundamental-data-structures/linked-list/index.ts:83-91 | shift leaves `tail` on the unlinked node when the list empties; a later reverse makes that node the head of a list of length 0, and push then throws | push(1), shift(), reverse(): isEmpty() is false, len() is 0, and push(2) throws | shift clears `tail` when head becomes null, as the dequeue of queue/index.ts does | high, not executed | LinkedListAsWritten.StaleTailAfterShift | LinkedLists.LinkedList.Shift |
| sorting/priority-queue/index.ts:72-77 | swim climbs to `k / 2` without flooring it; for an odd k the parent index is fractional and `pq[k / 2]` is undefined, so the numeric comparator stops the climb and the compareTo comparator of Huffman's buildTrie throws | with (a, b) => a - b: insert(5), insert(10), insert(1), then min() is 5 although 1 is queued; with (x, y) => x.compareTo(y): the third insert throws a TypeError | the parent index `Math.floor(k / 2)` | high, not executed | PQMinAsWritten.MinMissesSmallest | MinPriorityQueue.PQMin.Swim |
| searching/binary-search-tree/index.ts:211-221 | `_deleteMax` on a node with a right child sets `x.right = this._deleteMin(x.left)`: the right subtree is dropped, x.left can end up on both links, and a null left child makes `_deleteMin` throw | put 7, 10, 12, 4, 6 (the demo), then deleteMax: the keys 10 and 12 are gone and 6 sits on both sides of 7; a root 7 whose only child is 10 on the right throws | `x.right = this._deleteMax(x.right)` | high, not executed | SymbolTableBST.DeleteMaxLosesKeys | SymbolTableBST.TreeDeleteMax |
| searching/red-black-tree/index.ts:228-238 | the same `x.right = this._deleteMin(x.left!)` slip in the red-black tree's `_deleteMax` | a black 3 with the black child 4 on the right and the black child 2 on the left, 2 having the red left child 1: deleteMax loses 1 and 4 and leaves 2 on both sides of 3 | `x.right = this._deleteMax(x.right)` | high, not executed | RedBlackTree.DeleteMaxLosesKeys | RedBlackTree.TreeDeleteMax |
| binary-search-tree/index.ts:62-64 | `delete` returns `this._delete(this.root, value)` and never assigns `this.root`; when the root holds value and has at most one child, nothing is removed | insert(5), then delete(5): search(5) is still true | `this.root = this._delete(this.root, value)` | high, not executed | PlainBST.DeleteKeepsRoot | PlainBST.BinarySearchTree.Delete |
| searching/hash-table/index.ts:49 | `return hash % this.m` keeps the sign of the 32-bit hash, so a key whose hash is negative gets a negative index, `this.container[index]` is undefined, and get and put throw | get("aaaaaaa") on a new table of 997 buckets: the hash is -1236860927 and the index -673 | `(hash & 0x7fffffff) % this.m`, the index of the book's separate-chaining table | high, not executed | HashTables.NegativeIndex | HashTables.HashTable.Hash |
| strings/suffix-array/index.ts:93 | `const mid = lo + (hi - lo) / 2` is not floored, so when hi - lo is odd mid is a fraction, `this.suffixes[mid]` is undefined and compare throws on `suffix.length()` | rank("a") on new SuffixArray("ab"): lo = 0, hi = 1, mid = 0.5 | `Math.floor` of the midpoint, so that rank returns the position of a matching suffix or the number of smaller ones | high, not executed | SuffixArrays.SuffixArray.RankAsWritten | SuffixArrays.SuffixArray.Rank |
| strings/boyer-moore-substring-search/index.ts:24-33 | the scan compares the pattern with itself (`this.pattern.charCodeAt(i + j)`), so it finds no mismatch at i = 0, and the clamp `if (skip > 1) skip = 1` is inverted | pattern "b", text "ab": search returns 0, but "b" first occurs at 1 | compare with `text.charCodeAt(i + j)` and raise the skip with `if (skip < 1) skip = 1` | high, not executed | BoyerMoore.AsWrittenMissesMatch | BoyerMoore.BoyerMoore.Search |
| strings/huffman-compression/index.ts:56-77 | with a single distinct character buildTrie returns one leaf; its code is the empty string, the compressed text is empty, and expand gives back nothing | compress("aaa"), then expand of the result: '' instead of "aaa" | a second leaf of frequency 0 beside the single character, so that the root is internal and every code has at least one bit | high, not executed | Huffman.CompressAsWritten | Huffman.Compress |
| strings/kmp-substring-search/index.ts:26-46 | `search` reads the module constant `pattern` (line 50) where it means `this.pattern`, while its table comes from the object's pattern | `new KMP('a').search('a')` returns 1 instead of 0 | `search` reads `this.pattern` | high, not executed | Kmp.AsWrittenMissesMatch | Kmp.KMP.Search |

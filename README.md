# Minimum spanning trees and Karger's minimum cut, in Dafny

This project models the algorithmic core of a repository that computes
minimum spanning trees and randomized minimum cuts on weighted undirected
graphs. It covers:

- the `DSU` class (union by rank with path compression) and Kruskal's
  `kruskal_mst` (kruskal.py);
- Borůvka's `boruvka_mst` (boruvka.py);
- lazy Prim's `prim_mst` with a `heapq` priority queue and a `seen_edges` set
  (prim.py);
- the reverse-delete algorithm `reverse_delete_mst` (reverse.py);
- Karger's contraction `karger_min_cut` (karger.py).

A graph is a node count `n`, for the nodes `0..n-1`, and an edge list of
`Edge(u, v, w)` values in the graph's enumeration order. `ValidGraph` says
that every edge joins two different existing nodes and that no pair of nodes
carries two edges, as in a networkx `Graph`. Weights are integers.

Files, one module each:

| file | module | contents |
|---|---|---|
| graphs.dfy | Graphs | edges, validity, simple lists, total weight `SumW`, node sets |
| walks.dfy | Walks | walks, `Reach`, `Connected`, and lemmas on them |
| partition.dfy | Partition | node labellings (`Relabel`, `Values`), labellings that are exactly the components, forests |
| sorting.dfy | Sorting | the stable key sort that `list.sort` / `sorted` perform |
| union_find.dfy | UnionFind | the `DSU` class, with `parent` and `rank` as sequence fields |
| connectivity.dfy | Connectivity | a graph search that decides `Connected`; it stands in for `nx.is_connected` |
| kruskal.dfy | Kruskal | `kruskal_mst` |
| boruvka.dfy | Boruvka | `boruvka_mst` |
| prim.dfy | Prim | `prim_mst` |
| reverse_delete.dfy | ReverseDelete | `reverse_delete_mst` |
| karger.dfy | Karger | `karger_min_cut` as written, and the multigraph version the cut weight calls for |

All five algorithms are imperative in the source, and each is a `method`
with loops. Each method is tied to a specification, and the lemmas state
what the algorithm promises:

- KruskalMst and ReverseDeleteMst return exactly the result of a reference
  fold over the sorted edges (`Greedy`, `Sweep`).
  - For `Greedy`, lemmas prove a forest of input edges that keeps the
    input's connectivity, and a spanning tree of `n - 1` edges on a
    connected graph.
  - For `Sweep`, lemmas prove a spanning tree of `n - 1` edges on a
    connected graph. On a disconnected graph every removal disconnects it,
    so every edge is put back, cycles included, as reverse.py:20-27 does.
- BoruvkaMst states the spanning tree directly in its postcondition. Each
  round at least halves the number of components on a connected graph.
- PrimMst's postconditions say that each accepted edge is a graph edge from
  a visited node to a new one, and a lightest edge leaving the nodes
  visited before it. They also say that exactly node 0's component is
  visited. The lemma `PrimSpanningTree` derives from these that the result
  is a forest of at most `n - 1` edges.
- KargerMinCut states the shape of the contraction trace and the failure
  case. It also says that the final edges join the two remaining groups of
  nodes with the weight of one crossing original edge.

The Karger code does not do what its own comment says.

- karger.py:22 says that the edges left between the two final nodes are
  the minimum cut. That needs a contraction that keeps parallel edges.
- karger.py:19 contracts a simple `nx.Graph`. When a redirected edge lands
  on a pair that already has an edge, networkx keeps only one, so the
  surviving "cut" has at most one edge.

The model follows the code in `KargerMinCut`. It gives the multigraph
version as `KargerMinCutMulti` (see Findings).

Disconnected input is not rejected by the code. Kruskal, Prim and
reverse-delete return a forest or edge list for it, and Borůvka never stops
on it. The model follows the code.

## Model

| member | source | states |
|---|---|---|
| UnionFind.DSU.constructor | kruskal.py:11-13 | every node is its own parent with rank 0, so every node is its own set |
| UnionFind.DSU.Find | kruskal.py:15-18 | returns the root of `x`'s tree; afterwards every node on the path from `x` up to the root points straight at the root, every other node keeps its old parent, and the sets and ranks are unchanged |
| UnionFind.DSU.Union | kruskal.py:20-34 | returns true exactly when `x` and `y` were in different sets; then the lower-ranked root's set is merged into the other one (ties: `rootY` under `rootX`, whose rank goes up by one), `x` and `y` share a set, and nothing else changes; on false the sets and ranks are unchanged |
| UnionFind.DSU.Attach | kruskal.py:26-32 | the union-by-rank link of two different roots: the parent array changes only at the loser root, the rank only at `rootX` on a tie, and the sets are the old ones with the loser's set renamed to the winner |
| UnionFind.AboveShrinks | kruskal.py:16-17 | following a parent pointer strictly shrinks the set of higher-ranked nodes, so `find` terminates |
| UnionFind.Root | kruskal.py:15-18 | following parents from `x` ends at a node that is its own parent |
| UnionFind.RootRank | kruskal.py:26-32 | a node that is not a root has a strictly smaller rank than its root |
| UnionFind.Compress | kruskal.py:17 | pointing `x` straight at its root keeps the forest well ranked and every node's root |
| UnionFind.CompressRoot | kruskal.py:17 | after the compression of `x`, every node `y` still reaches its old root |
| UnionFind.Link | kruskal.py:26-32 | linking root `lo` under root `hi` with the new ranks keeps the forest well ranked and renames `lo`'s set to `hi` |
| UnionFind.LinkRoot | kruskal.py:26-32 | after the link, a node whose root was `lo` now has root `hi`, and every other node keeps its root |
| Kruskal.KruskalMst | kruskal.py:37-51 | the kept edges are exactly the greedy rule applied to the edges sorted stably by weight (an edge is kept when the edges kept before it do not connect its ends), and the total is their weight |
| Kruskal.UnionEdge | kruskal.py:46-49 | an edge is appended exactly when the kept edges do not yet connect its ends, and the DSU sets remain exactly the components of the kept edges |
| Kruskal.AcceptExact | kruskal.py:47 | `union` reports a merge exactly when the kept edges do not connect the endpoints, and the merged sets are the components once the edge is kept |
| Kruskal.GreedyNext | kruskal.py:46-49 | one more scanned edge is kept exactly when the earlier kept edges do not connect its ends |
| Kruskal.GreedyForest | kruskal.py:46-49 | the kept edges never close a cycle |
| Kruskal.GreedyMembers | kruskal.py:46-48 | the kept edges are scanned edges, and they stay in the order of the scan when it is sorted |
| Kruskal.GreedySpans | kruskal.py:46-49 | the kept edges connect the ends of every scanned edge |
| Kruskal.KruskalSpanningForest | kruskal.py:37-51 | the result is a forest of input edges in non-decreasing weight order with at most `n - 1` edges that connects every two nodes the input connects; on a connected graph it is a spanning tree of `n - 1` edges |
| Sorting.SortByKey | kruskal.py:40 | the sorted list is a permutation of the input, ordered by weight (or by negated weight) |
| Sorting.SortStable | kruskal.py:40 | the sort is stable: the edges with any one key keep their input order |
| Sorting.SortedMembers | reverse.py:13 | the sorted list has exactly the input's edges |
| Sorting.SortSimple | reverse.py:13 | sorting a simple edge list gives a simple edge list |
| Sorting.Insert | kruskal.py:40 | one insertion step adds exactly one copy of the edge |
| Sorting.InsertSorted | kruskal.py:40 | inserting into a sorted list gives a sorted list |
| Sorting.InsertWithKey | kruskal.py:40 | inserting an edge puts it in front of the edges with the same key, which come from later in the input |
| Connectivity.IsConnected | reverse.py:23 | returns true exactly when every node is reachable from every other |
| Connectivity.Expand | reverse.py:23 | one search step keeps the frontier invariant and only grows the seen set |
| Connectivity.TraversalResult | reverse.py:23 | when the search finishes, it has seen every node exactly when the graph is connected |
| Boruvka.CheapestEdges | boruvka.py:19-30 | for every component, the entry is empty exactly when no edge leaves it; otherwise it is a lightest edge leaving it, and the first one in enumeration order among the lightest |
| Boruvka.Offer | boruvka.py:27-30 | an edge replaces a component's record exactly when it leaves the component and the record is empty or strictly heavier |
| Boruvka.Scanned | boruvka.py:22-30 | the record left after the whole scan is the cheapest outgoing edge |
| Boruvka.Relabelled | boruvka.py:42-44 | rewrites exactly the nodes labelled `from` to `to` |
| Boruvka.MergeCheapest | boruvka.py:33-45 | a merge pass keeps the labels equal to the components of the forest built so far; each appended edge is a recorded cheapest edge and removes one component; it merges at least once exactly when some component has an outgoing edge, and otherwise changes nothing; on a connected graph with more than one component, a round at least halves the number of components |
| Boruvka.MergeAt | boruvka.py:34-45 | handling one component's recorded edge keeps the merge pass's invariant |
| Boruvka.MergeNext | boruvka.py:36-45 | appending a component's recorded edge between two labels and merging them keeps the merge pass's invariant, including that the recorded edges visited so far now have both ends under one label |
| Boruvka.AppendCheapest | boruvka.py:37 | after appending a component's recorded edge, the round's edges still extend the earlier tree with recorded edges only |
| Boruvka.MergeSkip | boruvka.py:34-36 | a component without a recorded edge, or whose edge's ends already share a label, keeps the merge pass's invariant unchanged |
| Boruvka.RelabelJoined | boruvka.py:40-44 | a merge keeps every visited recorded edge's ends under one label, and puts the merged edge's ends under one label |
| Boruvka.LabelLeaves | boruvka.py:22-30 | on a connected graph with at least two components, every component has an edge leaving it, so every component gets a recorded edge |
| Boruvka.RoundHalves | boruvka.py:33-45 | when every component has a recorded leaving edge and the new labels put each recorded edge's ends together, there are at most half as many new labels as old |
| Boruvka.MergeKeeps | boruvka.py:36-45 | appending an edge between two components and relabelling one of them into the other leaves one component fewer and keeps the labels exact |
| Boruvka.BoruvkaMst | boruvka.py:10-50 | on a connected graph the result is a spanning tree of `n - 1` input edges, and the total is its weight |
| Boruvka.InitialState | boruvka.py:12-15 | every node starting as its own component is an exact labelling of the empty forest, with `n` components |
| Boruvka.SingleComponent | boruvka.py:17 | when one label is left, the forest connects all nodes |
| Boruvka.DisconnectedNeverSingle | boruvka.py:17 | on a disconnected graph any forest of input edges leaves at least two labels, so the loop never ends |
| Prim.Norm | prim.py:20 | `tuple(sorted(...))` gives the two nodes in increasing order |
| Prim.PairSame | prim.py:36-37 | two edges share a `seen_edges` key exactly when they join the same two nodes |
| Prim.SimpleUnique | prim.py:36-37 | in a simple graph the key of a pair determines its edge |
| Prim.HeapPop | prim.py:26 | returns a least entry in `(weight, u, v)` order, and the rest of the heap is the other entries |
| Prim.PushNeighbours | prim.py:34-39 | pushes an entry from `x` for each edge at `x` whose far end is unvisited and whose pair is not yet in `seen_edges`; each such pair is pushed once and recorded, and no other pair is recorded |
| Prim.PushAdd | prim.py:36-39 | pushing one new entry and recording its pair keeps the push loop's invariant |
| Prim.PushSkip | prim.py:35-37 | skipping an edge whose far end is visited or whose pair is recorded keeps the push loop's invariant |
| Prim.PushDone | prim.py:34-39 | at the end of the push loop every edge at `x` with an unvisited end is recorded |
| Prim.PrimMst | prim.py:11-41 | the accepted edges are graph edges, each from a visited node to a new one and each a lightest edge leaving the nodes visited before it; exactly the nodes reachable from node 0 end up visited; the total is their weight |
| Prim.Visit | prim.py:30-39 | accepting a popped entry to a new node appends it, visits its far end, and keeps the tree and heap invariants |
| Prim.PopKeeps | prim.py:26-28 | a pop keeps the heap invariant whether or not its far end is already visited |
| Prim.PushKeeps | prim.py:34-39 | pushing a visited node's neighbours restores the heap invariant |
| Prim.AcceptEdge | prim.py:30-32 | accepting a lightest crossing edge keeps the tree invariant with one more visited node |
| Prim.LeastCrossing | prim.py:26 | a least heap entry is no heavier than any graph edge leaving the visited set |
| Prim.CrossingInHeap | prim.py:25-39 | every graph edge leaving the visited set has an entry in the heap |
| Prim.PrimResult | prim.py:25 | when the loop stops, the visited set is exactly the nodes reachable from node 0 |
| Prim.GrowsAppend | prim.py:30-31 | an edge from a visited node to a new one extends a growing tree |
| Prim.LightestAppend | prim.py:30-31 | an edge no heavier than any crossing edge extends a sequence of lightest choices |
| Prim.VisitedReach | prim.py:30-31 | every visited node is reachable from node 0 along accepted edges |
| Prim.VisitedCount | prim.py:30-31 | after `k` accepted edges, `k + 1` nodes are visited |
| Prim.PrimTree | prim.py:30-31 | the accepted edges form a tree on the visited nodes, with one edge fewer than nodes |
| Prim.PrimSpanningTree | prim.py:11-41 | the result is a forest with at most `n - 1` edges that spans node 0's component; on a connected graph it is a spanning tree of `n - 1` edges |
| ReverseDelete.RemovePair | reverse.py:20 | `remove_edge` leaves exactly the edges that do not join the two endpoints |
| ReverseDelete.ReverseDeleteMst | reverse.py:8-30 | the kept edges are exactly the result of the remove-and-test fold over the edges sorted heaviest first, and the total is their weight |
| ReverseDelete.DeleteEdge | reverse.py:20-27 | the edge is removed, and it is added back and kept exactly when the rest is no longer connected |
| ReverseDelete.SweepNext | reverse.py:18-27 | one more scanned edge is one step of the fold |
| ReverseDelete.SweepKept | reverse.py:26 | the kept edges are scanned edges, in the descending scan order |
| ReverseDelete.SweepMembers | reverse.py:20-25 | the working graph holds exactly the kept edges and the edges not yet scanned |
| ReverseDelete.SweepRemoves | reverse.py:20 | the edge being removed is always present, so `remove_edge` never fails |
| ReverseDelete.SweepConnected | reverse.py:23-25 | on a connected input the working graph stays connected |
| ReverseDelete.SweepDisconnected | reverse.py:23-27 | on a disconnected input every edge is kept |
| ReverseDelete.BridgeCut | reverse.py:23 | an edge whose removal disconnects a connected graph is the only connection between its ends |
| ReverseDelete.SweepBridges | reverse.py:23-26 | on a connected input each kept edge is a bridge of the working graph |
| ReverseDelete.BridgesShrink | reverse.py:20 | removing edges keeps every kept edge a bridge |
| ReverseDelete.BridgesAppend | reverse.py:25-26 | adding back a bridge keeps every kept edge a bridge |
| ReverseDelete.BridgesForest | reverse.py:26 | kept edges that are all bridges form a forest |
| ReverseDelete.ReverseDeleteResult | reverse.py:8-30 | the result is a list of input edges, heaviest first; on a disconnected input it is every edge; on a connected input it is a spanning tree of `n - 1` edges |
| Karger.Listed | karger.py:16 | an edge built for the pair `a`-`b` joins them, listed smaller id first as `G.edges()` lists it |
| Karger.PickPair | karger.py:16 | the picked edge, taken smaller id first as `(u, v)`, is an edge of the graph joining `u` and `v`; `contracted_nodes` then keeps `u` |
| Karger.Contract | karger.py:19 | `contracted_nodes(G, u, v, self_loops=False)` on a simple graph: every edge away from `v` stays; each edge from `v` to another `w` leaves an edge `u`-`w`; a new edge exists only where no `u`-`w` edge was present (the existing edge is kept), and carries the redirected edge's weight; the `u`-`v` edge is dropped |
| Karger.Merge | karger.py:19 | the multigraph contraction: an edge is in the result exactly when it is an original edge seen through the merge that is not a self loop, so every parallel edge survives; no edges are gained, and none is lost unless it becomes a self loop |
| Karger.Without | karger.py:19 | the edges not touching `v` remain, in order |
| Karger.RedirectKeeps | karger.py:19 | redirecting never removes an edge already present |
| Karger.RedirectSources | karger.py:19 | every edge that redirecting adds comes from one of `v`'s edges to some `w` other than `u`, joins `u` and `w` with that edge's weight, and is added only where no `u`-`w` edge was present |
| Karger.RedirectCovers | karger.py:19 | after redirecting, every `w` other than `u` that had an edge to `v` has an edge to `u` |
| Karger.RedirectSimple | karger.py:19 | redirecting into a simple graph keeps it simple |
| Karger.ContractedEdge | karger.py:19 | an edge after the contraction joins two remaining nodes and is an old edge seen through the merge, with its weight |
| Karger.RedirectedEdge | karger.py:19 | a redirected edge joins two remaining nodes and is an old edge seen through the merge, with its weight |
| Karger.ContractedPair | karger.py:19 | every pair an old edge maps to under the merge has an edge after the contraction |
| Karger.ContractFacts | karger.py:19 | the contracted graph is a simple graph on the other nodes; its edges are old edges seen through the merge, with one edge for each merged pair |
| Karger.WithoutSimple | karger.py:19 | dropping `v`'s edges keeps a graph simple |
| Karger.SameTwoNodes | karger.py:14 | two edges on at most two nodes join the same pair |
| Karger.AtMostOneEdge | karger.py:23 | a simple graph on two nodes has at most one edge |
| Karger.InitialMerged | karger.py:13 | before any contraction every node is its own group, and the graph is the input |
| Karger.ContractStep | karger.py:16-19 | one contraction keeps the group bookkeeping, with one node fewer |
| Karger.ContractCovers | karger.py:19 | after a contraction, every pair of groups an original edge crosses still has an edge |
| Karger.ContractSourced | karger.py:19 | after a contraction, every edge joins the groups of an original edge and has its weight |
| Karger.EdgeLeft | karger.py:16 | on a connected graph an edge is left to pick while two groups remain |
| Karger.FinalCut | karger.py:22-23 | on two groups, the final graph has at most one edge (exactly one on a connected graph), which joins the groups of a crossing original edge with that edge's weight |
| Karger.ContractNext | karger.py:14-20 | one loop iteration keeps the loop state |
| Karger.KargerMinCut | karger.py:10-28 | with an empty edge list while more than two nodes remain, the pick fails, which happens only on a disconnected graph; otherwise `n - 2` snapshots (none for `n <= 2`), the last one being the final edges, and the weight is their sum; at most one final edge; with two nodes left it joins the two groups with one crossing edge's weight, and exactly one is left on a connected graph |
| Karger.MergeProject | karger.py:19 | the multigraph contraction of the projected graph is the projection onto the merged groups: no crossing edge is lost |
| Karger.ProjectIdentity | karger.py:13 | with every node its own group, the projection is the input |
| Karger.ProjectWeight | karger.py:26 | the projected edges weigh exactly the total weight of the original edges crossing the groups |
| Karger.ProjectMembers | karger.py:23 | the projected edges are exactly the crossing original edges, named by their groups |
| Karger.ProjectValid | karger.py:23 | every projected edge joins two different groups |
| Karger.ProjectLeft | karger.py:16 | on a connected graph some crossing edge remains while two groups do |
| Karger.MultiNext | karger.py:14-20 | one multigraph contraction keeps the loop state |
| Karger.KargerMinCutMulti | karger.py:10-28 | the pick fails only on a disconnected graph; otherwise the same trace shape holds, the final edges are all the original edges crossing the two groups, named by their groups, and the cut weight is the weight of that cut |
| Karger.TriangleCollapse01 | karger.py:19-26 | on the triangle `(0,1,1), (1,2,2), (0,2,3)`, contracting `0`-`1` leaves one edge of weight 3, while the cut it stands for weighs 5 |
| Karger.TriangleCollapse12 | karger.py:19-26 | contracting `1`-`2` leaves one edge of weight 1, while the cut weighs 4 |
| Karger.TriangleCollapse02 | karger.py:19-26 | contracting `0`-`2` leaves one edge of weight 1, while the cut weighs 3 |
| Karger.KeepsSmallerId | karger.py:16-19 | on `(0,1,1), (0,2,2), (1,3,3), (2,3,4)`, contracting `2`-`3` adds `(1,2,3)`, listed smaller id first; contracting `1`-`2` then keeps node 1 and leaves only `(0,1,1)` |
| Karger.TriangleMulti | karger.py:19-26 | with the multigraph contraction, the three results weigh 5, 4 and 3, the weights of their cuts |
| Partition.ExactReach | kruskal.py:47 | for a labelling that is exactly the components, two nodes carry the same label exactly when the edges connect them |
| Partition.MergeExact | boruvka.py:40-45 | renaming one endpoint's component to the other's after adding the edge keeps the labelling exact, with one label fewer |
| Partition.CrossingLabel | boruvka.py:26 | on a connected graph with two labels in use, some edge joins nodes with different labels |
| Partition.RelabelValues | boruvka.py:42-45 | renaming one label in use to another removes exactly that label |
| Partition.RelabelRepresentative | boruvka.py:40-44 | when every label is a node that carries its own label, it stays so after merging one endpoint's label into the other's |
| Partition.RelabelCoarsens | boruvka.py:40-44 | merging two labels keeps every earlier class inside one new class |
| Partition.FiberHalving | boruvka.py:33-45 | if every element of a set shares its image with a different element, the image has at most half as many elements |
| Partition.CoarseHalving | boruvka.py:33-45 | a coarsening in which every old class is merged with a different old class has at most half as many labels |
| Partition.ForestEdgeCount | kruskal.py:51 | a forest on `n` nodes has at most `n - 1` edges, and exactly `n - 1` when it connects them |

## Left out

- File loading (`load_graph`, `mmread`), the animation and video output,
  timing, progress bars and plotting are I/O and are not modelled.
- Weights are integers. The source's floating-point weights, including
  `load_graph`'s adjustment of negative weights, are not modelled.
- networkx is not modelled beyond the behaviour the core relies on. The
  graph is an edge list in a fixed order; it stands for both `G.edges()`
  and adjacency iteration.
- `G.edges()` order is not modelled. The model lists each picked or
  redirected edge smaller id first, as `G.edges()` does for graphs with
  nodes `0..n-1`, so `contracted_nodes` keeps the smaller id (see
  `KeepsSmallerId`). Within a list, however, the order of the edges is not
  the order networkx iterates them in. This matters only for which index
  `choose` picks and for the order of each snapshot.
- The source pins no networkx version. The model follows current releases,
  where `contracted_nodes` keeps the existing edge when a redirected edge
  lands on a pair that already has one. Older releases overwrote it with
  the redirected edge: on the triangle they give 2, 3 and 2 instead of 3, 1
  and 1.
- `.get('weight', 1)` at reverse.py:13: every modelled edge has a weight,
  so the default is never used.
- The `contraction` attribute that `nx.contracted_nodes` stores on a merged
  edge is not modelled. Only the surviving edge's weight is summed at
  karger.py:26.
- `heapq`'s sift operations are not modelled. The heap is a list, and a pop
  takes a least `(weight, u, v)` entry. Ties between fully equal tuples
  cannot occur, since pairs are unique.
- `random.choice` is the parameter `choose`: the `k`-th contraction takes
  the edge at index `choose(k) % |edges|`. The seed, the uniform
  distribution and the success probability of a run are not modelled.
- KargerMinCut: no claim that the cut is a minimum cut. It holds only with
  some probability, and the as-written contraction even falls below the
  minimum (see Findings).
- KruskalSpanningForest, PrimSpanningTree, BoruvkaMst and
  ReverseDeleteResult: minimality of the total weight is not proved.
  - KruskalSpanningForest and PrimSpanningTree prove the spanning-forest
    shape and the edge count. The choice rule itself is in `Greedy`'s
    definition and in PrimMst's postconditions.
  - ReverseDeleteResult proves a spanning tree of `n - 1` edges on a
    connected graph, and every edge on a disconnected one.
  - BoruvkaMst proves a spanning tree of `n - 1` edges on a connected
    graph.
- BoruvkaMst: requires a connected graph because on any other graph
  boruvka.py:17 loops forever. `DisconnectedNeverSingle` proves why.
- PrimMst: requires `n > 0` because `G[0]` at prim.py:19 fails on the null
  graph.
- The second `cheapest` reset at boruvka.py:48 is dead code. Each round
  starts with its own reset at line 19.
- `IsConnected` requires `n > 0`, because `nx.is_connected` raises on the
  null graph. reverse.py reaches it only after removing an edge, so it is
  never called with `n == 0`.
- Graph copies (`G.copy()`) and in-place graph mutation have no aliasing
  to model: each working graph is a value.

## Findings

| source | as written | input that shows it | evidently intended | confidence | as-written member | corrected member |
|---|---|---|---|---|---|---|
| karger.py:19 | `nx.contracted_nodes` on a simple `nx.Graph` merges a redirected edge into an existing edge for the same pair, so the final two-node graph has at most one edge, and `min_cut_weight` is the weight of one original edge rather than of the cut | the triangle `(0,1,1), (1,2,2), (0,2,3)`: the three possible contractions give weights 3, 1 and 1, so the best of them is 1, while the minimum cut weighs 3 | contract on a multigraph so that parallel edges survive, and make the weight the sum over all edges crossing the two groups (5, 4 and 3 on the triangle) | high (not executed) | Karger.KargerMinCut, Karger.TriangleCollapse02 | Karger.KargerMinCutMulti |

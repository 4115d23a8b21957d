# Verified model of a weighted LCA structure and a Dinic max-flow solver

This project is a Dafny model of two C++ competitive-programming structures, with proofs about each.

- `rmq_lca/weighted_lca.cc` has two parts.
  - `RMQ` is a sparse table that answers range-minimum (or range-maximum) index queries in O(1).
  - `weighted_LCA` is a forest of weighted undirected edges. `build` roots the forest and lays it out as an Euler tour, a preorder, and heavy-path chains. The structure then answers these queries:
    - lowest common ancestor, ancestor test, on-path test;
    - hop and weighted distance;
    - child towards a descendant, k-th ancestor, k-th node on a path;
    - common node of three, diameter and center;
    - tree compression of a node subset.
- `flow/projects_and_tools.cc` has two parts.
  - `dinic` is Dinic's maximum-flow algorithm over paired residual edges. It also offers reachability, the minimum cut, and edge lookup.
  - `projects_and_tools` reduces "choose projects, buy the tools they need" to a minimum cut.

Structures whose fields the C++ code updates in place are Dafny classes with `modifies` clauses: `Rmq`, `WeightedLca`, `Dinic` and `ProjectsAndTools`. Their methods are proved against ghost specification functions on values.

Each query is proved equal to an independent reference definition, and that definition has its own lemmas. For example, the lowest common ancestor is defined by walking up parent links (`Forest.Lca`) and is proved to be the deepest common ancestor. Hop distance is defined by walking both ends up (`Forest.PathLen`).

A function whose value depends on a rooted forest takes a ghost `f: Tree`. `Build` returns that forest: `g`'s parents, with each node's children in the order `build` leaves them.

## Modules

| file | module | contents |
|---|---|---|
| `rmq.dfy` | `SparseTable` | `HighestBit`, `Better`, the `Rmq` class (`Build`, `QueryIndex`, `QueryValue`); a query returns the latest best index of the range |
| `seqs.dfy` | `Seqs` | vector resize, sorting by key, stable merge, `unique`, reverse, ranges |
| `bits.dfy` | `Bits` | exclusive or on non-negative or `-1` node ids, and the odd-one-out lemma |
| `graph.dfy` | `Graph` | weighted edges, adjacency lists, erasing the first edge to a node, the edges down from a node |
| `forest.dfy` | `Forest` | the rooted forest `Tree`; walk-up definitions of ancestor, root, LCA, k-th ancestor, child-toward, path length, weighted path length; their laws |
| `paths.dfy` | `Paths` | the nodes on a path, the k-th node on a path, unit weights, the three-LCA lemma behind `get_common_node` |
| `tours.dfy`, `layout.dfy` | `Tours`, `Layout` | the Euler tour and preorder of a subtree and of the whole forest (roots in index order, `-1` after each tree), and where each subtree's block lies |
| `tables.dfy` | `Tables` | what each table `build` fills must satisfy, and proofs that the Euler tour and preorder satisfy it |
| `rooting.dfy`, `touring.dfy`, `building.dfy` | `Rooting`, `Touring`, `Building` | the facts the two DFS passes of `build` leave behind, node by node, and how they add up to the finished tables |
| `diameter.dfy` | `Diameter` | the three running maxima of `get_diameter`, and the proof that the best triple is the longest path of the first tree |
| `compress.dfy` | `Compress` | the LCA closure of a node set, and the proof that `compress_tree`'s sort-merge-unique pipeline computes it |
| `weighted_lca.dfy` | `WeightedLcaModel` | the `WeightedLca` class: every operation of `weighted_LCA` |
| `flow_graph.dfy` | `FlowGraph` | residual edges with their reverse index, `Added`, `Push`, net flow, residual reachability, the cut list |
| `dinic.dfy` | `DinicModel` | the `Dinic` class: BFS distances, blocking-flow DFS, `flow`, reachability, `min_cut`, `find_edge` |
| `projects.dfy` | `ProjectsModel` | the `ProjectsAndTools` class over a `Dinic` |

## Model

| member | source | states |
|---|---|---|
| SparseTable.Pow2Monotone | rmq_lca/weighted_lca.cc:35-42 | powers of two grow with the exponent, which keeps every table row's window sizes in range |
| SparseTable.HighestBit | rmq_lca/weighted_lca.cc:10-12 | -1 exactly for 0; otherwise the k with 2^k <= x < 2^(k+1) |
| SparseTable.HighestBitMonotone | rmq_lca/weighted_lca.cc:31-35 | a larger argument never has a lower highest bit |
| SparseTable.Better | rmq_lca/weighted_lca.cc:23-26 | returns one of the two indices, the second on equal values, and neither index's value beats the result's |
| SparseTable.CombineWindows | rmq_lca/weighted_lca.cc:42 | two overlapping windows' latest best indices combine by `Better` into the latest best index of their union |
| SparseTable.FirstLevel | rmq_lca/weighted_lca.cc:37-38 | row 0 holds the index of every length-1 window |
| SparseTable.NextLevel | rmq_lca/weighted_lca.cc:40-42 | row k holds the latest best index of every window of length 2^k |
| SparseTable.Rmq.constructor | rmq_lca/weighted_lca.cc:18-21 | the table over the given values, built only when they are non-empty |
| SparseTable.Rmq.Build | rmq_lca/weighted_lca.cc:28-43 | afterwards `values` is the input, `n` its length, and every row is correct for its level |
| SparseTable.Rmq.QueryIndex | rmq_lca/weighted_lca.cc:45-50 | for 0 <= a < b <= n: the index of a best value in [a, b), the latest one among equal values |
| SparseTable.Rmq.QueryValue | rmq_lca/weighted_lca.cc:52-54 | a value taken in [a, b) that no value in [a, b) beats |
| Seqs.ResizeKeeps | rmq_lca/weighted_lca.cc:91-101 | resizing keeps the old entries below the new length, and new entries are 0 |
| Seqs.SortByKey | rmq_lca/weighted_lca.cc:145-147 | the result is a permutation of the input, sorted by the key |
| Seqs.Merge | rmq_lca/weighted_lca.cc:321 | merging two key-sorted runs gives a sorted permutation of both |
| Seqs.Unique | rmq_lca/weighted_lca.cc:322 | no adjacent repeats; the same elements; the same first element; no longer |
| Seqs.UniqueOfSortedIsStrict | rmq_lca/weighted_lca.cc:320-322 | after `Unique`, a sequence sorted by a key that no two distinct elements share is strictly increasing in the key |
| Seqs.Reverse | rmq_lca/weighted_lca.cc:191-192 | the reversal has the same length, with entry i equal to entry n-1-i |
| Bits.Xor | rmq_lca/weighted_lca.cc:304 | the `^` on two's-complement `int`s: the result is negative exactly when one operand is, so the xor of -1 with a node index is negative and of two equal values is not |
| Bits.XorSelf | rmq_lca/weighted_lca.cc:304 | x xor x is 0 |
| Bits.XorComm | rmq_lca/weighted_lca.cc:304 | exclusive or is commutative |
| Bits.OddOneOut | rmq_lca/weighted_lca.cc:300-304 | when two of three values are equal, the xor of all three is the third |
| Graph.Erased | rmq_lca/weighted_lca.cc:120-127 | with no edge to `to` the list is unchanged; otherwise one fewer edge, exactly the first edge to `to` removed |
| Graph.SwapPopRemoves | rmq_lca/weighted_lca.cc:123-124 | swapping entry i with the last and popping removes exactly entry i from the multiset |
| Graph.EraseParentEdge | rmq_lca/weighted_lca.cc:129-136 | in an undirected forest's list at v, erasing the edge to v's parent leaves the edges down to v's children |
| Forest.LcaIsDeepest | rmq_lca/weighted_lca.cc:232-241 | in one tree the walk-up LCA is a common ancestor below every other; across trees it is -1 |
| Forest.LcaUnique | rmq_lca/weighted_lca.cc:232-241 | a deepest common ancestor is unique and is the walk-up LCA |
| Forest.LcaSymmetric | rmq_lca/weighted_lca.cc:233-241 | lca(a, b) == lca(b, a) |
| Forest.AncTrans | rmq_lca/weighted_lca.cc:243-245 | the ancestor relation is transitive |
| Forest.AncAntisym | rmq_lca/weighted_lca.cc:243-245 | two nodes that are each other's ancestor are equal |
| Forest.AncChain | rmq_lca/weighted_lca.cc:243-245 | two ancestors of one node are comparable |
| Forest.KthAncDepth | rmq_lca/weighted_lca.cc:271-283 | for k <= depth(a) the k-th ancestor is an ancestor exactly k levels up; for larger k it is -1 |
| Forest.KthAncAdd | rmq_lca/weighted_lca.cc:278-279 | climbing x then y steps is climbing x + y steps |
| Forest.AncIsKth | rmq_lca/weighted_lca.cc:271-276 | an ancestor w of a is a's (depth a - depth w)-th ancestor |
| Forest.PathLenByDepth | rmq_lca/weighted_lca.cc:251-253 | the hop length of the path is depth a + depth b - 2 depth lca |
| Forest.WeightedPathLenByDepth | rmq_lca/weighted_lca.cc:255-257 | the weight of the path is wdepth a + wdepth b - 2 wdepth lca |
| Forest.ChildTowardOfChild | rmq_lca/weighted_lca.cc:259-269 | for every descendant of a child c of v, the child of v towards it is c |
| Forest.SplitLca | rmq_lca/weighted_lca.cc:233-241 | descendants of two different children of v have v as their LCA |
| Forest.LcaOfAnc | rmq_lca/weighted_lca.cc:233-241 | the LCA of a node and one of its ancestors is that ancestor |
| Paths.PathNodesByLca | rmq_lca/weighted_lca.cc:247-249 | x is on the path from a to b exactly when x is an ancestor of a or of b, and the LCA is an ancestor of x |
| Paths.PathLenSymmetric | rmq_lca/weighted_lca.cc:251-253 | dist(a, b) == dist(b, a) |
| Paths.PathLenZero | rmq_lca/weighted_lca.cc:251-253 | the path has no edge exactly when a == b |
| Paths.ClimbOnPath | rmq_lca/weighted_lca.cc:291-292 | climbing k <= depth a - depth lca steps from a lands k edges along the path and the rest from b |
| Paths.KthNodeOnPath | rmq_lca/weighted_lca.cc:285-295 | both branches of the k-th-node choice give a node k edges from a and dist - k edges from b |
| Paths.KthNodeFromEnd | rmq_lca/weighted_lca.cc:293-294 | the second branch: climbing first_half + second_half - k from b |
| Paths.UnitPathLen | rmq_lca/weighted_lca.cc:226-230 | with every edge of weight one the weighted distance is the hop distance |
| Paths.WeightAncestor | rmq_lca/weighted_lca.cc:206-223 | with no negative weight, weighted depth does not fall going down |
| Paths.ThreeLcas | rmq_lca/weighted_lca.cc:297-305 | of three nodes in one tree, two of the pairwise LCAs are equal and the third lies below them |
| Paths.CommonNodeByXor | rmq_lca/weighted_lca.cc:297-305 | the xor of the three pairwise LCAs is the deepest one, and the right one when some are -1 |
| Tables.DepthsOf | rmq_lca/weighted_lca.cc:194-198 | same length as the tour; each node replaced by its depth, `-1` kept |
| Tables.MinIsLca | rmq_lca/weighted_lca.cc:233-241 | the latest minimum-depth tour entry between two positions is the LCA of the entries there |
| Tables.LcaTable | rmq_lca/weighted_lca.cc:184-201 | over the forest's Euler tour, every range-minimum query between first occurrences answers the LCA, and -1 across trees |
| Tables.FirstTable | rmq_lca/weighted_lca.cc:154-155 | each node's first occurrence indexes that node in the tour |
| Tables.ChildTable | rmq_lca/weighted_lca.cc:264-268 | for a strict ancestor a of b, the entry after the latest minimum between their first occurrences is the child of a towards b |
| Tables.ChildPick | rmq_lca/weighted_lca.cc:265 | one instance of `ChildTable`, in range, for an answered query |
| Tables.AncTable | rmq_lca/weighted_lca.cc:243-245 | start[a] <= start[b] < end[a] exactly when a is an ancestor of b |
| Tables.ListTable | rmq_lca/weighted_lca.cc:156 | the preorder list inverts the preorder index |
| Tables.HeavyTable | rmq_lca/weighted_lca.cc:153-163 | a first child continues its parent's chain and follows it in the preorder; any other node starts a chain |
| Tables.HeavyTop | rmq_lca/weighted_lca.cc:273-276 | a chain's top is an ancestor of each chain node, depth a - depth top levels up |
| Tables.HeavyJump | rmq_lca/weighted_lca.cc:278-279 | climbing past a chain's top continues from the parent of that top with the steps that remain |
| Tables.HeavyClimb | rmq_lca/weighted_lca.cc:275-276 | within a chain, the node j steps up is j places back in the preorder list |
| Tables.FirstTreeTable | rmq_lca/weighted_lca.cc:184-189 | the tour begins with the smallest root, whose tree fills the first 2 size - 1 entries before a -1 |
| Tables.RangeTable | rmq_lca/weighted_lca.cc:209-210 | between two tour positions of one tree some position in between holds their LCA |
| Rooting.NodeDone | rmq_lca/weighted_lca.cc:129-148 | once its children's edges are sorted, a node's parent, depth, weighted depth, up weight, subtree size and list are all final |
| Rooting.SizeFromEdges | rmq_lca/weighted_lca.cc:132-141 | 1 plus the children's sizes is the subtree size |
| Building.Reshaped | rmq_lca/weighted_lca.cc:144-147 | after rooting, the lists name a forest with `g`'s parents, children in list order |
| Building.RootingDone | rmq_lca/weighted_lca.cc:170-179 | the finished rooting searches leave depth, weighted depth, up weights, sizes and heavy-first lists for the forest |
| Building.RootingSorted | rmq_lca/weighted_lca.cc:145-147 | after rooting, each list is sorted heaviest subtree first |
| Building.EulerDone | rmq_lca/weighted_lca.cc:180-189 | the finished tour pass leaves the tour and first-occurrence tables, including LCA and child queries |
| Building.PreDone | rmq_lca/weighted_lca.cc:156-192 | the finished tour pass leaves start, end, postorder, preorder list, its reversal and chain tops |
| Building.LaidDone | rmq_lca/weighted_lca.cc:170-193 | the rooting and tour tables together are every table `build` fills |
| Diameter.MaxBest | rmq_lca/weighted_lca.cc:217-218 | the lexicographic maximum of two (value, node) pairs is one of them and no smaller than either in that order (`BestAtLeast`), the first on a full tie |
| Diameter.MaxPath | rmq_lca/weighted_lca.cc:219 | `max` on (value, (u, v)) triples: one of the two, no smaller than either in lexicographic order (`PathAtLeast`), so on equal values the larger u, then the larger v, decides which ends are reported |
| Diameter.ScanEnd | rmq_lca/weighted_lca.cc:215-216 | the position of the first -1, with no -1 before it |
| Diameter.Advance | rmq_lca/weighted_lca.cc:217-219 | one scan step never lowers any of the three running maxima |
| Diameter.ScanStep | rmq_lca/weighted_lca.cc:215-220 | one scan step keeps the positions that reach the three maxima |
| Diameter.PrefixBest | rmq_lca/weighted_lca.cc:209-220 | after a prefix, the third maximum is a largest wdepth u - 2 wdepth x + wdepth v over positions u <= x <= v |
| Diameter.PathBelowBest | rmq_lca/weighted_lca.cc:206-223 | no path of the first tree weighs more than that largest triple |
| Diameter.BestIsPath | rmq_lca/weighted_lca.cc:206-223 | with no negative weight the largest triple's value is the weighted distance between its ends, which `main` asserts at line 349 |
| Diameter.DiameterOk | rmq_lca/weighted_lca.cc:206-223 | with no negative weight the scan's answer is a path of the first tree, as heavy as any other path there |
| Diameter.ScanTour | rmq_lca/weighted_lca.cc:211-222 | the loop computes the scan's maxima over the tour up to the first -1, all -1 when that is empty |
| Compress.AdjacentClosure | rmq_lca/weighted_lca.cc:314-318 | a preorder-sorted list plus the LCAs of adjacent pairs is exactly its LCA closure |
| Compress.ClosureClosed | rmq_lca/weighted_lca.cc:307-308 | the LCA of two closure members is in the closure |
| Compress.ClosedParent | rmq_lca/weighted_lca.cc:325-326 | in a closed preorder list, the LCA with the entry before is the nearest listed ancestor |
| Compress.MergedIsClosure | rmq_lca/weighted_lca.cc:320-321 | the merged list holds exactly the closure of the input nodes |
| Compress.UniqueStrict | rmq_lca/weighted_lca.cc:322 | after `unique`, the merged list is strictly increasing in preorder |
| Compress.CompressOk | rmq_lca/weighted_lca.cc:307-329 | the deduplicated list is the closure, closed, strictly in preorder, with 1 to 2k - 1 nodes |
| WeightedLcaModel.NoEdges | rmq_lca/weighted_lca.cc:90 | n empty adjacency lists |
| WeightedLcaModel.Zeros | rmq_lca/weighted_lca.cc:95 | n zero weights |
| WeightedLcaModel.WeightedLca.constructor | rmq_lca/weighted_lca.cc:79-81 | n nodes, no edges, zero up weights, not built, and a fresh range-minimum table |
| WeightedLcaModel.WeightedLca.FromAdj | rmq_lca/weighted_lca.cc:83-86 | the given lists as adjacency, not built |
| WeightedLcaModel.WeightedLca.Init | rmq_lca/weighted_lca.cc:88-103 | n set, empty lists, zero up weights, not built, and every other table resized keeping its old entries |
| WeightedLcaModel.WeightedLca.ResetRooting | rmq_lca/weighted_lca.cc:89-102 | the adjacency and rooting part of `init` |
| WeightedLcaModel.WeightedLca.ResizeTour | rmq_lca/weighted_lca.cc:96-101 | the tour tables resized, old entries kept |
| WeightedLcaModel.WeightedLca.InitFromAdj | rmq_lca/weighted_lca.cc:105-109 | resized for the lists, which become the adjacency; not built |
| WeightedLcaModel.WeightedLca.AddEdge | rmq_lca/weighted_lca.cc:111-114 | each endpoint's list gains the other endpoint and the weight; a self-loop gains two copies |
| WeightedLcaModel.WeightedLca.EraseEdge | rmq_lca/weighted_lca.cc:120-127 | only `from`'s list changes, to `Erased`: the first edge to `to` removed by swap-and-pop |
| WeightedLcaModel.WeightedLca.Record | rmq_lca/weighted_lca.cc:130-133 | parent, depth (0 at a root, the parent's plus one otherwise), size 1 and weighted depth written at `node` |
| WeightedLcaModel.WeightedLca.Enter | rmq_lca/weighted_lca.cc:129-136 | the node's own entries recorded and the parent edge erased |
| WeightedLcaModel.WeightedLca.VisitChild | rmq_lca/weighted_lca.cc:138-142 | the child's up weight set, its subtree rooted, and its size added to the node's |
| WeightedLcaModel.WeightedLca.Finish | rmq_lca/weighted_lca.cc:144-147 | the node's list, sorted by subtree size, finishes the node's whole subtree |
| WeightedLcaModel.WeightedLca.Dfs | rmq_lca/weighted_lca.cc:129-148 | every node below `node` gets its final parent, depth, weighted depth, up weight, size and heavy-first list; nodes outside the subtree are unchanged |
| WeightedLcaModel.WeightedLca.TourMark | rmq_lca/weighted_lca.cc:153-155 | the chain top and the first occurrence written, and the node pushed on the tour |
| WeightedLcaModel.WeightedLca.TourNumber | rmq_lca/weighted_lca.cc:156-157 | the next preorder index given to the node |
| WeightedLcaModel.WeightedLca.TourEnter | rmq_lca/weighted_lca.cc:153-158 | the node's chain top, first occurrence and preorder index |
| WeightedLcaModel.WeightedLca.TourVisitChild | rmq_lca/weighted_lca.cc:160-164 | the child's subtree laid out and the node pushed again |
| WeightedLcaModel.WeightedLca.TourChildren | rmq_lca/weighted_lca.cc:158-164 | every child laid out in list order, only the first continuing the chain |
| WeightedLcaModel.WeightedLca.TourFinish | rmq_lca/weighted_lca.cc:166-167 | the end of the node's preorder range and its postorder index |
| WeightedLcaModel.WeightedLca.TourDfs | rmq_lca/weighted_lca.cc:152-168 | the tour grows by the subtree's Euler tour; the preorder list gains the subtree's preorder at `tour`; counters advance by the subtree size; nodes outside the subtree are unchanged |
| WeightedLcaModel.WeightedLca.RootExplicit | rmq_lca/weighted_lca.cc:173-174 | the explicit root's tree is rooted, when the root names a node |
| WeightedLcaModel.WeightedLca.RootRest | rmq_lca/weighted_lca.cc:176-178 | every component not yet reached is rooted at its smallest node |
| WeightedLcaModel.WeightedLca.RootAll | rmq_lca/weighted_lca.cc:171-178 | every node is rooted as the forest `g` says |
| WeightedLcaModel.WeightedLca.RootPhase | rmq_lca/weighted_lca.cc:171-179 | the rooting tables describe a forest with `g`'s parents, children in list order |
| WeightedLcaModel.WeightedLca.TourRoot | rmq_lca/weighted_lca.cc:185-189 | a root's tree laid out, followed by -1 |
| WeightedLcaModel.WeightedLca.TourStep | rmq_lca/weighted_lca.cc:184-189 | one turn of the root loop: a root laid out, any other node skipped |
| WeightedLcaModel.WeightedLca.TourAll | rmq_lca/weighted_lca.cc:180-189 | the whole forest laid out, roots in index order |
| WeightedLcaModel.WeightedLca.TourPhase | rmq_lca/weighted_lca.cc:180-192 | the tour tables and the reversed preorder list describe the forest |
| WeightedLcaModel.WeightedLca.LayOut | rmq_lca/weighted_lca.cc:180-193 | the tour pass keeps the rooting tables and fills the rest |
| WeightedLcaModel.WeightedLca.LaidHeld | rmq_lca/weighted_lca.cc:180-193 | rooting and tour tables together form a complete layout |
| WeightedLcaModel.WeightedLca.Prepare | rmq_lca/weighted_lca.cc:170-192 | rooting then tour: both describe the forest |
| WeightedLcaModel.WeightedLca.EulerDepths | rmq_lca/weighted_lca.cc:194-198 | the depth of each tour entry, -1 kept |
| WeightedLcaModel.WeightedLca.MarkBuilt | rmq_lca/weighted_lca.cc:200-203 | the range-minimum table built over the tour depths when asked for, and `built` set |
| WeightedLcaModel.WeightedLca.FinishBuild | rmq_lca/weighted_lca.cc:194-203 | the build is complete, with the table when asked for |
| WeightedLcaModel.WeightedLca.Build | rmq_lca/weighted_lca.cc:170-204 | every table describes the rooted forest: the tour has 2n entries (the assert at 193), min depth answers LCA and child queries, start/end answer ancestry, chain tops and the preorder list answer ancestor jumps; the table is built when asked for |
| WeightedLcaModel.WeightedLca.ReadyValid | rmq_lca/weighted_lca.cc:170-204 | after `build` every per-node table still has n entries |
| WeightedLcaModel.WeightedLca.Degree | rmq_lca/weighted_lca.cc:116-118 | never negative |
| WeightedLcaModel.WeightedLca.DegreeBefore | rmq_lca/weighted_lca.cc:116-118 | before building, the degree is the number of tree edges at v |
| WeightedLcaModel.WeightedLca.DegreeAfter | rmq_lca/weighted_lca.cc:116-118 | after building, the degree is still the number of tree edges at v |
| WeightedLcaModel.WeightedLca.QueryTables | rmq_lca/weighted_lca.cc:170-204 | a finished build with its table answers every query below |
| WeightedLcaModel.WeightedLca.ChainTables | rmq_lca/weighted_lca.cc:153-157 | a finished build answers ancestor jumps |
| WeightedLcaModel.WeightedLca.ScanTables | rmq_lca/weighted_lca.cc:180-189 | a finished build answers the diameter scan |
| WeightedLcaModel.WeightedLca.GetLca | rmq_lca/weighted_lca.cc:232-241 | equals the walk-up LCA, so it is the deepest common ancestor, or -1 for nodes of different trees |
| WeightedLcaModel.WeightedLca.IsAncestor | rmq_lca/weighted_lca.cc:243-245 | true exactly when a is b or an ancestor of b |
| WeightedLcaModel.WeightedLca.OnPath | rmq_lca/weighted_lca.cc:247-249 | true exactly when x is on the walk from a to b |
| WeightedLcaModel.WeightedLca.GetDist | rmq_lca/weighted_lca.cc:251-253 | the number of edges on the path |
| WeightedLcaModel.WeightedLca.GetWeightedDist | rmq_lca/weighted_lca.cc:255-257 | the total weight of the path's edges |
| WeightedLcaModel.WeightedLca.ChildAncestor | rmq_lca/weighted_lca.cc:259-269 | the child of a that is an ancestor of b (the asserts at 266-267) |
| WeightedLcaModel.WeightedLca.GetKthAncestor | rmq_lca/weighted_lca.cc:271-283 | the node k parent steps above a, or -1 when the walk leaves the tree |
| WeightedLcaModel.WeightedLca.GetKthNodeOnPath | rmq_lca/weighted_lca.cc:285-295 | a node of the tree, k edges from a and dist(a, b) - k edges from b |
| WeightedLcaModel.WeightedLca.GetCommonNode | rmq_lca/weighted_lca.cc:297-305 | in one tree, the pairwise LCA that all three LCAs are ancestors of; with nodes in different trees, the one LCA that is not -1, or -1 |
| WeightedLcaModel.WeightedLca.GetDiameter | rmq_lca/weighted_lca.cc:206-223 | the scan's maxima over the first tree's tour, and all -1 with no nodes; with no negative weight its ends lie in the first tree, its value is their weighted distance (the assert at 349), and no path there weighs more |
| WeightedLcaModel.WeightedLca.GetCenter | rmq_lca/weighted_lca.cc:225-230 | with unit weights, the two nodes floor(L/2) and ceil(L/2) edges along a longest path of length L |
| WeightedLcaModel.WeightedLca.AddAdjacentLcas | rmq_lca/weighted_lca.cc:317-318 | the list followed by the LCAs of its k - 1 adjacent pairs |
| WeightedLcaModel.WeightedLca.AttachParents | rmq_lca/weighted_lca.cc:323-326 | each entry paired with its LCA with the entry before it, the first one with -1 |
| WeightedLcaModel.WeightedLca.CompressTree | rmq_lca/weighted_lca.cc:307-329 | empty exactly for no nodes; at most 2k - 1 pairs; their nodes are exactly the LCA closure, closed and strictly in preorder; the first is the subtree's root with parent -1, and every other node's parent is its nearest listed proper ancestor |
| FlowGraph.Added | flow/projects_and_tools.cc:42-49 | the same number of lists, and every list other than u's and v's unchanged |
| FlowGraph.AddedPaired | flow/projects_and_tools.cc:45-48 | with non-negative capacities, adding an edge pair keeps every edge's reverse index pointing back at it |
| FlowGraph.AddedMoves | flow/projects_and_tools.cc:45-48 | new edges carry no flow: every node's net flow is unchanged |
| FlowGraph.Push | flow/projects_and_tools.cc:102-104 | the same number of lists, and only those of the edge's tail and head change |
| FlowGraph.PushPaired | flow/projects_and_tools.cc:103-104 | pushing at most the residual capacity keeps every edge paired with its reverse, capacities non-negative and each pair's total capacity |
| FlowGraph.PushMoves | flow/projects_and_tools.cc:103-104 | a push of p moves p units of net flow from the edge's tail to its head |
| FlowGraph.ReachSettles | flow/projects_and_tools.cc:137-148 | what is reachable in any number of hops is reachable within V hops |
| FlowGraph.ReachableStep | flow/projects_and_tools.cc:140-142 | a residual edge out of a reachable node leads to a reachable node |
| FlowGraph.CutListExact | flow/projects_and_tools.cc:156-160 | the cut list holds exactly the crossing edges out of marked nodes, with their used capacities |
| FlowGraph.CutExact | flow/projects_and_tools.cc:151-163 | the same, for the whole node range |
| FlowGraph.CutSaturated | flow/projects_and_tools.cc:151-163 | when the marked side is shut, every cut edge is saturated and carries its whole original capacity |
| DinicModel.TotalSet | flow/projects_and_tools.cc:63-68 | changing one distance changes the sum by the difference |
| DinicModel.SearchStart | flow/projects_and_tools.cc:71-73 | the BFS starts with only the source at distance 0, queued |
| DinicModel.ScanEdge | flow/projects_and_tools.cc:78-80 | one edge of a scan keeps the BFS invariant and lowers the distance sum or changes nothing |
| DinicModel.SearchEnd | flow/projects_and_tools.cc:75-83 | with the queue empty, every finite distance is a shortest residual hop count and every unreachable node is at INF |
| DinicModel.PushedNone | flow/projects_and_tools.cc:87-91 | a search that ends at once changes nothing |
| DinicModel.PushStep | flow/projects_and_tools.cc:100-105 | a search from a neighbour one level nearer, then the push along the edge, adds up |
| DinicModel.MarksDone | flow/projects_and_tools.cc:145-148 | at the end of the search the marked nodes are exactly the reachable ones, and no residual edge leaves them |
| DinicModel.Min | flow/projects_and_tools.cc:101 | the smaller of the two amounts |
| DinicModel.Dinic.constructor | flow/projects_and_tools.cc:29-32 | initialised for a non-negative count; otherwise V = -1 with no lists |
| DinicModel.Dinic.Init | flow/projects_and_tools.cc:34-40 | V nodes, empty lists, `flow_called` false, distance and pointer vectors resized |
| DinicModel.Dinic.AddEdge | flow/projects_and_tools.cc:42-49 | the lists become `Added`: the forward edge at u, the reverse at v, each indexing the other |
| DinicModel.Dinic.AddDirectionalEdge | flow/projects_and_tools.cc:51-53 | an edge pair with reverse capacity 0 |
| DinicModel.Dinic.AddBidirectionalEdge | flow/projects_and_tools.cc:55-57 | an edge pair with capacity c both ways |
| DinicModel.Dinic.ReverseEdge | flow/projects_and_tools.cc:59-61 | a different edge, whose reverse is the given edge |
| DinicModel.Dinic.BfsCheck | flow/projects_and_tools.cc:63-68 | an improvement lowers the distance and queues the node; otherwise nothing changes |
| DinicModel.Dinic.ScanOne | flow/projects_and_tools.cc:79-80 | one edge of the popped node checked |
| DinicModel.Dinic.Scan | flow/projects_and_tools.cc:78-80 | all edges of the popped node checked; the distance sum falls or nothing changes |
| DinicModel.Dinic.Bfs | flow/projects_and_tools.cc:70-84 | the distances are the shortest residual hop counts from the source, INF for unreachable nodes, and the result says whether the sink is reachable |
| DinicModel.Dinic.Augment | flow/projects_and_tools.cc:102-104 | the edge loses p capacity, its reverse gains p, and p units of net flow move from its tail to its head |
| DinicModel.Dinic.Route | flow/projects_and_tools.cc:100-105 | the search through one edge moves at most the path capacity from `node` to the sink |
| DinicModel.Dinic.Dfs | flow/projects_and_tools.cc:86-116 | returns between 0 and `path_cap`, keeps every edge paired with its reverse and the pointers in range, moves exactly that much net flow from `node` to the sink, and leaves the lists and pointers of lower-level nodes alone |
| DinicModel.Dinic.Flow | flow/projects_and_tools.cc:118-133 | `flow_called` set; the returned total moved from source to sink; 0 <= total <= cap; no flow and no change when the sink is unreachable; with a cap of at most 0 the loop never runs, and the graph and the search state are unchanged; on a normal end the cap is used up or the sink is unreachable |
| DinicModel.Dinic.ReachableDfs | flow/projects_and_tools.cc:137-143 | marks `node`, keeps the earlier marks, and leaves every newly marked node with no residual edge to an unmarked one |
| DinicModel.Dinic.SolveReachable | flow/projects_and_tools.cc:145-148 | marks exactly the nodes residually reachable from the source |
| DinicModel.Dinic.MinCut | flow/projects_and_tools.cc:150-163 | exactly the crossing used edges out of the source side, each saturated and carrying its original capacity |
| DinicModel.Dinic.FindEdge | flow/projects_and_tools.cc:165-172 | the first edge of a to b, or -1 exactly when there is none |
| ProjectsModel.OriginalsShape | flow/projects_and_tools.cc:20 | residual changes keep the original capacities |
| ProjectsModel.FlowWithinBudget | flow/projects_and_tools.cc:242-244 | a node with no incoming flow can move out at most its original capacities |
| ProjectsModel.RewardsOut | flow/projects_and_tools.cc:214-222 | the reward edges add the reward sum to the source's original capacities, carry no flow, and lead to projects 0..P-1 |
| ProjectsModel.ToolsElsewhere | flow/projects_and_tools.cc:224-228 | the tool edges leave the source's list alone |
| ProjectsModel.AddedFrom | flow/projects_and_tools.cc:45-47 | an edge from u to another node appends one edge to u's list |
| ProjectsModel.ProjectsAndTools.Unset | flow/projects_and_tools.cc:187 | a solver whose graph has no nodes |
| ProjectsModel.ProjectsAndTools.constructor | flow/projects_and_tools.cc:189-191 | P projects, T tools, no edges |
| ProjectsModel.ProjectsAndTools.FromCosts | flow/projects_and_tools.cc:193-196 | the layout for the given rewards and costs, with their edges and the reward total |
| ProjectsModel.ProjectsAndTools.Init | flow/projects_and_tools.cc:198-205 | V = P + T + 2, source V - 2, sink V - 1, an empty graph of V nodes |
| ProjectsModel.ProjectsAndTools.InitWith | flow/projects_and_tools.cc:207-212 | the layout, the reward edges then the tool edges, and the reward total |
| ProjectsModel.ProjectsAndTools.AddReward | flow/projects_and_tools.cc:219 | the source-to-project edge with the reward |
| ProjectsModel.ProjectsAndTools.SetProjects | flow/projects_and_tools.cc:214-222 | one source edge per project in turn; the total is the reward sum, which is also the source's original capacity gain |
| ProjectsModel.ProjectsAndTools.SetTools | flow/projects_and_tools.cc:224-228 | one tool-to-sink edge per tool in turn; the source's list is untouched |
| ProjectsModel.ProjectsAndTools.AddDependency | flow/projects_and_tools.cc:230-234 | an edge of the largest capacity from the project to the tool node |
| ProjectsModel.ProjectsAndTools.AddProjectDependency | flow/projects_and_tools.cc:236-240 | an edge of the largest capacity from p1 to p2 |
| ProjectsModel.ProjectsAndTools.Solve | flow/projects_and_tools.cc:242-244 | the profit is the reward total minus the flow moved from source to sink, never negative before any flow; it is the whole total when the sink is unreachable |
| ProjectsModel.ProjectsAndTools.ChosenProjects | flow/projects_and_tools.cc:246-261 | ascending; exactly the projects with no edge from the source into them in the cut |
| ProjectsModel.ProjectsAndTools.CutFromSource | flow/projects_and_tools.cc:250-252 | a cut entry from the source leads to a project |
| ProjectsModel.ProjectsAndTools.UncutByCut | flow/projects_and_tools.cc:250-252 | no cut entry is from the source to project i exactly when no source edge into i crosses |
| ProjectsModel.ProjectsAndTools.SourceSideProjects | flow/projects_and_tools.cc:246-261 | ascending; exactly the projects on the source side of the cut |
| ProjectsModel.SourceSideAgrees | flow/projects_and_tools.cc:246-261 | a source-side project is never cut; another one is left uncut only when all its source edges have original capacity 0 |
| ProjectsModel.ZeroRewardChosen | flow/projects_and_tools.cc:246-261 | with one project of reward 0 that needs a tool of cost 5, the project is off the source side, yet no source edge into it is cut |

## Left out

- Integer widths. `int` and `int64_t` are unbounded here. `IntLimit` (2^31) bounds the node count, as a 32-bit `int` would. `Inf` (10^9 + 5) stands for `INF`. `MaxCost` (2^63 - 1) stands for `numeric_limits<cost_t>::max()`. Overflow of sums of weights, rewards or flows is not modelled.
- Templates. `T_weight`, `flow_t` and `cost_t` are all `int`. `RMQ<T, maximum_mode>` is `Rmq` over `int`, with `maximumMode` as a field.
- `main` of both files, and all input and output, are not part of this model.
- Running time, recursion depth and Dinic's bound on the number of phases are not modelled.
- Library algorithms. `std::sort` is `Seqs.SortByKey`, an insertion sort. `inplace_merge` is `Seqs.Merge` and `unique` is `Seqs.Unique`. The proofs use only what the library promises: a sorted permutation.
- Edge references. `reverse_edge` and `find_edge` return positions (the pair `(node, index)`, or an index with -1 for none) rather than pointers, so aliasing through a returned reference is not modelled.
- WeightedLcaModel.WeightedLca.Build: takes the rooted forest as a ghost witness `g` with weights `gw`. The witness must be an undirected forest whose lists hold each tree edge at both ends with the same weight (`Describes`), rooted as `build` roots it (`CanonicalRoots`). The model does not prove that such a witness exists for every forest `add_edge` builds, and lists that are not a forest are outside the model.
- WeightedLcaModel.WeightedLca.OnPath: requires `a` and `b` in one tree. Across trees the C++ code indexes a table at -1 (lines 247-249).
- WeightedLcaModel.WeightedLca.GetDist: requires `a` and `b` in one tree. Across trees the C++ code reads `depth[-1]` (lines 251-253).
- WeightedLcaModel.WeightedLca.GetWeightedDist: requires `a` and `b` in one tree. Across trees the C++ code reads `weight_depth[-1]` (lines 255-257).
- WeightedLcaModel.WeightedLca.GetKthNodeOnPath: requires `a` and `b` in one tree, and the assert at line 289 (0 <= k <= path length) as a precondition.
- WeightedLcaModel.WeightedLca.GetKthAncestor: requires -1 <= a < n and k >= 0. A more negative `a` is returned unchanged by the C++ code; a negative `k` can index the preorder list out of range.
- WeightedLcaModel.WeightedLca.ChildAncestor: the asserts at lines 261-262 (a != b, a an ancestor of b) are preconditions.
- WeightedLcaModel.WeightedLca.CompressTree: requires every node of the input in one tree (`OneTree`). The C++ code does not check this; across trees its LCAs are -1 and its output is not a tree.
- WeightedLcaModel.WeightedLca.GetDiameter: the value equals the weighted distance between its ends, and is maximal, only with no negative weight. `main` asserts the equality unconditionally (line 349), which fails with negative weights. Example: a root 0 with children 1 (weight -10) and 2 (weight 1). The scan returns 21 with ends 0 and 2, where the distance is 1. The scan covers only the first tree of a forest.
- WeightedLcaModel.WeightedLca.GetCenter: only with unit weights, and n > 0. With other weights, `length / 2` need not be a hop count on the path, and the assert inside `get_kth_node_on_path` can fail. With n == 0 the C++ code indexes at -1.
- SparseTable.Rmq.QueryIndex: the assert at line 47 (0 <= a < b <= n) is a precondition.
- DinicModel.Dinic.AddEdge: the asserts at lines 43-44 (endpoints in range, capacities non-negative) are preconditions, as in the edge helpers built on it.
- DinicModel.Dinic.constructor: requires fewer than `Inf` nodes, so that every BFS distance stays below `INF`. `Init` requires the same.
- DinicModel.Dinic.Flow: the assert at line 127 (a BFS that reaches the sink yields a positive increment) is not proved. The method instead ends with `stalled` set when an increment is 0. That every phase pushes flow, and that a normal end is a maximum flow (max-flow equals min-cut), are not proved.
- ProjectsModel.ProjectsAndTools.Solve: inherits `Flow`'s `stalled` outcome. That the profit is the best one over all project choices is not proved.
- ProjectsModel.ProjectsAndTools.Init: requires non-negative counts `P` and `T` and P + T + 2 < `Inf`; so does the constructor. The C++ `init` does not check the counts, and a negative one fails later, at an `_add_edge` assert or an out-of-range index.
- ProjectsModel.ProjectsAndTools.SetProjects: requires non-negative rewards, and SetTools non-negative costs, as does InitWith; the C++ code asserts this when it adds the edges (line 44).
- ProjectsModel.ProjectsAndTools.Unset: the default constructor leaves `P`, `T` and the totals unset, as the C++ code leaves them uninitialised.

## Findings

| source | as written | input that shows it | evidently intended | confidence | as-written member | corrected member |
|---|---|---|---|---|---|---|
| flow/projects_and_tools.cc:246-261, with `min_cut` at 151-163 | `chosen_projects` drops only projects whose source edge is in the cut. `min_cut` lists only edges with some flow (capacity below original). So a project of reward 0 off the source side is never dropped and is returned as chosen. | P = 1, T = 1, reward {0}, tool cost {5}, `add_dependency(0, 0)`. `solve()` gives 0, yet `chosen_projects()` gives [0], which needs the tool at cost 5 and earns -5. | the projects on the source side of the minimum cut, whose profit is what `solve()` returns | not executed | ProjectsModel.ProjectsAndTools.ChosenProjects, shown by ProjectsModel.ZeroRewardChosen | ProjectsModel.ProjectsAndTools.SourceSideProjects, with ProjectsModel.SourceSideAgrees |

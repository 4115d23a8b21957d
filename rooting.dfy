/**
 * The rooting pass of the tree structure: a depth-first search over the
 * undirected adjacency lists that records each node's parent, depth, weighted
 * depth, edge weight from the parent and subtree size, deletes the edge back
 * to the parent from each list, and sorts each list heaviest subtree first.
 * The search is specified against a rooted forest `g` with edge weights `gw`
 * whose undirected adjacency the lists are (Graph.Describes).
 */
module Rooting {
  import opened Forest
  import opened Tours
  import opened Graph
  import opened Seqs

  /** The per-node tables the rooting pass reads and writes. */
  datatype View = View(adj: seq<seq<Edge>>, parent: seq<int>, depth: seq<int>,
                       size: seq<int>, wdepth: seq<int>, up: seq<int>)

  ghost predicate Sized(v: View, n: int)
  {
    && |v.adj| == n && |v.parent| == n && |v.depth| == n
    && |v.size| == n && |v.wdepth| == n && |v.up| == n
  }

  /** Number of edges from `u` up to its root. */
  ghost function Depth(g: Tree, u: int): nat
    requires IsNode(g, u)
    decreases g.rank[u]
  {
    if g.par[u] < 0 then 0 else Depth(g, g.par[u]) + 1
  }

  /** Sum of the edge weights from `u` up to its root. */
  ghost function WDepth(g: Tree, gw: seq<int>, u: int): int
    requires IsNode(g, u)
    decreases g.rank[u]
  {
    if g.par[u] < 0 then 0 else WDepth(g, gw, g.par[u]) + At(gw, u)
  }

  lemma DepthIsDepth(g: Tree, depth: seq<int>)
    requires |depth| == |g.par| && forall u :: 0 <= u < |g.par| ==> depth[u] == Depth(g, u)
    ensures DepthOk(g, depth)
  {
  }

  lemma WDepthIsWeightDepth(g: Tree, gw: seq<int>, wdepth: seq<int>, up: seq<int>)
    requires |wdepth| == |g.par| && |up| == |g.par|
    requires forall u :: 0 <= u < |g.par| ==> wdepth[u] == WDepth(g, gw, u)
    requires forall u :: 0 <= u < |g.par| && g.par[u] >= 0 ==> up[u] == At(gw, u)
    ensures WeightOk(g, wdepth, up)
  {
  }

  /** Heavier subtrees first, by the sizes in `size`. */
  function HeavyKey(size: seq<int>): Edge -> int
  {
    (e: Edge) => -At(size, e.node)
  }

  /** Heavier subtrees first, by the true subtree sizes of `g`. */
  ghost function SizeKey(g: Tree): Edge -> int
  {
    (e: Edge) => -(Size(g, e.node) as int)
  }

  /** What the search leaves behind at a node it has finished. */
  ghost predicate Done(g: Tree, gw: seq<int>, v: View, u: int)
  {
    && Sized(v, |g.par|) && IsNode(g, u)
    && v.parent[u] == g.par[u]
    && v.depth[u] == Depth(g, u)
    && v.wdepth[u] == WDepth(g, gw, u)
    && (g.par[u] >= 0 ==> v.up[u] == At(gw, u))
    && v.size[u] == Size(g, u)
    && multiset(v.adj[u]) == multiset(DownEdges(g.kids[u], gw))
    && SortedBy(v.adj[u], SizeKey(g))
  }

  /** A node the search has not reached: no parent yet, and all its edges. */
  ghost predicate Fresh(g: Tree, gw: seq<int>, v: View, u: int)
  {
    && Sized(v, |g.par|) && IsNode(g, u) && |gw| == |g.par|
    && v.parent[u] == -1
    && multiset(v.adj[u]) == multiset(Incident(g, gw, u))
  }

  /** Nothing recorded for `u` differs between `v` and `w`. */
  ghost predicate Same(v: View, w: View, u: int)
  {
    && 0 <= u < |v.adj| && 0 <= u < |w.adj|
    && 0 <= u < |v.parent| && 0 <= u < |w.parent|
    && 0 <= u < |v.depth| && 0 <= u < |w.depth|
    && 0 <= u < |v.size| && 0 <= u < |w.size|
    && 0 <= u < |v.wdepth| && 0 <= u < |w.wdepth|
    && 0 <= u < |v.up| && 0 <= u < |w.up|
    && v.adj[u] == w.adj[u] && v.parent[u] == w.parent[u] && v.depth[u] == w.depth[u]
    && v.size[u] == w.size[u] && v.wdepth[u] == w.wdepth[u] && v.up[u] == w.up[u]
  }

  lemma DoneSame(g: Tree, gw: seq<int>, v: View, w: View, u: int)
    requires Done(g, gw, v, u) && Same(v, w, u) && Sized(w, |g.par|)
    ensures Done(g, gw, w, u)
  {
  }

  lemma FreshSame(g: Tree, gw: seq<int>, v: View, w: View, u: int)
    requires Fresh(g, gw, v, u) && Same(v, w, u) && Sized(w, |g.par|)
    ensures Fresh(g, gw, w, u)
  {
  }

  /** An edge down from `v` leads to a child of `v` and carries that child's weight. */
  lemma DownEdge(g: Tree, gw: seq<int>, v: int, l: seq<Edge>, e: Edge)
    requires IsNode(g, v) && multiset(l) == multiset(DownEdges(g.kids[v], gw)) && e in l
    ensures IsNode(g, e.node) && g.par[e.node] == v && e == Edge(e.node, At(gw, e.node))
    ensures e.node in g.kids[v]
  {
    var down := DownEdges(g.kids[v], gw);
    assert e in multiset(down);
    var i :| 0 <= i < |down| && down[i] == e;
  }

  /** The endpoints of a permutation of the edges down from `v` are `v`'s children, each once. */
  lemma DownNodesDistinct(g: Tree, gw: seq<int>, v: int, l: seq<Edge>)
    requires Complete(g) && IsNode(g, v) && multiset(l) == multiset(DownEdges(g.kids[v], gw))
    ensures Distinct(Nodes(l))
  {
    NodesPermutation(DownEdges(g.kids[v], gw), l);
    assert Distinct(g.kids[v]);
    DistinctPermutation(g.kids[v], Nodes(l));
  }

  ghost function TrueSizes(g: Tree): (r: seq<int>)
    ensures |r| == |g.par| && forall u :: 0 <= u < |g.par| ==> r[u] == Size(g, u)
  {
    seq(|g.par|, u requires 0 <= u < |g.par| => Size(g, u))
  }

  /** The sizes of the first `i` children add up as in the tour definitions. */
  lemma {:induction false} SizeKidsAsSum(g: Tree, gw: seq<int>, v: int, i: int)
    requires IsNode(g, v) && 0 <= i <= |g.kids[v]|
    ensures SizeKids(g, v, i) == SumSizes(DownEdges(g.kids[v], gw)[..i], TrueSizes(g))
    decreases i
  {
    var down := DownEdges(g.kids[v], gw);
    if i > 0 {
      SizeKidsAsSum(g, gw, v, i - 1);
      assert down[..i] == down[..i - 1] + [down[i - 1]];
      SumSizesAppend(down[..i - 1], down[i - 1], TrueSizes(g));
    }
  }

  /** The subtree size is one more than the sizes of the edges down, in any order. */
  lemma SizeFromEdges(g: Tree, gw: seq<int>, v: int, l: seq<Edge>)
    requires IsNode(g, v) && multiset(l) == multiset(DownEdges(g.kids[v], gw))
    ensures Size(g, v) == 1 + SumSizes(l, TrueSizes(g))
  {
    var down := DownEdges(g.kids[v], gw);
    SizeKidsAsSum(g, gw, v, |g.kids[v]|);
    assert down[..|g.kids[v]|] == down;
    SumSizesPermutation(l, down, TrueSizes(g));
  }

  /** Which child's subtree of `node` the descendant `u` sits in, as a position in `edges`. */
  ghost function Slot(g: Tree, edges: seq<Edge>, node: int, u: int): int
    requires IsNode(g, u) && Anc(g, node, u) && u != node
  {
    IndexOf(Nodes(edges), ChildToward(g, node, u))
  }

  lemma SlotOfChild(g: Tree, gw: seq<int>, edges: seq<Edge>, node: int, i: int, u: int)
    requires Complete(g) && IsNode(g, node) && multiset(edges) == multiset(DownEdges(g.kids[node], gw))
    requires 0 <= i < |edges| && IsNode(g, u) && Anc(g, edges[i].node, u)
    ensures Anc(g, node, u) && u != node && Slot(g, edges, node, u) == i
  {
    DownEdge(g, gw, node, edges, edges[i]);
    ChildTowardOfChild(g, node, edges[i].node, u);
    DownNodesDistinct(g, gw, node, edges);
    IndexOfDistinct(Nodes(edges), i);
  }

  /** Every proper descendant of `node` sits below one of the edges down. */
  lemma SlotInRange(g: Tree, gw: seq<int>, edges: seq<Edge>, node: int, u: int)
    requires Complete(g) && IsNode(g, node) && multiset(edges) == multiset(DownEdges(g.kids[node], gw))
    requires IsNode(g, u) && Anc(g, node, u) && u != node
    ensures 0 <= Slot(g, edges, node, u) < |edges|
    ensures Anc(g, edges[Slot(g, edges, node, u)].node, u)
  {
    var c := ChildToward(g, node, u);
    assert c in g.kids[node];
    NodesPermutation(DownEdges(g.kids[node], gw), edges);
    assert c in multiset(Nodes(edges));
  }

  /** Keys that agree on the elements keep a sequence sorted. */
  lemma SortedByAgree<T>(s: seq<T>, k1: T -> int, k2: T -> int)
    requires SortedBy(s, k1)
    requires forall i :: 0 <= i < |s| ==> k1(s[i]) == k2(s[i])
    ensures SortedBy(s, k2)
  {
  }

  /**
   * The search below `node` has finished the subtrees of the first `i` edges
   * down and has left every other node other than `node` as it was in `v0`.
   */
  ghost predicate Progress(g: Tree, gw: seq<int>, v0: View, v: View, node: int, edges: seq<Edge>, i: int)
  {
    && Sized(v, |g.par|)
    && (forall u :: 0 <= u < |g.par| && Anc(g, node, u) && u != node ==>
          (Slot(g, edges, node, u) < i ==> Done(g, gw, v, u)) &&
          (Slot(g, edges, node, u) >= i ==> Same(v0, v, u)))
    && (forall u :: 0 <= u < |g.par| && !Anc(g, node, u) ==> Same(v0, v, u))
  }

  /** What the search has done at `node` before its first child: `v0` is the state it found. */
  ghost predicate Entered(g: Tree, gw: seq<int>, v0: View, v: View, node: int, edges: seq<Edge>)
  {
    && IsNode(g, node)
    && Progress(g, gw, v0, v, node, edges, 0)
    && v.adj[node] == edges
    && multiset(edges) == multiset(DownEdges(g.kids[node], gw))
    && v.parent[node] == g.par[node] && v.depth[node] == Depth(g, node)
    && v.wdepth[node] == WDepth(g, gw, node) && v.size[node] == 1 && v.up == v0.up
  }

  /**
   * Recording `node`'s parent, depth, size and weighted depth and deleting the
   * edge back to the parent leaves exactly the edges down in `node`'s list.
   */
  lemma EnterOk(g: Tree, gw: seq<int>, v0: View, v: View, node: int, edges: seq<Edge>)
    requires Complete(g) && Sized(v0, |g.par|) && Fresh(g, gw, v0, node)
    requires g.par[node] >= 0 ==> v0.depth[g.par[node]] == Depth(g, g.par[node])
    requires v.adj == v0.adj[node := Erased(v0.adj[node], g.par[node])]
    requires v.parent == v0.parent[node := g.par[node]]
    requires v.depth == v0.depth[node := if g.par[node] < 0 then 0 else v0.depth[g.par[node]] + 1]
    requires v.size == v0.size[node := 1] && v.wdepth == v0.wdepth[node := WDepth(g, gw, node)]
    requires v.up == v0.up && edges == v.adj[node]
    ensures Entered(g, gw, v0, v, node, edges)
  {
    EraseParentEdge(g, gw, node, v0.adj[node]);
    EnterOthers(g, gw, v0, v, node, edges);
  }

  /** Only `node`'s entries changed, so the search below it is at its start. */
  lemma EnterOthers(g: Tree, gw: seq<int>, v0: View, v: View, node: int, edges: seq<Edge>)
    requires Complete(g) && Sized(v0, |g.par|) && Sized(v, |g.par|) && IsNode(g, node)
    requires forall u :: 0 <= u < |g.par| && u != node ==>
               v.adj[u] == v0.adj[u] && v.parent[u] == v0.parent[u] && v.depth[u] == v0.depth[u]
    requires forall u :: 0 <= u < |g.par| && u != node ==>
               v.size[u] == v0.size[u] && v.wdepth[u] == v0.wdepth[u] && v.up[u] == v0.up[u]
    requires multiset(edges) == multiset(DownEdges(g.kids[node], gw))
    ensures Progress(g, gw, v0, v, node, edges, 0)
  {
    forall u | 0 <= u < |g.par| && Anc(g, node, u) && u != node
      ensures Slot(g, edges, node, u) >= 0 && Same(v0, v, u)
    {
      SlotInRange(g, gw, edges, node, u);
    }
  }

  /** Entering the `i`th child: its whole subtree is still unreached. */
  lemma ChildFresh(g: Tree, gw: seq<int>, v0: View, v: View, w: View, node: int, edges: seq<Edge>, i: int)
    requires Complete(g) && IsNode(g, node) && multiset(edges) == multiset(DownEdges(g.kids[node], gw))
    requires 0 <= i < |edges| && Progress(g, gw, v0, v, node, edges, i)
    requires forall u :: 0 <= u < |g.par| && Anc(g, node, u) ==> Fresh(g, gw, v0, u)
    requires Sized(w, |g.par|) && w.adj == v.adj && w.parent == v.parent
    ensures forall u :: 0 <= u < |g.par| && Anc(g, edges[i].node, u) ==> Fresh(g, gw, w, u)
  {
    forall u | 0 <= u < |g.par| && Anc(g, edges[i].node, u)
      ensures Fresh(g, gw, w, u)
    {
      SlotOfChild(g, gw, edges, node, i, u);
      assert Same(v0, v, u);
    }
  }

  /**
   * Leaving the `i`th child `c`: `v2` is `v1` with the weight above `c`
   * recorded, the search below `c` turned `v2` into `v3`, and `v4` adds the
   * size of `c` to that of `node`.
   */
  lemma ChildDone(g: Tree, gw: seq<int>, v0: View, v1: View, v2: View, v3: View, v4: View,
                  node: int, edges: seq<Edge>, i: int)
    requires Complete(g) && IsNode(g, node) && multiset(edges) == multiset(DownEdges(g.kids[node], gw))
    requires 0 <= i < |edges| && Progress(g, gw, v0, v1, node, edges, i)
    requires 0 <= edges[i].node < |g.par| && Sized(v3, |g.par|)
    requires v2 == v1.(up := v1.up[edges[i].node := edges[i].weight])
    requires forall u :: 0 <= u < |g.par| && Anc(g, edges[i].node, u) ==> Done(g, gw, v3, u)
    requires forall u :: 0 <= u < |g.par| && !Anc(g, edges[i].node, u) ==> Same(v2, v3, u)
    requires Sized(v4, |g.par|) && v4 == v3.(size := v3.size[node := v4.size[node]])
    ensures Progress(g, gw, v0, v4, node, edges, i + 1)
    ensures v4.adj[node] == v1.adj[node] && v4.parent[node] == v1.parent[node]
    ensures v4.depth[node] == v1.depth[node] && v4.wdepth[node] == v1.wdepth[node] && v4.up[node] == v1.up[node]
    ensures v3.size[node] == v1.size[node] && v3.size[edges[i].node] == Size(g, edges[i].node)
  {
    var c := edges[i].node;
    DownEdge(g, gw, node, edges, edges[i]);
    if Anc(g, c, node) {
      AncRank(g, c, node);
    }
    assert Same(v2, v3, node);
    assert Done(g, gw, v3, c);
    forall u | 0 <= u < |g.par| && Anc(g, node, u) && u != node
      ensures (Slot(g, edges, node, u) < i + 1 ==> Done(g, gw, v4, u)) &&
              (Slot(g, edges, node, u) >= i + 1 ==> Same(v0, v4, u))
    {
      SlotInRange(g, gw, edges, node, u);
      if Anc(g, c, u) {
        SlotOfChild(g, gw, edges, node, i, u);
        DoneSame(g, gw, v3, v4, u);
      } else {
        assert Same(v1, v2, u) && Same(v2, v3, u) && Same(v3, v4, u);
        if Slot(g, edges, node, u) < i {
          DoneSame(g, gw, v1, v4, u);
        }
      }
    }
    forall u | 0 <= u < |g.par| && !Anc(g, node, u)
      ensures Same(v0, v4, u)
    {
      if Anc(g, c, u) {
        ChildTowardOfChild(g, node, c, u);
      }
      assert Same(v1, v2, u) && Same(v2, v3, u) && Same(v3, v4, u);
    }
  }

  /**
   * After the last child: sorting the edges down heaviest first finishes
   * `node` itself, given its own entries in `v`.
   */
  lemma NodeDone(g: Tree, gw: seq<int>, v0: View, v: View, w: View, node: int, edges: seq<Edge>, sorted: seq<Edge>)
    requires Complete(g) && |gw| == |g.par| && IsNode(g, node)
    requires multiset(edges) == multiset(DownEdges(g.kids[node], gw))
    requires Progress(g, gw, v0, v, node, edges, |edges|)
    requires v.parent[node] == g.par[node] && v.depth[node] == Depth(g, node)
    requires v.wdepth[node] == WDepth(g, gw, node) && (g.par[node] >= 0 ==> v.up[node] == At(gw, node))
    requires v.size[node] == Size(g, node)
    requires multiset(sorted) == multiset(edges) && SortedBy(sorted, HeavyKey(v.size))
    requires w == v.(adj := v.adj[node := sorted])
    ensures forall u :: 0 <= u < |g.par| && Anc(g, node, u) ==> Done(g, gw, w, u)
    ensures forall u :: 0 <= u < |g.par| && !Anc(g, node, u) ==> Same(v0, w, u)
  {
    forall k | 0 <= k < |sorted|
      ensures HeavyKey(v.size)(sorted[k]) == SizeKey(g)(sorted[k])
    {
      var e := sorted[k];
      assert e in multiset(edges);
      DownEdge(g, gw, node, edges, e);
      assert e in edges;
      var j :| 0 <= j < |edges| && edges[j] == e;
      SlotOfChild(g, gw, edges, node, j, e.node);
      assert Done(g, gw, v, e.node);
    }
    SortedByAgree(sorted, HeavyKey(v.size), SizeKey(g));
    forall u | 0 <= u < |g.par| && Anc(g, node, u)
      ensures Done(g, gw, w, u)
    {
      if u != node {
        SlotInRange(g, gw, edges, node, u);
        DoneSame(g, gw, v, w, u);
      }
    }
  }
}

/**
 * The weighted lowest-common-ancestor structure over a forest given as
 * undirected weighted adjacency lists.  `Build` roots every tree, records
 * depths, weighted depths and subtree sizes, orders children heaviest first,
 * lays the forest out as an Euler tour and a preorder, records the heavy
 * chains, and builds a range-minimum table over the depths along the tour.
 * The queries answer from these tables; each is proved against the naive
 * parent-walking definitions of module Forest.
 */
module WeightedLcaModel {
  import opened Forest
  import opened Tours
  import opened Layout
  import opened Tables
  import opened Seqs
  import opened Graph
  import opened Rooting
  import opened SparseTable
  import opened Touring
  import opened Building
  import opened Paths
  import opened Bits
  import opened Diameter
  import opened Compress

  const IntLimit := 0x8000_0000

  /** `n` empty adjacency lists. */
  function NoEdges(n: nat): (r: seq<seq<Edge>>)
    ensures |r| == n && forall i :: 0 <= i < n ==> r[i] == []
  {
    seq(n, _ => [])
  }

  /** `n` zeros. */
  function Zeros(n: nat): (r: seq<int>)
    ensures |r| == n && forall i :: 0 <= i < n ==> r[i] == 0
  {
    seq(n, _ => 0)
  }

  class WeightedLca {
    var n: int
    var adj: seq<seq<Edge>>
    var parent: seq<int>
    var depth: seq<int>
    var subtreeSize: seq<int>
    var weightDepth: seq<int>
    var upWeight: seq<int>
    var euler: seq<int>
    var firstOccurrence: seq<int>
    var tourStart: seq<int>
    var tourEnd: seq<int>
    var postorder: seq<int>
    var tourList: seq<int>
    var revTourList: seq<int>
    var heavyRoot: seq<int>
    const rmq: Rmq
    var built: bool
    var tour: int
    var postTour: int

    /** Every per-node table has one entry per node. */
    ghost predicate Valid()
      reads this`n, this`adj, this`parent, this`depth, this`subtreeSize, this`weightDepth, this`upWeight
      reads this`firstOccurrence, this`tourStart, this`tourEnd, this`postorder, this`tourList, this`heavyRoot
    {
      RootSized() && TourSized()
    }

    /** The adjacency and rooting tables have one entry per node. */
    ghost predicate RootSized()
      reads this`n, this`adj, this`parent, this`depth, this`subtreeSize, this`weightDepth, this`upWeight
    {
      0 <= n < IntLimit && ViewSized(Snap(), n) && !rmq.maximumMode
    }

    /** The tour tables have one entry per node. */
    ghost predicate TourSized()
      reads this`n, this`firstOccurrence, this`tourStart, this`tourEnd, this`postorder, this`tourList, this`heavyRoot
    {
      TSized(TSnap(), n) && |tourList| == n
    }

    ghost function Snap(): View
      reads this`adj, this`parent, this`depth, this`subtreeSize, this`weightDepth, this`upWeight
    {
      View(adj, parent, depth, subtreeSize, weightDepth, upWeight)
    }

    constructor (size: int)
      requires 0 <= size < IntLimit
      ensures Valid() && n == size && !built && fresh(rmq)
      ensures adj == NoEdges(size) && upWeight == Zeros(size)
    {
      n := size;
      adj := NoEdges(size);
      parent, depth, subtreeSize := Zeros(size), Zeros(size), Zeros(size);
      weightDepth, upWeight := Zeros(size), Zeros(size);
      firstOccurrence, tourStart, tourEnd := Zeros(size), Zeros(size), Zeros(size);
      postorder, tourList, heavyRoot := Zeros(size), Zeros(size), Zeros(size);
      revTourList, euler := [], [];
      tour, postTour := 0, 0;
      built := false;
      rmq := new Rmq(false, []);
    }

    /** Takes the adjacency lists as given; does not build. */
    constructor FromAdj(lists: seq<seq<Edge>>)
      requires |lists| < IntLimit
      ensures Valid() && n == |lists| && adj == lists && !built && fresh(rmq)
      ensures upWeight == Zeros(|lists|)
    {
      var size := |lists|;
      n := size;
      adj := lists;
      parent, depth, subtreeSize := Zeros(size), Zeros(size), Zeros(size);
      weightDepth, upWeight := Zeros(size), Zeros(size);
      firstOccurrence, tourStart, tourEnd := Zeros(size), Zeros(size), Zeros(size);
      postorder, tourList, heavyRoot := Zeros(size), Zeros(size), Zeros(size);
      revTourList, euler := [], [];
      tour, postTour := 0, 0;
      built := false;
      rmq := new Rmq(false, []);
    }

    /**
     * The tables after `init(size)`: `size` empty lists and zero edge weights,
     * every other per-node table cut or zero-padded from `v0`, `w0` and `l0`.
     */
    ghost predicate ResizedFrom(v0: View, w0: TourView, l0: seq<int>, size: nat)
      reads this`n, this`adj, this`parent, this`depth, this`subtreeSize, this`weightDepth, this`upWeight
      reads this`firstOccurrence, this`tourStart, this`tourEnd, this`postorder, this`tourList, this`heavyRoot
    {
      var s := size;
      && n == s && adj == NoEdges(s) && upWeight == Zeros(s)
      && parent == Resize(v0.parent, s) && depth == Resize(v0.depth, s)
      && subtreeSize == Resize(v0.size, s) && weightDepth == Resize(v0.wdepth, s)
      && firstOccurrence == Resize(w0.first, s) && tourStart == Resize(w0.start, s)
      && tourEnd == Resize(w0.end, s) && postorder == Resize(w0.post, s)
      && tourList == Resize(l0, s) && heavyRoot == Resize(w0.top, s)
    }

    /** Empty adjacency on `size` nodes; the other tables are resized, keeping old entries. */
    method Init(size: int)
      requires Valid() && 0 <= size < IntLimit
      modifies this`n, this`adj, this`parent, this`depth, this`subtreeSize, this`weightDepth, this`upWeight
      modifies this`firstOccurrence, this`tourStart, this`tourEnd, this`postorder, this`tourList, this`heavyRoot
      modifies this`built
      ensures Valid() && !built && ResizedFrom(old(Snap()), old(TSnap()), old(tourList), size)
    {
      ResetRooting(size);
      ResizeTour(size);
    }

    /** The adjacency and edge-weight part of `init`, with the rooting tables resized. */
    method ResetRooting(size: nat)
      modifies this`n, this`adj, this`parent, this`depth, this`subtreeSize, this`weightDepth, this`upWeight
      modifies this`built
      ensures n == size && adj == NoEdges(size) && upWeight == Zeros(size) && !built
      ensures parent == Resize(old(parent), size) && depth == Resize(old(depth), size)
      ensures subtreeSize == Resize(old(subtreeSize), size) && weightDepth == Resize(old(weightDepth), size)
    {
      n, adj, upWeight, built := size, NoEdges(size), Zeros(size), false;
      parent, depth := Resize(parent, size), Resize(depth, size);
      subtreeSize, weightDepth := Resize(subtreeSize, size), Resize(weightDepth, size);
    }

    /** The tour tables resized, keeping old entries. */
    method ResizeTour(size: nat)
      modifies this`firstOccurrence, this`tourStart, this`tourEnd, this`postorder, this`tourList, this`heavyRoot
      ensures firstOccurrence == Resize(old(firstOccurrence), size)
      ensures tourStart == Resize(old(tourStart), size) && tourEnd == Resize(old(tourEnd), size)
      ensures postorder == Resize(old(postorder), size) && tourList == Resize(old(tourList), size)
      ensures heavyRoot == Resize(old(heavyRoot), size)
    {
      firstOccurrence, tourStart := Resize(firstOccurrence, size), Resize(tourStart, size);
      tourEnd, postorder := Resize(tourEnd, size), Resize(postorder, size);
      tourList, heavyRoot := Resize(tourList, size), Resize(heavyRoot, size);
    }

    /** Resizes for the given lists, then takes them as the adjacency; does not build. */
    method InitFromAdj(lists: seq<seq<Edge>>)
      requires Valid() && |lists| < IntLimit
      modifies this`n, this`adj, this`parent, this`depth, this`subtreeSize, this`weightDepth, this`upWeight
      modifies this`firstOccurrence, this`tourStart, this`tourEnd, this`postorder, this`tourList, this`heavyRoot
      modifies this`built
      ensures Valid() && n == |lists| && adj == lists && !built
      ensures upWeight == Zeros(|lists|)
    {
      Init(|lists|);
      adj := lists;
    }

    /** An undirected edge: each endpoint's list gets the other endpoint. */
    method AddEdge(a: int, b: int, weight: int)
      requires 0 <= a < |adj| && 0 <= b < |adj|
      modifies this`adj
      ensures |adj| == old(|adj|)
      ensures a != b ==> adj == old(adj)[a := old(adj[a]) + [Edge(b, weight)]][b := old(adj[b]) + [Edge(a, weight)]]
      ensures a == b ==> adj == old(adj)[a := old(adj[a]) + [Edge(a, weight)] + [Edge(a, weight)]]
    {
      adj := adj[a := adj[a] + [Edge(b, weight)]];
      adj := adj[b := adj[b] + [Edge(a, weight)]];
    }

    /** Deletes the first edge from `from` towards `to`, if there is one, by swapping it with the last. */
    method EraseEdge(from: int, to: int)
      requires 0 <= from < |adj|
      modifies this`adj
      ensures adj == old(adj)[from := Erased(old(adj[from]), to)]
    {
      var i := 0;
      while i < |adj[from]|
        invariant 0 <= i <= |adj[from]| && adj == old(adj)
        invariant forall k :: 0 <= k < i ==> adj[from][k].node != to
      {
        if adj[from][i].node == to {
          var l := adj[from];
          l := l[i := l[|l| - 1]];
          adj := adj[from := l[..|l| - 1]];
          return;
        }
        i := i + 1;
      }
    }

    /**
     * Roots the subtree of `node` below `par`: with `g` the forest the lists
     * describe, every node of the subtree ends up finished and nothing else
     * changes.
     */
    method Dfs(node: int, par: int, weight: int, ghost g: Tree, ghost gw: seq<int>)
      requires Complete(g) && |gw| == |g.par| && Sized(Snap(), |g.par|)
      requires IsNode(g, node) && par == g.par[node] && weight == WDepth(g, gw, node)
      requires par >= 0 ==> depth[par] == Depth(g, par) && upWeight[node] == At(gw, node)
      requires forall u :: 0 <= u < |g.par| && Anc(g, node, u) ==> Fresh(g, gw, Snap(), u)
      modifies this`adj, this`parent, this`depth, this`subtreeSize, this`weightDepth, this`upWeight
      ensures Sized(Snap(), |g.par|)
      ensures forall u :: 0 <= u < |g.par| && Anc(g, node, u) ==> Done(g, gw, Snap(), u)
      ensures forall u :: 0 <= u < |g.par| && !Anc(g, node, u) ==> Same(old(Snap()), Snap(), u)
      decreases Height(g, node), 1
    {
      ghost var v0 := Snap();
      var edges := Enter(node, par, weight, g, gw);
      assert Entered(g, gw, v0, Snap(), node, edges);
      var i := 0;
      while i < |edges|
        invariant Progress(g, gw, v0, Snap(), node, edges, i)
        invariant 0 <= i <= |edges| && adj[node] == edges
        invariant multiset(edges) == multiset(DownEdges(g.kids[node], gw))
        invariant parent[node] == par && depth[node] == Depth(g, node) && weightDepth[node] == weight
        invariant par >= 0 ==> upWeight[node] == At(gw, node)
        invariant subtreeSize[node] == 1 + SumSizes(edges[..i], TrueSizes(g))
      {
        VisitChild(node, weight, edges, i, v0, g, gw);
        SumSizesPrefix(edges, i, TrueSizes(g));
        i := i + 1;
      }
      assert edges[..i] == edges;
      Finish(node, edges, v0, g, gw);
    }

    /** Records `node`'s own entries and deletes the edge back to its parent. */
    method Enter(node: int, par: int, weight: int, ghost g: Tree, ghost gw: seq<int>) returns (edges: seq<Edge>)
      requires Complete(g) && |gw| == |g.par| && Sized(Snap(), |g.par|)
      requires IsNode(g, node) && par == g.par[node] && weight == WDepth(g, gw, node)
      requires par >= 0 ==> depth[par] == Depth(g, par)
      requires Fresh(g, gw, Snap(), node)
      modifies this`adj, this`parent, this`depth, this`subtreeSize, this`weightDepth
      ensures Entered(g, gw, old(Snap()), Snap(), node, edges)
    {
      Record(node, par, weight);
      EraseEdge(node, par);
      edges := adj[node];
      EnterOk(g, gw, old(Snap()), Snap(), node, edges);
    }

    /** The first four assignments of the search at `node`. */
    method Record(node: int, par: int, weight: int)
      requires 0 <= node < |parent| == |depth| == |subtreeSize| == |weightDepth|
      requires par < |depth|
      modifies this`parent, this`depth, this`subtreeSize, this`weightDepth
      ensures parent == old(parent)[node := par]
      ensures depth == old(depth)[node := if par < 0 then 0 else old(depth[par]) + 1]
      ensures subtreeSize == old(subtreeSize)[node := 1] && weightDepth == old(weightDepth)[node := weight]
    {
      parent := parent[node := par];
      depth := depth[node := if par < 0 then 0 else depth[par] + 1];
      subtreeSize := subtreeSize[node := 1];
      weightDepth := weightDepth[node := weight];
    }

    /** Sorts the edges down from `node` heaviest first, which finishes `node`. */
    method Finish(node: int, edges: seq<Edge>, ghost v0: View, ghost g: Tree, ghost gw: seq<int>)
      requires Complete(g) && |gw| == |g.par| && IsNode(g, node)
      requires multiset(edges) == multiset(DownEdges(g.kids[node], gw))
      requires Progress(g, gw, v0, Snap(), node, edges, |edges|)
      requires parent[node] == g.par[node] && depth[node] == Depth(g, node)
      requires weightDepth[node] == WDepth(g, gw, node) && (g.par[node] >= 0 ==> upWeight[node] == At(gw, node))
      requires subtreeSize[node] == 1 + SumSizes(edges, TrueSizes(g))
      modifies this`adj
      ensures Sized(Snap(), |g.par|)
      ensures forall u :: 0 <= u < |g.par| && Anc(g, node, u) ==> Done(g, gw, Snap(), u)
      ensures forall u :: 0 <= u < |g.par| && !Anc(g, node, u) ==> Same(v0, Snap(), u)
    {
      SizeFromEdges(g, gw, node, edges);
      var sorted := SortByKey(edges, HeavyKey(subtreeSize));
      ghost var v := Snap();
      adj := adj[node := sorted];
      NodeDone(g, gw, v0, v, Snap(), node, edges, sorted);
    }

    /** One turn of the loop over the edges down from `node`: roots the subtree below `edges[i]`. */
    method VisitChild(node: int, weight: int, edges: seq<Edge>, i: int, ghost v0: View, ghost g: Tree, ghost gw: seq<int>)
      requires Complete(g) && |gw| == |g.par| && IsNode(g, node)
      requires multiset(edges) == multiset(DownEdges(g.kids[node], gw)) && 0 <= i < |edges|
      requires Progress(g, gw, v0, Snap(), node, edges, i)
      requires forall u :: 0 <= u < |g.par| && Anc(g, node, u) ==> Fresh(g, gw, v0, u)
      requires weight == WDepth(g, gw, node) && depth[node] == Depth(g, node)
      modifies this`adj, this`parent, this`depth, this`subtreeSize, this`weightDepth, this`upWeight
      ensures Progress(g, gw, v0, Snap(), node, edges, i + 1)
      ensures adj[node] == old(adj[node]) && parent[node] == old(parent[node]) && depth[node] == old(depth[node])
      ensures weightDepth[node] == old(weightDepth[node]) && upWeight[node] == old(upWeight[node])
      ensures subtreeSize[node] == old(subtreeSize[node]) + At(TrueSizes(g), edges[i].node)
      decreases Height(g, node), 0
    {
      var e := edges[i];
      DownEdge(g, gw, node, edges, e);
      ghost var v1 := Snap();
      upWeight := upWeight[e.node := e.weight];
      ghost var v2 := Snap();
      ChildFresh(g, gw, v0, v1, v2, node, edges, i);
      Dfs(e.node, node, weight + e.weight, g, gw);
      ghost var v3 := Snap();
      subtreeSize := subtreeSize[node := subtreeSize[node] + subtreeSize[e.node]];
      ChildDone(g, gw, v0, v1, v2, v3, Snap(), node, edges, i);
    }
    ghost function TSnap(): TourView
      reads this`firstOccurrence, this`tourStart, this`tourEnd, this`postorder, this`heavyRoot
    {
      TourView(firstOccurrence, tourStart, tourEnd, postorder, heavyRoot)
    }

    /** The lists and parents after rooting spell out the forest `f`, children in list order. */
    ghost predicate Rooted(f: Tree)
      reads this`adj, this`parent
    {
      && |adj| == |f.par| && parent == f.par
      && forall v :: 0 <= v < |f.par| ==> Nodes(adj[v]) == f.kids[v]
    }

    /**
     * Lays out the subtree of `node`: its Euler tour is appended to `euler`,
     * its preorder written into `tourList` from `tour` on, and every node of
     * the subtree gets its first occurrence, preorder range, postorder index
     * and chain top; nothing else changes.
     */
    method TourDfs(node: int, heavy: bool, ghost f: Tree)
      requires Complete(f) && Rooted(f) && TSized(TSnap(), |f.par|) && IsNode(f, node)
      requires heavy == (f.par[node] >= 0 && KidIndex(f, node) == 0)
      requires f.par[node] >= 0 ==> heavyRoot[f.par[node]] == TopOf(f, f.par[node])
      requires |euler| == FirstPos(f, node) && tour == StartPos(f, node) && postTour == tour - Depth(f, node)
      requires 0 <= tour && tour + Size(f, node) <= |tourList|
      modifies this`heavyRoot, this`firstOccurrence, this`euler, this`tourList, this`tourStart, this`tour
      modifies this`tourEnd, this`postorder, this`postTour
      ensures TSized(TSnap(), |f.par|)
      ensures euler == old(euler) + Euler(f, node)
      ensures tour == old(tour) + Size(f, node) && postTour == old(postTour) + Size(f, node)
      ensures tourList == Splice(old(tourList), old(tour), Pre(f, node))
      ensures forall u :: 0 <= u < |f.par| && Anc(f, node, u) ==> TDone(f, TSnap(), u)
      ensures forall u :: 0 <= u < |f.par| && !Anc(f, node, u) ==> TSame(old(TSnap()), TSnap(), u)
      decreases Height(f, node), 2
    {
      ghost var w0, e0, l0, t0 := TSnap(), euler, tourList, tour;
      TourEnter(node, heavy, f);
      TourChildren(node, w0, e0, l0, t0, f);
      TourFinish(node, w0, e0, l0, t0, f);
    }

    /** Walks the children of `node` in order, the first one continuing `node`'s chain. */
    method TourChildren(node: int, ghost w0: TourView, ghost e0: seq<int>, ghost l0: seq<int>, ghost t0: int, ghost f: Tree)
      requires Complete(f) && Rooted(f) && IsNode(f, node)
      requires Walking(f, w0, TSnap(), euler, tourList, tour, postTour, node, 0, e0, l0, t0)
      modifies this`heavyRoot, this`firstOccurrence, this`euler, this`tourList, this`tourStart, this`tour
      modifies this`tourEnd, this`postorder, this`postTour
      ensures Walking(f, w0, TSnap(), euler, tourList, tour, postTour, node, |f.kids[node]|, e0, l0, t0)
      decreases Height(f, node), 1
    {
      var edges := adj[node];
      assert |edges| == |f.kids[node]|;
      var heavyChild := true;
      var i := 0;
      while i < |edges|
        invariant 0 <= i <= |edges| && heavyChild == (i == 0)
        invariant Walking(f, w0, TSnap(), euler, tourList, tour, postTour, node, i, e0, l0, t0)
      {
        TourVisitChild(node, edges, i, heavyChild, w0, e0, l0, t0, f);
        heavyChild := false;
        i := i + 1;
      }
    }

    /** Records `node`'s chain top, first occurrence and preorder index. */
    method TourEnter(node: int, heavy: bool, ghost f: Tree)
      requires Rooted(f) && TSized(TSnap(), |f.par|) && IsNode(f, node)
      requires heavy == (f.par[node] >= 0 && KidIndex(f, node) == 0)
      requires f.par[node] >= 0 ==> heavyRoot[f.par[node]] == TopOf(f, f.par[node])
      requires |euler| == FirstPos(f, node) && tour == StartPos(f, node) && postTour == tour - Depth(f, node)
      requires 0 <= tour && tour + Size(f, node) <= |tourList|
      modifies this`heavyRoot, this`firstOccurrence, this`euler, this`tourList, this`tourStart, this`tour
      ensures Walking(f, old(TSnap()), TSnap(), euler, tourList, tour, postTour, node, 0, old(euler), old(tourList), old(tour))
    {
      TourMark(node, if heavy then heavyRoot[parent[node]] else node);
      TourNumber(node);
      WalkStart(f, old(TSnap()), TSnap(), euler, tourList, tour, postTour, node, old(euler), old(tourList), old(tour));
    }

    /** Records `node`'s chain top and first occurrence and pushes `node` on the tour. */
    method TourMark(node: int, top: int)
      requires 0 <= node < |heavyRoot| && node < |firstOccurrence|
      modifies this`heavyRoot, this`firstOccurrence, this`euler
      ensures heavyRoot == old(heavyRoot)[node := top]
      ensures firstOccurrence == old(firstOccurrence)[node := |old(euler)|]
      ensures euler == old(euler) + [node]
    {
      heavyRoot := heavyRoot[node := top];
      firstOccurrence := firstOccurrence[node := |euler|];
      euler := euler + [node];
    }

    /** Gives `node` the next preorder index. */
    method TourNumber(node: int)
      requires 0 <= node < |tourStart| && 0 <= tour < |tourList|
      modifies this`tourList, this`tourStart, this`tour
      ensures tourList == old(tourList)[old(tour) := node]
      ensures tourStart == old(tourStart)[node := old(tour)] && tour == old(tour) + 1
    {
      tourList := tourList[tour := node];
      tourStart := tourStart[node := tour];
      tour := tour + 1;
    }

    /** One turn of the loop over `node`'s children: lays out the subtree of the `i`th. */
    method TourVisitChild(node: int, edges: seq<Edge>, i: int, heavyChild: bool,
                          ghost w0: TourView, ghost e0: seq<int>, ghost l0: seq<int>, ghost t0: int, ghost f: Tree)
      requires Complete(f) && Rooted(f) && IsNode(f, node) && edges == adj[node] && 0 <= i < |edges|
      requires heavyChild == (i == 0)
      requires Walking(f, w0, TSnap(), euler, tourList, tour, postTour, node, i, e0, l0, t0)
      modifies this`heavyRoot, this`firstOccurrence, this`euler, this`tourList, this`tourStart, this`tour
      modifies this`tourEnd, this`postorder, this`postTour
      ensures Walking(f, w0, TSnap(), euler, tourList, tour, postTour, node, i + 1, e0, l0, t0)
      decreases Height(f, node), 0
    {
      var c := edges[i].node;
      assert c == f.kids[node][i];
      ChildEntry(f, w0, TSnap(), euler, tourList, tour, postTour, node, i, e0, l0, t0);
      ghost var w, eu, tl, tr, pt := TSnap(), euler, tourList, tour, postTour;
      TourDfs(c, heavyChild, f);
      euler := euler + [node];
      ChildExit(f, w0, w, eu, tl, tr, pt, TSnap(), euler, tourList, tour, postTour, node, i, e0, l0, t0);
    }

    /** Records the end of `node`'s preorder range and its postorder index. */
    method TourFinish(node: int, ghost w0: TourView, ghost e0: seq<int>, ghost l0: seq<int>, ghost t0: int, ghost f: Tree)
      requires Complete(f) && IsNode(f, node)
      requires Walking(f, w0, TSnap(), euler, tourList, tour, postTour, node, |f.kids[node]|, e0, l0, t0)
      modifies this`tourEnd, this`postorder, this`postTour
      ensures TSized(TSnap(), |f.par|)
      ensures euler == e0 + Euler(f, node)
      ensures tour == t0 + Size(f, node) && postTour == t0 - Depth(f, node) + Size(f, node)
      ensures tourList == Splice(l0, t0, Pre(f, node))
      ensures forall u :: 0 <= u < |f.par| && Anc(f, node, u) ==> TDone(f, TSnap(), u)
      ensures forall u :: 0 <= u < |f.par| && !Anc(f, node, u) ==> TSame(w0, TSnap(), u)
    {
      ghost var w := TSnap();
      tourEnd := tourEnd[node := tour];
      postorder := postorder[node := postTour];
      postTour := postTour + 1;
      WalkEnd(f, w0, w, euler, tourList, tour, old(postTour), TSnap(), node, e0, l0, t0);
    }

    // -------------------------------------------------------------------------
    // build

    /** The build is complete and the tables describe the rooted forest `f`. */
    ghost predicate Ready(f: Tree)
      reads this`n, this`adj, this`parent, this`depth, this`subtreeSize, this`weightDepth, this`upWeight
      reads this`euler, this`firstOccurrence, this`tourStart, this`tourEnd, this`postorder, this`tourList
      reads this`revTourList, this`heavyRoot, this`built
    {
      RootSized() && built && Prepared(f)
    }

    /** The tables describe the rooted forest `f`. */
    ghost predicate Prepared(f: Tree)
      reads this`adj, this`parent, this`depth, this`subtreeSize, this`weightDepth, this`upWeight
      reads this`euler, this`firstOccurrence, this`tourStart, this`tourEnd, this`postorder, this`tourList
      reads this`revTourList, this`heavyRoot
    {
      Laid(f, adj, parent, depth, subtreeSize, weightDepth, upWeight, euler, firstOccurrence,
           tourStart, tourEnd, postorder, tourList, revTourList, heavyRoot)
    }

    /** The range-minimum table is over the depths along the tour. */
    ghost predicate RmqReady()
      reads this`euler, this`depth, rmq
    {
      rmq.Valid() && rmq.values == DepthsOf(euler, depth)
    }

    /**
     * Roots the forest and lays it out.  `g` is the rooting the searches
     * produce (the explicit root first, then each remaining tree from its
     * smallest node) and `gw` the weight of the edge above each node; the
     * lists in `adj` must hold exactly the edges of that forest.  The forest
     * `f` laid out has the parents of `g`, so it is `g` up to the order of
     * each node's children.
     */
    method Build(root: int, buildRmq: bool, ghost g: Tree, ghost gw: seq<int>) returns (ghost f: Tree)
      requires Valid() && Describes(adj, g, gw) && CanonicalRoots(g, root)
      modifies this, rmq
      ensures Ready(f) && Valid() && (buildRmq ==> RmqReady()) && f.par == g.par
    {
      f := Prepare(root, g, gw);
      var depths := EulerDepths();
      FinishBuild(buildRmq, depths, f);
      ReadyValid(f);
    }

    /** A finished build leaves every table at one entry per node. */
    lemma ReadyValid(f: Tree)
      requires Ready(f)
      ensures Valid()
    {
      LaidSized(f, adj, parent, depth, subtreeSize, weightDepth, upWeight, euler, firstOccurrence,
                tourStart, tourEnd, postorder, tourList, revTourList, heavyRoot);
    }

    /** Roots the forest and walks it, filling the rooting and tour tables. */
    method Prepare(root: int, ghost g: Tree, ghost gw: seq<int>) returns (ghost f: Tree)
      requires Valid() && Describes(adj, g, gw) && CanonicalRoots(g, root)
      modifies this`adj, this`parent, this`depth, this`subtreeSize, this`weightDepth, this`upWeight
      modifies this`heavyRoot, this`firstOccurrence, this`euler, this`tourList, this`tourStart, this`tour
      modifies this`tourEnd, this`postorder, this`postTour, this`revTourList
      ensures RootSized() && Complete(f) && RootHeld(f) && TourHeld(f) && revTourList == Reverse(tourList)
      ensures f.par == g.par
    {
      f := RootPhase(root, g, gw);
      LayOut(f);
    }

    /**
     * Given the rooting and tour tables of `f`, the layout is complete; builds
     * the range-minimum table over `depths` when asked to, and marks the build done.
     */
    method FinishBuild(buildRmq: bool, depths: seq<int>, ghost f: Tree)
      requires RootSized() && Complete(f) && RootHeld(f) && TourHeld(f) && revTourList == Reverse(tourList)
      requires depths == DepthsOf(euler, depth)
      modifies this`built, rmq
      ensures Ready(f) && (buildRmq ==> RmqReady())
    {
      LaidHeld(f);
      MarkBuilt(buildRmq, depths, f);
    }

    /** Builds the range-minimum table over `depths` when asked to, and marks the build done. */
    method MarkBuilt(buildRmq: bool, depths: seq<int>, ghost f: Tree)
      requires RootSized() && Prepared(f) && depths == DepthsOf(euler, depth)
      modifies this`built, rmq
      ensures Ready(f) && (buildRmq ==> RmqReady())
    {
      if buildRmq {
        rmq.Build(depths);
      }
      built := true;
    }

    /** Roots the forest; `f` is `g` with each node's children in the order of its list. */
    method RootPhase(root: int, ghost g: Tree, ghost gw: seq<int>) returns (ghost f: Tree)
      requires Valid() && Describes(adj, g, gw) && CanonicalRoots(g, root)
      modifies this`adj, this`parent, this`depth, this`subtreeSize, this`weightDepth, this`upWeight
      ensures Valid() && Complete(f) && Rooted(f) && f.par == g.par && |f.par| == n && RootHeld(f)
    {
      RootAll(root, g, gw);
      forall v | 0 <= v < n
        ensures multiset(adj[v]) == multiset(DownEdges(g.kids[v], gw))
      {
        assert Done(g, gw, Snap(), v);
      }
      f := Reshaped(g, gw, adj);
      RootingDone(g, gw, f, Snap());
    }

    /** The rooting tables describe the rooted forest `f`. */
    ghost predicate RootHeld(f: Tree)
      reads this`adj, this`parent, this`depth, this`subtreeSize, this`weightDepth, this`upWeight
    {
      RootingTables(f, adj, parent, depth, subtreeSize, weightDepth, upWeight)
    }

    /** The tour tables describe the rooted forest `f`. */
    ghost predicate TourHeld(f: Tree)
      reads this`firstOccurrence, this`tourStart, this`tourEnd, this`postorder, this`heavyRoot
      reads this`euler, this`tourList
    {
      TourTables(f, TSnap(), euler, tourList)
    }

    /** Rooting and tour tables of `f` together make a complete layout. */
    lemma LaidHeld(f: Tree)
      requires Complete(f) && RootHeld(f) && TourHeld(f) && revTourList == Reverse(tourList)
      ensures Prepared(f)
    {
      LaidDone(f, Snap(), TSnap(), euler, tourList, revTourList);
    }

    /** Walks the rooted forest `f`, keeping its rooting tables and filling its tour tables. */
    method LayOut(ghost f: Tree)
      requires Valid() && Complete(f) && Rooted(f) && |f.par| == n && RootHeld(f)
      modifies this`heavyRoot, this`firstOccurrence, this`euler, this`tourList, this`tourStart, this`tour
      modifies this`tourEnd, this`postorder, this`postTour, this`revTourList
      ensures RootSized() && RootHeld(f) && TourHeld(f) && revTourList == Reverse(tourList)
    {
      TourPhase(f);
    }

    /** Lays out the rooted forest `f` and fills the tour tables. */
    method TourPhase(ghost f: Tree)
      requires Valid() && Complete(f) && Rooted(f) && |f.par| == n && RootHeld(f)
      modifies this`heavyRoot, this`firstOccurrence, this`euler, this`tourList, this`tourStart, this`tour
      modifies this`tourEnd, this`postorder, this`postTour, this`revTourList
      ensures TourHeld(f) && revTourList == Reverse(tourList)
    {
      TourAll(f);
      revTourList := Reverse(tourList);
    }

    /** The rooting searches: from the explicit root, then from every node not yet reached. */
    method RootAll(root: int, ghost g: Tree, ghost gw: seq<int>)
      requires Valid() && Describes(adj, g, gw) && CanonicalRoots(g, root)
      modifies this`adj, this`parent, this`depth, this`subtreeSize, this`weightDepth, this`upWeight
      ensures Valid() && forall u :: 0 <= u < |g.par| ==> Done(g, gw, Snap(), u)
    {
      parent := seq(n, _ => -1);
      ReachedStart(g, gw, Snap());
      RootExplicit(root, g, gw);
      RootRest(root, g, gw);
    }

    /** The search from the explicit root, when it names a node. */
    method RootExplicit(root: int, ghost g: Tree, ghost gw: seq<int>)
      requires Valid() && Complete(g) && CanonicalRoots(g, root) && Reached(g, gw, Snap(), -1, 0)
      modifies this`adj, this`parent, this`depth, this`subtreeSize, this`weightDepth, this`upWeight
      ensures Valid() && Reached(g, gw, Snap(), root, 0)
    {
      if 0 <= root < n {
        ghost var v0 := Snap();
        ReachedAllFresh(g, gw, v0, root);
        Dfs(root, -1, 0, g, gw);
        ReachedRoot(g, gw, v0, Snap(), root);
      } else {
        ReachedNoRoot(g, gw, Snap(), root);
      }
    }

    /** The searches from every node that no earlier search reached, in index order. */
    method RootRest(root: int, ghost g: Tree, ghost gw: seq<int>)
      requires Valid() && Complete(g) && CanonicalRoots(g, root) && Reached(g, gw, Snap(), root, 0)
      modifies this`adj, this`parent, this`depth, this`subtreeSize, this`weightDepth, this`upWeight
      ensures Valid() && forall u :: 0 <= u < |g.par| ==> Done(g, gw, Snap(), u)
    {
      var i := 0;
      while i < n
        invariant 0 <= i <= n && Reached(g, gw, Snap(), root, i)
      {
        if i != root && parent[i] < 0 {
          ReachedPick(g, gw, Snap(), root, i);
          ghost var v0 := Snap();
          Dfs(i, -1, 0, g, gw);
          ReachedAfter(g, gw, v0, Snap(), root, i);
        } else {
          ReachedSkip(g, gw, Snap(), root, i);
        }
        i := i + 1;
      }
    }

    /** The tour pass: each root in index order, its tour followed by the separator -1. */
    method TourAll(ghost f: Tree)
      requires Complete(f) && Rooted(f) && TSized(TSnap(), |f.par|) && |tourList| == |f.par| == n
      modifies this`heavyRoot, this`firstOccurrence, this`euler, this`tourList, this`tourStart, this`tour
      modifies this`tourEnd, this`postorder, this`postTour
      ensures TourHeld(f)
    {
      tour, postTour := 0, 0;
      euler := [];
      ghost var l0 := tourList;
      LaidStart(f, TSnap(), l0);
      var i := 0;
      while i < n
        invariant 0 <= i <= n
        invariant LaidOut(f, TSnap(), euler, tourList, tour, postTour, l0, i)
      {
        TourStep(i, l0, f);
        i := i + 1;
      }
      LaidEnd(f, TSnap(), euler, tourList, tour, postTour, l0);
    }

    /** Lays out the tree of `i` when `i` is a root, and skips it otherwise. */
    method TourStep(i: int, ghost l0: seq<int>, ghost f: Tree)
      requires Complete(f) && Rooted(f) && 0 <= i < |f.par| && |parent| == |f.par|
      requires LaidOut(f, TSnap(), euler, tourList, tour, postTour, l0, i)
      modifies this`heavyRoot, this`firstOccurrence, this`euler, this`tourList, this`tourStart, this`tour
      modifies this`tourEnd, this`postorder, this`postTour
      ensures LaidOut(f, TSnap(), euler, tourList, tour, postTour, l0, i + 1)
    {
      if parent[i] < 0 {
        TourRoot(i, l0, f);
      } else {
        LaidSkip(f, TSnap(), euler, tourList, tour, postTour, l0, i);
      }
    }

    /** Lays out the tree of root `i` after those of the roots before it. */
    method TourRoot(i: int, ghost l0: seq<int>, ghost f: Tree)
      requires Complete(f) && Rooted(f) && 0 <= i < |f.par| && parent[i] < 0
      requires LaidOut(f, TSnap(), euler, tourList, tour, postTour, l0, i)
      modifies this`heavyRoot, this`firstOccurrence, this`euler, this`tourList, this`tourStart, this`tour
      modifies this`tourEnd, this`postorder, this`postTour
      ensures LaidOut(f, TSnap(), euler, tourList, tour, postTour, l0, i + 1)
    {
      LaidEntry(f, TSnap(), euler, tourList, tour, postTour, l0, i);
      ghost var w, eu, tl, tr, pt := TSnap(), euler, tourList, tour, postTour;
      TourDfs(i, false, f);
      euler := euler + [-1];
      LaidAfter(f, w, eu, tl, tr, pt, TSnap(), euler, tourList, tour, postTour, l0, i);
    }

    /** The depth of each tour entry, the separator kept as -1. */
    method EulerDepths() returns (d: seq<int>)
      ensures d == DepthsOf(euler, depth)
    {
      d := [];
      var p := 0;
      while p < |euler|
        invariant 0 <= p <= |euler| && d == DepthsOf(euler[..p], depth)
      {
        var node := euler[p];
        d := d + [if node < 0 then node else At(depth, node)];
        assert euler[..p + 1] == euler[..p] + [node];
        p := p + 1;
      }
      assert euler[..p] == euler;
    }

    // -------------------------------------------------------------------------
    // Queries

    /** The number of edges at `v`: its list, plus the edge to the parent once building has taken it out. */
    function Degree(v: int): (r: int)
      reads this`adj, this`parent, this`built
      requires 0 <= v < |adj| && |parent| == |adj|
      ensures r >= 0
    {
      |adj[v]| + (if built && parent[v] >= 0 then 1 else 0)
    }

    /** Before building, the degree is the number of tree edges at `v`. */
    lemma DegreeBefore(g: Tree, gw: seq<int>, v: int)
      requires Describes(adj, g, gw) && !built && |parent| == |adj| && IsNode(g, v)
      ensures Degree(v) == |g.kids[v]| + (if g.par[v] >= 0 then 1 else 0)
    {
      assert |multiset(adj[v])| == |multiset(Incident(g, gw, v))|;
    }

    /** After building, the degree is still the number of tree edges at `v`. */
    lemma DegreeAfter(f: Tree, v: int)
      requires Ready(f) && IsNode(f, v)
      ensures Degree(v) == |f.kids[v]| + (if f.par[v] >= 0 then 1 else 0)
    {
      assert Nodes(adj[v]) == f.kids[v];
    }

    /** The tables the tree queries read describe the forest `f`, and the range-minimum table is built over the tour. */
    ghost predicate Answers(f: Tree)
      reads this`n, this`depth, this`weightDepth, this`upWeight, this`euler, this`firstOccurrence
      reads this`tourStart, this`tourEnd, rmq
    {
      && n == |f.par| && DepthOk(f, depth) && WeightOk(f, weightDepth, upWeight)
      && FirstIn(f, euler, firstOccurrence) && FirstOrdered(f, firstOccurrence)
      && LcaByMin(f, euler, DepthsOf(euler, depth))
      && ChildByMin(f, euler, firstOccurrence, DepthsOf(euler, depth))
      && AncByStart(f, tourStart, tourEnd)
      && !rmq.maximumMode && rmq.Valid() && rmq.values == DepthsOf(euler, depth)
    }

    /** A finished build with its range-minimum table answers the tree queries. */
    lemma QueryTables(f: Tree)
      requires Ready(f) && RmqReady()
      ensures Answers(f)
    {
    }

    /** The lowest common ancestor of `a` and `b`, or -1 when they lie in different trees. */
    function GetLca(a: int, b: int, ghost f: Tree): (r: int)
      reads this, rmq
      requires Answers(f) && 0 <= a < n && 0 <= b < n
      ensures r == Lca(f, a, b)
    {
      var x := firstOccurrence[a];
      var y := firstOccurrence[b];
      var lo := if x <= y then x else y;
      var hi := if x <= y then y else x;
      var m := rmq.QueryIndex(lo, hi + 1);
      assert LcaQuery(f, euler, rmq.values, lo, hi + 1, m);
      LcaSymmetric(f, a, b);
      euler[m]
    }

    /** Whether `a` is `b` or an ancestor of `b`. */
    function IsAncestor(a: int, b: int, ghost f: Tree): (r: bool)
      reads this, rmq
      requires Answers(f) && 0 <= a < n && 0 <= b < n
      ensures r <==> Anc(f, a, b)
    {
      tourStart[a] <= tourStart[b] && tourStart[b] < tourEnd[a]
    }

    /** Whether `x` lies on the path between `a` and `b`, which must share a tree. */
    function OnPath(x: int, a: int, b: int, ghost f: Tree): (r: bool)
      reads this, rmq
      requires Answers(f) && 0 <= x < n && 0 <= a < n && 0 <= b < n
      requires RootOf(f, a) == RootOf(f, b)
      ensures r <==> x in PathNodes(f, depth, a, b)
    {
      PathNodesByLca(f, depth, x, a, b);
      (IsAncestor(x, a, f) || IsAncestor(x, b, f)) && IsAncestor(GetLca(a, b, f), x, f)
    }

    /** The number of edges between `a` and `b`, which must share a tree. */
    function GetDist(a: int, b: int, ghost f: Tree): (r: int)
      reads this, rmq
      requires Answers(f) && 0 <= a < n && 0 <= b < n
      requires RootOf(f, a) == RootOf(f, b)
      ensures r == PathLen(f, depth, a, b)
    {
      PathLenByDepth(f, depth, a, b);
      depth[a] + depth[b] - 2 * depth[GetLca(a, b, f)]
    }

    /** The total edge weight between `a` and `b`, which must share a tree. */
    function GetWeightedDist(a: int, b: int, ghost f: Tree): (r: int)
      reads this, rmq
      requires Answers(f) && 0 <= a < n && 0 <= b < n
      requires RootOf(f, a) == RootOf(f, b)
      ensures r == WeightedPathLen(f, depth, upWeight, a, b)
    {
      WeightedPathLenByDepth(f, depth, weightDepth, upWeight, a, b);
      weightDepth[a] + weightDepth[b] - 2 * weightDepth[GetLca(a, b, f)]
    }

    /** The child of `a` on the way down to its strict descendant `b`. */
    function ChildAncestor(a: int, b: int, ghost f: Tree): (r: int)
      reads this, rmq
      requires Answers(f) && 0 <= a < n && 0 <= b < n
      requires a != b && Anc(f, a, b)
      ensures r == ChildToward(f, a, b)
      ensures IsNode(f, r) && f.par[r] == a && Anc(f, r, b)
    {
      var m := rmq.QueryIndex(firstOccurrence[a], firstOccurrence[b] + 1);
      ChildPick(f, euler, firstOccurrence, rmq.values, a, b, m);
      euler[m + 1]
    }

    /** The deepest of the three pairwise lowest common ancestors, picked out with exclusive or. */
    function GetCommonNode(a: int, b: int, c: int, ghost f: Tree): (r: int)
      reads this, rmq
      requires Answers(f) && 0 <= a < n && 0 <= b < n && 0 <= c < n
      ensures CommonNodeOk(f, a, b, c, r)
    {
      var x := GetLca(a, b, f);
      var y := GetLca(b, c, f);
      var z := GetLca(c, a, f);
      CommonNodeByXor(f, a, b, c);
      Xor(Xor(x, y), z)
    }

    /** The tables the ancestor jumps read describe the forest `f`. */
    ghost predicate Chains(f: Tree)
      reads this`n, this`parent, this`depth, this`tourStart, this`tourList, this`heavyRoot
    {
      && n == |f.par| && parent == f.par && DepthOk(f, depth)
      && HeavyOk(f, tourStart, heavyRoot) && ListOk(f, tourStart, tourList)
    }

    lemma ChainTables(f: Tree)
      requires Ready(f)
      ensures Chains(f)
    {
    }

    /** The node `k` steps above `a`, or -1 when the walk leaves the tree, jumping one heavy chain at a time. */
    method GetKthAncestor(a: int, k: int, ghost f: Tree) returns (r: int)
      requires Chains(f) && -1 <= a < n && 0 <= k
      ensures r == KthAnc(f, a, k)
    {
      var top, start, list, dep, par := heavyRoot, tourStart, tourList, depth, parent;
      var x, j := a, k;
      if x >= 0 {
        DepthNonneg(f, dep, x);
      }
      while x >= 0
        invariant -1 <= x < |f.par| && 0 <= j
        invariant x >= 0 ==> dep[x] >= 0
        invariant KthAnc(f, x, j) == KthAnc(f, a, k)
        decreases if x >= 0 then dep[x] + 1 else 0
      {
        var root := top[x];
        HeavyTop(f, start, top, dep, x);
        if dep[root] <= dep[x] - j {
          HeavyClimb(f, start, top, list, dep, x, j);
          return list[start[x] - j];
        }
        HeavyJump(f, start, top, dep, x, j);
        j := j - (dep[x] - dep[root] + 1);
        x := par[root];
      }
      r := x;
    }

    /** The node `k` edges from `a` on the path from `a` to `b`, which must share a tree. */
    method GetKthNodeOnPath(a: int, b: int, k: int, ghost f: Tree) returns (r: int)
      requires Answers(f) && Chains(f) && 0 <= a < n && 0 <= b < n && RootOf(f, a) == RootOf(f, b)
      requires 0 <= k <= PathLen(f, depth, a, b)
      ensures IsNode(f, r) && RootOf(f, r) == RootOf(f, a)
      ensures PathLen(f, depth, a, r) == k && PathLen(f, depth, r, b) == PathLen(f, depth, a, b) - k
    {
      PathLenByDepth(f, depth, a, b);
      var anc := GetLca(a, b, f);
      var firstHalf := depth[a] - depth[anc];
      var secondHalf := depth[b] - depth[anc];
      if k < firstHalf {
        r := GetKthAncestor(a, k, f);
      } else {
        r := GetKthAncestor(b, firstHalf + secondHalf - k, f);
      }
      KthNodeOnPath(f, depth, a, b, anc, k, r);
    }

    /** The tables the diameter scan reads describe the forest `f`. */
    ghost predicate Scans(f: Tree)
      reads this`n, this`depth, this`weightDepth, this`upWeight, this`euler, this`firstOccurrence, this`built
    {
      && built && n == |f.par| && |euler| == 2 * n
      && DepthOk(f, depth) && WeightOk(f, weightDepth, upWeight)
      && FirstIn(f, euler, firstOccurrence) && RangeAll(f, euler)
      && (n > 0 ==> euler[0] == FirstRoot(f) && FirstTree(f, euler, firstOccurrence, 2 * Size(f, FirstRoot(f)) - 1))
    }

    lemma ScanTables(f: Tree)
      requires Ready(f)
      ensures Scans(f)
    {
    }

    /**
     * The weighted diameter of the tree the tour lists first, that of the
     * smallest root, with its two ends; (-1, -1, -1) for an empty forest.
     * Whatever the weights, the result is the scan's; with no negative
     * weight the two ends are a farthest pair of that tree.
     */
    method GetDiameter(ghost f: Tree) returns (r: BestPath)
      requires Scans(f)
      ensures r == Prefix(euler, weightDepth, ScanEnd(euler)).best
      ensures n == 0 ==> r == BestPath(-1, -1, -1)
      ensures n > 0 && NonnegWeights(f, upWeight) ==>
        && InTree(f, FirstRoot(f), r.u) && InTree(f, FirstRoot(f), r.v)
        && r.value == WeightedPathLen(f, depth, upWeight, r.u, r.v)
        && forall p, q :: InTree(f, FirstRoot(f), p) && InTree(f, FirstRoot(f), q) ==>
             WeightedPathLen(f, depth, upWeight, p, q) <= r.value
    {
      r := ScanTour(euler, weightDepth);
      if n > 0 && NonnegWeights(f, upWeight) {
        DiameterOk(f, euler, firstOccurrence, depth, weightDepth, upWeight, 2 * Size(f, FirstRoot(f)) - 1);
      }
    }

    /**
     * The middle node or nodes of the diameter of the first tree, for unit
     * weights: the nodes half its length, rounded down and up, from one end.
     */
    method GetCenter(ghost f: Tree) returns (c1: int, c2: int)
      requires Answers(f) && Chains(f) && Scans(f) && UnitWeights(f, upWeight) && n > 0
      ensures var d := Prefix(euler, weightDepth, ScanEnd(euler)).best;
        && InTree(f, FirstRoot(f), d.u) && InTree(f, FirstRoot(f), d.v) && d.value == PathLen(f, depth, d.u, d.v)
        && InTree(f, FirstRoot(f), c1) && InTree(f, FirstRoot(f), c2)
        && PathLen(f, depth, d.u, c1) == d.value / 2 && PathLen(f, depth, c1, d.v) == d.value - d.value / 2
        && PathLen(f, depth, d.u, c2) == (d.value + 1) / 2 && PathLen(f, depth, c2, d.v) == d.value - (d.value + 1) / 2
    {
      UnitNonneg(f, upWeight);
      var diam := GetDiameter(f);
      UnitPathLen(f, depth, upWeight, diam.u, diam.v);
      c1 := GetKthNodeOnPath(diam.u, diam.v, diam.value / 2, f);
      c2 := GetKthNodeOnPath(diam.u, diam.v, (diam.value + 1) / 2, f);
    }

    /**
     * The tree compressed to `nodes`, which must share a tree: every node of
     * the smallest set holding them that is closed under lowest common
     * ancestors, in preorder, with its parent in the compressed tree (-1 for
     * the first).
     */
    method CompressTree(nodes: seq<int>, ghost f: Tree) returns (result: seq<(int, int)>)
      requires Answers(f) && OneTree(f, nodes)
      ensures |result| == 0 <==> |nodes| == 0
      ensures |nodes| > 0 ==> |result| <= 2 * |nodes| - 1
      ensures forall x :: x in Firsts(result) <==> InClosure(f, nodes, x)
      ensures OneTree(f, Firsts(result)) && Closed(f, Firsts(result)) && StrictPreorder(tourStart, Firsts(result))
      ensures |result| > 0 ==> result[0].1 == -1
      ensures forall i :: 0 <= i < |result| ==> IsNode(f, result[i].0) && Anc(f, result[0].0, result[i].0)
      ensures forall i :: 0 < i < |result| ==> CompressedParent(f, Firsts(result), result[i].0, result[i].1)
    {
      if |nodes| == 0 {
        return [];
      }
      var st := tourStart;
      var key := (u: int) => At(st, u);
      var sorted := SortByKey(nodes, key);
      OneTreePermuted(f, nodes, sorted);
      var k := |sorted|;
      var all := AddAdjacentLcas(sorted, f);
      var tail := SortByKey(all[k..], key);
      var merged := Merge(all[..k], tail, key);
      CompressOk(f, tourStart, tourEnd, key, nodes, sorted, merged);
      var uniq := Unique(merged);
      result := AttachParents(uniq, f);
    }

    /** `s` followed by the lowest common ancestors of its adjacent pairs. */
    method AddAdjacentLcas(s: seq<int>, ghost f: Tree) returns (all: seq<int>)
      requires Answers(f) && OneTree(f, s) && |s| > 0
      ensures |all| == 2 * |s| - 1 && all[..|s|] == s && all[|s|..] == AdjacentLcas(f, s)
    {
      assert forall p :: 0 <= p < |s| ==> SameTree(f, s[p], s[p]);
      ghost var adj := AdjacentLcas(f, s);
      var lcas := [];
      var i := 0;
      while i < |s| - 1
        invariant 0 <= i <= |s| - 1 && lcas == adj[..i]
      {
        assert SameTree(f, s[i], s[0]) && SameTree(f, s[i + 1], s[0]);
        var l := GetLca(s[i], s[i + 1], f);
        assert adj[i] == l;
        PrefixExtend(adj, i);
        lcas := lcas + [l];
        i := i + 1;
      }
      assert adj[..i] == adj;
      all := s + lcas;
    }

    /** Each entry of `u` paired with its lowest common ancestor with the entry before it, -1 for the first. */
    method AttachParents(u: seq<int>, ghost f: Tree) returns (result: seq<(int, int)>)
      requires Answers(f) && OneTree(f, u) && |u| > 0
      ensures forall p :: 0 <= p < |u| ==> IsNode(f, u[p])
      ensures result == WithParents(f, u)
    {
      assert forall p :: 0 <= p < |u| ==> SameTree(f, u[p], u[p]);
      ghost var pairs := WithParents(f, u);
      result := [(u[0], -1)];
      var j := 1;
      while j < |u|
        invariant 1 <= j <= |u| && result == pairs[..j]
      {
        assert SameTree(f, u[j], u[0]) && SameTree(f, u[j - 1], u[0]);
        var l := GetLca(u[j], u[j - 1], f);
        assert pairs[j] == (u[j], l);
        PrefixExtend(pairs, j);
        result := result + [(u[j], l)];
        j := j + 1;
      }
    }
  }
}

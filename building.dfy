/**
 * The two phases of `build`, at the level of values: the rooting loop (the
 * explicit root first, then every node still unreached, in index order)
 * and the tour loop over the roots in index order; and what the finished
 * tables say about the forest.
 */
module Building {
  import opened Forest
  import opened Tours
  import opened Layout
  import opened Seqs
  import opened Graph
  import opened Rooting
  import opened Touring
  import opened Tables

  /**
   * The rooting `build` ends up with: the explicit root, when it is a node,
   * roots its component, and every other component is rooted at its
   * smallest node (the first one the loop finds unreached).
   */
  ghost predicate CanonicalRoots(g: Tree, root: int)
  {
    && (0 <= root < |g.par| ==> g.par[root] < 0)
    && forall v :: 0 <= v < |g.par| ==> RootOf(g, v) == root || RootOf(g, v) <= v
  }

  /** The subtree of a root is its whole tree. */
  lemma SubtreeOfRoot(f: Tree, r: int, u: int)
    requires IsRoot(f, r) && IsNode(f, u)
    ensures Anc(f, r, u) <==> RootOf(f, u) == r
  {
    if Anc(f, r, u) {
      AncRoot(f, r, u);
    }
    if RootOf(f, u) == r {
      RootIsAnc(f, u);
    }
  }

  /** A node is its own root exactly when it is a root. */
  lemma OwnRoot(f: Tree, u: int)
    requires IsNode(f, u)
    ensures RootOf(f, u) == u <==> f.par[u] < 0
  {
    if f.par[u] >= 0 {
      RootIsAnc(f, u);
      AncRank(f, RootOf(f, u), u);
    }
  }

  // ---------------------------------------------------------------------------
  // The rooting loop

  /** The trees searched so far: those with a root below `i`, and the explicit root's. */
  ghost predicate Covered(g: Tree, root: int, i: int, u: int)
    requires IsNode(g, u)
  {
    RootOf(g, u) < i || RootOf(g, u) == root
  }

  /** Every searched tree is finished and every other node is unreached. */
  ghost predicate Reached(g: Tree, gw: seq<int>, v: View, root: int, i: int)
  {
    && Sized(v, |g.par|) && |gw| == |g.par|
    && forall u :: 0 <= u < |g.par| ==>
         (Covered(g, root, i, u) ==> Done(g, gw, v, u)) && (!Covered(g, root, i, u) ==> Fresh(g, gw, v, u))
  }

  /** With every parent reset and the lists describing the forest, nothing is reached. */
  lemma ReachedStart(g: Tree, gw: seq<int>, v: View)
    requires Describes(v.adj, g, gw) && Sized(v, |g.par|)
    requires forall u :: 0 <= u < |g.par| ==> v.parent[u] == -1
    ensures Reached(g, gw, v, -1, 0)
  {
  }

  /** Without an explicit root the first search has not happened. */
  lemma ReachedNoRoot(g: Tree, gw: seq<int>, v: View, root: int)
    requires Reached(g, gw, v, -1, 0) && !(0 <= root < |g.par|)
    ensures Reached(g, gw, v, root, 0)
  {
    forall u | 0 <= u < |g.par|
      ensures !Covered(g, root, 0, u)
    {
    }
  }

  /** The search from the explicit root finishes its tree. */
  lemma ReachedRoot(g: Tree, gw: seq<int>, v0: View, v: View, root: int)
    requires Reached(g, gw, v0, -1, 0) && IsRoot(g, root) && Sized(v, |g.par|)
    requires forall u :: 0 <= u < |g.par| && Anc(g, root, u) ==> Done(g, gw, v, u)
    requires forall u :: 0 <= u < |g.par| && !Anc(g, root, u) ==> Same(v0, v, u)
    ensures Reached(g, gw, v, root, 0)
  {
    forall u | 0 <= u < |g.par|
      ensures (Covered(g, root, 0, u) ==> Done(g, gw, v, u)) && (!Covered(g, root, 0, u) ==> Fresh(g, gw, v, u))
    {
      SubtreeOfRoot(g, root, u);
      if !Anc(g, root, u) {
        assert !Covered(g, -1, 0, u);
        FreshSame(g, gw, v0, v, u);
      }
    }
  }

  /** Whatever the explicit root is, every node still unreached is fresh. */
  lemma ReachedAllFresh(g: Tree, gw: seq<int>, v: View, root: int)
    requires Reached(g, gw, v, -1, 0)
    ensures forall u :: 0 <= u < |g.par| ==> Fresh(g, gw, v, u)
  {
    forall u | 0 <= u < |g.par|
      ensures Fresh(g, gw, v, u)
    {
      assert !Covered(g, -1, 0, u);
    }
  }

  /** A node the loop passes over is the explicit root or already searched; no tree is rooted at it otherwise. */
  lemma ReachedSkip(g: Tree, gw: seq<int>, v: View, root: int, i: int)
    requires CanonicalRoots(g, root) && Reached(g, gw, v, root, i) && 0 <= i < |g.par|
    requires i == root || v.parent[i] >= 0
    ensures Reached(g, gw, v, root, i + 1)
  {
    if i != root {
      assert !Covered(g, root, i, i) ==> Fresh(g, gw, v, i);
      assert Covered(g, root, i, i) ==> Done(g, gw, v, i);
      assert g.par[i] >= 0;
    }
    forall u | 0 <= u < |g.par|
      ensures Covered(g, root, i + 1, u) == Covered(g, root, i, u)
    {
      if RootOf(g, u) == i {
        OwnRoot(g, i);
      }
    }
  }

  /** A node the loop searches from is a root whose tree is unreached. */
  lemma ReachedPick(g: Tree, gw: seq<int>, v: View, root: int, i: int)
    requires CanonicalRoots(g, root) && Reached(g, gw, v, root, i) && 0 <= i < |g.par|
    requires i != root && v.parent[i] < 0
    ensures IsRoot(g, i) && !Covered(g, root, i, i)
    ensures forall u :: 0 <= u < |g.par| && Anc(g, i, u) ==> Fresh(g, gw, v, u)
  {
    OwnRoot(g, i);
    assert Covered(g, root, i, i) ==> Done(g, gw, v, i);
    assert RootOf(g, i) == i;
    forall u | 0 <= u < |g.par| && Anc(g, i, u)
      ensures Fresh(g, gw, v, u)
    {
      SubtreeOfRoot(g, i, u);
    }
  }

  /** The search from root `i` finishes its tree and leaves the rest as it was. */
  lemma ReachedAfter(g: Tree, gw: seq<int>, v0: View, v: View, root: int, i: int)
    requires Reached(g, gw, v0, root, i) && IsRoot(g, i) && !Covered(g, root, i, i) && Sized(v, |g.par|)
    requires forall u :: 0 <= u < |g.par| && Anc(g, i, u) ==> Done(g, gw, v, u)
    requires forall u :: 0 <= u < |g.par| && !Anc(g, i, u) ==> Same(v0, v, u)
    ensures Reached(g, gw, v, root, i + 1)
  {
    OwnRoot(g, i);
    forall u | 0 <= u < |g.par|
      ensures (Covered(g, root, i + 1, u) ==> Done(g, gw, v, u)) && (!Covered(g, root, i + 1, u) ==> Fresh(g, gw, v, u))
    {
      SubtreeOfRoot(g, i, u);
      if !Anc(g, i, u) {
        if Covered(g, root, i, u) {
          DoneSame(g, gw, v0, v, u);
        } else {
          FreshSame(g, gw, v0, v, u);
        }
      }
    }
  }

  // ---------------------------------------------------------------------------
  // The rooted forest

  /** The endpoints of each node's list. */
  function KidsOf(adj: seq<seq<Edge>>): (r: seq<seq<int>>)
    ensures |r| == |adj| && forall v :: 0 <= v < |adj| ==> r[v] == Nodes(adj[v])
  {
    seq(|adj|, v requires 0 <= v < |adj| => Nodes(adj[v]))
  }

  /** A permutation of the edges down from `v` names only children of `v`. */
  lemma KidsOfChild(g: Tree, gw: seq<int>, adj: seq<seq<Edge>>, v: int, i: int)
    requires |adj| == |g.par| && IsNode(g, v) && multiset(adj[v]) == multiset(DownEdges(g.kids[v], gw))
    requires 0 <= i < |adj[v]|
    ensures 0 <= KidsOf(adj)[v][i] < |g.par| && g.par[KidsOf(adj)[v][i]] == v
  {
    DownEdge(g, gw, v, adj[v], adj[v][i]);
  }

  /** ... and names each of them. */
  lemma KidsOfParent(g: Tree, gw: seq<int>, adj: seq<seq<Edge>>, u: int)
    requires Complete(g) && |adj| == |g.par| && IsNode(g, u) && g.par[u] >= 0
    requires multiset(adj[g.par[u]]) == multiset(DownEdges(g.kids[g.par[u]], gw))
    ensures u in KidsOf(adj)[g.par[u]]
  {
    var p := g.par[u];
    NodesPermutation(DownEdges(g.kids[p], gw), adj[p]);
    assert u in multiset(g.kids[p]);
  }

  /** After rooting, the lists name the children of each node: a forest with `g`'s parents. */
  lemma Reshaped(g: Tree, gw: seq<int>, adj: seq<seq<Edge>>) returns (f: Tree)
    requires Complete(g) && |adj| == |g.par|
    requires forall v :: 0 <= v < |g.par| ==> multiset(adj[v]) == multiset(DownEdges(g.kids[v], gw))
    ensures f.par == g.par && f.rank == g.rank && Complete(f)
    ensures forall v :: 0 <= v < |g.par| ==> f.kids[v] == Nodes(adj[v])
  {
    var kids := KidsOf(adj);
    forall v, i | 0 <= v < |g.par| && 0 <= i < |kids[v]|
      ensures 0 <= kids[v][i] < |g.par| && g.par[kids[v][i]] == v
    {
      KidsOfChild(g, gw, adj, v, i);
    }
    var s := Shape(g.par, kids, g.rank);
    assert Wf(s);
    f := s;
    forall v | 0 <= v < |g.par|
      ensures Distinct(f.kids[v])
    {
      DownNodesDistinct(g, gw, v, adj[v]);
    }
    forall u | 0 <= u < |g.par| && f.par[u] >= 0
      ensures u in f.kids[f.par[u]]
    {
      KidsOfParent(g, gw, adj, u);
    }
  }

  /** `f` is `g` with each node's children in the order of its list in `adj`. */
  ghost predicate Reordered(g: Tree, gw: seq<int>, f: Tree, adj: seq<seq<Edge>>)
  {
    && Complete(g) && f.par == g.par && f.rank == g.rank && |adj| == |g.par|
    && forall v :: 0 <= v < |g.par| ==>
         f.kids[v] == Nodes(adj[v]) && multiset(adj[v]) == multiset(DownEdges(g.kids[v], gw))
  }

  /** Reordering children does not change subtree sizes. */
  lemma {:induction false} SizeSame(g: Tree, gw: seq<int>, f: Tree, adj: seq<seq<Edge>>, u: int)
    requires Reordered(g, gw, f, adj) && IsNode(g, u)
    ensures Size(f, u) == Size(g, u)
    decreases Height(g, u), 1
  {
    SizeSameKids(g, gw, f, adj, u, |adj[u]|);
    SizeFromEdges(g, gw, u, adj[u]);
    assert adj[u][..|adj[u]|] == adj[u];
  }

  lemma {:induction false} SizeSameKids(g: Tree, gw: seq<int>, f: Tree, adj: seq<seq<Edge>>, u: int, i: int)
    requires Reordered(g, gw, f, adj) && IsNode(g, u)
    requires 0 <= i <= |adj[u]|
    ensures SizeKids(f, u, i) == SumSizes(adj[u][..i], TrueSizes(g))
    decreases Height(g, u), 0, i
  {
    if i > 0 {
      var l := adj[u];
      var e := l[i - 1];
      assert e in l;
      DownEdge(g, gw, u, l, e);
      assert Height(g, e.node) < Height(g, u);
      SizeSameKids(g, gw, f, adj, u, i - 1);
      SizeSame(g, gw, f, adj, e.node);
      SumSizesPrefix(l, i - 1, TrueSizes(g));
      assert f.kids[u][i - 1] == e.node;
    }
  }

  lemma {:induction false} DepthOkIsDepth(f: Tree, depth: seq<int>, u: int)
    requires DepthOk(f, depth) && IsNode(f, u)
    ensures depth[u] == Depth(f, u)
    decreases f.rank[u]
  {
    if f.par[u] >= 0 {
      DepthOkIsDepth(f, depth, f.par[u]);
    }
  }

  /** What `build` leaves in the rooting tables, for the forest `f`. */
  ghost predicate RootingTables(f: Tree, adj: seq<seq<Edge>>, parent: seq<int>, depth: seq<int>,
                                size: seq<int>, wdepth: seq<int>, up: seq<int>)
  {
    var n := |f.par|;
    && |adj| == n && parent == f.par
    && (forall v :: 0 <= v < n ==> Nodes(adj[v]) == f.kids[v])
    && DepthOk(f, depth) && WeightOk(f, wdepth, up)
    && |size| == n && (forall u :: 0 <= u < n ==> size[u] == Size(f, u))
    && (forall v :: 0 <= v < n ==> SortedBy(adj[v], HeavyKey(size)))
  }

  /** The finished rooting, restated for the reordered forest. */
  lemma RootingDone(g: Tree, gw: seq<int>, f: Tree, v: View)
    requires Complete(g) && Sized(v, |g.par|) && |gw| == |g.par|
    requires forall u :: 0 <= u < |g.par| ==> Done(g, gw, v, u)
    requires f.par == g.par && f.rank == g.rank
    requires forall u :: 0 <= u < |g.par| ==> f.kids[u] == Nodes(v.adj[u])
    ensures RootingTables(f, v.adj, v.parent, v.depth, v.size, v.wdepth, v.up)
  {
    RootingDepths(g, gw, f, v);
    forall u | 0 <= u < |g.par|
      ensures multiset(v.adj[u]) == multiset(DownEdges(g.kids[u], gw))
    {
      assert Done(g, gw, v, u);
    }
    forall u | 0 <= u < |g.par|
      ensures v.size[u] == Size(f, u)
    {
      assert Done(g, gw, v, u);
      SizeSame(g, gw, f, v.adj, u);
    }
    forall u | 0 <= u < |g.par|
      ensures SortedBy(v.adj[u], HeavyKey(v.size))
    {
      RootingSorted(g, gw, v, u);
    }
  }

  lemma RootingDepths(g: Tree, gw: seq<int>, f: Tree, v: View)
    requires Sized(v, |g.par|) && |gw| == |g.par|
    requires forall u :: 0 <= u < |g.par| ==> Done(g, gw, v, u)
    requires f.par == g.par
    ensures DepthOk(f, v.depth) && WeightOk(f, v.wdepth, v.up) && v.parent == f.par
  {
    forall u | 0 <= u < |g.par|
      ensures v.parent[u] == g.par[u] && v.depth[u] == Depth(g, u)
    {
      assert Done(g, gw, v, u);
    }
    forall u | 0 <= u < |g.par|
      ensures v.wdepth[u] == WDepth(g, gw, u) && (g.par[u] >= 0 ==> v.up[u] == At(gw, u))
    {
      assert Done(g, gw, v, u);
    }
    DepthIsDepth(g, v.depth);
    WDepthIsWeightDepth(g, gw, v.wdepth, v.up);
    SameParents(g, f, v.depth, v.wdepth, v.up);
  }

  /** Depth tables depend on the parents only. */
  lemma SameParents(g: Tree, f: Tree, depth: seq<int>, wdepth: seq<int>, up: seq<int>)
    requires f.par == g.par && DepthOk(g, depth) && WeightOk(g, wdepth, up)
    ensures DepthOk(f, depth) && WeightOk(f, wdepth, up)
  {
  }

  lemma RootingSorted(g: Tree, gw: seq<int>, v: View, u: int)
    requires Sized(v, |g.par|) && IsNode(g, u)
    requires forall x :: 0 <= x < |g.par| ==> Done(g, gw, v, x)
    ensures SortedBy(v.adj[u], HeavyKey(v.size))
  {
    assert Done(g, gw, v, u);
    forall k | 0 <= k < |v.adj[u]|
      ensures SizeKey(g)(v.adj[u][k]) == HeavyKey(v.size)(v.adj[u][k])
    {
      DownEdge(g, gw, u, v.adj[u], v.adj[u][k]);
      assert Done(g, gw, v, v.adj[u][k].node);
    }
    SortedByAgree(v.adj[u], SizeKey(g), HeavyKey(v.size));
  }

  // ---------------------------------------------------------------------------
  // The tour loop

  /**
   * The tour loop before index `i`: the trees with a root below `i` are laid
   * out, one after another, in the tour `eu` and the list `tl` (which started
   * as `l0`), and their nodes are finished in `w`.
   */
  ghost predicate LaidOut(f: Tree, w: TourView, eu: seq<int>, tl: seq<int>, tr: int, pt: int, l0: seq<int>, i: int)
  {
    && 0 <= i <= |f.par| && |l0| == |f.par| && TSized(w, |f.par|)
    && eu == ForestTour(f, i) && tr == |ForestPre(f, i)| && pt == tr && tr <= |f.par|
    && tl == Splice(l0, 0, ForestPre(f, i))
    && forall u :: 0 <= u < |f.par| && RootOf(f, u) < i ==> TDone(f, w, u)
  }

  lemma LaidStart(f: Tree, w: TourView, l0: seq<int>)
    requires TSized(w, |f.par|) && |l0| == |f.par|
    ensures LaidOut(f, w, [], l0, 0, 0, l0, 0)
  {
    assert Splice(l0, 0, []) == l0;
  }

  lemma LaidSkip(f: Tree, w: TourView, eu: seq<int>, tl: seq<int>, tr: int, pt: int, l0: seq<int>, i: int)
    requires LaidOut(f, w, eu, tl, tr, pt, l0, i) && i < |f.par| && f.par[i] >= 0
    ensures LaidOut(f, w, eu, tl, tr, pt, l0, i + 1)
  {
    assert ForestTour(f, i + 1) == ForestTour(f, i) + [];
    assert ForestPre(f, i + 1) == ForestPre(f, i) + [];
    forall u | 0 <= u < |f.par| && RootOf(f, u) < i + 1
      ensures TDone(f, w, u)
    {
      if RootOf(f, u) == i {
        OwnRoot(f, i);
      }
    }
  }

  /** At a root, the walk's entry conditions hold. */
  lemma LaidEntry(f: Tree, w: TourView, eu: seq<int>, tl: seq<int>, tr: int, pt: int, l0: seq<int>, i: int)
    requires Complete(f) && LaidOut(f, w, eu, tl, tr, pt, l0, i) && IsRoot(f, i)
    ensures TSized(w, |f.par|) && |eu| == FirstPos(f, i) && tr == StartPos(f, i) && pt == tr - Depth(f, i)
    ensures 0 <= tr && tr + Size(f, i) <= |tl|
  {
    RootPreBlock(f, i, |f.par|);
    ForestCounts(f);
  }

  /** After the walk from root `i` and the separator, the trees below `i + 1` are laid out. */
  lemma LaidAfter(f: Tree, w: TourView, eu: seq<int>, tl: seq<int>, tr: int, pt: int,
                  w2: TourView, eu2: seq<int>, tl2: seq<int>, tr2: int, pt2: int, l0: seq<int>, i: int)
    requires Complete(f) && LaidOut(f, w, eu, tl, tr, pt, l0, i) && IsRoot(f, i)
    requires 0 <= tr && tr + Size(f, i) <= |tl| && TSized(w2, |f.par|)
    requires forall u :: 0 <= u < |f.par| && Anc(f, i, u) ==> TDone(f, w2, u)
    requires forall u :: 0 <= u < |f.par| && !Anc(f, i, u) ==> TSame(w, w2, u)
    requires eu2 == eu + Euler(f, i) + [-1] && tr2 == tr + Size(f, i) && pt2 == pt + Size(f, i)
    requires tl2 == Splice(tl, tr, Pre(f, i))
    ensures LaidOut(f, w2, eu2, tl2, tr2, pt2, l0, i + 1)
  {
    LaidSeqs(f, eu, tl, tr, l0, i);
    forall u | 0 <= u < |f.par| && RootOf(f, u) < i + 1
      ensures TDone(f, w2, u)
    {
      SubtreeOfRoot(f, i, u);
    }
  }

  /** The tour, list and counter after the tree of root `i`. */
  lemma LaidSeqs(f: Tree, eu: seq<int>, tl: seq<int>, tr: int, l0: seq<int>, i: int)
    requires Complete(f) && IsRoot(f, i) && |l0| == |f.par|
    requires eu == ForestTour(f, i) && tr == |ForestPre(f, i)| && tr <= |f.par| && tl == Splice(l0, 0, ForestPre(f, i))
    ensures eu + Euler(f, i) + [-1] == ForestTour(f, i + 1)
    ensures tr + Size(f, i) == |ForestPre(f, i + 1)| <= |f.par|
    ensures 0 <= tr && tr + Size(f, i) <= |tl|
    ensures Splice(tl, tr, Pre(f, i)) == Splice(l0, 0, ForestPre(f, i + 1))
  {
    RootPreBlock(f, i, |f.par|);
    ForestCounts(f);
    assert ForestTour(f, i + 1) == ForestTour(f, i) + (Euler(f, i) + [-1]);
    assert ForestPre(f, i + 1) == ForestPre(f, i) + Pre(f, i);
    SpliceTwice(l0, 0, ForestPre(f, i), Pre(f, i));
  }

  /** After the loop: the whole forest tour and preorder, and every node finished. */
  lemma LaidEnd(f: Tree, w: TourView, eu: seq<int>, tl: seq<int>, tr: int, pt: int, l0: seq<int>)
    requires Complete(f) && LaidOut(f, w, eu, tl, tr, pt, l0, |f.par|)
    ensures eu == ForestTour(f, |f.par|) && tl == ForestPre(f, |f.par|)
    ensures forall u :: 0 <= u < |f.par| ==> TDone(f, w, u)
  {
    ForestCounts(f);
    assert tl == l0[..0] + ForestPre(f, |f.par|) + l0[|f.par|..];
  }

  // ---------------------------------------------------------------------------
  // The finished tour tables

  /** What `build` leaves in the Euler-tour tables. */
  ghost predicate EulerTables(f: Tree, depth: seq<int>, euler: seq<int>, first: seq<int>)
  {
    && |euler| == 2 * |f.par|
    && TourShape(f, euler)
    && FirstIn(f, euler, first) && FirstOrdered(f, first)
    && LcaByMin(f, euler, DepthsOf(euler, depth))
    && ChildByMin(f, euler, first, DepthsOf(euler, depth))
    && RangeAll(f, euler)
    && (|f.par| > 0 ==> euler[0] == FirstRoot(f) && FirstTree(f, euler, first, 2 * Size(f, FirstRoot(f)) - 1))
  }

  /** What `build` leaves in the preorder tables. */
  ghost predicate PreTables(f: Tree, depth: seq<int>, start: seq<int>, end: seq<int>, post: seq<int>,
                            list: seq<int>, rev: seq<int>, top: seq<int>)
  {
    && EndOk(f, start, end) && AncByStart(f, start, end)
    && ListOk(f, start, list) && rev == Reverse(list)
    && HeavyOk(f, start, top)
    && |post| == |f.par| && |depth| == |f.par|
    && forall u :: 0 <= u < |f.par| ==> post[u] == end[u] - 1 - depth[u]
  }

  /** Every table `build` fills describes the rooted forest `f`. */
  ghost predicate Laid(f: Shape, adj: seq<seq<Edge>>, parent: seq<int>, depth: seq<int>, size: seq<int>,
                       wdepth: seq<int>, up: seq<int>, euler: seq<int>, first: seq<int>,
                       start: seq<int>, end: seq<int>, post: seq<int>, list: seq<int>, rev: seq<int>, top: seq<int>)
  {
    var n := |f.par|;
    && Wf(f) && |adj| == n
    && Complete(f)
    && RootingTables(f, adj, parent, depth, size, wdepth, up)
    && EulerTables(f, depth, euler, first)
    && PreTables(f, depth, start, end, post, list, rev, top)
  }

  /** A complete layout has one entry per node in each per-node table. */
  lemma LaidSized(f: Shape, adj: seq<seq<Edge>>, parent: seq<int>, depth: seq<int>, size: seq<int>,
                  wdepth: seq<int>, up: seq<int>, euler: seq<int>, first: seq<int>,
                  start: seq<int>, end: seq<int>, post: seq<int>, list: seq<int>, rev: seq<int>, top: seq<int>)
    requires Laid(f, adj, parent, depth, size, wdepth, up, euler, first, start, end, post, list, rev, top)
    ensures |first| == |f.par| && |start| == |f.par| && |end| == |f.par| && |post| == |f.par|
    ensures |list| == |f.par| && |top| == |f.par|
  {
  }

  /** Every rooting table has `n` entries. */
  ghost predicate ViewSized(v: View, n: int)
  {
    && |v.adj| == n && |v.parent| == n && |v.depth| == n && |v.size| == n
    && |v.wdepth| == n && |v.up| == n
  }

  /** The tour tables `w`, the tour `euler` and the preorder `list` are those of the forest `f`. */
  ghost predicate TourTables(f: Tree, w: TourView, euler: seq<int>, list: seq<int>)
  {
    var size := |f.par|;
    && TSized(w, size) && euler == ForestTour(f, size) && list == ForestPre(f, size)
    && forall u :: 0 <= u < size ==> TDone(f, w, u)
  }

  /** The finished tour pass, with the rooting tables it started from, fills every table. */
  lemma LaidDone(f: Tree, v: View, w: TourView, euler: seq<int>, list: seq<int>, rev: seq<int>)
    requires Complete(f) && RootingTables(f, v.adj, v.parent, v.depth, v.size, v.wdepth, v.up)
    requires TourTables(f, w, euler, list) && rev == Reverse(list)
    ensures |list| == |f.par|
    ensures Laid(f, v.adj, v.parent, v.depth, v.size, v.wdepth, v.up, euler, w.first,
                 w.start, w.end, w.post, list, rev, w.top)
  {
    EulerDone(f, v.depth, w);
    PreDone(f, v.depth, w, list);
    ForestCounts(f);
  }

  lemma EulerDone(f: Tree, depth: seq<int>, w: TourView)
    requires Complete(f) && DepthOk(f, depth) && TSized(w, |f.par|)
    requires forall u :: 0 <= u < |f.par| ==> TDone(f, w, u)
    ensures EulerTables(f, depth, ForestTour(f, |f.par|), w.first)
  {
    forall u | 0 <= u < |f.par|
      ensures w.first[u] == FirstPos(f, u)
    {
      assert TDone(f, w, u);
    }
    FirstPosOk(f, w.first);
    ForestCounts(f);
    TourShapeOk(f);
    FirstTable(f, w.first);
    FirstOrderedTable(f, w.first);
    LcaTable(f, depth);
    ChildTable(f, w.first, depth);
    RangeTable(f);
    if |f.par| > 0 {
      FirstTreeTable(f, w.first);
    }
  }

  lemma PreDone(f: Tree, depth: seq<int>, w: TourView, list: seq<int>)
    requires Complete(f) && DepthOk(f, depth) && TSized(w, |f.par|)
    requires forall u :: 0 <= u < |f.par| ==> TDone(f, w, u)
    requires list == ForestPre(f, |f.par|)
    ensures PreTables(f, depth, w.start, w.end, w.post, list, Reverse(list), w.top)
  {
    forall u | 0 <= u < |f.par|
      ensures w.start[u] == StartPos(f, u) && w.top[u] == TopOf(f, u)
      ensures w.end[u] == w.start[u] + Size(f, u)
    {
      assert TDone(f, w, u);
    }
    StartPosOk(f, w.start);
    TopOfOk(f, w.top);
    AncTable(f, w.start, w.end);
    ListTable(f, w.start, list);
    HeavyTable(f, w.start, w.top);
    forall u | 0 <= u < |f.par|
      ensures w.post[u] == w.end[u] - 1 - depth[u]
    {
      assert TDone(f, w, u);
      DepthOkIsDepth(f, depth, u);
    }
  }
}

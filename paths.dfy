/**
 * Facts about tree paths that the path queries rest on: which nodes lie on
 * the path between two nodes, the node a given number of steps along it,
 * and path lengths when every edge weighs one or no edge weighs less than
 * zero.  Paths are the walks of Forest.PathLen, the deeper end stepping up
 * first.
 */
module Paths {
  import opened Forest
  import opened Bits

  /** The nodes the walk from `a` to `b` passes through, both ends included. */
  ghost function PathNodes(f: Tree, depth: seq<int>, a: int, b: int): (r: set<int>)
    requires DepthOk(f, depth) && IsNode(f, a) && IsNode(f, b) && RootOf(f, a) == RootOf(f, b)
    ensures a in r && b in r
    decreases f.rank[a] + f.rank[b]
  {
    if a == b then {a}
    else if depth[a] >= depth[b] then
      DeeperHasParent(f, depth, a, b);
      {a} + PathNodes(f, depth, f.par[a], b)
    else
      DeeperHasParent(f, depth, b, a);
      {b} + PathNodes(f, depth, a, f.par[b])
  }

  /** `x` is on the path exactly when it is above an end and below the lowest common ancestor. */
  lemma {:induction false} PathNodesByLca(f: Tree, depth: seq<int>, x: int, a: int, b: int)
    requires DepthOk(f, depth) && IsNode(f, a) && IsNode(f, b) && IsNode(f, x)
    requires RootOf(f, a) == RootOf(f, b)
    ensures Lca(f, a, b) >= 0
    ensures x in PathNodes(f, depth, a, b) <==> (Anc(f, x, a) || Anc(f, x, b)) && Anc(f, Lca(f, a, b), x)
    decreases f.rank[a] + f.rank[b]
  {
    LcaIsDeepest(f, a, b);
    if a == b {
      LcaOfAnc(f, a, a);
      if Anc(f, x, a) && Anc(f, a, x) {
        AncAntisym(f, x, a);
      }
    } else if depth[a] >= depth[b] {
      DeeperHasParent(f, depth, a, b);
      LcaStep(f, depth, a, b);
      PathNodesByLca(f, depth, x, f.par[a], b);
    } else {
      DeeperHasParent(f, depth, b, a);
      LcaSymmetric(f, a, b);
      LcaStep(f, depth, b, a);
      LcaSymmetric(f, a, f.par[b]);
      PathNodesByLca(f, depth, x, a, f.par[b]);
    }
  }

  lemma PathLenSymmetric(f: Tree, depth: seq<int>, a: int, b: int)
    requires DepthOk(f, depth) && IsNode(f, a) && IsNode(f, b) && RootOf(f, a) == RootOf(f, b)
    ensures PathLen(f, depth, a, b) == PathLen(f, depth, b, a)
  {
    PathLenByDepth(f, depth, a, b);
    PathLenByDepth(f, depth, b, a);
    LcaSymmetric(f, a, b);
  }

  /** The path has no edge only from a node to itself. */
  lemma PathLenZero(f: Tree, depth: seq<int>, a: int, b: int)
    requires DepthOk(f, depth) && IsNode(f, a) && IsNode(f, b) && RootOf(f, a) == RootOf(f, b)
    ensures PathLen(f, depth, a, b) == 0 <==> a == b
  {
  }

  /** A node between `a` and the lowest common ancestor of `a` and `b` has that same lowest common ancestor with `b`. */
  lemma LcaThrough(f: Tree, a: int, b: int, r: int)
    requires IsNode(f, a) && IsNode(f, b) && RootOf(f, a) == RootOf(f, b)
    requires Lca(f, a, b) >= 0 && Anc(f, r, a) && Anc(f, Lca(f, a, b), r)
    ensures Lca(f, r, b) == Lca(f, a, b)
  {
    var l := Lca(f, a, b);
    LcaIsDeepest(f, a, b);
    forall w | Anc(f, w, r) && Anc(f, w, b)
      ensures Anc(f, w, l)
    {
      AncTrans(f, w, r, a);
    }
    LcaUnique(f, r, b, l);
  }

  /**
   * Climbing `k` steps from `a`, no further than the lowest common ancestor,
   * lands `k` edges from `a` and the rest of the path away from `b`.
   */
  lemma ClimbOnPath(f: Tree, depth: seq<int>, a: int, b: int, k: nat)
    requires DepthOk(f, depth) && IsNode(f, a) && IsNode(f, b) && RootOf(f, a) == RootOf(f, b)
    requires Lca(f, a, b) >= 0 && k <= depth[a] - depth[Lca(f, a, b)]
    ensures IsNode(f, KthAnc(f, a, k)) && RootOf(f, KthAnc(f, a, k)) == RootOf(f, b)
    ensures PathLen(f, depth, a, KthAnc(f, a, k)) == k
    ensures PathLen(f, depth, KthAnc(f, a, k), b) == PathLen(f, depth, a, b) - k
  {
    var l := Lca(f, a, b);
    LcaIsDeepest(f, a, b);
    AncDepth(f, depth, l, a);
    DepthNonneg(f, depth, l);
    KthAncDepth(f, depth, a, k);
    var r := KthAnc(f, a, k);
    AncChain(f, l, r, a);
    if Anc(f, r, l) {
      AncDepth(f, depth, r, l);
      SameDepthAnc(f, depth, r, l, a);
    }
    AncRoot(f, r, a);
    LcaThrough(f, a, b, r);
    LcaOfAnc(f, r, a);
    PathLenByDepth(f, depth, a, r);
    PathLenByDepth(f, depth, r, b);
    PathLenByDepth(f, depth, a, b);
  }

  /**
   * Climbing from `a` while staying below the lowest common ancestor `l`, and
   * from `b` otherwise, finds the node `k` edges along the path from `a`.
   */
  lemma KthNodeOnPath(f: Tree, depth: seq<int>, a: int, b: int, l: int, k: int, r: int)
    requires DepthOk(f, depth) && IsNode(f, a) && IsNode(f, b) && RootOf(f, a) == RootOf(f, b)
    requires l == Lca(f, a, b) && 0 <= l && 0 <= k <= PathLen(f, depth, a, b)
    requires k < depth[a] - depth[l] ==> r == KthAnc(f, a, k)
    requires k >= depth[a] - depth[l] ==>
               (depth[a] + depth[b] - 2 * depth[l] - k >= 0 && r == KthAnc(f, b, depth[a] + depth[b] - 2 * depth[l] - k))
    ensures IsNode(f, r) && RootOf(f, r) == RootOf(f, a)
    ensures PathLen(f, depth, a, r) == k && PathLen(f, depth, r, b) == PathLen(f, depth, a, b) - k
  {
    PathLenByDepth(f, depth, a, b);
    if k < depth[a] - depth[l] {
      ClimbOnPath(f, depth, a, b, k);
    } else {
      KthNodeFromEnd(f, depth, a, b, l, k, r);
    }
  }

  /** The `k`th node past the lowest common ancestor is reached by climbing from `b`. */
  lemma KthNodeFromEnd(f: Tree, depth: seq<int>, a: int, b: int, l: int, k: int, r: int)
    requires DepthOk(f, depth) && IsNode(f, a) && IsNode(f, b) && RootOf(f, a) == RootOf(f, b)
    requires l == Lca(f, a, b) && 0 <= l && depth[a] - depth[l] <= k <= PathLen(f, depth, a, b)
    requires PathLen(f, depth, a, b) == depth[a] + depth[b] - 2 * depth[l]
    requires r == KthAnc(f, b, depth[a] + depth[b] - 2 * depth[l] - k)
    ensures IsNode(f, r) && RootOf(f, r) == RootOf(f, a)
    ensures PathLen(f, depth, a, r) == k && PathLen(f, depth, r, b) == PathLen(f, depth, a, b) - k
  {
    LcaSymmetric(f, a, b);
    ClimbOnPath(f, depth, b, a, depth[a] + depth[b] - 2 * depth[l] - k);
    PathLenSymmetric(f, depth, a, b);
    PathLenSymmetric(f, depth, a, r);
    PathLenSymmetric(f, depth, r, b);
  }

  // ---------------------------------------------------------------------------
  // Edge weights

  /** No edge weighs less than zero. */
  ghost predicate NonnegWeights(f: Tree, upWeight: seq<int>)
  {
    |upWeight| == |f.par| && forall v :: 0 <= v < |f.par| && f.par[v] >= 0 ==> upWeight[v] >= 0
  }

  /** Every edge weighs one. */
  ghost predicate UnitWeights(f: Tree, upWeight: seq<int>)
  {
    |upWeight| == |f.par| && forall v :: 0 <= v < |f.par| && f.par[v] >= 0 ==> upWeight[v] == 1
  }

  lemma UnitNonneg(f: Tree, upWeight: seq<int>)
    requires UnitWeights(f, upWeight)
    ensures NonnegWeights(f, upWeight)
  {
  }

  /** With no negative weight, weighted depth does not decrease going down. */
  lemma {:induction false} WeightAncestor(f: Tree, wdepth: seq<int>, upWeight: seq<int>, w: int, u: int)
    requires WeightOk(f, wdepth, upWeight) && NonnegWeights(f, upWeight)
    requires IsNode(f, u) && Anc(f, w, u)
    ensures IsNode(f, w) && wdepth[w] <= wdepth[u]
    decreases f.rank[u]
  {
    if u != w {
      WeightAncestor(f, wdepth, upWeight, w, f.par[u]);
    }
  }

  /** With unit weights, the weighted path length is the number of edges. */
  lemma {:induction false} UnitPathLen(f: Tree, depth: seq<int>, upWeight: seq<int>, a: int, b: int)
    requires DepthOk(f, depth) && UnitWeights(f, upWeight)
    requires IsNode(f, a) && IsNode(f, b) && RootOf(f, a) == RootOf(f, b)
    ensures WeightedPathLen(f, depth, upWeight, a, b) == PathLen(f, depth, a, b)
    decreases f.rank[a] + f.rank[b]
  {
    if a != b {
      if depth[a] >= depth[b] {
        DeeperHasParent(f, depth, a, b);
        UnitPathLen(f, depth, upWeight, f.par[a], b);
      } else {
        DeeperHasParent(f, depth, b, a);
        UnitPathLen(f, depth, upWeight, a, f.par[b]);
      }
    }
  }

  // ---------------------------------------------------------------------------
  // The common node of three nodes

  /**
   * `r` is the deepest of the pairwise lowest common ancestors of `a`, `b` and
   * `c`: below the other two when all three nodes share a tree, the one pair's
   * ancestor when only two of them do, and -1 when no two do.
   */
  ghost predicate CommonNodeOk(f: Tree, a: int, b: int, c: int, r: int)
    requires IsNode(f, a) && IsNode(f, b) && IsNode(f, c)
  {
    var x, y, z := Lca(f, a, b), Lca(f, b, c), Lca(f, c, a);
    && (x >= 0 && y >= 0 && z >= 0 ==>
          && (r == x || r == y || r == z)
          && IsNode(f, r) && Anc(f, x, r) && Anc(f, y, r) && Anc(f, z, r))
    && (x >= 0 && y < 0 ==> r == x)
    && (y >= 0 && z < 0 ==> r == y)
    && (z >= 0 && x < 0 ==> r == z)
    && (x < 0 && y < 0 && z < 0 ==> r == -1)
  }

  /** Of the three pairwise lowest common ancestors of three nodes of one tree, two are equal and the third lies below them. */
  lemma ThreeLcas(f: Tree, a: int, b: int, c: int)
    requires IsNode(f, a) && IsNode(f, b) && IsNode(f, c)
    requires RootOf(f, a) == RootOf(f, b) == RootOf(f, c)
    ensures var x, y, z := Lca(f, a, b), Lca(f, b, c), Lca(f, c, a);
      && IsNode(f, x) && IsNode(f, y) && IsNode(f, z)
      && ((x == y && Anc(f, x, z)) || (y == z && Anc(f, y, x)) || (z == x && Anc(f, z, y)))
  {
    var x, y, z := Lca(f, a, b), Lca(f, b, c), Lca(f, c, a);
    LcaIsDeepest(f, a, b);
    LcaIsDeepest(f, b, c);
    LcaIsDeepest(f, c, a);
    AncChain(f, x, y, b);
    AncChain(f, y, z, c);
    AncChain(f, z, x, a);
    if Anc(f, x, y) {
      AncTrans(f, x, y, c);
      if Anc(f, y, z) {
        AncTrans(f, y, z, a);
        AncAntisym(f, x, y);
      } else {
        AncTrans(f, z, y, b);
        AncAntisym(f, x, z);
      }
    } else {
      AncTrans(f, y, x, a);
      if Anc(f, z, x) {
        AncTrans(f, z, x, b);
        AncAntisym(f, y, z);
      } else {
        AncTrans(f, x, z, c);
      }
    }
  }

  /** The exclusive or of the three pairwise lowest common ancestors is the common node. */
  lemma CommonNodeByXor(f: Tree, a: int, b: int, c: int)
    requires IsNode(f, a) && IsNode(f, b) && IsNode(f, c)
    ensures CommonNodeOk(f, a, b, c, Xor(Xor(Lca(f, a, b), Lca(f, b, c)), Lca(f, c, a)))
  {
    var x, y, z := Lca(f, a, b), Lca(f, b, c), Lca(f, c, a);
    LcaIsDeepest(f, a, b);
    LcaIsDeepest(f, b, c);
    LcaIsDeepest(f, c, a);
    OddOneOut(x, y, z);
    if RootOf(f, a) == RootOf(f, b) == RootOf(f, c) {
      ThreeLcas(f, a, b, c);
    }
  }
}

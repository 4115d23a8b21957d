/**
 * A rooted forest on the nodes 0 .. n-1, given by parent pointers (-1 for a
 * root) and by each node's ordered list of children.  `rank` is a ghost
 * termination measure: every parent has a smaller rank than its children.
 * Ancestry, component roots, the lowest common ancestor and the k-th ancestor
 * are defined here by walking parent pointers one step at a time; the indexed
 * structure is proved against these naive definitions.
 */
module Forest {

  datatype Shape = Shape(par: seq<int>, kids: seq<seq<int>>, rank: seq<nat>)

  /** Enough structure for the recursive definitions below to be well founded. */
  ghost predicate Wf(f: Shape)
  {
    && |f.kids| == |f.par|
    && |f.rank| == |f.par|
    && (forall v :: 0 <= v < |f.par| ==> -1 <= f.par[v] < |f.par| && f.rank[v] < |f.par|)
    && (forall v :: 0 <= v < |f.par| && f.par[v] >= 0 ==> f.rank[f.par[v]] < f.rank[v])
    && (forall v, i :: 0 <= v < |f.par| && 0 <= i < |f.kids[v]| ==>
          0 <= f.kids[v][i] < |f.par| && f.par[f.kids[v][i]] == v)
  }

  /** The well-formed shapes; every definition below takes one. */
  type Tree = f: Shape | Wf(f) witness Shape([], [], [])

  /** Every node's children are listed exactly once, in its parent's list. */
  ghost predicate Complete(f: Tree)
  {
    && (forall v, i, j :: 0 <= v < |f.par| && 0 <= i < j < |f.kids[v]| ==> f.kids[v][i] != f.kids[v][j])
    && (forall v :: 0 <= v < |f.par| && f.par[v] >= 0 ==> v in f.kids[f.par[v]])
  }

  ghost predicate IsNode(f: Tree, v: int)
  {
    0 <= v < |f.par|
  }

  /** `a` is `u` or an ancestor of `u`. */
  ghost predicate Anc(f: Tree, a: int, u: int)
    requires IsNode(f, u)
    ensures Anc(f, a, u) ==> IsNode(f, a)
    decreases f.rank[u]
  {
    u == a || (f.par[u] >= 0 && Anc(f, a, f.par[u]))
  }

  /** The root of `u`'s tree. */
  ghost function RootOf(f: Tree, u: int): (r: int)
    requires IsNode(f, u)
    ensures IsNode(f, r) && f.par[r] < 0
    decreases f.rank[u]
  {
    if f.par[u] < 0 then u else RootOf(f, f.par[u])
  }

  /** Lowest common ancestor by walking up from `a`; -1 when there is none. */
  ghost function Lca(f: Tree, a: int, b: int): (r: int)
    requires IsNode(f, a) && IsNode(f, b)
    ensures r == -1 || IsNode(f, r)
    decreases f.rank[a]
  {
    if Anc(f, a, b) then a else if f.par[a] < 0 then -1 else Lca(f, f.par[a], b)
  }

  /** The node `k` parent steps above `a`, or -1 when the walk leaves the tree. */
  ghost function KthAnc(f: Tree, a: int, k: nat): (r: int)
    requires (a == -1 || IsNode(f, a))
    ensures r == -1 || IsNode(f, r)
    decreases k
  {
    if a < 0 then -1 else if k == 0 then a else KthAnc(f, f.par[a], k - 1)
  }

  /** The child of `w` on the way down to its strict descendant `u`. */
  ghost function ChildToward(f: Tree, w: int, u: int): (c: int)
    requires IsNode(f, u) && Anc(f, w, u) && w != u
    ensures IsNode(f, c) && f.par[c] == w && Anc(f, c, u)
    decreases f.rank[u]
  {
    if f.par[u] == w then u else ChildToward(f, w, f.par[u])
  }

  /** Unweighted depth: 0 at a root, one more than the parent elsewhere. */
  ghost predicate DepthOk(f: Tree, depth: seq<int>)
  {
    && |depth| == |f.par|
    && forall v {:trigger f.par[v]} :: 0 <= v < |f.par| ==> depth[v] == (if f.par[v] < 0 then 0 else depth[f.par[v]] + 1)
  }

  /** Weighted depth: 0 at a root, the parent's plus the edge weight elsewhere. */
  ghost predicate WeightOk(f: Tree, wdepth: seq<int>, upWeight: seq<int>)
  {
    && |wdepth| == |f.par|
    && |upWeight| == |f.par|
    && forall v {:trigger f.par[v]} :: 0 <= v < |f.par| ==>
         wdepth[v] == (if f.par[v] < 0 then 0 else wdepth[f.par[v]] + upWeight[v])
  }

  // ---------------------------------------------------------------------------
  // Ancestry

  lemma {:induction false} AncRank(f: Tree, a: int, u: int)
    requires IsNode(f, u) && Anc(f, a, u)
    ensures IsNode(f, a) && f.rank[a] <= f.rank[u]
    ensures a != u ==> f.rank[a] < f.rank[u]
    decreases f.rank[u]
  {
    if u != a {
      AncRank(f, a, f.par[u]);
    }
  }

  lemma {:induction false} AncTrans(f: Tree, a: int, b: int, c: int)
    requires IsNode(f, b) && IsNode(f, c)
    requires Anc(f, a, b) && Anc(f, b, c)
    ensures Anc(f, a, c)
    decreases f.rank[c]
  {
    if c != b {
      AncTrans(f, a, b, f.par[c]);
    }
  }

  lemma AncAntisym(f: Tree, a: int, b: int)
    requires IsNode(f, a) && IsNode(f, b)
    requires Anc(f, a, b) && Anc(f, b, a)
    ensures a == b
  {
    AncRank(f, a, b);
    AncRank(f, b, a);
  }

  /** Two ancestors of the same node are comparable. */
  lemma {:induction false} AncChain(f: Tree, a: int, b: int, u: int)
    requires IsNode(f, u)
    requires Anc(f, a, u) && Anc(f, b, u)
    ensures Anc(f, a, b) || Anc(f, b, a)
    decreases f.rank[u]
  {
    if a != u && b != u {
      AncChain(f, a, b, f.par[u]);
    }
  }

  lemma {:induction false} AncRoot(f: Tree, a: int, u: int)
    requires IsNode(f, u) && Anc(f, a, u)
    ensures IsNode(f, a) && RootOf(f, a) == RootOf(f, u)
    decreases f.rank[u]
  {
    AncRank(f, a, u);
    if u != a {
      AncRoot(f, a, f.par[u]);
    }
  }

  lemma {:induction false} RootIsAnc(f: Tree, u: int)
    requires IsNode(f, u)
    ensures Anc(f, RootOf(f, u), u)
    decreases f.rank[u]
  {
    if f.par[u] >= 0 {
      RootIsAnc(f, f.par[u]);
      AncTrans(f, RootOf(f, u), f.par[u], u);
    }
  }

  /** The only ancestor of a root is the root itself. */
  lemma AncOfRoot(f: Tree, a: int, r: int)
    requires IsNode(f, r) && f.par[r] < 0 && Anc(f, a, r)
    ensures a == r
  {
  }

  lemma {:induction false} DepthNonneg(f: Tree, depth: seq<int>, u: int)
    requires DepthOk(f, depth) && IsNode(f, u)
    ensures depth[u] >= 0
    decreases f.rank[u]
  {
    if f.par[u] >= 0 {
      DepthNonneg(f, depth, f.par[u]);
    }
  }

  /** A strict descendant is strictly deeper. */
  lemma {:induction false} AncDepth(f: Tree, depth: seq<int>, a: int, u: int)
    requires DepthOk(f, depth) && IsNode(f, u) && Anc(f, a, u)
    ensures IsNode(f, a) && depth[a] <= depth[u]
    ensures a != u ==> depth[a] < depth[u]
    decreases f.rank[u]
  {
    AncRank(f, a, u);
    if u != a {
      AncDepth(f, depth, a, f.par[u]);
    }
  }

  /** Two ancestors of one node at the same depth are the same node. */
  lemma SameDepthAnc(f: Tree, depth: seq<int>, a: int, b: int, u: int)
    requires DepthOk(f, depth) && IsNode(f, u)
    requires Anc(f, a, u) && Anc(f, b, u) && depth[a] == depth[b]
    ensures a == b
  {
    AncChain(f, a, b, u);
    AncRank(f, a, u);
    AncRank(f, b, u);
    if Anc(f, a, b) {
      AncDepth(f, depth, a, b);
    } else {
      AncDepth(f, depth, b, a);
    }
  }

  // ---------------------------------------------------------------------------
  // Lowest common ancestor

  /** `r` is a common ancestor of `a` and `b` below every other common ancestor. */
  ghost predicate DeepestCommon(f: Tree, a: int, b: int, r: int)
    requires IsNode(f, a) && IsNode(f, b)
  {
    && IsNode(f, r) && Anc(f, r, a) && Anc(f, r, b)
    && forall w :: Anc(f, w, a) && Anc(f, w, b) ==> Anc(f, w, r)
  }

  lemma {:induction false} LcaIsDeepest(f: Tree, a: int, b: int)
    requires IsNode(f, a) && IsNode(f, b)
    ensures RootOf(f, a) == RootOf(f, b) ==> DeepestCommon(f, a, b, Lca(f, a, b))
    ensures RootOf(f, a) != RootOf(f, b) ==> Lca(f, a, b) == -1
    decreases f.rank[a]
  {
    if Anc(f, a, b) {
      AncRoot(f, a, b);
    } else if f.par[a] < 0 {
      if RootOf(f, b) == a {
        RootIsAnc(f, b);
      }
    } else {
      var p := f.par[a];
      LcaIsDeepest(f, p, b);
      if RootOf(f, a) == RootOf(f, b) {
        var r := Lca(f, p, b);
        AncTrans(f, r, p, a);
        forall w | Anc(f, w, a) && Anc(f, w, b)
          ensures Anc(f, w, r)
        {
          assert w != a;
        }
      }
    }
  }

  /** The deepest common ancestor is unique, and it is what Lca finds. */
  lemma LcaUnique(f: Tree, a: int, b: int, r: int)
    requires IsNode(f, a) && IsNode(f, b)
    requires DeepestCommon(f, a, b, r)
    ensures Lca(f, a, b) == r
  {
    AncRoot(f, r, a);
    AncRoot(f, r, b);
    LcaIsDeepest(f, a, b);
    AncAntisym(f, Lca(f, a, b), r);
  }

  lemma LcaSymmetric(f: Tree, a: int, b: int)
    requires IsNode(f, a) && IsNode(f, b)
    ensures Lca(f, a, b) == Lca(f, b, a)
  {
    LcaIsDeepest(f, a, b);
    LcaIsDeepest(f, b, a);
    if RootOf(f, a) == RootOf(f, b) {
      LcaUnique(f, b, a, Lca(f, a, b));
    }
  }

  // ---------------------------------------------------------------------------
  // k-th ancestor

  lemma {:induction false} KthAncDepth(f: Tree, depth: seq<int>, a: int, k: nat)
    requires DepthOk(f, depth) && IsNode(f, a)
    ensures k <= depth[a] ==> IsNode(f, KthAnc(f, a, k)) && Anc(f, KthAnc(f, a, k), a)
                              && depth[KthAnc(f, a, k)] == depth[a] - k
    ensures k > depth[a] ==> KthAnc(f, a, k) == -1
    decreases k
  {
    DepthNonneg(f, depth, a);
    if k > 0 {
      if f.par[a] >= 0 {
        KthAncDepth(f, depth, f.par[a], k - 1);
        if k <= depth[a] {
          AncTrans(f, KthAnc(f, a, k), f.par[a], a);
        }
      } else {
        assert KthAnc(f, -1, k - 1) == -1;
      }
    }
  }

  lemma {:induction false} KthAncAdd(f: Tree, a: int, x: nat, y: nat)
    requires (a == -1 || IsNode(f, a))
    ensures KthAnc(f, a, x + y) == KthAnc(f, KthAnc(f, a, x), y)
    decreases x
  {
    if a >= 0 && x > 0 {
      KthAncAdd(f, f.par[a], x - 1, y);
    } else if a < 0 && y > 0 {
      assert KthAnc(f, -1, y) == -1;
    }
  }

  /** An ancestor `w` of `a` is reached after exactly depth[a] - depth[w] steps. */
  lemma {:induction false} AncIsKth(f: Tree, depth: seq<int>, w: int, a: int)
    requires DepthOk(f, depth) && IsNode(f, a) && Anc(f, w, a)
    ensures depth[w] <= depth[a] && KthAnc(f, a, depth[a] - depth[w]) == w
    decreases f.rank[a]
  {
    AncDepth(f, depth, w, a);
    if a != w {
      AncIsKth(f, depth, w, f.par[a]);
    }
  }

  // ---------------------------------------------------------------------------
  // Path lengths by walking both ends towards each other, the deeper end first

  lemma DepthZeroIsRoot(f: Tree, depth: seq<int>, v: int)
    requires DepthOk(f, depth) && IsNode(f, v) && depth[v] <= 0
    ensures f.par[v] < 0
  {
    if f.par[v] >= 0 {
      DepthNonneg(f, depth, f.par[v]);
    }
  }

  /** Of two distinct nodes of one tree, the one at least as deep is not a root. */
  lemma DeeperHasParent(f: Tree, depth: seq<int>, a: int, b: int)
    requires DepthOk(f, depth) && IsNode(f, a) && IsNode(f, b) && RootOf(f, a) == RootOf(f, b)
    requires a != b && depth[a] >= depth[b]
    ensures f.par[a] >= 0
  {
    DepthNonneg(f, depth, b);
    if f.par[a] < 0 {
      DepthZeroIsRoot(f, depth, b);
    }
  }

  /** Number of edges on the tree path between `a` and `b`. */
  ghost function PathLen(f: Tree, depth: seq<int>, a: int, b: int): nat
    requires DepthOk(f, depth) && IsNode(f, a) && IsNode(f, b) && RootOf(f, a) == RootOf(f, b)
    decreases f.rank[a] + f.rank[b]
  {
    if a == b then 0
    else if depth[a] >= depth[b] then
      DeeperHasParent(f, depth, a, b);
      1 + PathLen(f, depth, f.par[a], b)
    else
      DeeperHasParent(f, depth, b, a);
      1 + PathLen(f, depth, a, f.par[b])
  }

  /** Total edge weight on the tree path between `a` and `b`. */
  ghost function WeightedPathLen(f: Tree, depth: seq<int>, upWeight: seq<int>, a: int, b: int): int
    requires DepthOk(f, depth) && |upWeight| == |f.par|
    requires IsNode(f, a) && IsNode(f, b) && RootOf(f, a) == RootOf(f, b)
    decreases f.rank[a] + f.rank[b]
  {
    if a == b then 0
    else if depth[a] >= depth[b] then
      DeeperHasParent(f, depth, a, b);
      upWeight[a] + WeightedPathLen(f, depth, upWeight, f.par[a], b)
    else
      DeeperHasParent(f, depth, b, a);
      upWeight[b] + WeightedPathLen(f, depth, upWeight, a, f.par[b])
  }

  /** Stepping the deeper end up does not change the lowest common ancestor. */
  lemma LcaStep(f: Tree, depth: seq<int>, a: int, b: int)
    requires DepthOk(f, depth) && IsNode(f, a) && IsNode(f, b) && RootOf(f, a) == RootOf(f, b)
    requires a != b && depth[a] >= depth[b] && f.par[a] >= 0
    ensures Lca(f, a, b) == Lca(f, f.par[a], b)
  {
    if Anc(f, a, b) {
      AncDepth(f, depth, a, b);
    }
  }

  lemma {:induction false} PathLenByDepth(f: Tree, depth: seq<int>, a: int, b: int)
    requires DepthOk(f, depth) && IsNode(f, a) && IsNode(f, b) && RootOf(f, a) == RootOf(f, b)
    ensures Lca(f, a, b) >= 0
    ensures PathLen(f, depth, a, b) == depth[a] + depth[b] - 2 * depth[Lca(f, a, b)]
    decreases f.rank[a] + f.rank[b]
  {
    if a != b {
      DepthNonneg(f, depth, a);
      DepthNonneg(f, depth, b);
      if depth[a] >= depth[b] {
        DeeperHasParent(f, depth, a, b);
        LcaStep(f, depth, a, b);
        PathLenByDepth(f, depth, f.par[a], b);
      } else {
        DeeperHasParent(f, depth, b, a);
        LcaSymmetric(f, a, b);
        LcaStep(f, depth, b, a);
        LcaSymmetric(f, a, f.par[b]);
        PathLenByDepth(f, depth, a, f.par[b]);
      }
    }
  }

  lemma {:induction false} WeightedPathLenByDepth(f: Tree, depth: seq<int>, wdepth: seq<int>, upWeight: seq<int>, a: int, b: int)
    requires DepthOk(f, depth) && WeightOk(f, wdepth, upWeight)
    requires IsNode(f, a) && IsNode(f, b) && RootOf(f, a) == RootOf(f, b)
    ensures Lca(f, a, b) >= 0
    ensures WeightedPathLen(f, depth, upWeight, a, b) == wdepth[a] + wdepth[b] - 2 * wdepth[Lca(f, a, b)]
    decreases f.rank[a] + f.rank[b]
  {
    LcaIsDeepest(f, a, b);
    if a != b {
      DepthNonneg(f, depth, a);
      DepthNonneg(f, depth, b);
      if depth[a] >= depth[b] {
        DeeperHasParent(f, depth, a, b);
        LcaStep(f, depth, a, b);
        WeightedPathLenByDepth(f, depth, wdepth, upWeight, f.par[a], b);
      } else {
        DeeperHasParent(f, depth, b, a);
        LcaSymmetric(f, a, b);
        LcaStep(f, depth, b, a);
        LcaSymmetric(f, a, f.par[b]);
        WeightedPathLenByDepth(f, depth, wdepth, upWeight, a, f.par[b]);
      }
    }
  }

  /** Below a child `c` of `v`, the child of `v` towards any descendant is `c`. */
  lemma {:induction false} ChildTowardOfChild(f: Tree, v: int, c: int, x: int)
    requires IsNode(f, c) && f.par[c] == v && 0 <= v && IsNode(f, x) && Anc(f, c, x)
    ensures Anc(f, v, x) && x != v && ChildToward(f, v, x) == c
    decreases f.rank[x]
  {
    AncRank(f, c, x);
    if x != c {
      ChildTowardOfChild(f, v, c, f.par[x]);
      AncTrans(f, v, f.par[x], x);
    }
  }

  /** The subtrees of two different children of one node share no node. */
  lemma SiblingsDisjoint(f: Tree, c: int, d: int, x: int)
    requires IsNode(f, c) && IsNode(f, d) && IsNode(f, x)
    requires f.par[c] == f.par[d] && f.par[c] >= 0 && c != d
    requires Anc(f, c, x)
    ensures !Anc(f, d, x)
  {
    ChildTowardOfChild(f, f.par[c], c, x);
    if Anc(f, d, x) {
      ChildTowardOfChild(f, f.par[c], d, x);
    }
  }

  /** Descendants of two different children of `v` have `v` as their lowest common ancestor. */
  lemma SplitLca(f: Tree, v: int, c: int, d: int, x: int, y: int)
    requires IsNode(f, c) && IsNode(f, d) && IsNode(f, x) && IsNode(f, y)
    requires 0 <= v && f.par[c] == v && f.par[d] == v && c != d
    requires Anc(f, c, x) && Anc(f, d, y)
    ensures Lca(f, x, y) == v
  {
    ChildTowardOfChild(f, v, c, x);
    ChildTowardOfChild(f, v, d, y);
    SiblingsDisjoint(f, d, c, y);
    forall w | Anc(f, w, x) && Anc(f, w, y)
      ensures Anc(f, w, v)
    {
      AncChain(f, w, c, x);
      if Anc(f, c, w) {
        AncTrans(f, c, w, y);
      }
    }
    LcaUnique(f, x, y, v);
  }

  /** The lowest common ancestor of a node and one of its ancestors is that ancestor. */
  lemma LcaOfAnc(f: Tree, a: int, u: int)
    requires IsNode(f, u) && Anc(f, a, u)
    ensures Lca(f, a, u) == a && Lca(f, u, a) == a
  {
    LcaSymmetric(f, a, u);
  }
}

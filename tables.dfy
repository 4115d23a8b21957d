/**
 * What the queries of the tree structure read off its tables: which position
 * of the Euler tour a range-minimum query over the depths lands on, which
 * child follows it, where a node's subtree sits in the preorder, and how the
 * heavy chains line up in the preorder.  Each fact is a predicate over plain
 * sequences, proved once for the forest tour and preorder.
 */
module Tables {
  import opened Forest
  import opened Tours
  import opened Layout
  import opened Seqs
  import opened SparseTable
  import opened Graph

  /** The tour with every node replaced by its depth; separators stay -1. */
  function DepthsOf(s: seq<int>, depth: seq<int>): (r: seq<int>)
    ensures |r| == |s|
    ensures forall p :: 0 <= p < |s| ==> r[p] == if s[p] < 0 then s[p] else At(depth, s[p])
  {
    seq(|s|, p requires 0 <= p < |s| => if s[p] < 0 then s[p] else At(depth, s[p]))
  }

  /** Every entry is a node or the separator -1. */
  ghost predicate TourShape(f: Tree, s: seq<int>)
  {
    forall p :: 0 <= p < |s| ==> s[p] == -1 || IsNode(f, s[p])
  }

  /** `m` is what a minimum query over the depths `d` answers for positions [i, b). */
  ghost predicate LcaQuery(f: Tree, s: seq<int>, d: seq<int>, i: int, b: int, m: int)
  {
    && 0 <= i < b <= |s| && |d| == |s|
    && IsNode(f, s[i]) && IsNode(f, s[b - 1])
    && IsLatestBest(d, false, i, b, m)
  }

  /**
   * The latest shallowest entry between two node entries of the tour is their
   * lowest common ancestor, or -1 when they lie in different trees.
   */
  ghost predicate LcaByMin(f: Tree, s: seq<int>, d: seq<int>)
  {
    forall i, b, m :: LcaQuery(f, s, d, i, b, m) ==> s[m] == Lca(f, s[i], s[b - 1])
  }

  lemma MinIsLca(f: Tree, s: seq<int>, depth: seq<int>, d: seq<int>, i: int, b: int, m: int, j: int)
    requires DepthOk(f, depth) && TourShape(f, s) && d == DepthsOf(s, depth)
    requires LcaQuery(f, s, d, i, b, m)
    requires i <= j < b
    requires RootOf(f, s[i]) == RootOf(f, s[b - 1]) ==> RangeLca(f, s, i, b - 1, j)
    requires RootOf(f, s[i]) != RootOf(f, s[b - 1]) ==> s[j] == -1
    ensures s[m] == Lca(f, s[i], s[b - 1])
  {
    assert !Beats(false, d[j], d[m]);
    LcaIsDeepest(f, s[i], s[b - 1]);
    if RootOf(f, s[i]) == RootOf(f, s[b - 1]) {
      AncDepth(f, depth, s[j], s[m]);
      SameDepthAnc(f, depth, s[j], s[m], s[m]);
    } else if s[m] >= 0 {
      DepthNonneg(f, depth, s[m]);
      assert false;
    }
  }

  lemma TourShapeOk(f: Tree)
    ensures TourShape(f, ForestTour(f, |f.par|))
  {
    forall p | 0 <= p < |ForestTour(f, |f.par|)|
      ensures ForestTour(f, |f.par|)[p] == -1 || IsNode(f, ForestTour(f, |f.par|)[p])
    {
      TourEntry(f, p);
    }
  }

  lemma LcaTable(f: Tree, depth: seq<int>)
    requires Complete(f) && DepthOk(f, depth)
    ensures LcaByMin(f, ForestTour(f, |f.par|), DepthsOf(ForestTour(f, |f.par|), depth))
  {
    var s := ForestTour(f, |f.par|);
    var d := DepthsOf(s, depth);
    TourShapeOk(f);
    forall i, b, m | LcaQuery(f, s, d, i, b, m)
      ensures s[m] == Lca(f, s[i], s[b - 1])
    {
      var j := TourRange(f, i, b - 1);
      MinIsLca(f, s, depth, d, i, b, m, j);
    }
  }

  // ---------------------------------------------------------------------------
  // First occurrences

  /** Each node's recorded first occurrence holds that node. */
  ghost predicate FirstIn(f: Tree, s: seq<int>, first: seq<int>)
  {
    && |first| == |f.par|
    && forall u :: 0 <= u < |f.par| ==> 0 <= first[u] < |s| && s[first[u]] == u
  }

  lemma FirstBlockAt(f: Tree, first: seq<int>, u: int)
    requires Complete(f) && FirstOk(f, first) && IsNode(f, u)
    ensures BlockAt(ForestTour(f, |f.par|), Euler(f, u), first[u])
  {
    FirstBlock(f, first, u);
  }

  lemma StartBlockAt(f: Tree, start: seq<int>, u: int)
    requires Complete(f) && StartOk(f, start) && IsNode(f, u)
    ensures BlockAt(ForestPre(f, |f.par|), Pre(f, u), start[u])
  {
    StartBlock(f, start, u);
  }

  /** The first entry of a block is the first entry of what it holds. */
  lemma BlockHead(s: seq<int>, e: seq<int>, off: int)
    requires BlockAt(s, e, off) && |e| > 0
    ensures 0 <= off < |s| && s[off] == e[0]
  {
    assert s[off + 0] == e[0];
  }

  lemma FirstTable(f: Tree, first: seq<int>)
    requires Complete(f) && FirstOk(f, first)
    ensures FirstIn(f, ForestTour(f, |f.par|), first)
  {
    forall u | 0 <= u < |f.par|
      ensures 0 <= first[u] < |ForestTour(f, |f.par|)| && ForestTour(f, |f.par|)[first[u]] == u
    {
      FirstBlockAt(f, first, u);
      BlockHead(ForestTour(f, |f.par|), Euler(f, u), first[u]);
    }
  }

  /** A descendant's tour sits inside its ancestor's tour. */
  lemma {:induction false} FirstNested(f: Tree, first: seq<int>, c: int, b: int)
    requires Complete(f) && FirstOk(f, first) && IsNode(f, b) && Anc(f, c, b)
    ensures first[c] <= first[b] && first[b] + |Euler(f, b)| <= first[c] + |Euler(f, c)|
    decreases f.rank[b]
  {
    if c != b {
      var p := f.par[b];
      assert FirstAt(f, first, b);
      KidIndexOk(f, b);
      var t := KidIndex(f, b);
      EulerChildBlock(f, p, t);
      assert SizeKids(f, p, t + 1) == SizeKids(f, p, t) + Size(f, b);
      FirstNested(f, first, c, p);
    }
  }

  /** An ancestor first occurs no later than its descendants. */
  ghost predicate FirstOrdered(f: Tree, first: seq<int>)
  {
    && |first| == |f.par|
    && forall a, b :: 0 <= b < |f.par| && Anc(f, a, b) ==> first[a] <= first[b]
  }

  lemma FirstOrderedTable(f: Tree, first: seq<int>)
    requires Complete(f) && FirstOk(f, first)
    ensures FirstOrdered(f, first)
  {
    forall a, b | 0 <= b < |f.par| && Anc(f, a, b)
      ensures first[a] <= first[b]
    {
      FirstNested(f, first, a, b);
    }
  }

  /** A descendant's preorder sits inside its ancestor's preorder. */
  lemma {:induction false} StartNested(f: Tree, start: seq<int>, c: int, b: int)
    requires Complete(f) && StartOk(f, start) && IsNode(f, b) && Anc(f, c, b)
    ensures start[c] <= start[b] && start[b] + Size(f, b) <= start[c] + Size(f, c)
    decreases f.rank[b]
  {
    if c != b {
      var p := f.par[b];
      assert StartAt(f, start, b);
      KidIndexOk(f, b);
      var t := KidIndex(f, b);
      PreChildBlock(f, p, t);
      assert SizeKids(f, p, t + 1) == SizeKids(f, p, t) + Size(f, b);
      StartNested(f, start, c, p);
    }
  }

  /** `v` occurs in its own tour just before the block of each child, and at the end. */
  lemma EulerReturn(f: Tree, v: int, t: int)
    requires IsNode(f, v) && 0 <= t <= |f.kids[v]|
    ensures 2 * SizeKids(f, v, t) < |Euler(f, v)| && Euler(f, v)[2 * SizeKids(f, v, t)] == v
  {
    if t > 0 {
      EulerChildBlock(f, v, t - 1);
    }
    if t < |f.kids[v]| {
      EulerChildBlock(f, v, t);
      SizeKidsMonotone(f, v, t, t + 1);
    }
  }

  /** An entry inside the block of `v`'s tour is a descendant of `v`. */
  lemma InTourBlock(f: Tree, s: seq<int>, v: int, off: int, p: int)
    requires IsNode(f, v) && BlockAt(s, Euler(f, v), off) && off <= p < off + |Euler(f, v)|
    ensures IsNode(f, s[p]) && Anc(f, v, s[p])
  {
    assert s[off + (p - off)] == Euler(f, v)[p - off];
    AncOfTourEntry(f, v, p - off);
  }

  // ---------------------------------------------------------------------------
  // The child towards a descendant

  /** `m` is what a minimum query over [first[a], first[b]] answers, `b` strictly below `a`. */
  ghost predicate ChildQuery(f: Tree, first: seq<int>, d: seq<int>, a: int, b: int, m: int)
  {
    && |first| == |f.par| && IsNode(f, a) && IsNode(f, b)
    && Anc(f, a, b) && a != b
    && IsLatestBest(d, false, first[a], first[b] + 1, m)
  }

  /**
   * Just after the latest shallowest entry between the first occurrences of
   * `a` and of a proper descendant `b` comes the child of `a` towards `b`.
   */
  ghost predicate ChildByMin(f: Tree, s: seq<int>, first: seq<int>, d: seq<int>)
  {
    forall a, b, m :: ChildQuery(f, first, d, a, b, m) ==> 0 <= m + 1 < |s| && s[m + 1] == ChildToward(f, a, b)
  }

  /** One instance of `ChildByMin`, for a query the range-minimum table has answered. */
  lemma ChildPick(f: Tree, s: seq<int>, first: seq<int>, d: seq<int>, a: int, b: int, m: int)
    requires ChildByMin(f, s, first, d) && ChildQuery(f, first, d, a, b, m)
    ensures 0 <= m + 1 < |s| && s[m + 1] == ChildToward(f, a, b)
  {
  }

  lemma ChildStep(f: Tree, s: seq<int>, first: seq<int>, depth: seq<int>, d: seq<int>, a: int, b: int, m: int)
    requires Complete(f) && FirstOk(f, first) && DepthOk(f, depth) && d == DepthsOf(s, depth)
    requires ChildQuery(f, first, d, a, b, m)
    requires BlockAt(s, Euler(f, a), first[a])
    requires BlockAt(s, Euler(f, ChildToward(f, a, b)), first[ChildToward(f, a, b)])
    ensures 0 <= m + 1 < |s| && s[m + 1] == ChildToward(f, a, b)
  {
    var c := ChildToward(f, a, b);
    var q := ChildGap(f, s, first, a, c);
    FirstNested(f, first, a, b);
    FirstNested(f, first, c, b);
    DeeperInBlock(f, s, depth, d, a, first[a], m);
    if m > q {
      DeeperInBlock(f, s, depth, d, c, first[c], m);
    }
    LatestAt(d, first[a], first[b] + 1, m, q);
    BlockHead(s, Euler(f, c), first[c]);
  }

  /** The occurrence of `v` just before the block of its child `c`. */
  lemma ChildGap(f: Tree, s: seq<int>, first: seq<int>, v: int, c: int) returns (q: int)
    requires Complete(f) && FirstOk(f, first) && IsNode(f, c) && f.par[c] == v && 0 <= v
    requires BlockAt(s, Euler(f, v), first[v])
    ensures first[v] <= q && q + 1 == first[c] && 0 <= q < |s| && s[q] == v
  {
    KidIndexOk(f, c);
    var t := KidIndex(f, c);
    assert FirstAt(f, first, c);
    q := first[v] + 2 * SizeKids(f, v, t);
    EulerReturn(f, v, t);
    assert s[first[v] + 2 * SizeKids(f, v, t)] == Euler(f, v)[2 * SizeKids(f, v, t)];
  }

  /** Entries inside the block of `v`'s tour are at least as deep as `v`. */
  lemma DeeperInBlock(f: Tree, s: seq<int>, depth: seq<int>, d: seq<int>, v: int, off: int, p: int)
    requires DepthOk(f, depth) && d == DepthsOf(s, depth)
    requires IsNode(f, v) && BlockAt(s, Euler(f, v), off) && off <= p < off + |Euler(f, v)|
    ensures IsNode(f, s[p]) && Anc(f, v, s[p]) && d[p] >= depth[v]
  {
    InTourBlock(f, s, v, off, p);
    AncDepth(f, depth, v, s[p]);
  }

  /** A latest-best index of a minimum query cannot lie on either side of a value no worse than it. */
  lemma LatestAt(d: seq<int>, lo: int, hi: int, m: int, q: int)
    requires IsLatestBest(d, false, lo, hi, m) && lo <= q < hi
    requires d[q] <= d[m] && (m > q ==> d[m] > d[q])
    ensures m == q
  {
  }

  lemma ChildTable(f: Tree, first: seq<int>, depth: seq<int>)
    requires Complete(f) && FirstOk(f, first) && DepthOk(f, depth)
    ensures ChildByMin(f, ForestTour(f, |f.par|), first, DepthsOf(ForestTour(f, |f.par|), depth))
  {
    var s := ForestTour(f, |f.par|);
    var d := DepthsOf(s, depth);
    forall a, b, m | ChildQuery(f, first, d, a, b, m)
      ensures 0 <= m + 1 < |s| && s[m + 1] == ChildToward(f, a, b)
    {
      FirstBlockAt(f, first, a);
      FirstBlockAt(f, first, ChildToward(f, a, b));
      ChildStep(f, s, first, depth, d, a, b, m);
    }
  }

  // ---------------------------------------------------------------------------
  // Subtrees as preorder intervals

  /** `end[u]` is one past the last preorder index of `u`'s subtree. */
  ghost predicate EndOk(f: Tree, start: seq<int>, end: seq<int>)
  {
    && |start| == |f.par| && |end| == |f.par|
    && forall u :: 0 <= u < |f.par| ==> end[u] == start[u] + Size(f, u)
  }

  /** `b` lies in `a`'s subtree exactly when its preorder index lies in `a`'s interval. */
  ghost predicate AncByStart(f: Tree, start: seq<int>, end: seq<int>)
  {
    && |start| == |f.par| && |end| == |f.par|
    && forall a, b :: 0 <= a < |f.par| && 0 <= b < |f.par| ==>
         (start[a] <= start[b] < end[a] <==> Anc(f, a, b))
  }

  lemma InPreBlock(f: Tree, s: seq<int>, v: int, off: int, p: int)
    requires IsNode(f, v) && BlockAt(s, Pre(f, v), off) && off <= p < off + Size(f, v)
    ensures IsNode(f, s[p]) && Anc(f, v, s[p])
  {
    assert s[off + (p - off)] == Pre(f, v)[p - off];
    PreElems(f, v);
  }

  lemma AncStep(f: Tree, s: seq<int>, start: seq<int>, a: int, b: int)
    requires Complete(f) && StartOk(f, start) && IsNode(f, a) && IsNode(f, b)
    requires BlockAt(s, Pre(f, a), start[a]) && BlockAt(s, Pre(f, b), start[b])
    ensures start[a] <= start[b] < start[a] + Size(f, a) <==> Anc(f, a, b)
  {
    if Anc(f, a, b) {
      StartNested(f, start, a, b);
    }
    if start[a] <= start[b] < start[a] + Size(f, a) {
      InPreBlock(f, s, a, start[a], start[b]);
      BlockHead(s, Pre(f, b), start[b]);
    }
  }

  lemma AncTable(f: Tree, start: seq<int>, end: seq<int>)
    requires Complete(f) && StartOk(f, start) && EndOk(f, start, end)
    ensures AncByStart(f, start, end)
  {
    var s := ForestPre(f, |f.par|);
    forall a, b | 0 <= a < |f.par| && 0 <= b < |f.par|
      ensures start[a] <= start[b] < end[a] <==> Anc(f, a, b)
    {
      StartBlockAt(f, start, a);
      StartBlockAt(f, start, b);
      AncStep(f, s, start, a, b);
    }
  }

  /** `list` inverts `start`: the node at each preorder index. */
  ghost predicate ListOk(f: Tree, start: seq<int>, list: seq<int>)
  {
    && |start| == |f.par| && |list| == |f.par|
    && forall u :: 0 <= u < |f.par| ==> 0 <= start[u] < |list| && list[start[u]] == u
  }

  lemma ListTable(f: Tree, start: seq<int>, list: seq<int>)
    requires Complete(f) && StartOk(f, start) && list == ForestPre(f, |f.par|)
    ensures ListOk(f, start, list)
  {
    ForestCounts(f);
    forall u | 0 <= u < |f.par|
      ensures 0 <= start[u] < |list| && list[start[u]] == u
    {
      StartBlockAt(f, start, u);
      BlockHead(list, Pre(f, u), start[u]);
    }
  }

  // ---------------------------------------------------------------------------
  // Heavy chains

  /**
   * The first child of a node continues its parent's chain, and comes right
   * after the parent in the preorder; any other node starts a chain.
   */
  ghost predicate HeavyAt(f: Tree, start: seq<int>, top: seq<int>, u: int)
  {
    && |start| == |f.par| && |top| == |f.par| && IsNode(f, u)
    && if f.par[u] >= 0 && KidIndex(f, u) == 0
       then top[u] == top[f.par[u]] && start[u] == start[f.par[u]] + 1
       else top[u] == u
  }

  ghost predicate HeavyOk(f: Tree, start: seq<int>, top: seq<int>)
  {
    && |start| == |f.par| && |top| == |f.par|
    && forall u :: 0 <= u < |f.par| ==> HeavyAt(f, start, top, u)
  }

  /** The recurrence the tour pass follows for the chain tops. */
  ghost predicate TopAt(f: Tree, top: seq<int>, u: int)
  {
    && |top| == |f.par| && IsNode(f, u)
    && top[u] == if f.par[u] >= 0 && KidIndex(f, u) == 0 then top[f.par[u]] else u
  }

  lemma HeavyTable(f: Tree, start: seq<int>, top: seq<int>)
    requires Complete(f) && StartOk(f, start) && |top| == |f.par|
    requires forall u :: 0 <= u < |f.par| ==> TopAt(f, top, u)
    ensures HeavyOk(f, start, top)
  {
    forall u | 0 <= u < |f.par|
      ensures HeavyAt(f, start, top, u)
    {
      assert TopAt(f, top, u);
      assert StartAt(f, start, u);
    }
  }

  /** A chain's top is an ancestor of each of its nodes, at the depth difference. */
  lemma {:induction false} HeavyTop(f: Tree, start: seq<int>, top: seq<int>, depth: seq<int>, u: int)
    requires DepthOk(f, depth) && HeavyOk(f, start, top) && IsNode(f, u)
    ensures IsNode(f, top[u]) && Anc(f, top[u], u)
    ensures depth[top[u]] <= depth[u] && KthAnc(f, u, depth[u] - depth[top[u]]) == top[u]
    decreases f.rank[u]
  {
    assert HeavyAt(f, start, top, u);
    if top[u] != u {
      var p := f.par[u];
      HeavyTop(f, start, top, depth, p);
      assert top[u] == top[p] && depth[u] == depth[p] + 1;
      assert KthAnc(f, u, depth[u] - depth[top[u]]) == KthAnc(f, p, depth[p] - depth[top[p]]);
    }
  }

  /** Climbing past the top of `u`'s chain continues from the parent of that top. */
  lemma HeavyJump(f: Tree, start: seq<int>, top: seq<int>, depth: seq<int>, u: int, j: int)
    requires DepthOk(f, depth) && HeavyOk(f, start, top) && IsNode(f, u)
    requires IsNode(f, top[u]) && 0 <= j && depth[top[u]] > depth[u] - j
    ensures -1 <= f.par[top[u]] < |f.par|
    ensures f.par[top[u]] >= 0 ==> 0 <= depth[f.par[top[u]]] < depth[u]
    ensures KthAnc(f, u, j) == KthAnc(f, f.par[top[u]], j - (depth[u] - depth[top[u]] + 1))
  {
    HeavyTop(f, start, top, depth, u);
    var root := top[u];
    var climb := depth[u] - depth[root] + 1;
    KthAncAdd(f, u, climb - 1, j - climb + 1);
    assert KthAnc(f, root, j - climb + 1) == KthAnc(f, f.par[root], j - climb);
    if f.par[root] >= 0 {
      DepthNonneg(f, depth, f.par[root]);
    }
  }

  /** Walking up a chain is walking back in the preorder. */
  lemma {:induction false} HeavyClimb(f: Tree, start: seq<int>, top: seq<int>, list: seq<int>, depth: seq<int>, u: int, j: int)
    requires DepthOk(f, depth) && HeavyOk(f, start, top) && ListOk(f, start, list)
    requires IsNode(f, u) && IsNode(f, top[u]) && 0 <= j <= depth[u] - depth[top[u]]
    ensures 0 <= start[u] - j < |list| && list[start[u] - j] == KthAnc(f, u, j)
    decreases j
  {
    assert HeavyAt(f, start, top, u);
    if j > 0 {
      HeavyTop(f, start, top, depth, f.par[u]);
      HeavyClimb(f, start, top, list, depth, f.par[u], j - 1);
    }
  }

  // ---------------------------------------------------------------------------
  // The first tree of the tour

  /** The smallest root at index `i` or above, or -1 when there is none. */
  ghost function RootFrom(f: Tree, i: int): (r: int)
    requires 0 <= i
    ensures r == -1 ==> forall j :: i <= j < |f.par| ==> f.par[j] >= 0
    ensures r != -1 ==> i <= r && IsRoot(f, r) && forall j :: i <= j < r ==> f.par[j] >= 0
    decreases |f.par| - i
  {
    if i >= |f.par| then -1 else if f.par[i] < 0 then i else RootFrom(f, i + 1)
  }

  /** The root whose tree the tour lists first. */
  ghost function FirstRoot(f: Tree): int
  {
    RootFrom(f, 0)
  }

  lemma FirstRootOk(f: Tree)
    requires |f.par| > 0
    ensures IsRoot(f, FirstRoot(f))
    ensures forall r :: IsRoot(f, r) ==> FirstRoot(f) <= r
  {
    var r := RootOf(f, 0);
  }

  /** Before the first root nothing has been toured. */
  lemma {:induction false} NothingBelowFirstRoot(f: Tree, k: int)
    requires 0 <= k <= |f.par| && forall j :: 0 <= j < k ==> f.par[j] >= 0
    ensures ForestTour(f, k) == []
    decreases k
  {
    if k > 0 {
      NothingBelowFirstRoot(f, k - 1);
    }
  }

  /**
   * The tour starts with the block of the first root: `L` entries, all nodes of
   * that tree, then a separator; every node of the tree first occurs there.
   */
  ghost predicate FirstTree(f: Tree, s: seq<int>, first: seq<int>, L: int)
  {
    && |first| == |f.par| && 0 < L < |s| && s[L] == -1 && IsRoot(f, s[0])
    && (forall p :: 0 <= p < L ==> IsNode(f, s[p]) && RootOf(f, s[p]) == s[0])
    && (forall u :: 0 <= u < |f.par| && RootOf(f, u) == s[0] ==> first[u] < L)
  }

  lemma FirstTreeOf(f: Tree, s: seq<int>, first: seq<int>, r: int)
    requires Complete(f) && FirstOk(f, first) && IsRoot(f, r) && first[r] == 0
    requires BlockAt(s, Euler(f, r), 0) && |Euler(f, r)| < |s| && s[|Euler(f, r)|] == -1
    ensures s[0] == r && FirstTree(f, s, first, |Euler(f, r)|)
  {
    BlockHead(s, Euler(f, r), 0);
    forall p | 0 <= p < |Euler(f, r)|
      ensures IsNode(f, s[p]) && RootOf(f, s[p]) == r
    {
      InTourBlock(f, s, r, 0, p);
      AncRoot(f, r, s[p]);
    }
    forall u | 0 <= u < |f.par| && RootOf(f, u) == r
      ensures first[u] < |Euler(f, r)|
    {
      RootIsAnc(f, u);
      FirstNested(f, first, r, u);
    }
  }

  lemma FirstTreeTable(f: Tree, first: seq<int>)
    requires Complete(f) && FirstOk(f, first) && |f.par| > 0
    ensures FirstTree(f, ForestTour(f, |f.par|), first, 2 * Size(f, FirstRoot(f)) - 1)
    ensures ForestTour(f, |f.par|)[0] == FirstRoot(f)
  {
    var r := FirstRoot(f);
    FirstRootOk(f);
    NothingBelowFirstRoot(f, r);
    assert FirstAt(f, first, r);
    RootBlockAt(f, r);
    RootBlock(f, r, |f.par|);
    FirstTreeOf(f, ForestTour(f, |f.par|), first, r);
  }

  // ---------------------------------------------------------------------------
  // Ranges of the tour

  /** Positions `i <= k` of the tour hold nodes of one tree. */
  ghost predicate OneTreeRange(f: Tree, s: seq<int>, i: int, k: int)
  {
    0 <= i <= k < |s| && IsNode(f, s[i]) && IsNode(f, s[k]) && RootOf(f, s[i]) == RootOf(f, s[k])
  }

  /** Between two entries of one tree, everything descends from their lowest common ancestor, which occurs. */
  ghost predicate RangeAll(f: Tree, s: seq<int>)
  {
    forall i, k :: OneTreeRange(f, s, i, k) ==> exists j :: RangeLca(f, s, i, k, j)
  }

  lemma RangeTable(f: Tree)
    requires Complete(f)
    ensures RangeAll(f, ForestTour(f, |f.par|))
  {
    var s := ForestTour(f, |f.par|);
    forall i, k | OneTreeRange(f, s, i, k)
      ensures exists j :: RangeLca(f, s, i, k, j)
    {
      var j := TourRange(f, i, k);
    }
  }
}

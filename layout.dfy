/**
 * The flat arrays the tour pass produces for a whole forest: the Euler tours
 * of the trees one after another, each followed by a -1 separator, and the
 * preorders one after another.  Trees appear in increasing order of their
 * root.  Each node's first occurrence and preorder index are described by
 * the same recurrence the tour pass follows; from it come the block theorems
 * the queries rely on.
 */
module Layout {
  import opened Forest
  import opened Tours
  import opened Seqs

  predicate IsRoot(f: Tree, r: int)
  {
    0 <= r < |f.par| && f.par[r] < 0
  }

  /** The tours of the trees whose roots are below `i`, each followed by -1. */
  ghost function ForestTour(f: Tree, i: int): (r: seq<int>)
    decreases i
  {
    if 0 < i <= |f.par| then
      ForestTour(f, i - 1) + (if f.par[i - 1] < 0 then Euler(f, i - 1) + [-1] else [])
    else []
  }

  /** The preorders of the trees whose roots are below `i`. */
  ghost function ForestPre(f: Tree, i: int): (r: seq<int>)
    decreases i
  {
    if 0 < i <= |f.par| then
      ForestPre(f, i - 1) + (if f.par[i - 1] < 0 then Pre(f, i - 1) else [])
    else []
  }

  /** Position of `u` in its parent's list of children. */
  ghost function KidIndex(f: Tree, u: int): int
    requires IsNode(f, u) && f.par[u] >= 0
  {
    IndexOf(f.kids[f.par[u]], u)
  }

  /**
   * `first[u]` is where `u` first occurs in the forest tour: a root at the
   * start of its tree's block, a child one past the tours of its earlier
   * siblings and one past its parent's occurrence.
   */
  ghost predicate FirstOk(f: Tree, first: seq<int>)
  {
    && |first| == |f.par|
    && forall u :: 0 <= u < |f.par| ==> FirstAt(f, first, u)
  }

  ghost predicate FirstAt(f: Tree, first: seq<int>, u: int)
  {
    && |first| == |f.par| && IsNode(f, u)
    && first[u] == if f.par[u] < 0 then |ForestTour(f, u)|
                   else first[f.par[u]] + 1 + 2 * SizeKids(f, f.par[u], KidIndex(f, u))
  }

  /** `start[u]` is `u`'s index in the forest preorder, by the same recurrence. */
  ghost predicate StartOk(f: Tree, start: seq<int>)
  {
    && |start| == |f.par|
    && forall u :: 0 <= u < |f.par| ==> StartAt(f, start, u)
  }

  ghost predicate StartAt(f: Tree, start: seq<int>, u: int)
  {
    && |start| == |f.par| && IsNode(f, u)
    && start[u] == if f.par[u] < 0 then |ForestPre(f, u)|
                   else start[f.par[u]] + 1 + SizeKids(f, f.par[u], KidIndex(f, u))
  }

  // ---------------------------------------------------------------------------
  // Forest tour structure

  lemma {:induction false} ForestTourPrefix(f: Tree, i: int, k: int)
    requires 0 <= i <= k <= |f.par|
    ensures |ForestTour(f, i)| <= |ForestTour(f, k)|
    ensures forall p :: 0 <= p < |ForestTour(f, i)| ==> ForestTour(f, k)[p] == ForestTour(f, i)[p]
    decreases k
  {
    if i < k {
      ForestTourPrefix(f, i, k - 1);
      var prev := ForestTour(f, k - 1);
      var s := ForestTour(f, k);
      assert s == prev + (if f.par[k - 1] < 0 then Euler(f, k - 1) + [-1] else []);
      assert forall p :: 0 <= p < |prev| ==> s[p] == prev[p];
    }
  }

  lemma {:induction false} ForestPrePrefix(f: Tree, i: int, k: int)
    requires 0 <= i <= k <= |f.par|
    ensures |ForestPre(f, i)| <= |ForestPre(f, k)|
    ensures forall p :: 0 <= p < |ForestPre(f, i)| ==> ForestPre(f, k)[p] == ForestPre(f, i)[p]
    decreases k
  {
    if i < k {
      ForestPrePrefix(f, i, k - 1);
      var prev := ForestPre(f, k - 1);
      var s := ForestPre(f, k);
      assert s == prev + (if f.par[k - 1] < 0 then Pre(f, k - 1) else []);
      assert forall p :: 0 <= p < |prev| ==> s[p] == prev[p];
    }
  }

  /** The block of root `r`: its tour at offset |ForestTour(r)|, then the separator. */
  lemma RootBlock(f: Tree, r: int, k: int)
    requires IsRoot(f, r) && r < k <= |f.par|
    ensures |ForestTour(f, r)| + 2 * Size(f, r) <= |ForestTour(f, r + 1)| <= |ForestTour(f, k)|
    ensures forall p :: 0 <= p < |Euler(f, r)| ==> ForestTour(f, k)[|ForestTour(f, r)| + p] == Euler(f, r)[p]
    ensures ForestTour(f, k)[|ForestTour(f, r)| + 2 * Size(f, r) - 1] == -1
  {
    var off := |ForestTour(f, r)|;
    var s := ForestTour(f, r + 1);
    assert s == ForestTour(f, r) + Euler(f, r) + [-1];
    ForestTourPrefix(f, r + 1, k);
    assert forall p :: 0 <= p < |Euler(f, r)| ==> s[off + p] == Euler(f, r)[p];
  }

  lemma RootPreBlock(f: Tree, r: int, k: int)
    requires IsRoot(f, r) && r < k <= |f.par|
    ensures |ForestPre(f, r)| + Size(f, r) <= |ForestPre(f, r + 1)| <= |ForestPre(f, k)|
    ensures forall p :: 0 <= p < |Pre(f, r)| ==> ForestPre(f, k)[|ForestPre(f, r)| + p] == Pre(f, r)[p]
  {
    var off := |ForestPre(f, r)|;
    var s := ForestPre(f, r + 1);
    assert s == ForestPre(f, r) + Pre(f, r);
    ForestPrePrefix(f, r + 1, k);
    assert forall p :: 0 <= p < |Pre(f, r)| ==> s[off + p] == Pre(f, r)[p];
  }

  /** Every position of the forest tour lies in the block of some root, separator included. */
  lemma {:induction false} TourPosition(f: Tree, k: int, j: int) returns (r: int)
    requires 0 <= k <= |f.par| && 0 <= j < |ForestTour(f, k)|
    ensures IsRoot(f, r) && r < k
    ensures |ForestTour(f, r)| <= j < |ForestTour(f, r)| + |Euler(f, r)| + 1
    ensures ForestTour(f, k)[j] == if j < |ForestTour(f, r)| + |Euler(f, r)| then Euler(f, r)[j - |ForestTour(f, r)|] else -1
    decreases k
  {
    var prev := ForestTour(f, k - 1);
    if j < |prev| {
      r := TourPosition(f, k - 1, j);
      assert ForestTour(f, k) == prev + (if f.par[k - 1] < 0 then Euler(f, k - 1) + [-1] else []);
    } else {
      r := k - 1;
      var e := Euler(f, r);
      assert ForestTour(f, k) == prev + e + [-1];
      assert (prev + e + [-1])[j] == if j < |prev| + |e| then e[j - |prev|] else -1;
    }
  }

  lemma {:induction false} PrePosition(f: Tree, k: int, j: int) returns (r: int)
    requires 0 <= k <= |f.par| && 0 <= j < |ForestPre(f, k)|
    ensures IsRoot(f, r) && r < k
    ensures |ForestPre(f, r)| <= j < |ForestPre(f, r)| + Size(f, r)
    decreases k
  {
    var prev := ForestPre(f, k - 1);
    if j < |prev| {
      r := PrePosition(f, k - 1, j);
    } else {
      r := k - 1;
      assert ForestPre(f, k) == prev + (if f.par[k - 1] < 0 then Pre(f, k - 1) else []);
    }
  }

  /** The blocks of two roots do not overlap, and they come in the order of the roots. */
  lemma BlocksOrdered(f: Tree, r1: int, r2: int)
    requires IsRoot(f, r1) && IsRoot(f, r2) && r1 < r2
    ensures |ForestTour(f, r1)| + 2 * Size(f, r1) <= |ForestTour(f, r2)|
    ensures |ForestPre(f, r1)| + Size(f, r1) <= |ForestPre(f, r2)|
  {
    RootBlock(f, r1, r2);
    RootPreBlock(f, r1, r2);
  }

  lemma {:induction false} TourTwicePre(f: Tree, k: int)
    requires 0 <= k <= |f.par|
    ensures |ForestTour(f, k)| == 2 * |ForestPre(f, k)|
    decreases k
  {
    if k > 0 {
      TourTwicePre(f, k - 1);
    }
  }

  // ---------------------------------------------------------------------------
  // The forest preorder lists every node once

  lemma {:induction false} ForestPreElems(f: Tree, k: int)
    requires Complete(f) && 0 <= k <= |f.par|
    ensures Distinct(ForestPre(f, k))
    ensures forall p :: 0 <= p < |ForestPre(f, k)| ==>
              IsNode(f, ForestPre(f, k)[p]) && RootOf(f, ForestPre(f, k)[p]) < k
    ensures forall u :: IsNode(f, u) && RootOf(f, u) < k ==> u in ForestPre(f, k)
    decreases k
  {
    if k > 0 {
      ForestPreElems(f, k - 1);
      var a := ForestPre(f, k - 1);
      if f.par[k - 1] < 0 {
        var b := Pre(f, k - 1);
        assert ForestPre(f, k) == a + b;
        TreePre(f, k - 1);
        DistinctConcat(a, b);
      } else {
        assert ForestPre(f, k) == a;
        assert forall u :: IsNode(f, u) ==> RootOf(f, u) != k - 1;
      }
    }
  }

  /** The preorder of a tree lists exactly the nodes with that root, each once. */
  lemma TreePre(f: Tree, r: int)
    requires Complete(f) && IsRoot(f, r)
    ensures Distinct(Pre(f, r))
    ensures forall p :: 0 <= p < |Pre(f, r)| ==> IsNode(f, Pre(f, r)[p]) && RootOf(f, Pre(f, r)[p]) == r
    ensures forall u :: IsNode(f, u) && RootOf(f, u) == r ==> u in Pre(f, r)
  {
    var b := Pre(f, r);
    PreElems(f, r);
    PreDistinct(f, r);
    forall p | 0 <= p < |b|
      ensures RootOf(f, b[p]) == r
    {
      AncRoot(f, r, b[p]);
    }
    forall u | IsNode(f, u) && RootOf(f, u) == r
      ensures u in b
    {
      RootIsAnc(f, u);
      var p := PreContains(f, r, u);
    }
  }

  /** The forest preorder has exactly one entry per node, the forest tour two. */
  lemma ForestCounts(f: Tree)
    requires Complete(f)
    ensures |ForestPre(f, |f.par|)| == |f.par|
    ensures |ForestTour(f, |f.par|)| == 2 * |f.par|
  {
    var n := |f.par|;
    ForestPreElems(f, n);
    DistinctNodes(ForestPre(f, n), n);
    TourTwicePre(f, n);
  }

  // ---------------------------------------------------------------------------
  // Blocks of single nodes

  lemma KidIndexOk(f: Tree, u: int)
    requires Complete(f) && IsNode(f, u) && f.par[u] >= 0
    ensures 0 <= KidIndex(f, u) < |f.kids[f.par[u]]| && f.kids[f.par[u]][KidIndex(f, u)] == u
  {
  }

  /** Where the tour of `q` sits in `s`, the tour of its child number `t` sits too, at `off2`. */
  lemma ChildTourBlock(s: seq<int>, f: Tree, q: int, t: int, off: int, off2: int)
    requires IsNode(f, q) && 0 <= t < |f.kids[q]| && 0 <= off && off + |Euler(f, q)| <= |s|
    requires forall p :: 0 <= p < |Euler(f, q)| ==> s[off + p] == Euler(f, q)[p]
    requires off2 == off + 1 + 2 * SizeKids(f, q, t)
    ensures off2 + |Euler(f, f.kids[q][t])| <= |s|
    ensures forall p :: 0 <= p < |Euler(f, f.kids[q][t])| ==> s[off2 + p] == Euler(f, f.kids[q][t])[p]
  {
    var c := f.kids[q][t];
    EulerChildBlock(f, q, t);
    forall p | 0 <= p < |Euler(f, c)|
      ensures s[off2 + p] == Euler(f, c)[p]
    {
      EulerAt(f, q, t, off2 - off + p);
    }
  }

  lemma ChildPreBlock(s: seq<int>, f: Tree, q: int, t: int, off: int, off2: int)
    requires IsNode(f, q) && 0 <= t < |f.kids[q]| && 0 <= off && off + Size(f, q) <= |s|
    requires forall p :: 0 <= p < Size(f, q) ==> s[off + p] == Pre(f, q)[p]
    requires off2 == off + 1 + SizeKids(f, q, t)
    ensures off2 + Size(f, f.kids[q][t]) <= |s|
    ensures forall p :: 0 <= p < Size(f, f.kids[q][t]) ==> s[off2 + p] == Pre(f, f.kids[q][t])[p]
  {
    var c := f.kids[q][t];
    PreChildBlock(f, q, t);
    forall p | 0 <= p < Size(f, c)
      ensures s[off2 + p] == Pre(f, c)[p]
    {
      PreAt(f, q, t, off2 - off + p);
    }
  }

  /** The tour of `u`'s subtree sits in the forest tour at `first[u]`. */
  lemma {:induction false} FirstBlock(f: Tree, first: seq<int>, u: int)
    requires Complete(f) && FirstOk(f, first) && IsNode(f, u)
    ensures 0 <= first[u] && first[u] + |Euler(f, u)| <= |ForestTour(f, |f.par|)|
    ensures forall p :: 0 <= p < |Euler(f, u)| ==> ForestTour(f, |f.par|)[first[u] + p] == Euler(f, u)[p]
    decreases f.rank[u]
  {
    assert FirstAt(f, first, u);
    if f.par[u] < 0 {
      FirstOfRoot(f, first, u);
    } else {
      var q := f.par[u];
      KidIndexOk(f, u);
      FirstBlock(f, first, q);
      ChildTourBlock(ForestTour(f, |f.par|), f, q, KidIndex(f, u), first[q], first[u]);
    }
  }

  lemma FirstOfRoot(f: Tree, first: seq<int>, u: int)
    requires IsRoot(f, u) && |first| == |f.par| && first[u] == |ForestTour(f, u)|
    ensures 0 <= first[u] && first[u] + |Euler(f, u)| <= |ForestTour(f, |f.par|)|
    ensures forall p :: 0 <= p < |Euler(f, u)| ==> ForestTour(f, |f.par|)[first[u] + p] == Euler(f, u)[p]
  {
    RootBlock(f, u, |f.par|);
  }

  /** The preorder of `u`'s subtree sits in the forest preorder at `start[u]`. */
  lemma {:induction false} StartBlock(f: Tree, start: seq<int>, u: int)
    requires Complete(f) && StartOk(f, start) && IsNode(f, u)
    ensures 0 <= start[u] && start[u] + Size(f, u) <= |ForestPre(f, |f.par|)|
    ensures forall p :: 0 <= p < Size(f, u) ==> ForestPre(f, |f.par|)[start[u] + p] == Pre(f, u)[p]
    decreases f.rank[u]
  {
    assert StartAt(f, start, u);
    if f.par[u] < 0 {
      StartOfRoot(f, start, u);
    } else {
      var q, t := f.par[u], KidIndex(f, u);
      KidIndexOk(f, u);
      StartBlock(f, start, q);
      ChildPreBlock(ForestPre(f, |f.par|), f, q, t, start[q], start[u]);
      assert f.kids[q][t] == u;
    }
  }

  lemma StartOfRoot(f: Tree, start: seq<int>, u: int)
    requires IsRoot(f, u) && |start| == |f.par| && start[u] == |ForestPre(f, u)|
    ensures 0 <= start[u] && start[u] + Size(f, u) <= |ForestPre(f, |f.par|)|
    ensures forall p :: 0 <= p < Size(f, u) ==> ForestPre(f, |f.par|)[start[u] + p] == Pre(f, u)[p]
  {
    RootPreBlock(f, u, |f.par|);
  }

  /** A node entry of the forest tour lies in the tour of some tree. */
  lemma TourNode(f: Tree, j: int) returns (r: int)
    requires 0 <= j < |ForestTour(f, |f.par|)| && ForestTour(f, |f.par|)[j] >= 0
    ensures IsRoot(f, r)
    ensures |ForestTour(f, r)| <= j < |ForestTour(f, r)| + |Euler(f, r)|
    ensures ForestTour(f, |f.par|)[j] == Euler(f, r)[j - |ForestTour(f, r)|]
    ensures IsNode(f, ForestTour(f, |f.par|)[j]) && RootOf(f, ForestTour(f, |f.par|)[j]) == r
  {
    r := TourPosition(f, |f.par|, j);
    TreeTourEntry(f, r, j - |ForestTour(f, r)|);
  }

  /** The entries of a tree's tour are nodes of that tree. */
  lemma TreeTourEntry(f: Tree, r: int, q: int)
    requires IsRoot(f, r) && 0 <= q < |Euler(f, r)|
    ensures IsNode(f, Euler(f, r)[q]) && RootOf(f, Euler(f, r)[q]) == r
  {
    AncOfTourEntry(f, r, q);
    AncRoot(f, r, Euler(f, r)[q]);
  }

  lemma TourEntry(f: Tree, j: int)
    requires 0 <= j < |ForestTour(f, |f.par|)|
    ensures ForestTour(f, |f.par|)[j] == -1 || IsNode(f, ForestTour(f, |f.par|)[j])
  {
    var r := TourPosition(f, |f.par|, j);
    var off := |ForestTour(f, r)|;
    if j < off + |Euler(f, r)| {
      AncOfTourEntry(f, r, j - off);
    }
  }

  lemma RootBlockAt(f: Tree, r: int)
    requires IsRoot(f, r)
    ensures BlockAt(ForestTour(f, |f.par|), Euler(f, r), |ForestTour(f, r)|)
  {
    RootBlock(f, r, |f.par|);
  }

  /** Inside one tree's block the range property of its tour carries over. */
  lemma TourRangeOneTree(f: Tree, r: int, i: int, k: int) returns (j: int)
    requires Complete(f) && IsRoot(f, r)
    requires |ForestTour(f, r)| <= i <= k < |ForestTour(f, r)| + |Euler(f, r)|
    ensures RangeLca(f, ForestTour(f, |f.par|), i, k, j)
  {
    var off := |ForestTour(f, r)|;
    RootBlockAt(f, r);
    var j0 := EulerRange(f, r, i - off, k - off);
    j := j0 + off;
    RangeShifted(f, ForestTour(f, |f.par|), Euler(f, r), off, i, k, j);
  }

  /** The separator after the block of the tree of `r`. */
  lemma RootSeparator(f: Tree, r: int) returns (j: int)
    requires IsRoot(f, r)
    ensures j == |ForestTour(f, r)| + |Euler(f, r)| && j + 1 == |ForestTour(f, r)| + 2 * Size(f, r)
    ensures j < |ForestTour(f, |f.par|)| && ForestTour(f, |f.par|)[j] == -1
  {
    RootBlock(f, r, |f.par|);
    j := |ForestTour(f, r)| + 2 * Size(f, r) - 1;
  }

  /** Between entries of two different trees' blocks lies the separator after the first. */
  lemma Separated(f: Tree, r1: int, r2: int, i: int, k: int) returns (j: int)
    requires IsRoot(f, r1) && IsRoot(f, r2) && r1 < r2
    requires |ForestTour(f, r1)| <= i < |ForestTour(f, r1)| + |Euler(f, r1)| && |ForestTour(f, r2)| <= k
    ensures i <= j <= k && j < |ForestTour(f, |f.par|)| && ForestTour(f, |f.par|)[j] == -1
  {
    j := RootSeparator(f, r1);
    BlocksOrdered(f, r1, r2);
  }

  /**
   * Between two node entries `i` <= `k` of the forest tour: when the nodes share
   * a tree, every entry is a descendant of their lowest common ancestor, which
   * occurs at `j`; otherwise a separator occurs at `j`.
   */
  lemma TourRange(f: Tree, i: int, k: int) returns (j: int)
    requires Complete(f) && 0 <= i <= k < |ForestTour(f, |f.par|)|
    requires ForestTour(f, |f.par|)[i] >= 0 && ForestTour(f, |f.par|)[k] >= 0
    ensures IsNode(f, ForestTour(f, |f.par|)[i]) && IsNode(f, ForestTour(f, |f.par|)[k])
    ensures i <= j <= k
    ensures RootOf(f, ForestTour(f, |f.par|)[i]) == RootOf(f, ForestTour(f, |f.par|)[k]) ==>
              RangeLca(f, ForestTour(f, |f.par|), i, k, j)
    ensures RootOf(f, ForestTour(f, |f.par|)[i]) != RootOf(f, ForestTour(f, |f.par|)[k]) ==>
              ForestTour(f, |f.par|)[j] == -1
  {
    var r1 := TourNode(f, i);
    var r2 := TourNode(f, k);
    if r1 == r2 {
      j := TourRangeOneTree(f, r1, i, k);
    } else if r1 < r2 {
      j := Separated(f, r1, r2, i, k);
    } else {
      BlocksOrdered(f, r2, r1);
      assert false;
    }
  }
}

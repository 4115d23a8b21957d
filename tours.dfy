/**
 * The traversal orders of a rooted tree, as pure recursive definitions over
 * the children lists: subtree size, the Euler tour (the node on entry and
 * again after each child) and the preorder.  Children are visited in list
 * order, as the tour pass does.
 */
module Tours {
  import opened Forest
  import opened Seqs

  /** Termination measure for the definitions below. */
  ghost function Height(f: Tree, v: int): nat
  {
    if IsNode(f, v) then |f.par| - f.rank[v] else 0
  }

  // Outside the node range the definitions below return a fixed default.

  ghost function Size(f: Tree, v: int): (r: nat)
    ensures r >= 1
    decreases Height(f, v), 1
  {
    if IsNode(f, v) then 1 + SizeKids(f, v, |f.kids[v]|) else 1
  }

  /** Total size of the subtrees of the first `i` children of `v`. */
  ghost function SizeKids(f: Tree, v: int, i: int): nat
    decreases Height(f, v), 0, i
  {
    if IsNode(f, v) && 0 < i <= |f.kids[v]| then SizeKids(f, v, i - 1) + Size(f, f.kids[v][i - 1]) else 0
  }

  ghost function Euler(f: Tree, v: int): (r: seq<int>)
    ensures |r| == 2 * Size(f, v) - 1 && r[0] == v
    decreases Height(f, v), 1
  {
    if IsNode(f, v) then [v] + EulerKids(f, v, |f.kids[v]|) else [v]
  }

  /** The part of `v`'s Euler tour produced by its first `i` children. */
  ghost function EulerKids(f: Tree, v: int, i: int): (r: seq<int>)
    ensures |r| == 2 * SizeKids(f, v, i)
    decreases Height(f, v), 0, i
  {
    if IsNode(f, v) && 0 < i <= |f.kids[v]| then EulerKids(f, v, i - 1) + Euler(f, f.kids[v][i - 1]) + [v] else []
  }

  ghost function Pre(f: Tree, v: int): (r: seq<int>)
    ensures |r| == Size(f, v) && r[0] == v
    decreases Height(f, v), 1
  {
    if IsNode(f, v) then [v] + PreKids(f, v, |f.kids[v]|) else [v]
  }

  ghost function PreKids(f: Tree, v: int, i: int): (r: seq<int>)
    ensures |r| == SizeKids(f, v, i)
    decreases Height(f, v), 0, i
  {
    if IsNode(f, v) && 0 < i <= |f.kids[v]| then PreKids(f, v, i - 1) + Pre(f, f.kids[v][i - 1]) else []
  }

  // ---------------------------------------------------------------------------
  // Block structure

  lemma PrefixOfAppend(a: seq<int>, b: seq<int>, m: int)
    requires 0 <= m <= |a|
    ensures (a + b)[..m] == a[..m]
  {
  }

  /** The first `i` children's part of the tour is a prefix of the first `k` children's part. */
  lemma {:induction false} EulerKidsPrefix(f: Tree, v: int, i: int, k: int)
    requires IsNode(f, v) && 0 <= i <= k <= |f.kids[v]|
    ensures SizeKids(f, v, i) <= SizeKids(f, v, k)
    ensures forall j :: 0 <= j < 2 * SizeKids(f, v, i) ==> EulerKids(f, v, k)[j] == EulerKids(f, v, i)[j]
    decreases k
  {
    if i < k {
      EulerKidsPrefix(f, v, i, k - 1);
      var prev := EulerKids(f, v, k - 1);
      var s := EulerKids(f, v, k);
      assert s == prev + Euler(f, f.kids[v][k - 1]) + [v];
      assert forall j :: 0 <= j < |prev| ==> s[j] == prev[j];
    }
  }

  lemma {:induction false} PreKidsPrefix(f: Tree, v: int, i: int, k: int)
    requires IsNode(f, v) && 0 <= i <= k <= |f.kids[v]|
    ensures SizeKids(f, v, i) <= SizeKids(f, v, k)
    ensures forall j :: 0 <= j < SizeKids(f, v, i) ==> PreKids(f, v, k)[j] == PreKids(f, v, i)[j]
    decreases k
  {
    if i < k {
      PreKidsPrefix(f, v, i, k - 1);
      var prev := PreKids(f, v, k - 1);
      var s := PreKids(f, v, k);
      assert s == prev + Pre(f, f.kids[v][k - 1]);
      assert forall j :: 0 <= j < |prev| ==> s[j] == prev[j];
    }
  }

  /**
   * Child `i`'s tour sits at offset 1 + 2 * SizeKids(v, i) of `v`'s tour and
   * is followed by `v` again.
   */
  lemma EulerChildBlock(f: Tree, v: int, i: int)
    requires IsNode(f, v) && 0 <= i < |f.kids[v]|
    ensures 2 * SizeKids(f, v, i + 1) < 2 * Size(f, v) - 1
    ensures Euler(f, v)[1 + 2 * SizeKids(f, v, i) .. 2 * SizeKids(f, v, i + 1)] == Euler(f, f.kids[v][i])
    ensures Euler(f, v)[2 * SizeKids(f, v, i + 1)] == v
  {
    var e := EulerKids(f, v, |f.kids[v]|);
    var p := EulerKids(f, v, i + 1);
    var a := EulerKids(f, v, i);
    var b := Euler(f, f.kids[v][i]);
    var s := Euler(f, v);
    EulerKidsPrefix(f, v, i + 1, |f.kids[v]|);
    assert p == a + b + [v];
    assert s == [v] + e;
    forall j | 1 + |a| <= j <= 1 + |a| + |b|
      ensures s[j] == p[j - 1]
    {
      assert s[j] == e[j - 1];
    }
    assert s[1 + |a| .. 1 + |a| + |b|] == b;
  }

  /** Child `i`'s preorder sits at offset 1 + SizeKids(v, i) of `v`'s preorder. */
  lemma PreChildBlock(f: Tree, v: int, i: int)
    requires IsNode(f, v) && 0 <= i < |f.kids[v]|
    ensures 1 + SizeKids(f, v, i + 1) <= Size(f, v)
    ensures Pre(f, v)[1 + SizeKids(f, v, i) .. 1 + SizeKids(f, v, i + 1)] == Pre(f, f.kids[v][i])
  {
    var e := PreKids(f, v, |f.kids[v]|);
    var p := PreKids(f, v, i + 1);
    var a := PreKids(f, v, i);
    var b := Pre(f, f.kids[v][i]);
    var s := Pre(f, v);
    PreKidsPrefix(f, v, i + 1, |f.kids[v]|);
    assert p == a + b;
    assert s == [v] + e;
    forall j | 1 + |a| <= j < 1 + |a| + |b|
      ensures s[j] == p[j - 1]
    {
      assert s[j] == e[j - 1];
    }
    assert s[1 + |a| .. 1 + |a| + |b|] == b;
  }

  /** A position of `v`'s tour that does not hold `v` lies inside some child's block. */
  lemma {:induction false} EulerKidsPosition(f: Tree, v: int, k: int, j: int) returns (i: int)
    requires IsNode(f, v) && 0 <= k <= |f.kids[v]|
    requires 0 <= j < |EulerKids(f, v, k)| && EulerKids(f, v, k)[j] != v
    ensures 0 <= i < k
    ensures 2 * SizeKids(f, v, i) <= j < 2 * SizeKids(f, v, i + 1) - 1
    ensures EulerKids(f, v, k)[j] == Euler(f, f.kids[v][i])[j - 2 * SizeKids(f, v, i)]
    decreases k
  {
    var prev := EulerKids(f, v, k - 1);
    var c := f.kids[v][k - 1];
    var x := Euler(f, c);
    assert EulerKids(f, v, k) == prev + x + [v];
    if j < |prev| {
      i := EulerKidsPosition(f, v, k - 1, j);
      AppendPosition(prev, x + [v], j);
    } else {
      i := k - 1;
      AppendPosition(prev, x + [v], j);
      assert (x + [v])[j - |prev|] == x[j - |prev|];
    }
  }

  lemma AppendPosition(a: seq<int>, b: seq<int>, j: int)
    requires 0 <= j < |a + b|
    ensures (a + b)[j] == if j < |a| then a[j] else b[j - |a|]
  {
  }

  // ---------------------------------------------------------------------------
  // Contents

  lemma ChildIsAnc(f: Tree, v: int, i: int)
    requires IsNode(f, v) && 0 <= i < |f.kids[v]|
    ensures Anc(f, v, f.kids[v][i])
  {
    var c := f.kids[v][i];
    assert f.par[c] == v;
    assert Anc(f, v, v);
  }

  lemma {:induction false} EulerElems(f: Tree, v: int)
    requires IsNode(f, v)
    ensures forall p :: 0 <= p < |Euler(f, v)| ==> IsNode(f, Euler(f, v)[p]) && Anc(f, v, Euler(f, v)[p])
    decreases Height(f, v), 1
  {
    EulerKidsElems(f, v, |f.kids[v]|);
  }

  lemma {:induction false} EulerKidsElems(f: Tree, v: int, i: int)
    requires IsNode(f, v) && 0 <= i <= |f.kids[v]|
    ensures forall p :: 0 <= p < |EulerKids(f, v, i)| ==>
              IsNode(f, EulerKids(f, v, i)[p]) && Anc(f, v, EulerKids(f, v, i)[p])
    decreases Height(f, v), 0, i
  {
    if i > 0 {
      var c := f.kids[v][i - 1];
      EulerKidsElems(f, v, i - 1);
      EulerElems(f, c);
      ChildIsAnc(f, v, i - 1);
      var e := EulerKids(f, v, i);
      assert e == EulerKids(f, v, i - 1) + Euler(f, c) + [v];
      forall p | 0 <= p < |e|
        ensures IsNode(f, e[p]) && Anc(f, v, e[p])
      {
        var m := |EulerKids(f, v, i - 1)|;
        if m <= p < m + |Euler(f, c)| {
          assert e[p] == Euler(f, c)[p - m];
          AncTrans(f, v, c, e[p]);
        }
      }
    }
  }

  lemma {:induction false} PreElems(f: Tree, v: int)
    requires IsNode(f, v)
    ensures forall p :: 0 <= p < |Pre(f, v)| ==> IsNode(f, Pre(f, v)[p]) && Anc(f, v, Pre(f, v)[p])
    decreases Height(f, v), 1
  {
    PreKidsElems(f, v, |f.kids[v]|);
  }

  /** Everything the first `i` children contribute is strictly below `v`, under one of those children. */
  lemma {:induction false} PreKidsElems(f: Tree, v: int, i: int)
    requires IsNode(f, v) && 0 <= i <= |f.kids[v]|
    ensures forall p :: 0 <= p < |PreKids(f, v, i)| ==>
              var x := PreKids(f, v, i)[p];
              IsNode(f, x) && Anc(f, v, x) && x != v && ChildToward(f, v, x) in f.kids[v][..i]
    decreases Height(f, v), 0, i
  {
    if i > 0 {
      var c := f.kids[v][i - 1];
      PreKidsElems(f, v, i - 1);
      PreElems(f, c);
      ChildIsAnc(f, v, i - 1);
      var e := PreKids(f, v, i);
      assert e == PreKids(f, v, i - 1) + Pre(f, c);
      forall p | 0 <= p < |e|
        ensures IsNode(f, e[p]) && Anc(f, v, e[p]) && e[p] != v && ChildToward(f, v, e[p]) in f.kids[v][..i]
      {
        var m := |PreKids(f, v, i - 1)|;
        if p < m {
          assert e[p] == PreKids(f, v, i - 1)[p];
          assert f.kids[v][..i - 1] <= f.kids[v][..i];
        } else {
          assert e[p] == Pre(f, c)[p - m];
          AncTrans(f, v, c, e[p]);
          AncRank(f, c, e[p]);
          ChildTowardOfChild(f, v, c, e[p]);
          assert f.kids[v][..i][i - 1] == c;
        }
      }
    }
  }

  // ---------------------------------------------------------------------------
  // Ranges of the tour

  /** The entry of `v`'s tour at a position inside child `t`'s block. */
  lemma EulerAt(f: Tree, v: int, t: int, j: int)
    requires IsNode(f, v) && 0 <= t < |f.kids[v]|
    requires 1 + 2 * SizeKids(f, v, t) <= j < 2 * SizeKids(f, v, t + 1)
    ensures j < |Euler(f, v)| && 0 <= j - 1 - 2 * SizeKids(f, v, t) < |Euler(f, f.kids[v][t])|
    ensures Euler(f, v)[j] == Euler(f, f.kids[v][t])[j - 1 - 2 * SizeKids(f, v, t)]
  {
    EulerChildBlock(f, v, t);
    var lo := 1 + 2 * SizeKids(f, v, t);
    assert Euler(f, v)[lo .. 2 * SizeKids(f, v, t + 1)][j - lo] == Euler(f, v)[j];
  }

  /** A position of `v`'s tour not holding `v` lies in the block of some child. */
  lemma EulerBlockOf(f: Tree, v: int, i: int) returns (t: int)
    requires IsNode(f, v) && 0 <= i < |Euler(f, v)| && Euler(f, v)[i] != v
    ensures 0 <= t < |f.kids[v]|
    ensures 1 + 2 * SizeKids(f, v, t) <= i < 2 * SizeKids(f, v, t + 1)
  {
    assert Euler(f, v) == [v] + EulerKids(f, v, |f.kids[v]|);
    t := EulerKidsPosition(f, v, |f.kids[v]|, i - 1);
  }

  /** Blocks of later children start no earlier than the ends of blocks of earlier ones. */
  lemma SizeKidsMonotone(f: Tree, v: int, i: int, k: int)
    requires IsNode(f, v) && 0 <= i <= k <= |f.kids[v]|
    ensures SizeKids(f, v, i) <= SizeKids(f, v, k)
  {
    EulerKidsPrefix(f, v, i, k);
  }

  /**
   * Between positions `i` <= `k` of `s` every entry is a node descending from
   * the lowest common ancestor of the entries at `i` and `k`, and that ancestor
   * itself occurs, at position `j`.
   */
  ghost predicate RangeLca(f: Tree, s: seq<int>, i: int, k: int, j: int)
  {
    && 0 <= i <= j <= k < |s|
    && IsNode(f, s[i]) && IsNode(f, s[k])
    && s[j] == Lca(f, s[i], s[k])
    && forall p :: i <= p <= k ==> IsNode(f, s[p]) && Anc(f, s[j], s[p])
  }

  /** `s` holds `e` from position `off` on. */
  ghost predicate BlockAt(s: seq<int>, e: seq<int>, off: int)
  {
    0 <= off && off + |e| <= |s| && forall p :: 0 <= p < |e| ==> s[off + p] == e[p]
  }

  /** The range property of a block carries over to a sequence that holds the block at `off`. */
  lemma RangeShifted(f: Tree, s: seq<int>, e: seq<int>, off: int, i: int, k: int, j: int)
    requires BlockAt(s, e, off)
    requires RangeLca(f, e, i - off, k - off, j - off)
    ensures RangeLca(f, s, i, k, j)
  {
    forall p | i <= p <= k
      ensures s[p] == e[p - off]
    {
      assert s[off + (p - off)] == e[p - off];
    }
  }

  /** Every range of `v`'s tour has the range property. */
  lemma {:induction false} EulerRange(f: Tree, v: int, i: int, k: int) returns (j: int)
    requires Complete(f) && IsNode(f, v) && 0 <= i <= k < |Euler(f, v)|
    ensures RangeLca(f, Euler(f, v), i, k, j)
    decreases Height(f, v)
  {
    var e := Euler(f, v);
    EulerElems(f, v);
    if e[i] == v {
      j := i;
      LcaOfAnc(f, v, e[k]);
    } else if e[k] == v {
      j := k;
      LcaOfAnc(f, v, e[i]);
    } else {
      var t1 := EulerBlockOf(f, v, i);
      var t2 := EulerBlockOf(f, v, k);
      if t1 == t2 {
        j := EulerRangeSameBlock(f, v, t1, i, k);
      } else {
        j := EulerRangeSplit(f, v, t1, t2, i, k);
      }
    }
  }

  /** The tour of child `t` sits in `v`'s tour at 1 + 2 * SizeKids(v, t). */
  lemma EulerChildAt(f: Tree, v: int, t: int)
    requires IsNode(f, v) && 0 <= t < |f.kids[v]|
    ensures BlockAt(Euler(f, v), Euler(f, f.kids[v][t]), 1 + 2 * SizeKids(f, v, t))
  {
    var off := 1 + 2 * SizeKids(f, v, t);
    var e, ec := Euler(f, v), Euler(f, f.kids[v][t]);
    EulerChildBlock(f, v, t);
    SliceBlock(e, ec, off, 2 * SizeKids(f, v, t + 1));
  }

  /** A slice equal to `e` holds `e` at `off`. */
  lemma SliceBlock(s: seq<int>, e: seq<int>, off: int, m: int)
    requires 0 <= off <= m <= |s| && s[off .. m] == e
    ensures BlockAt(s, e, off)
  {
    forall p | 0 <= p < |e|
      ensures s[off + p] == e[p]
    {
      assert s[off .. m][p] == s[off + p];
    }
  }

  /** Both ends in the block of child `t`: the answer is the child's. */
  lemma {:induction false} EulerRangeSameBlock(f: Tree, v: int, t: int, i: int, k: int) returns (j: int)
    requires Complete(f) && IsNode(f, v) && 0 <= t < |f.kids[v]|
    requires 1 + 2 * SizeKids(f, v, t) <= i <= k < 2 * SizeKids(f, v, t + 1)
    ensures RangeLca(f, Euler(f, v), i, k, j)
    decreases Height(f, v), 0
  {
    var off := 1 + 2 * SizeKids(f, v, t);
    EulerChildAt(f, v, t);
    var j0 := EulerRange(f, f.kids[v][t], i - off, k - off);
    j := j0 + off;
    RangeShifted(f, Euler(f, v), Euler(f, f.kids[v][t]), off, i, k, j);
  }

  /** The ends in the blocks of two different children: the answer is `v`. */
  lemma EulerRangeSplit(f: Tree, v: int, t1: int, t2: int, i: int, k: int) returns (j: int)
    requires Complete(f) && IsNode(f, v) && 0 <= t1 < |f.kids[v]| && 0 <= t2 < |f.kids[v]| && t1 != t2
    requires 1 + 2 * SizeKids(f, v, t1) <= i < 2 * SizeKids(f, v, t1 + 1)
    requires 1 + 2 * SizeKids(f, v, t2) <= k < 2 * SizeKids(f, v, t2 + 1)
    requires i <= k
    ensures RangeLca(f, Euler(f, v), i, k, j)
  {
    if t2 < t1 {
      SizeKidsMonotone(f, v, t2 + 1, t1);
    }
    SizeKidsMonotone(f, v, t1 + 1, t2);
    j := 2 * SizeKids(f, v, t1 + 1);
    EulerChildBlock(f, v, t1);
    var c1, c2 := f.kids[v][t1], f.kids[v][t2];
    EulerAt(f, v, t1, i);
    EulerAt(f, v, t2, k);
    var x, y := Euler(f, v)[i], Euler(f, v)[k];
    AncOfTourEntry(f, c1, i - 1 - 2 * SizeKids(f, v, t1));
    AncOfTourEntry(f, c2, k - 1 - 2 * SizeKids(f, v, t2));
    EulerElems(f, v);
    SplitLca(f, v, c1, c2, x, y);
  }

  lemma AncOfTourEntry(f: Tree, c: int, p: int)
    requires IsNode(f, c) && 0 <= p < |Euler(f, c)|
    ensures IsNode(f, Euler(f, c)[p]) && Anc(f, c, Euler(f, c)[p])
  {
    EulerElems(f, c);
  }

  // ---------------------------------------------------------------------------
  // The preorder lists every descendant exactly once

  /** The entry of `v`'s preorder at a position inside child `t`'s block. */
  lemma PreAt(f: Tree, v: int, t: int, j: int)
    requires IsNode(f, v) && 0 <= t < |f.kids[v]|
    requires 1 + SizeKids(f, v, t) <= j < 1 + SizeKids(f, v, t + 1)
    ensures j < |Pre(f, v)| && 0 <= j - 1 - SizeKids(f, v, t) < |Pre(f, f.kids[v][t])|
    ensures Pre(f, v)[j] == Pre(f, f.kids[v][t])[j - 1 - SizeKids(f, v, t)]
  {
    PreChildBlock(f, v, t);
    var lo := 1 + SizeKids(f, v, t);
    assert Pre(f, v)[lo .. 1 + SizeKids(f, v, t + 1)][j - lo] == Pre(f, v)[j];
  }

  /** Every descendant of `v` occurs in `v`'s preorder. */
  lemma {:induction false} PreContains(f: Tree, v: int, u: int) returns (p: int)
    requires Complete(f) && IsNode(f, v) && IsNode(f, u) && Anc(f, v, u)
    ensures 0 <= p < |Pre(f, v)| && Pre(f, v)[p] == u
    decreases Height(f, v)
  {
    if u == v {
      p := 0;
    } else {
      var c := ChildToward(f, v, u);
      assert c in f.kids[v];
      var t :| 0 <= t < |f.kids[v]| && f.kids[v][t] == c;
      var p0 := PreContains(f, c, u);
      p := 1 + SizeKids(f, v, t) + p0;
      PreAt(f, v, t, p);
    }
  }

  lemma {:induction false} PreDistinct(f: Tree, v: int)
    requires Complete(f) && IsNode(f, v)
    ensures Distinct(Pre(f, v))
    decreases Height(f, v), 1
  {
    var k := |f.kids[v]|;
    PreKidsDistinct(f, v, k);
    PreKidsElems(f, v, k);
    DistinctConcat([v], PreKids(f, v, k));
  }

  lemma {:induction false} PreKidsDistinct(f: Tree, v: int, i: int)
    requires Complete(f) && IsNode(f, v) && 0 <= i <= |f.kids[v]|
    ensures Distinct(PreKids(f, v, i))
    decreases Height(f, v), 0, i
  {
    if i > 0 {
      var c := f.kids[v][i - 1];
      var a, b := PreKids(f, v, i - 1), Pre(f, c);
      PreKidsDistinct(f, v, i - 1);
      PreDistinct(f, c);
      PreKidsElems(f, v, i - 1);
      PreElems(f, c);
      forall x | x in a && x in b
        ensures false
      {
        ChildTowardOfChild(f, v, c, x);
      }
      DistinctConcat(a, b);
    }
  }
}

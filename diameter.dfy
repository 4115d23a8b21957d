/**
 * The diameter scan: one pass over the Euler tour of the first tree keeping
 * three running maxima, of wdepth[u], of wdepth[u] - 2 wdepth[x] and of
 * wdepth[u] - 2 wdepth[x] + wdepth[v] over tour positions u <= x <= v.  Each
 * maximum is a pair compared lexicographically, as the library `max` on
 * pairs does; only its first component matters for the length.
 */
module Diameter {
  import opened Forest
  import opened Tours
  import opened Tables
  import opened Layout
  import opened Graph
  import opened Paths

  /** A running maximum and the node it was reached at. */
  datatype Best = Best(value: int, node: int)

  /** A running maximum and the two path ends it was reached with. */
  datatype BestPath = BestPath(value: int, u: int, v: int)

  /** `a` is no smaller than `b` in the order of `(value, node)` pairs. */
  predicate BestAtLeast(a: Best, b: Best)
  {
    a.value > b.value || (a.value == b.value && a.node >= b.node)
  }

  /** `a` is no smaller than `b` in the order of `(value, (u, v))` pairs. */
  predicate PathAtLeast(a: BestPath, b: BestPath)
  {
    a.value > b.value || (a.value == b.value && (a.u > b.u || (a.u == b.u && a.v >= b.v)))
  }

  /** The larger of two pairs in lexicographic order; the first on a tie. */
  function MaxBest(a: Best, b: Best): (r: Best)
    ensures r == a || r == b
    ensures r.value >= a.value && r.value >= b.value
    ensures BestAtLeast(r, a) && BestAtLeast(r, b)
  {
    if a.value < b.value || (a.value == b.value && a.node < b.node) then b else a
  }

  /** The larger of two `(value, (u, v))` triples in lexicographic order; the first on a tie. */
  function MaxPath(a: BestPath, b: BestPath): (r: BestPath)
    ensures r == a || r == b
    ensures r.value >= a.value && r.value >= b.value
    ensures PathAtLeast(r, a) && PathAtLeast(r, b)
  {
    if a.value < b.value || (a.value == b.value && (a.u < b.u || (a.u == b.u && a.v < b.v))) then b else a
  }

  /** The position of the first separator at or after `i`, or `|s|` when there is none. */
  function ScanFrom(s: seq<int>, i: nat): (r: nat)
    requires i <= |s|
    ensures i <= r <= |s| && (forall p :: i <= p < r ==> s[p] >= 0) && (r < |s| ==> s[r] < 0)
    decreases |s| - i
  {
    if i == |s| || s[i] < 0 then i else ScanFrom(s, i + 1)
  }

  /** The number of tour entries before the first separator. */
  function ScanEnd(s: seq<int>): (r: nat)
    ensures r <= |s| && (forall p :: 0 <= p < r ==> s[p] >= 0) && (r < |s| ==> s[r] < 0)
  {
    ScanFrom(s, 0)
  }

  /** The weighted length of the walk from `s[i]` down to `s[j]` and back up to `s[k]`. */
  function Triple(s: seq<int>, wd: seq<int>, i: int, j: int, k: int): int
    requires 0 <= i <= j <= k < |s|
  {
    At(wd, s[i]) - 2 * At(wd, s[j]) + At(wd, s[k])
  }

  /** `b` is a largest triple over positions below `len`, reached at ends `b.u` and `b.v`. */
  ghost predicate BestOf(s: seq<int>, wd: seq<int>, len: int, b: BestPath)
  {
    && 0 < len <= |s|
    && (exists i, j, k :: 0 <= i <= j <= k < len && s[i] == b.u && s[k] == b.v && b.value == Triple(s, wd, i, j, k))
    && Bound3(s, wd, len, b.value)
  }

  /** No entry before `len` has a weighted depth above `m`. */
  ghost predicate Bound1(s: seq<int>, wd: seq<int>, len: int, m: int)
    requires len <= |s|
  {
    forall p :: 0 <= p < len ==> At(wd, s[p]) <= m
  }

  /** No pair of positions `p <= q` before `len` gives more than `m`. */
  ghost predicate Bound2(s: seq<int>, wd: seq<int>, len: int, m: int)
    requires len <= |s|
  {
    forall p, q :: 0 <= p <= q < len ==> At(wd, s[p]) - 2 * At(wd, s[q]) <= m
  }

  /** No triple of positions before `len` gives more than `m`. */
  ghost predicate Bound3(s: seq<int>, wd: seq<int>, len: int, m: int)
    requires len <= |s|
  {
    forall i, j, k :: 0 <= i <= j <= k < len ==> Triple(s, wd, i, j, k) <= m
  }

  /** One step of the scan keeps the three bounds. */
  lemma BoundsStep(s: seq<int>, wd: seq<int>, i: int, m1: int, m2: int, m3: int, n1: int, n2: int, n3: int)
    requires 0 <= i < |s| && Bound1(s, wd, i, m1) && Bound2(s, wd, i, m2) && Bound3(s, wd, i, m3)
    requires n1 >= m1 && n1 >= At(wd, s[i])
    requires n2 >= m2 && n2 >= n1 - 2 * At(wd, s[i])
    requires n3 >= m3 && n3 >= n2 + At(wd, s[i])
    ensures Bound1(s, wd, i + 1, n1) && Bound2(s, wd, i + 1, n2) && Bound3(s, wd, i + 1, n3)
  {
    forall p, q | 0 <= p <= q <= i
      ensures At(wd, s[p]) - 2 * At(wd, s[q]) <= n2
    {
      if q == i {
        assert At(wd, s[p]) <= n1;
      }
    }
    forall p, q, r | 0 <= p <= q <= r <= i
      ensures Triple(s, wd, p, q, r) <= n3
    {
      if r == i {
        assert At(wd, s[p]) - 2 * At(wd, s[q]) <= n2;
      }
    }
  }

  /** The three running maxima of the scan. */
  datatype Maxima = Maxima(u: Best, ux: Best, best: BestPath)

  /** One step of the scan at a tour entry `node` of weighted depth `w`. */
  function Advance(m: Maxima, node: int, w: int): (r: Maxima)
    ensures r.u.value >= m.u.value && r.ux.value >= m.ux.value && r.best.value >= m.best.value
  {
    var u1 := MaxBest(m.u, Best(w, node));
    var ux1 := MaxBest(m.ux, Best(u1.value - 2 * w, u1.node));
    var b1 := MaxPath(m.best, BestPath(ux1.value + w, ux1.node, node));
    Maxima(u1, ux1, b1)
  }

  /** The maxima after the first `i` tour entries, every one starting at -1. */
  function Prefix(s: seq<int>, wd: seq<int>, i: nat): Maxima
    requires i <= |s|
  {
    if i == 0 then Maxima(Best(-1, -1), Best(-1, -1), BestPath(-1, -1, -1))
    else Advance(Prefix(s, wd, i - 1), s[i - 1], At(wd, s[i - 1]))
  }

  /** The running maxima after the first `i` entries, and positions that reach them. */
  ghost predicate Attained(s: seq<int>, wd: seq<int>, i: int, m: Maxima,
                          pu: int, xu: int, xx: int, bi: int, bj: int, bk: int)
  {
    && 0 <= i <= |s|
    && (i == 0 ==> m == Maxima(Best(-1, -1), Best(-1, -1), BestPath(-1, -1, -1)))
    && (i > 0 ==> 0 <= pu < i && m.u == Best(At(wd, s[pu]), s[pu]))
    && (i > 0 ==> 0 <= xu <= xx < i && m.ux == Best(At(wd, s[xu]) - 2 * At(wd, s[xx]), s[xu]))
    && (i > 0 ==> 0 <= bi <= bj <= bk < i && m.best == BestPath(Triple(s, wd, bi, bj, bk), s[bi], s[bk]))
    && Bound1(s, wd, i, m.u.value) && Bound2(s, wd, i, m.ux.value) && Bound3(s, wd, i, m.best.value)
  }

  /** One step of the scan, with the positions that reach the new maxima. */
  lemma ScanStep(s: seq<int>, wd: seq<int>, i: int, m: Maxima,
                 pu: int, xu: int, xx: int, bi: int, bj: int, bk: int)
    returns (pu': int, xu': int, xx': int, bi': int, bj': int, bk': int)
    requires Attained(s, wd, i, m, pu, xu, xx, bi, bj, bk) && i < |s|
    requires i == 0 ==> At(wd, s[0]) == 0
    ensures Attained(s, wd, i + 1, Advance(m, s[i], At(wd, s[i])), pu', xu', xx', bi', bj', bk')
  {
    var m1 := Advance(m, s[i], At(wd, s[i]));
    pu', xu', xx', bi', bj', bk' := pu, xu, xx, bi, bj, bk;
    if i == 0 || m1.u != m.u {
      pu' := i;
    }
    if i == 0 || m1.ux != m.ux {
      xu', xx' := pu', i;
    }
    if i == 0 || m1.best != m.best {
      bi', bj', bk' := xu', xx', i;
    }
    BoundsStep(s, wd, i, m.u.value, m.ux.value, m.best.value, m1.u.value, m1.ux.value, m1.best.value);
  }

  /** Each prefix has positions reaching its maxima and bounding every other choice. */
  lemma {:induction false} PrefixAttained(s: seq<int>, wd: seq<int>, i: nat)
    returns (pu: int, xu: int, xx: int, bi: int, bj: int, bk: int)
    requires i <= |s| && (|s| > 0 ==> At(wd, s[0]) == 0)
    ensures Attained(s, wd, i, Prefix(s, wd, i), pu, xu, xx, bi, bj, bk)
  {
    if i == 0 {
      pu, xu, xx, bi, bj, bk := 0, 0, 0, 0, 0, 0;
    } else {
      pu, xu, xx, bi, bj, bk := PrefixAttained(s, wd, i - 1);
      pu, xu, xx, bi, bj, bk := ScanStep(s, wd, i - 1, Prefix(s, wd, i - 1), pu, xu, xx, bi, bj, bk);
    }
  }

  /** A non-empty prefix's third maximum is a largest triple. */
  lemma PrefixBest(s: seq<int>, wd: seq<int>, len: nat)
    requires 0 < len <= |s| && At(wd, s[0]) == 0
    ensures BestOf(s, wd, len, Prefix(s, wd, len).best)
  {
    var pu, xu, xx, bi, bj, bk := PrefixAttained(s, wd, len);
  }

  // ---------------------------------------------------------------------------
  // The scan over a tour is the diameter of the first tree

  /** A node of the tree rooted at `r`. */
  ghost predicate InTree(f: Tree, r: int, u: int)
  {
    IsNode(f, u) && RootOf(f, u) == r
  }

  /** The scan stops at the separator after the first tree. */
  lemma ScanEndIsFirstTree(f: Tree, s: seq<int>, first: seq<int>, L: int)
    requires FirstTree(f, s, first, L)
    ensures ScanEnd(s) == L
  {
    var r := ScanEnd(s);
    assert r < L ==> IsNode(f, s[r]);
  }

  /** Between two tour positions of one tree, a triple through their common ancestor measures their path. */
  lemma TripleAtLca(f: Tree, s: seq<int>, depth: seq<int>, wdepth: seq<int>, up: seq<int>, i: int, k: int) returns (j: int)
    requires DepthOk(f, depth) && WeightOk(f, wdepth, up) && RangeAll(f, s) && OneTreeRange(f, s, i, k)
    ensures RangeLca(f, s, i, k, j)
    ensures Triple(s, wdepth, i, j, k) == WeightedPathLen(f, depth, up, s[i], s[k])
  {
    j :| RangeLca(f, s, i, k, j);
    WeightedPathLenByDepth(f, depth, wdepth, up, s[i], s[k]);
  }

  /** No path between two nodes of the first tree is longer than a largest triple. */
  lemma PathBelowBest(f: Tree, s: seq<int>, first: seq<int>, depth: seq<int>, wdepth: seq<int>, up: seq<int>,
                      L: int, m: int, p: int, q: int)
    requires DepthOk(f, depth) && WeightOk(f, wdepth, up) && RangeAll(f, s)
    requires FirstTree(f, s, first, L) && FirstIn(f, s, first) && Bound3(s, wdepth, L, m)
    requires InTree(f, s[0], p) && InTree(f, s[0], q)
    ensures WeightedPathLen(f, depth, up, p, q) <= m
  {
    var i, k := first[p], first[q];
    if i <= k {
      var j := TripleAtLca(f, s, depth, wdepth, up, i, k);
    } else {
      var j := TripleAtLca(f, s, depth, wdepth, up, k, i);
      WeightedPathLenByDepth(f, depth, wdepth, up, p, q);
      WeightedPathLenByDepth(f, depth, wdepth, up, q, p);
      LcaSymmetric(f, p, q);
    }
  }

  /** With no negative weight, a largest triple is the path between its ends. */
  lemma BestIsPath(f: Tree, s: seq<int>, first: seq<int>, depth: seq<int>, wdepth: seq<int>, up: seq<int>,
                   L: int, b: BestPath)
    requires DepthOk(f, depth) && WeightOk(f, wdepth, up) && NonnegWeights(f, up) && RangeAll(f, s)
    requires FirstTree(f, s, first, L) && BestOf(s, wdepth, L, b)
    ensures InTree(f, s[0], b.u) && InTree(f, s[0], b.v)
    ensures b.value == WeightedPathLen(f, depth, up, b.u, b.v)
  {
    var i, j, k :| 0 <= i <= j <= k < L && s[i] == b.u && s[k] == b.v && b.value == Triple(s, wdepth, i, j, k);
    assert OneTreeRange(f, s, i, k);
    var j' := TripleAtLca(f, s, depth, wdepth, up, i, k);
    WeightAncestor(f, wdepth, up, s[j'], s[j]);
  }

  /**
   * The scan over a tour whose first block is the tree of `s[0]` finds two
   * nodes of that tree at the largest weighted distance, and reports it.
   */
  lemma DiameterOk(f: Tree, s: seq<int>, first: seq<int>, depth: seq<int>, wdepth: seq<int>, up: seq<int>, L: int)
    requires DepthOk(f, depth) && WeightOk(f, wdepth, up) && NonnegWeights(f, up) && RangeAll(f, s)
    requires FirstTree(f, s, first, L) && FirstIn(f, s, first)
    ensures ScanEnd(s) == L
    ensures var b := Prefix(s, wdepth, L).best;
      && InTree(f, s[0], b.u) && InTree(f, s[0], b.v)
      && b.value == WeightedPathLen(f, depth, up, b.u, b.v)
      && forall p, q :: InTree(f, s[0], p) && InTree(f, s[0], q) ==> WeightedPathLen(f, depth, up, p, q) <= b.value
  {
    ScanEndIsFirstTree(f, s, first, L);
    PrefixBest(s, wdepth, L);
    var b := Prefix(s, wdepth, L).best;
    BestIsPath(f, s, first, depth, wdepth, up, L, b);
    forall p, q | InTree(f, s[0], p) && InTree(f, s[0], q)
      ensures WeightedPathLen(f, depth, up, p, q) <= b.value
    {
      PathBelowBest(f, s, first, depth, wdepth, up, L, b.value, p, q);
    }
  }

  /**
   * The scan of `get_diameter`, in tour order up to the first separator.  The tour of
   * a forest starts at a root, whose weighted depth is 0, so the first entry
   * replaces every starting value of -1.
   */
  method ScanTour(s: seq<int>, wd: seq<int>) returns (best: BestPath)
    ensures best == Prefix(s, wd, ScanEnd(s)).best
    ensures ScanEnd(s) == 0 ==> best == BestPath(-1, -1, -1)
  {
    var uMax := Best(-1, -1);
    var uxMax := Best(-1, -1);
    best := BestPath(-1, -1, -1);
    var i := 0;
    while i < |s|
      invariant i <= |s| && ScanFrom(s, i) == ScanEnd(s)
      invariant Prefix(s, wd, i) == Maxima(uMax, uxMax, best)
    {
      var node := s[i];
      if node < 0 {
        break;
      }
      var w := At(wd, node);
      var u1 := MaxBest(uMax, Best(w, node));
      var ux1 := MaxBest(uxMax, Best(u1.value - 2 * w, u1.node));
      best := MaxPath(best, BestPath(ux1.value + w, ux1.node, node));
      uMax, uxMax := u1, ux1;
      i := i + 1;
    }
  }
}

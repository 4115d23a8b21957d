/**
 * The theory behind compressing a tree to a set of nodes.  Nodes listed in
 * preorder have the property that the lowest common ancestor of any two of
 * them is that of some adjacent pair in between; so the input with the lowest
 * common ancestors of its adjacent pairs added is closed under lowest common
 * ancestors, and in preorder each of its nodes after the first hangs below its
 * lowest common ancestor with the node before it.
 */
module Compress {
  import opened Forest
  import opened Tables
  import opened Graph
  import opened Seqs

  /** `a` and `b` are nodes of one tree. */
  ghost predicate SameTree(f: Tree, a: int, b: int)
  {
    IsNode(f, a) && IsNode(f, b) && RootOf(f, a) == RootOf(f, b)
  }

  /** Every entry of `s` is a node of the tree of the first one. */
  ghost predicate OneTree(f: Tree, s: seq<int>)
  {
    forall i :: 0 <= i < |s| ==> SameTree(f, s[i], s[0])
  }

  /** `s` is ordered by preorder index. */
  ghost predicate InPreorder(start: seq<int>, s: seq<int>)
  {
    forall i, j :: 0 <= i < j < |s| ==> At(start, s[i]) <= At(start, s[j])
  }

  /** `s` is strictly ordered by preorder index, so it repeats nothing. */
  ghost predicate StrictPreorder(start: seq<int>, s: seq<int>)
  {
    forall i, j :: 0 <= i < j < |s| ==> At(start, s[i]) < At(start, s[j])
  }

  /** `x` is the lowest common ancestor of two (not necessarily different) entries of `s`. */
  ghost predicate InClosure(f: Tree, s: seq<int>, x: int)
  {
    exists a, b :: a in s && b in s && IsNode(f, a) && IsNode(f, b) && x == Lca(f, a, b)
  }

  /** The lowest common ancestor of any two nodes of `s` is in `s`. */
  ghost predicate Closed(f: Tree, s: seq<int>)
  {
    forall i, j {:trigger Lca(f, s[i], s[j])} :: 0 <= i < |s| && 0 <= j < |s| && IsNode(f, s[i]) && IsNode(f, s[j]) ==>
      Lca(f, s[i], s[j]) in s
  }

  /**
   * `p` is the parent of `v` in the tree compressed to `s`: the deepest
   * proper ancestor of `v` among the entries of `s`.
   */
  ghost predicate CompressedParent(f: Tree, s: seq<int>, v: int, p: int)
  {
    && p in s && IsNode(f, p) && IsNode(f, v) && p != v && Anc(f, p, v)
    && forall q :: q in s && q != v && Anc(f, q, v) ==> Anc(f, q, p)
  }

  /** The lowest common ancestors of the adjacent pairs of `s`. */
  ghost function AdjacentLcas(f: Tree, s: seq<int>): (r: seq<int>)
    requires forall t :: 0 <= t < |s| ==> IsNode(f, s[t])
    ensures |r| == if |s| == 0 then 0 else |s| - 1
    ensures forall t :: 0 <= t < |r| ==> r[t] == Lca(f, s[t], s[t + 1])
  {
    if |s| == 0 then [] else seq(|s| - 1, t requires 0 <= t < |s| - 1 => Lca(f, s[t], s[t + 1]))
  }

  /** The first components of a list of pairs. */
  function Firsts(r: seq<(int, int)>): (s: seq<int>)
    ensures |s| == |r| && forall i :: 0 <= i < |r| ==> s[i] == r[i].0
  {
    seq(|r|, i requires 0 <= i < |r| => r[i].0)
  }

  /** Each entry of `u` with its lowest common ancestor with the entry before it; -1 for the first. */
  ghost function WithParents(f: Tree, u: seq<int>): (r: seq<(int, int)>)
    requires forall i :: 0 <= i < |u| ==> IsNode(f, u[i])
    ensures |r| == |u| && Firsts(r) == u
    ensures forall i :: 0 < i < |r| ==> r[i].1 == Lca(f, u[i], u[i - 1])
    ensures |r| > 0 ==> r[0].1 == -1
  {
    seq(|u|, i requires 0 <= i < |u| => (u[i], if i == 0 then -1 else Lca(f, u[i], u[i - 1])))
  }

  // ---------------------------------------------------------------------------
  // Preorder facts

  /** The lowest common ancestor of two nodes of a tree is a node of it above both. */
  lemma LcaOfSameTree(f: Tree, a: int, b: int)
    requires SameTree(f, a, b)
    ensures IsNode(f, Lca(f, a, b)) && Anc(f, Lca(f, a, b), a) && Anc(f, Lca(f, a, b), b)
    ensures SameTree(f, Lca(f, a, b), a) && SameTree(f, Lca(f, a, b), b)
    ensures forall w :: Anc(f, w, a) && Anc(f, w, b) ==> Anc(f, w, Lca(f, a, b))
  {
    LcaIsDeepest(f, a, b);
    AncRoot(f, Lca(f, a, b), a);
  }

  /** An ancestor's preorder interval holds the index of every node between two of its descendants. */
  lemma Between(f: Tree, start: seq<int>, end: seq<int>, x: int, a: int, b: int, c: int)
    requires AncByStart(f, start, end) && IsNode(f, a) && IsNode(f, b) && IsNode(f, c)
    requires Anc(f, x, a) && Anc(f, x, c) && start[a] <= start[b] <= start[c]
    ensures Anc(f, x, b)
  {
    assert IsNode(f, x);
    assert start[x] <= start[a] && start[c] < end[x];
  }

  /** Two nodes with the same preorder index are the same node. */
  lemma StartInjective(f: Tree, start: seq<int>, end: seq<int>, a: int, b: int)
    requires AncByStart(f, start, end) && IsNode(f, a) && IsNode(f, b) && start[a] == start[b]
    ensures a == b
  {
    assert Anc(f, a, a) && Anc(f, b, b);
    assert Anc(f, a, b) && Anc(f, b, a);
    AncAntisym(f, a, b);
  }

  /** An ancestor comes first in preorder. */
  lemma AncFirst(f: Tree, start: seq<int>, end: seq<int>, a: int, b: int)
    requires AncByStart(f, start, end) && IsNode(f, b) && Anc(f, a, b)
    ensures IsNode(f, a) && start[a] <= start[b]
  {
  }

  /** In preorder, the lowest common ancestor of two entries is above every entry between them. */
  lemma RangeAnc(f: Tree, start: seq<int>, end: seq<int>, s: seq<int>, i: int, j: int, k: int)
    requires AncByStart(f, start, end) && OneTree(f, s) && InPreorder(start, s)
    requires 0 <= i <= j <= k < |s|
    ensures Anc(f, Lca(f, s[i], s[k]), s[j])
  {
    assert SameTree(f, s[i], s[k]) && SameTree(f, s[j], s[j]);
    LcaOfSameTree(f, s[i], s[k]);
    assert At(start, s[i]) <= At(start, s[j]) <= At(start, s[k]);
    Between(f, start, end, Lca(f, s[i], s[k]), s[i], s[j], s[k]);
  }

  /** The lowest common ancestor of two spans of a preorder list is that of the span covering both. */
  lemma LcaOfSpans(f: Tree, start: seq<int>, end: seq<int>, s: seq<int>, i: int, j: int, p: int, q: int, m: int, M: int)
    requires AncByStart(f, start, end) && OneTree(f, s) && InPreorder(start, s)
    requires 0 <= i <= j < |s| && 0 <= p <= q < |s|
    requires m == (if i <= p then i else p) && M == (if j >= q then j else q)
    ensures IsNode(f, Lca(f, s[i], s[j])) && IsNode(f, Lca(f, s[p], s[q]))
    ensures Lca(f, Lca(f, s[i], s[j]), Lca(f, s[p], s[q])) == Lca(f, s[m], s[M])
  {
    assert SameTree(f, s[i], s[j]) && SameTree(f, s[p], s[q]) && SameTree(f, s[m], s[M]) && SameTree(f, s[i], s[p]);
    LcaOfSameTree(f, s[i], s[j]);
    LcaOfSameTree(f, s[p], s[q]);
    LcaOfSameTree(f, s[m], s[M]);
    var x, y, z := Lca(f, s[i], s[j]), Lca(f, s[p], s[q]), Lca(f, s[m], s[M]);
    AncRoot(f, x, s[i]);
    AncRoot(f, y, s[p]);
    assert SameTree(f, x, y);
    LcaOfSameTree(f, x, y);
    var w := Lca(f, x, y);
    RangeAnc(f, start, end, s, m, i, M);
    RangeAnc(f, start, end, s, m, j, M);
    RangeAnc(f, start, end, s, m, p, M);
    RangeAnc(f, start, end, s, m, q, M);
    assert Anc(f, z, x) && Anc(f, z, y);
    assert Anc(f, z, w);
    if m == i {
      AncTrans(f, w, x, s[m]);
    } else {
      AncTrans(f, w, y, s[m]);
    }
    if M == j {
      AncTrans(f, w, x, s[M]);
    } else {
      AncTrans(f, w, y, s[M]);
    }
    assert Anc(f, w, z);
    AncAntisym(f, w, z);
  }

  /** In preorder, the lowest common ancestor of two entries is that of some adjacent pair between them. */
  lemma {:induction false} AdjacentSpan(f: Tree, start: seq<int>, end: seq<int>, s: seq<int>, i: int, k: int)
    returns (t: int)
    requires AncByStart(f, start, end) && OneTree(f, s) && InPreorder(start, s)
    requires 0 <= i < k < |s|
    ensures i <= t < k && Lca(f, s[i], s[k]) == Lca(f, s[t], s[t + 1])
    decreases k - i
  {
    if k == i + 1 {
      t := i;
      assert s[t + 1] == s[k];
      assert Lca(f, s[i], s[k]) == Lca(f, s[t], s[t + 1]);
    } else {
      var t' := AdjacentSpan(f, start, end, s, i, k - 1);
      AdjacentExtend(f, start, end, s, i, k);
      if Lca(f, s[i], s[k]) == Lca(f, s[i], s[k - 1]) {
        t := t';
      } else {
        t := k - 1;
        assert s[t + 1] == s[k];
      }
    }
  }

  /** Extending a span by one entry: its lowest common ancestor is the old one or that of the new adjacent pair. */
  lemma AdjacentExtend(f: Tree, start: seq<int>, end: seq<int>, s: seq<int>, i: int, k: int)
    requires AncByStart(f, start, end) && OneTree(f, s) && InPreorder(start, s)
    requires 0 <= i < k - 1 && k < |s|
    ensures Lca(f, s[i], s[k]) == Lca(f, s[i], s[k - 1]) || Lca(f, s[i], s[k]) == Lca(f, s[k - 1], s[k])
  {
    LcaOfSpans(f, start, end, s, i, k - 1, k - 1, k, i, k);
    assert SameTree(f, s[i], s[k - 1]) && SameTree(f, s[k - 1], s[k]);
    LcaOfSameTree(f, s[i], s[k - 1]);
    LcaOfSameTree(f, s[k - 1], s[k]);
    var x, y := Lca(f, s[i], s[k - 1]), Lca(f, s[k - 1], s[k]);
    LcaOfChain(f, x, y, s[k - 1]);
  }

  /** Of two ancestors of one node, the lowest common ancestor is the higher one. */
  lemma LcaOfChain(f: Tree, x: int, y: int, u: int)
    requires SameTree(f, u, u) && Anc(f, x, u) && Anc(f, y, u)
    ensures IsNode(f, x) && IsNode(f, y) && (Lca(f, x, y) == x || Lca(f, x, y) == y)
  {
    AncChain(f, x, y, u);
    if !Anc(f, x, y) {
      LcaSymmetric(f, x, y);
    }
  }

  // ---------------------------------------------------------------------------
  // The closure of a preorder list

  /** A list and the lowest common ancestors of its adjacent pairs are exactly its closure. */
  lemma AdjacentClosure(f: Tree, start: seq<int>, end: seq<int>, s: seq<int>)
    requires AncByStart(f, start, end) && OneTree(f, s) && InPreorder(start, s)
    ensures forall t :: 0 <= t < |s| ==> IsNode(f, s[t])
    ensures forall x :: x in s + AdjacentLcas(f, s) <==> InClosure(f, s, x)
  {
    assert forall t :: 0 <= t < |s| ==> SameTree(f, s[t], s[t]);
    var l := AdjacentLcas(f, s);
    forall x | x in s + l
      ensures InClosure(f, s, x)
    {
      if x in s {
        assert x == Lca(f, x, x);
      } else {
        var t :| 0 <= t < |l| && l[t] == x;
        assert s[t] in s && s[t + 1] in s;
      }
    }
    forall x | InClosure(f, s, x)
      ensures x in s + l
    {
      var a, b :| a in s && b in s && IsNode(f, a) && IsNode(f, b) && x == Lca(f, a, b);
      var i :| 0 <= i < |s| && s[i] == a;
      var k :| 0 <= k < |s| && s[k] == b;
      if i == k {
        assert x == a;
      } else if i < k {
        var t := AdjacentSpan(f, start, end, s, i, k);
        assert x == l[t];
      } else {
        LcaSymmetric(f, a, b);
        var t := AdjacentSpan(f, start, end, s, k, i);
        assert x == l[t];
      }
    }
  }

  /** Every member of a closure is the lowest common ancestor of a span of the preorder list. */
  lemma ClosureSpan(f: Tree, start: seq<int>, end: seq<int>, s: seq<int>, x: int) returns (i: int, j: int)
    requires OneTree(f, s) && InClosure(f, s, x)
    ensures 0 <= i <= j < |s| && x == Lca(f, s[i], s[j])
  {
    var a, b :| a in s && b in s && IsNode(f, a) && IsNode(f, b) && x == Lca(f, a, b);
    var p :| 0 <= p < |s| && s[p] == a;
    var q :| 0 <= q < |s| && s[q] == b;
    if p <= q {
      i, j := p, q;
    } else {
      LcaSymmetric(f, a, b);
      i, j := q, p;
    }
  }

  /** The closure of a list of nodes of one tree is closed under lowest common ancestors. */
  lemma ClosureClosed(f: Tree, start: seq<int>, end: seq<int>, s: seq<int>, x: int, y: int)
    requires AncByStart(f, start, end) && OneTree(f, s) && InPreorder(start, s)
    requires InClosure(f, s, x) && InClosure(f, s, y)
    ensures IsNode(f, x) && IsNode(f, y) && InClosure(f, s, Lca(f, x, y))
  {
    var i, j := ClosureSpan(f, start, end, s, x);
    var p, q := ClosureSpan(f, start, end, s, y);
    var m := if i <= p then i else p;
    var M := if j >= q then j else q;
    LcaOfSpans(f, start, end, s, i, j, p, q, m, M);
    assert s[m] in s && s[M] in s && SameTree(f, s[m], s[M]);
  }

  /** Closures depend only on which nodes are listed. */
  lemma ClosureOfSameNodes(f: Tree, s: seq<int>, t: seq<int>, x: int)
    requires forall y :: y in s <==> y in t
    ensures InClosure(f, s, x) <==> InClosure(f, t, x)
  {
  }

  // ---------------------------------------------------------------------------
  // The compressed tree

  /** In a closed preorder list, every entry after the first hangs below its lowest common ancestor with the one before. */
  lemma ClosedParent(f: Tree, start: seq<int>, end: seq<int>, s: seq<int>, i: int)
    requires AncByStart(f, start, end) && OneTree(f, s) && StrictPreorder(start, s) && Closed(f, s)
    requires 0 < i < |s|
    ensures CompressedParent(f, s, s[i], Lca(f, s[i], s[i - 1]))
  {
    var v, u := s[i], s[i - 1];
    assert SameTree(f, v, u);
    LcaOfSameTree(f, v, u);
    var p := Lca(f, v, u);
    assert At(start, u) < At(start, v);
    if p == v {
      AncFirst(f, start, end, v, u);
    }
    forall q | q in s && q != v && Anc(f, q, v)
      ensures Anc(f, q, p)
    {
      var m :| 0 <= m < |s| && s[m] == q;
      AncFirst(f, start, end, q, v);
      assert At(start, q) <= At(start, u);
      assert IsNode(f, q);
      Between(f, start, end, q, q, u, v);
    }
  }

  /** The first entry of a closed preorder list is above every entry. */
  lemma ClosedRoot(f: Tree, start: seq<int>, end: seq<int>, s: seq<int>, i: int)
    requires AncByStart(f, start, end) && OneTree(f, s) && StrictPreorder(start, s) && Closed(f, s)
    requires 0 <= i < |s|
    ensures Anc(f, s[0], s[i])
  {
    assert SameTree(f, s[0], s[i]);
    LcaOfSameTree(f, s[0], s[i]);
    var x := Lca(f, s[0], s[i]);
    var m :| 0 <= m < |s| && s[m] == x;
    AncFirst(f, start, end, x, s[0]);
    if m > 0 {
      assert At(start, s[0]) < At(start, s[m]);
    }
  }

  // ---------------------------------------------------------------------------
  // The steps of the compression

  /** Listing the same nodes keeps them in one tree. */
  lemma OneTreeSameNodes(f: Tree, s: seq<int>, t: seq<int>)
    requires OneTree(f, s) && forall x :: x in t ==> x in s
    ensures OneTree(f, t)
  {
    forall i, j | 0 <= i < |t| && 0 <= j < |t|
      ensures SameTree(f, t[i], t[j])
    {
      assert t[i] in t && t[j] in t;
      var p :| 0 <= p < |s| && s[p] == t[i];
      var q :| 0 <= q < |s| && s[q] == t[j];
      assert SameTree(f, s[p], s[q]);
    }
  }

  /** A permutation of nodes of one tree is in that tree too. */
  lemma OneTreePermuted(f: Tree, s: seq<int>, t: seq<int>)
    requires OneTree(f, s) && multiset(t) == multiset(s)
    ensures OneTree(f, t)
  {
    forall x | x in t
      ensures x in s
    {
      assert x in multiset(t);
    }
    OneTreeSameNodes(f, s, t);
  }

  /** The closure of nodes of one tree stays in that tree. */
  lemma ClosureInTree(f: Tree, s: seq<int>, x: int)
    requires OneTree(f, s) && |s| > 0 && InClosure(f, s, x)
    ensures SameTree(f, x, s[0])
  {
    var a, b :| a in s && b in s && IsNode(f, a) && IsNode(f, b) && x == Lca(f, a, b);
    var p :| 0 <= p < |s| && s[p] == a;
    var q :| 0 <= q < |s| && s[q] == b;
    assert SameTree(f, a, b) && SameTree(f, a, s[0]);
    LcaOfSameTree(f, a, b);
    AncRoot(f, x, a);
  }

  /** What the merge holds is the closure of the nodes. */
  lemma MergedIsClosure(f: Tree, start: seq<int>, end: seq<int>, nodes: seq<int>, sorted: seq<int>, merged: seq<int>)
    requires AncByStart(f, start, end) && OneTree(f, sorted) && InPreorder(start, sorted)
    requires multiset(sorted) == multiset(nodes)
    requires multiset(merged) == multiset(sorted + AdjacentLcas(f, sorted))
    ensures forall x :: x in merged <==> InClosure(f, sorted, x)
    ensures forall x :: InClosure(f, sorted, x) <==> InClosure(f, nodes, x)
  {
    AdjacentClosure(f, start, end, sorted);
    forall x
      ensures x in merged <==> x in sorted + AdjacentLcas(f, sorted)
    {
      assert x in merged <==> x in multiset(merged);
      assert x in sorted + AdjacentLcas(f, sorted) <==> x in multiset(sorted + AdjacentLcas(f, sorted));
    }
    forall x
      ensures InClosure(f, sorted, x) <==> InClosure(f, nodes, x)
    {
      forall y
        ensures y in sorted <==> y in nodes
      {
        assert y in sorted <==> y in multiset(sorted);
        assert y in nodes <==> y in multiset(nodes);
      }
      ClosureOfSameNodes(f, sorted, nodes, x);
    }
  }

  /** Dropping repeats from a preorder list of nodes of one tree leaves it strictly in preorder. */
  lemma UniqueStrict(f: Tree, start: seq<int>, end: seq<int>, key: int -> int, merged: seq<int>)
    requires AncByStart(f, start, end) && OneTree(f, merged)
    requires forall x :: key(x) == At(start, x)
    requires SortedBy(merged, key)
    ensures StrictPreorder(start, Unique(merged))
  {
    forall i, j | 0 <= i < |merged| && 0 <= j < |merged| && key(merged[i]) == key(merged[j])
      ensures merged[i] == merged[j]
    {
      assert SameTree(f, merged[i], merged[j]);
      StartInjective(f, start, end, merged[i], merged[j]);
    }
    UniqueOfSortedIsStrict(merged, key);
  }

  /** A list holding exactly the closure of a preorder list is closed. */
  lemma ExactClosureClosed(f: Tree, start: seq<int>, end: seq<int>, sorted: seq<int>, u: seq<int>)
    requires AncByStart(f, start, end) && OneTree(f, sorted) && InPreorder(start, sorted)
    requires forall x :: x in u <==> InClosure(f, sorted, x)
    ensures Closed(f, u)
  {
    forall i, j | 0 <= i < |u| && 0 <= j < |u| && IsNode(f, u[i]) && IsNode(f, u[j])
      ensures Lca(f, u[i], u[j]) in u
    {
      assert u[i] in u && u[j] in u;
      ClosureClosed(f, start, end, sorted, u[i], u[j]);
    }
  }

  /** A list holding only members of the closure of nodes of one tree is in that tree. */
  lemma ClosureOneTree(f: Tree, s: seq<int>, u: seq<int>)
    requires OneTree(f, s) && |s| > 0 && forall x :: x in u ==> InClosure(f, s, x)
    ensures OneTree(f, u)
  {
    forall i, j | 0 <= i < |u| && 0 <= j < |u|
      ensures SameTree(f, u[i], u[j])
    {
      assert u[i] in u && u[j] in u;
      ClosureInTree(f, s, u[i]);
      ClosureInTree(f, s, u[j]);
    }
  }

  /**
   * Sorting `nodes` into preorder, adding the lowest common ancestors of
   * adjacent pairs, merging back into preorder and dropping repeats gives the
   * closure of `nodes`, strictly in preorder, as a compressed tree: rooted at
   * its first entry, with every later entry hanging below its lowest common
   * ancestor with the entry before it.
   */
  lemma CompressOk(f: Tree, start: seq<int>, end: seq<int>, key: int -> int,
                   nodes: seq<int>, sorted: seq<int>, merged: seq<int>)
    requires AncByStart(f, start, end) && OneTree(f, nodes) && |nodes| > 0
    requires forall x :: key(x) == At(start, x)
    requires SortedBy(sorted, key) && multiset(sorted) == multiset(nodes) && OneTree(f, sorted)
    requires SortedBy(merged, key) && multiset(merged) == multiset(sorted + AdjacentLcas(f, sorted))
    ensures var u := Unique(merged);
      && (forall x :: x in u <==> InClosure(f, nodes, x))
      && OneTree(f, u) && StrictPreorder(start, u) && Closed(f, u) && 0 < |u| <= 2 * |nodes| - 1
    ensures var r := WithParents(f, Unique(merged));
      && (forall i :: 0 <= i < |r| ==> IsNode(f, r[i].0) && Anc(f, r[0].0, r[i].0))
      && (forall i :: 0 < i < |r| ==> CompressedParent(f, Firsts(r), r[i].0, r[i].1))
  {
    var u := Unique(merged);
    assert |u| <= |merged| == |multiset(merged)| == |multiset(sorted + AdjacentLcas(f, sorted))|;
    assert |sorted| == |multiset(sorted)| == |multiset(nodes)| == |nodes|;
    assert InPreorder(start, sorted);
    MergedIsClosure(f, start, end, nodes, sorted, merged);
    assert |sorted| > 0 by {
      assert nodes[0] in multiset(nodes);
    }
    ClosureOneTree(f, sorted, merged);
    ClosureOneTree(f, sorted, u);
    UniqueStrict(f, start, end, key, merged);
    ExactClosureClosed(f, start, end, sorted, u);
    assert forall i :: 0 <= i < |u| ==> SameTree(f, u[i], u[i]);
    var r := WithParents(f, u);
    forall i | 0 <= i < |r|
      ensures IsNode(f, r[i].0) && Anc(f, r[0].0, r[i].0)
    {
      ClosedRoot(f, start, end, u, i);
    }
    forall i | 0 < i < |r|
      ensures CompressedParent(f, Firsts(r), r[i].0, r[i].1)
    {
      ClosedParent(f, start, end, u, i);
    }
  }
}

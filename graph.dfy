/**
 * Weighted adjacency lists: the edge record, the first-match swap-and-pop
 * deletion, sums of per-node values over an edge list, and what an
 * adjacency list looks like when it describes a rooted forest.
 */
module Graph {
  import opened Forest
  import opened Seqs

  datatype Edge = Edge(node: int, weight: int)

  function Nodes(l: seq<Edge>): (r: seq<int>)
    ensures |r| == |l|
    ensures forall i :: 0 <= i < |l| ==> r[i] == l[i].node
  {
    seq(|l|, i requires 0 <= i < |l| => l[i].node)
  }

  /** Index of the first edge of `l` that leads to `to`, or -1 when there is none. */
  function FirstTo(l: seq<Edge>, to: int): (r: int)
    ensures -1 <= r < |l|
    ensures r == -1 <==> forall i :: 0 <= i < |l| ==> l[i].node != to
    ensures r >= 0 ==> l[r].node == to && forall i :: 0 <= i < r ==> l[i].node != to
  {
    if |l| == 0 then -1
    else if l[0].node == to then 0
    else var k := FirstTo(l[1..], to); if k < 0 then -1 else k + 1
  }

  /** Overwrite position `i` with the last edge, then drop the last edge. */
  function SwapPop(l: seq<Edge>, i: int): (r: seq<Edge>)
    requires 0 <= i < |l|
  {
    l[i := l[|l| - 1]][..|l| - 1]
  }

  lemma SwapPopRemoves(l: seq<Edge>, i: int)
    requires 0 <= i < |l|
    ensures multiset(SwapPop(l, i)) == multiset(l) - multiset{l[i]}
    ensures |SwapPop(l, i)| == |l| - 1
  {
    var last := |l| - 1;
    if i == last {
      assert l == l[..last] + [l[last]];
      assert SwapPop(l, i) == l[..last];
    } else {
      var m := l[i := l[last]];
      assert l == l[..i] + [l[i]] + l[i + 1..last] + [l[last]];
      assert SwapPop(l, i) == l[..i] + [l[last]] + l[i + 1..last];
    }
  }

  /** `sz[v]`, and 0 outside the table. */
  function At(sz: seq<int>, v: int): int
  {
    if 0 <= v < |sz| then sz[v] else 0
  }

  /** The sum of `sz` over the endpoints of the edges of `l`. */
  function SumSizes(l: seq<Edge>, sz: seq<int>): int
  {
    if |l| == 0 then 0 else At(sz, l[0].node) + SumSizes(l[1..], sz)
  }

  lemma {:induction false} SumSizesAppend(l: seq<Edge>, e: Edge, sz: seq<int>)
    ensures SumSizes(l + [e], sz) == SumSizes(l, sz) + At(sz, e.node)
  {
    if |l| > 0 {
      assert (l + [e])[1..] == l[1..] + [e];
      SumSizesAppend(l[1..], e, sz);
    }
  }

  lemma SumSizesPrefix(l: seq<Edge>, i: int, sz: seq<int>)
    requires 0 <= i < |l|
    ensures SumSizes(l[..i + 1], sz) == SumSizes(l[..i], sz) + At(sz, l[i].node)
  {
    assert l[..i + 1] == l[..i] + [l[i]];
    SumSizesAppend(l[..i], l[i], sz);
  }

  lemma {:induction false} SumSizesRemove(l: seq<Edge>, k: int, sz: seq<int>)
    requires 0 <= k < |l|
    ensures SumSizes(l, sz) == At(sz, l[k].node) + SumSizes(l[..k] + l[k + 1..], sz)
  {
    if k > 0 {
      SumSizesRemove(l[1..], k - 1, sz);
      assert l[1..][..k - 1] + l[1..][k..] == (l[..k] + l[k + 1..])[1..];
    } else {
      assert l[..k] + l[k + 1..] == l[1..];
    }
  }

  lemma RemoveAt<T>(b: seq<T>, k: int)
    requires 0 <= k < |b|
    ensures multiset(b[..k] + b[k + 1..]) == multiset(b) - multiset{b[k]}
  {
    assert b == b[..k] + [b[k]] + b[k + 1..];
    assert multiset(b) == multiset(b[..k]) + multiset{b[k]} + multiset(b[k + 1..]);
  }

  /** Sums over the endpoints do not depend on the order of the edges. */
  lemma {:induction false} SumSizesPermutation(a: seq<Edge>, b: seq<Edge>, sz: seq<int>)
    requires multiset(a) == multiset(b)
    ensures SumSizes(a, sz) == SumSizes(b, sz)
    decreases |a|
  {
    if |a| > 0 {
      var k := PermStep(a, b);
      SumSizesPermutation(a[1..], b[..k] + b[k + 1..], sz);
      SumSizesRemove(b, k, sz);
    }
  }

  /** The first element of `a` sits somewhere in its permutation `b`; what is left is again a permutation. */
  lemma PermStep<T>(a: seq<T>, b: seq<T>) returns (k: int)
    requires multiset(a) == multiset(b) && |a| > 0
    ensures 0 <= k < |b| && b[k] == a[0]
    ensures multiset(a[1..]) == multiset(b[..k] + b[k + 1..])
  {
    assert a[0] in multiset(b);
    k :| 0 <= k < |b| && b[k] == a[0];
    RemoveAt(b, k);
    assert a == [a[0]] + a[1..];
    assert multiset(a) == multiset{a[0]} + multiset(a[1..]);
  }

  lemma {:induction false} NodesPermutation(a: seq<Edge>, b: seq<Edge>)
    requires multiset(a) == multiset(b)
    ensures multiset(Nodes(a)) == multiset(Nodes(b))
    decreases |a|
  {
    if |a| > 0 {
      var k := PermStep(a, b);
      var rest := b[..k] + b[k + 1..];
      NodesPermutation(a[1..], rest);
      assert Nodes(a) == [a[0].node] + Nodes(a[1..]);
      assert multiset(Nodes(a)) == multiset{a[0].node} + multiset(Nodes(a[1..]));
      NodesRemove(b, k);
    }
  }

  lemma NodesRemove(b: seq<Edge>, k: int)
    requires 0 <= k < |b|
    ensures multiset(Nodes(b)) == multiset{b[k].node} + multiset(Nodes(b[..k] + b[k + 1..]))
  {
    var nb := Nodes(b);
    assert Nodes(b[..k] + b[k + 1..]) == nb[..k] + nb[k + 1..];
    RemoveAt(nb, k);
  }

  lemma {:induction false} DistinctMultiplicity(s: seq<int>)
    ensures Distinct(s) <==> forall x :: multiset(s)[x] <= 1
  {
    if |s| > 0 {
      var t := s[1..];
      assert s == [s[0]] + t;
      DistinctMultiplicity(t);
      if Distinct(s) {
        assert Distinct(t);
        assert s[0] !in t;
      }
      if forall x :: multiset(s)[x] <= 1 {
        assert forall x :: multiset(t)[x] <= 1 by {
          forall x
            ensures multiset(t)[x] <= 1
          {
            assert multiset(s)[x] == multiset{s[0]}[x] + multiset(t)[x];
          }
        }
        assert multiset(s)[s[0]] == 1 + multiset(t)[s[0]];
        forall i, j | 0 <= i < j < |s|
          ensures s[i] != s[j]
        {
          if i == 0 {
            assert s[j] == t[j - 1];
          } else {
            assert s[i] == t[i - 1] && s[j] == t[j - 1];
          }
        }
      }
    }
  }

  lemma DistinctPermutation(a: seq<int>, b: seq<int>)
    requires multiset(a) == multiset(b) && Distinct(a)
    ensures Distinct(b)
  {
    DistinctMultiplicity(a);
    DistinctMultiplicity(b);
  }

  // ---------------------------------------------------------------------------
  // The adjacency of a rooted forest

  /** The edges from `v` down to its children, each carrying the child's edge weight. */
  function DownEdges(kids: seq<int>, gw: seq<int>): (r: seq<Edge>)
    ensures Nodes(r) == kids
    ensures forall i :: 0 <= i < |kids| ==> r[i] == Edge(kids[i], At(gw, kids[i]))
  {
    seq(|kids|, i requires 0 <= i < |kids| => Edge(kids[i], At(gw, kids[i])))
  }

  /** The edge from `v` up to its parent, when it has one. */
  function UpEdges(f: Tree, gw: seq<int>, v: int): seq<Edge>
    requires IsNode(f, v) && |gw| == |f.par|
  {
    if f.par[v] < 0 then [] else [Edge(f.par[v], At(gw, v))]
  }

  function Incident(f: Tree, gw: seq<int>, v: int): seq<Edge>
    requires IsNode(f, v) && |gw| == |f.par|
  {
    UpEdges(f, gw, v) + DownEdges(f.kids[v], gw)
  }

  /**
   * `adj` is the undirected adjacency of the forest `f` with edge weights
   * `gw` (the weight of the edge above each node), each list in any order.
   */
  ghost predicate Describes(adj: seq<seq<Edge>>, f: Tree, gw: seq<int>)
  {
    && Complete(f)
    && |gw| == |f.par|
    && |adj| == |f.par|
    && forall v :: 0 <= v < |f.par| ==> multiset(adj[v]) == multiset(Incident(f, gw, v))
  }

  /** No edge to a child leads to the parent (or to -1). */
  lemma DownAvoidsParent(f: Tree, gw: seq<int>, v: int)
    requires IsNode(f, v) && |gw| == |f.par|
    ensures forall e :: e in DownEdges(f.kids[v], gw) ==> e.node != f.par[v] && 0 <= e.node
  {
    var down := DownEdges(f.kids[v], gw);
    forall e | e in down
      ensures e.node != f.par[v] && 0 <= e.node
    {
      var i :| 0 <= i < |down| && down[i] == e;
      assert f.par[f.kids[v][i]] == v;
    }
  }

  /** Adjacency after deleting the first edge of `l` towards `to`, by swapping it with the last. */
  function Erased(l: seq<Edge>, to: int): (r: seq<Edge>)
    ensures FirstTo(l, to) < 0 ==> r == l
    ensures FirstTo(l, to) >= 0 ==> |r| == |l| - 1 && multiset(r) == multiset(l) - multiset{l[FirstTo(l, to)]}
  {
    var k := FirstTo(l, to);
    if k < 0 then l
    else
      SwapPopRemoves(l, k);
      SwapPop(l, k)
  }

  /**
   * Deleting the first edge towards the parent leaves exactly the edges to the
   * children; towards -1 there is nothing to delete.
   */
  lemma EraseParentEdge(f: Tree, gw: seq<int>, v: int, l: seq<Edge>)
    requires IsNode(f, v) && |gw| == |f.par|
    requires multiset(l) == multiset(Incident(f, gw, v))
    ensures f.par[v] < 0 ==> FirstTo(l, f.par[v]) == -1 && multiset(l) == multiset(DownEdges(f.kids[v], gw))
    ensures f.par[v] >= 0 ==>
              && FirstTo(l, f.par[v]) >= 0
              && multiset(SwapPop(l, FirstTo(l, f.par[v]))) == multiset(DownEdges(f.kids[v], gw))
  {
    var down := DownEdges(f.kids[v], gw);
    var p := f.par[v];
    DownAvoidsParent(f, gw, v);
    if p < 0 {
      assert Incident(f, gw, v) == down;
      forall i | 0 <= i < |l|
        ensures l[i].node != p
      {
        assert l[i] in multiset(down);
      }
    } else {
      var up := Edge(p, At(gw, v));
      assert Incident(f, gw, v) == [up] + down;
      assert multiset(l) == multiset{up} + multiset(down);
      assert up in multiset(l);
      var k := FirstTo(l, p);
      assert k >= 0;
      assert l[k] in multiset(l);
      assert l[k] !in multiset(down);
      assert l[k] == up;
      SwapPopRemoves(l, k);
    }
  }
}

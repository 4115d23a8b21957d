/**
 * The residual graph Dinic's algorithm keeps: every node has a list of
 * edges, and each edge knows its head, the position of its partner (the
 * edge back) in the head's list, its residual capacity and its original
 * capacity.  Pushing flow along an edge moves capacity from it to its
 * partner.  This module holds the pure definitions the algorithm is proved
 * against: the pairing, the effect of adding an edge pair and of a push, the
 * net flow out of each node, the nodes reachable in a given number of hops
 * over edges with residual capacity, and the list of cut edges.
 */
module FlowGraph {
  import opened Seqs

  /** The distance of a node the breadth-first search has not reached. */
  const Inf := 1_000_000_005

  datatype Edge = Edge(node: int, rev: int, capacity: int, original: int)

  type Lists = seq<seq<Edge>>

  predicate EdgeAt(adj: Lists, u: int, i: int)
  {
    0 <= u < |adj| && 0 <= i < |adj[u]|
  }

  // ---------------------------------------------------------------------------
  // pairing

  /**
   * Edge `i` of `u` and the edge its `rev` names point at each other, they are
   * two different edges, and together they keep the capacity they started with.
   */
  ghost predicate PairedAt(adj: Lists, u: int, i: int)
    requires EdgeAt(adj, u, i)
  {
    var e := adj[u][i];
    && EdgeAt(adj, e.node, e.rev) && (e.node, e.rev) != (u, i)
    && adj[e.node][e.rev].node == u && adj[e.node][e.rev].rev == i
    && 0 <= e.capacity && 0 <= e.original
    && e.capacity + adj[e.node][e.rev].capacity == e.original + adj[e.node][e.rev].original
  }

  /** Every edge is paired with its partner. */
  ghost predicate Paired(adj: Lists)
  {
    forall u, i {:trigger PairedAt(adj, u, i)} :: EdgeAt(adj, u, i) ==> PairedAt(adj, u, i)
  }

  /** The position of the partner of edge `i` of `u`. */
  function Partner(adj: Lists, u: int, i: int): (int, int)
    requires EdgeAt(adj, u, i)
  {
    (adj[u][i].node, adj[u][i].rev)
  }

  /** `b` has the edges of `a` in the same places, with possibly other residual capacities. */
  ghost predicate SameShape(a: Lists, b: Lists)
  {
    && |a| == |b|
    && (forall u :: 0 <= u < |a| ==> |a[u]| == |b[u]|)
    && forall u, i {:trigger ShapeAt(a, b, u, i)} :: EdgeAt(a, u, i) ==> ShapeAt(a, b, u, i)
  }

  /** Edge `i` of `u` is in `b` too, with the same head, partner and original capacity. */
  ghost predicate ShapeAt(a: Lists, b: Lists, u: int, i: int)
    requires EdgeAt(a, u, i)
  {
    EdgeAt(b, u, i) && b[u][i].(capacity := 0) == a[u][i].(capacity := 0)
  }

  lemma SameShapeChain(a: Lists, b: Lists, c: Lists)
    requires SameShape(a, b) && SameShape(b, c)
    ensures SameShape(a, c)
  {
    forall u, i | EdgeAt(a, u, i)
      ensures ShapeAt(a, c, u, i)
    {
      assert ShapeAt(a, b, u, i) && ShapeAt(b, c, u, i);
    }
  }

  // ---------------------------------------------------------------------------
  // adding an edge pair

  /**
   * The lists after an edge from `u` to `v` with capacity `c1` and its partner
   * with capacity `c2` are appended; on a self-loop the partner sits one
   * place further along the same list.
   */
  function Added(adj: Lists, u: int, v: int, c1: int, c2: int): (r: Lists)
    requires 0 <= u < |adj| && 0 <= v < |adj|
    ensures |r| == |adj|
    ensures forall w :: 0 <= w < |adj| && w != u && w != v ==> r[w] == adj[w]
  {
    var uv := Edge(v, |adj[v]| + (if u == v then 1 else 0), c1, c1);
    var vu := Edge(u, |adj[u]|, c2, c2);
    var a := adj[u := adj[u] + [uv]];
    a[v := a[v] + [vu]]
  }

  /** Adding an edge pair appends exactly one edge to each endpoint's list and keeps what was there. */
  lemma AddedLists(adj: Lists, u: int, v: int, c1: int, c2: int)
    requires 0 <= u < |adj| && 0 <= v < |adj|
    ensures var r := Added(adj, u, v, c1, c2);
      && (u != v ==> |r[u]| == |adj[u]| + 1 && |r[v]| == |adj[v]| + 1)
      && (u == v ==> |r[u]| == |adj[u]| + 2)
      && r[u][|adj[u]|] == Edge(v, |adj[v]| + (if u == v then 1 else 0), c1, c1)
      && r[v][|r[v]| - 1] == Edge(u, |adj[u]|, c2, c2)
      && (forall i :: 0 <= i < |adj[u]| ==> r[u][i] == adj[u][i])
      && (forall i :: 0 <= i < |adj[v]| ==> r[v][i] == adj[v][i])
  {
  }

  /** Adding an edge pair with non-negative capacities keeps every edge paired. */
  lemma AddedPaired(adj: Lists, u: int, v: int, c1: int, c2: int)
    requires Paired(adj) && 0 <= u < |adj| && 0 <= v < |adj| && 0 <= c1 && 0 <= c2
    ensures Paired(Added(adj, u, v, c1, c2))
  {
    var r := Added(adj, u, v, c1, c2);
    AddedLists(adj, u, v, c1, c2);
    forall x, i | EdgeAt(r, x, i)
      ensures PairedAt(r, x, i)
    {
      if EdgeAt(adj, x, i) {
        assert PairedAt(adj, x, i);
        var e := adj[x][i];
        assert r[x][i] == e;
        assert r[e.node][e.rev] == adj[e.node][e.rev];
      } else if x == u && i == |adj[u]| {
        assert r[x][i].node == v;
      } else {
        assert x == v && i == |r[v]| - 1;
      }
    }
  }

  /** The new edges carry no flow, so no node's net flow changes. */
  lemma AddedMoves(adj: Lists, u: int, v: int, c1: int, c2: int)
    requires 0 <= u < |adj| && 0 <= v < |adj|
    ensures Moved(adj, Added(adj, u, v, c1, c2), u, v, 0)
  {
    var r := Added(adj, u, v, c1, c2);
    var uv := Edge(v, |adj[v]| + (if u == v then 1 else 0), c1, c1);
    var vu := Edge(u, |adj[u]|, c2, c2);
    NetAppend(adj[u], uv);
    if u == v {
      NetAppend(adj[u] + [uv], vu);
    } else {
      NetAppend(adj[v], vu);
    }
  }

  // ---------------------------------------------------------------------------
  // net flow

  /** What an edge has used of its original capacity. */
  function Used(e: Edge): int
  {
    e.original - e.capacity
  }

  /** The net flow the edges of a list carry away from their tail. */
  function Net(es: seq<Edge>): int
  {
    if es == [] then 0 else Net(es[..|es| - 1]) + Used(es[|es| - 1])
  }

  lemma NetAppend(es: seq<Edge>, e: Edge)
    ensures Net(es + [e]) == Net(es) + Used(e)
  {
    assert (es + [e])[..|es|] == es;
  }

  /** Changing the residual capacity of one edge changes the net flow by the difference. */
  lemma {:induction false} NetSet(es: seq<Edge>, i: int, c: int)
    requires 0 <= i < |es|
    ensures Net(es[i := es[i].(capacity := c)]) == Net(es) + es[i].capacity - c
    decreases |es|
  {
    var t := es[i := es[i].(capacity := c)];
    var n := |es| - 1;
    if i == n {
      assert t[..n] == es[..n];
    } else {
      assert t[..n] == es[..n][i := es[i].(capacity := c)];
      NetSet(es[..n], i, c);
    }
  }

  /**
   * Between `a` and `b`, `p` units of net flow left `x` and arrived at `y`;
   * every other node's net flow is unchanged.
   */
  ghost predicate Moved(a: Lists, b: Lists, x: int, y: int, p: int)
  {
    && |a| == |b|
    && forall v {:trigger Net(b[v])} {:trigger Net(a[v])} :: 0 <= v < |a| ==> Net(b[v]) == Net(a[v]) + (if v == x then p else 0) - (if v == y then p else 0)
  }

  /** `p` units from `y` on to `z` after `p` units from `x` to `y` are `p` units from `x` to `z`. */
  lemma MovedChain(a: Lists, b: Lists, c: Lists, x: int, y: int, z: int, p: int)
    requires Moved(a, b, y, z, p) && Moved(b, c, x, y, p)
    ensures Moved(a, c, x, z, p)
  {
  }

  /** Two moves between the same nodes add up. */
  lemma MovedAdd(a: Lists, b: Lists, c: Lists, x: int, z: int, p: int, q: int)
    requires Moved(a, b, x, z, p) && Moved(b, c, x, z, q)
    ensures Moved(a, c, x, z, p + q)
  {
  }

  // ---------------------------------------------------------------------------
  // pushing flow

  /** `adj` after `p` units are pushed along edge `i` of `u`: its capacity falls, its partner's rises. */
  function Push(adj: Lists, u: int, i: int, p: int): (r: Lists)
    requires EdgeAt(adj, u, i) && PairedAt(adj, u, i)
    ensures |r| == |adj|
    ensures forall w :: 0 <= w < |adj| && w != u && w != adj[u][i].node ==> r[w] == adj[w]
  {
    var e := adj[u][i];
    var a := adj[u := adj[u][i := e.(capacity := e.capacity - p)]];
    var f := a[e.node][e.rev];
    a[e.node := a[e.node][e.rev := f.(capacity := f.capacity + p)]]
  }

  /** The two edges a push touches, and nothing else. */
  lemma PushEdges(adj: Lists, u: int, i: int, p: int)
    requires Paired(adj) && EdgeAt(adj, u, i)
    ensures var r, w, j := Push(adj, u, i, p), adj[u][i].node, adj[u][i].rev;
      && SameShape(adj, r)
      && r[u][i].capacity == adj[u][i].capacity - p
      && r[w][j].capacity == adj[w][j].capacity + p
      && forall x, k :: EdgeAt(adj, x, k) && (x, k) != (u, i) && (x, k) != (w, j) ==> r[x][k] == adj[x][k]
  {
    assert PairedAt(adj, u, i);
  }

  /** A push of at most the residual capacity keeps every edge paired. */
  lemma PushPaired(adj: Lists, u: int, i: int, p: int)
    requires Paired(adj) && EdgeAt(adj, u, i) && 0 <= p <= adj[u][i].capacity
    ensures Paired(Push(adj, u, i, p))
  {
    var r, w, j := Push(adj, u, i, p), adj[u][i].node, adj[u][i].rev;
    PushEdges(adj, u, i, p);
    assert PairedAt(adj, u, i);
    forall x, k | EdgeAt(r, x, k)
      ensures PairedAt(r, x, k)
    {
      assert PairedAt(adj, x, k);
      var e := adj[x][k];
      if (x, k) != (u, i) && (x, k) != (w, j) {
        assert (e.node, e.rev) != (u, i) && (e.node, e.rev) != (w, j);
      }
    }
  }

  /** A push along an edge moves `p` units of net flow from its tail to its head. */
  lemma PushMoves(adj: Lists, u: int, i: int, p: int)
    requires Paired(adj) && EdgeAt(adj, u, i)
    ensures Moved(adj, Push(adj, u, i, p), u, adj[u][i].node, p)
  {
    assert PairedAt(adj, u, i);
    var e := adj[u][i];
    var a: Lists := adj[u := adj[u][i := e.(capacity := e.capacity - p)]];
    NetSet(adj[u], i, e.capacity - p);
    var f: Edge := a[e.node][e.rev];
    NetSet(a[e.node], e.rev, f.capacity + p);
  }

  // ---------------------------------------------------------------------------
  // reachability over residual capacity

  /** Every edge's head is a node. */
  ghost predicate Heads(adj: Lists)
  {
    forall u, i :: EdgeAt(adj, u, i) ==> 0 <= adj[u][i].node < |adj|
  }

  lemma PairedHeads(adj: Lists)
    requires Paired(adj)
    ensures Heads(adj)
  {
    forall u, i | EdgeAt(adj, u, i)
      ensures 0 <= adj[u][i].node < |adj|
    {
      assert PairedAt(adj, u, i);
    }
  }

  /** The heads of the edges with residual capacity that leave a node of `from`. */
  ghost function Step(adj: Lists, from: set<nat>): set<nat>
  {
    set u, i | u in from && u < |adj| && 0 <= i < |adj[u]| && adj[u][i].capacity > 0 && 0 <= adj[u][i].node
      :: adj[u][i].node as nat
  }

  /** The nodes reachable from `s` in at most `k` hops over edges with residual capacity. */
  ghost function Reach(adj: Lists, s: nat, k: nat): set<nat>
  {
    if k == 0 then {s} else Reach(adj, s, k - 1) + Step(adj, Reach(adj, s, k - 1))
  }

  /** The nodes reachable from `s` at all (no shortest hop count exceeds the number of nodes). */
  ghost function Reachable(adj: Lists, s: nat): set<nat>
  {
    Reach(adj, s, |adj|)
  }

  lemma ReachStep(adj: Lists, s: nat, k: nat, u: int, i: int)
    requires u in Reach(adj, s, k) && EdgeAt(adj, u, i) && adj[u][i].capacity > 0 && 0 <= adj[u][i].node
    ensures adj[u][i].node in Reach(adj, s, k + 1)
  {
    assert adj[u][i].node as nat in Step(adj, Reach(adj, s, k));
  }

  lemma {:induction false} ReachGrows(adj: Lists, s: nat, k: nat, m: nat)
    requires k <= m
    ensures Reach(adj, s, k) <= Reach(adj, s, m)
    decreases m - k
  {
    if k < m {
      ReachGrows(adj, s, k + 1, m);
    }
  }

  /** Every node reached is a node of the graph. */
  lemma {:induction false} ReachNodes(adj: Lists, s: nat, k: nat)
    requires Heads(adj) && s < |adj|
    ensures forall v :: v in Reach(adj, s, k) ==> v < |adj|
  {
    if k > 0 {
      ReachNodes(adj, s, k - 1);
    }
  }

  /** A set of nodes below `n` has at most `n` elements. */
  lemma SmallSet(a: set<nat>, n: nat)
    requires forall v :: v in a ==> v < n
    ensures |a| <= n
  {
    var all := Range(n);
    assert a <= all;
    assert all == a + (all - a);
  }

  /** A set with something more than `a` is larger than `a`. */
  lemma Larger(a: set<nat>, b: set<nat>)
    requires a <= b && a != b
    ensures |a| < |b|
  {
    assert b == a + (b - a);
  }

  /** Hop `j + 1` reaches nothing hop `j` did not. */
  ghost predicate Stalls(adj: Lists, s: nat, j: nat)
  {
    Reach(adj, s, j + 1) == Reach(adj, s, j)
  }

  /** Once a hop adds nothing, no later hop does. */
  lemma {:induction false} ReachStays(adj: Lists, s: nat, j: nat, m: nat)
    requires Stalls(adj, s, j) && j <= m
    ensures Reach(adj, s, m) == Reach(adj, s, j)
    decreases m - j
  {
    if j < m {
      ReachStays(adj, s, j, m - 1);
    }
  }

  /**
   * In a growing chain of sets that starts non-empty, either some link is no
   * larger than the one before it (`stop`), or link `k` has more than `k` elements.
   */
  lemma {:induction false} ChainCount(c: seq<set<nat>>, k: nat) returns (j: nat, stop: bool)
    requires k < |c| && |c[0]| >= 1
    requires forall i :: 0 <= i < k ==> c[i] <= c[i + 1]
    ensures stop ==> j < k && c[j + 1] == c[j]
    ensures !stop ==> |c[k]| > k
  {
    if k == 0 {
      j, stop := 0, false;
    } else {
      j, stop := ChainCount(c, k - 1);
      if !stop {
        stop := c[k] == c[k - 1];
        j := k - 1;
        if !stop {
          Larger(c[k - 1], c[k]);
        }
      }
    }
  }

  /** Whatever is reachable is reachable within as many hops as there are nodes. */
  lemma ReachSettles(adj: Lists, s: nat, k: nat)
    requires Heads(adj) && s < |adj|
    ensures Reach(adj, s, k) <= Reachable(adj, s)
  {
    var n := |adj|;
    if k <= n {
      ReachGrows(adj, s, k, n);
    } else {
      var c := seq(n + 1, i requires 0 <= i => Reach(adj, s, i));
      forall i | 0 <= i < n
        ensures c[i] <= c[i + 1]
      {
        ReachGrows(adj, s, i, i + 1);
      }
      assert c[0] == {s};
      var j, stop := ChainCount(c, n);
      if !stop {
        ReachNodes(adj, s, n);
        SmallSet(Reach(adj, s, n), n);
        assert false;
      }
      assert Stalls(adj, s, j);
      ReachStays(adj, s, j, k);
      ReachStays(adj, s, j, n);
    }
  }

  /** An edge with residual capacity out of a reachable node leads to a reachable node. */
  lemma ReachableStep(adj: Lists, s: nat, u: int, i: int)
    requires Heads(adj) && s < |adj|
    requires u in Reachable(adj, s) && EdgeAt(adj, u, i) && adj[u][i].capacity > 0
    ensures adj[u][i].node in Reachable(adj, s)
  {
    assert 0 <= adj[u][i].node;
    ReachStep(adj, s, |adj|, u, i);
    ReachSettles(adj, s, |adj| + 1);
  }

  // ---------------------------------------------------------------------------
  // distances and marks that are closed under residual edges

  /** Every edge with residual capacity out of `u` leads to a node at most one further than `u`. */
  ghost predicate Relaxed(adj: Lists, dist: seq<int>, u: int)
  {
    && 0 <= u < |adj| && u < |dist|
    && forall i :: 0 <= i < |adj[u]| && adj[u][i].capacity > 0 ==>
         0 <= adj[u][i].node < |dist| && dist[adj[u][i].node] <= dist[u] + 1
  }

  /** Distances from `s` that are at most `Inf`, zero at `s`, and relaxed at every finite node. */
  ghost predicate Settled(adj: Lists, dist: seq<int>, s: nat)
  {
    && |dist| == |adj| && s < |adj| && dist[s] == 0
    && (forall v :: 0 <= v < |dist| ==> 0 <= dist[v] <= Inf)
    && forall u :: 0 <= u < |dist| && dist[u] < Inf ==> Relaxed(adj, dist, u)
  }

  /** Settled distances never exceed a hop count that reaches the node. */
  lemma {:induction false} SettledBelow(adj: Lists, dist: seq<int>, s: nat, k: nat)
    requires Heads(adj) && Settled(adj, dist, s)
    ensures forall v :: v in Reach(adj, s, k) ==> v < |dist| && dist[v] <= k
  {
    if k > 0 {
      SettledBelow(adj, dist, s, k - 1);
      forall v | v in Reach(adj, s, k)
        ensures v < |dist| && dist[v] <= k
      {
        if v !in Reach(adj, s, k - 1) {
          var u, i :| u in Reach(adj, s, k - 1) && u < |adj| && 0 <= i < |adj[u]|
            && adj[u][i].capacity > 0 && 0 <= adj[u][i].node && adj[u][i].node as nat == v;
          assert EdgeAt(adj, u, i);
          if k <= Inf {
            assert Relaxed(adj, dist, u);
          }
        }
      }
    }
  }

  /** Every edge with residual capacity out of `u` leads to a marked node. */
  ghost predicate Shut(adj: Lists, marked: seq<bool>, u: int)
  {
    && 0 <= u < |adj|
    && forall i :: 0 <= i < |adj[u]| && adj[u][i].capacity > 0 ==>
         0 <= adj[u][i].node < |marked| && marked[adj[u][i].node]
  }

  /** Marks that hold at `s` and are shut at every marked node cover everything reachable from `s`. */
  lemma {:induction false} ShutCovers(adj: Lists, marked: seq<bool>, s: nat, k: nat)
    requires |marked| == |adj| && s < |adj| && marked[s]
    requires forall u :: 0 <= u < |adj| && marked[u] ==> Shut(adj, marked, u)
    ensures forall v :: v in Reach(adj, s, k) ==> v < |marked| && marked[v]
  {
    if k > 0 {
      ShutCovers(adj, marked, s, k - 1);
      forall v | v in Reach(adj, s, k)
        ensures v < |marked| && marked[v]
      {
        if v !in Reach(adj, s, k - 1) {
          var u, i :| u in Reach(adj, s, k - 1) && u < |adj| && 0 <= i < |adj[u]|
            && adj[u][i].capacity > 0 && 0 <= adj[u][i].node && adj[u][i].node as nat == v;
          assert Shut(adj, marked, u);
        }
      }
    }
  }

  /** More marks keep a node shut. */
  lemma ShutMore(adj: Lists, a: seq<bool>, b: seq<bool>, u: int)
    requires Shut(adj, a, u) && |a| == |b| && forall v :: 0 <= v < |a| && a[v] ==> b[v]
    ensures Shut(adj, b, u)
  {
  }

  /** The unmarked nodes. */
  ghost function Unmarked(marked: seq<bool>): set<nat>
  {
    set v: nat | v < |marked| && !marked[v]
  }

  /** Marking an unmarked node, and perhaps more, leaves fewer unmarked nodes. */
  lemma Fewer(a: seq<bool>, b: seq<bool>, u: int)
    requires |a| == |b| && 0 <= u < |a| && !a[u] && b[u]
    requires forall v :: 0 <= v < |a| && a[v] ==> b[v]
    ensures |Unmarked(b)| < |Unmarked(a)|
  {
    assert Unmarked(b) <= Unmarked(a);
    assert u in Unmarked(a) && u !in Unmarked(b);
    Larger(Unmarked(b), Unmarked(a));
  }

  // ---------------------------------------------------------------------------
  // the cut

  /** An entry of the cut list: the flow an edge carries, its tail and its head. */
  datatype CutEdge = CutEdge(amount: int, from: int, to: int)

  /** An edge into the unmarked side that carries flow. */
  predicate Crosses(e: Edge, side: seq<bool>)
  {
    0 <= e.node < |side| && !side[e.node] && e.capacity < e.original
  }

  /** The cut entries for the edges `es` leaving `u`, in list order. */
  function CutList(es: seq<Edge>, side: seq<bool>, u: int): seq<CutEdge>
  {
    if es == [] then []
    else
      var e := es[|es| - 1];
      CutList(es[..|es| - 1], side, u) + (if Crosses(e, side) then [CutEdge(Used(e), u, e.node)] else [])
  }

  /** The cut entries of the marked nodes below `n`, node by node and edge by edge. */
  function Cut(adj: Lists, side: seq<bool>, n: nat): seq<CutEdge>
    requires n <= |adj| && n <= |side|
  {
    if n == 0 then [] else Cut(adj, side, n - 1) + (if side[n - 1] then CutList(adj[n - 1], side, n - 1) else [])
  }

  lemma {:induction false} CutListExact(es: seq<Edge>, side: seq<bool>, u: int)
    ensures forall c :: c in CutList(es, side, u) <==>
      exists i :: 0 <= i < |es| && Crosses(es[i], side) && c == CutEdge(Used(es[i]), u, es[i].node)
  {
    if es != [] {
      var n := |es| - 1;
      CutListExact(es[..n], side, u);
      forall c | c in CutList(es, side, u)
        ensures exists i :: 0 <= i < |es| && Crosses(es[i], side) && c == CutEdge(Used(es[i]), u, es[i].node)
      {
        if c !in CutList(es[..n], side, u) {
          assert Crosses(es[n], side) && c == CutEdge(Used(es[n]), u, es[n].node);
        } else {
          var i :| 0 <= i < n && Crosses(es[..n][i], side) && c == CutEdge(Used(es[..n][i]), u, es[..n][i].node);
          assert es[..n][i] == es[i];
        }
      }
      forall i | 0 <= i < |es| && Crosses(es[i], side)
        ensures CutEdge(Used(es[i]), u, es[i].node) in CutList(es, side, u)
      {
        if i < n {
          assert es[..n][i] == es[i];
        }
      }
    }
  }

  /**
   * The cut holds exactly one entry for each edge that leaves a marked node
   * below `n`, enters an unmarked node and carries flow, with the flow it carries.
   */
  lemma {:induction false} CutExact(adj: Lists, side: seq<bool>, n: nat)
    requires n <= |adj| && n <= |side|
    ensures forall c :: c in Cut(adj, side, n) <==>
      exists u, i :: 0 <= u < n && EdgeAt(adj, u, i) && side[u] && Crosses(adj[u][i], side)
        && c == CutEdge(Used(adj[u][i]), u, adj[u][i].node)
  {
    if n > 0 {
      CutExact(adj, side, n - 1);
      CutListExact(adj[n - 1], side, n - 1);
    }
  }

  /**
   * When the marked side is shut, every edge it leaves by is saturated, so
   * each cut entry carries the whole original capacity of its edge.
   */
  lemma CutSaturated(adj: Lists, side: seq<bool>, n: nat)
    requires Paired(adj) && n <= |adj| && |side| == |adj|
    requires forall u :: 0 <= u < |adj| && side[u] ==> Shut(adj, side, u)
    ensures forall c :: c in Cut(adj, side, n) ==>
      exists u, i :: 0 <= u < n && EdgeAt(adj, u, i) && side[u] && Crosses(adj[u][i], side)
        && adj[u][i].capacity == 0 && c == CutEdge(adj[u][i].original, u, adj[u][i].node)
  {
    CutExact(adj, side, n);
    forall c | c in Cut(adj, side, n)
      ensures exists u, i :: 0 <= u < n && EdgeAt(adj, u, i) && side[u] && Crosses(adj[u][i], side)
                && adj[u][i].capacity == 0 && c == CutEdge(adj[u][i].original, u, adj[u][i].node)
    {
      var u, i :| 0 <= u < n && EdgeAt(adj, u, i) && side[u] && Crosses(adj[u][i], side)
        && c == CutEdge(Used(adj[u][i]), u, adj[u][i].node);
      assert Shut(adj, side, u) && PairedAt(adj, u, i);
      assert adj[u][i].capacity == 0;
    }
  }
}

/**
 * Dinic's maximum-flow algorithm over the residual graph of module
 * FlowGraph.  The class keeps the edge lists, the breadth-first distances,
 * the per-node edge pointers of the blocking-flow search and the marks of
 * the final reachability search, and updates them in place as the algorithm
 * does.  Each method is proved against the pure definitions: adding an edge
 * pair is `Added`, a push is `Push`, the distances are the shortest hop
 * counts over edges with residual capacity, every augmentation moves net flow
 * from the source to the sink and nowhere else, and the cut list is `Cut`.
 */
module DinicModel {
  import opened FlowGraph
  import opened Seqs

  // ---------------------------------------------------------------------------
  // the breadth-first search, on values

  /** The sum of the distances; every improvement lowers it. */
  function Total(d: seq<int>): int
  {
    if d == [] then 0 else Total(d[..|d| - 1]) + d[|d| - 1]
  }

  lemma {:induction false} TotalSet(d: seq<int>, w: int, x: int)
    requires 0 <= w < |d|
    ensures Total(d[w := x]) == Total(d) - d[w] + x
    decreases |d|
  {
    var n := |d| - 1;
    if w == n {
      assert d[w := x][..n] == d[..n];
    } else {
      assert d[w := x][..n] == d[..n][w := x];
      TotalSet(d[..n], w, x);
    }
  }

  lemma {:induction false} TotalNonNegative(d: seq<int>)
    requires forall v :: 0 <= v < |d| ==> 0 <= d[v]
    ensures 0 <= Total(d)
    decreases |d|
  {
    if d != [] {
      TotalNonNegative(d[..|d| - 1]);
    }
  }

  /** Every finite distance is a hop count that reaches its node. */
  ghost predicate Witnessed(adj: Lists, dist: seq<int>, s: nat)
  {
    forall v :: 0 <= v < |dist| && 0 <= dist[v] < Inf ==> v in Reach(adj, s, dist[v])
  }

  /** The distances are bounded, zero at `s`, and each finite one is witnessed. */
  ghost predicate Labelled(adj: Lists, dist: seq<int>, s: nat)
  {
    && |dist| == |adj| && s < |adj| && dist[s] == 0
    && (forall v :: 0 <= v < |dist| ==> 0 <= dist[v] <= Inf)
    && Witnessed(adj, dist, s)
  }

  /** Every queued node has a finite distance. */
  ghost predicate Queued(dist: seq<int>, q: seq<int>)
  {
    forall j :: 0 <= j < |q| ==> 0 <= q[j] < |dist| && dist[q[j]] < Inf
  }

  /** The search between two pops: every node with a finite distance is queued or relaxed. */
  ghost predicate Searching(adj: Lists, dist: seq<int>, s: nat, q: seq<int>)
  {
    && Labelled(adj, dist, s) && Queued(dist, q)
    && forall u :: 0 <= u < |dist| && dist[u] < Inf && u !in q ==> Relaxed(adj, dist, u)
  }

  /** The search while the first `i` edges of the popped node `top` are scanned. */
  ghost predicate Scanning(adj: Lists, dist: seq<int>, s: nat, q: seq<int>, top: int, i: int)
  {
    && Labelled(adj, dist, s) && Queued(dist, q)
    && 0 <= top < |adj| && dist[top] < Inf && 0 <= i <= |adj[top]|
    && (forall u :: 0 <= u < |dist| && u != top && dist[u] < Inf && u !in q ==> Relaxed(adj, dist, u))
    && forall j :: 0 <= j < i && adj[top][j].capacity > 0 ==>
         0 <= adj[top][j].node < |dist| && dist[adj[top][j].node] <= dist[top] + 1
  }

  /**
   * The distances are the shortest hop counts from `s` over edges with
   * residual capacity: each finite one reaches its node, none exceeds a hop
   * count that reaches it, and exactly the reachable nodes have one.
   */
  ghost predicate Shortest(adj: Lists, dist: seq<int>, s: nat)
  {
    && |dist| == |adj| && s < |adj| && dist[s] == 0
    && (forall v :: 0 <= v < |dist| ==> 0 <= dist[v] <= Inf)
    && (forall v :: 0 <= v < |dist| && dist[v] < Inf ==> v in Reach(adj, s, dist[v]))
    && (forall v, k: nat :: v in Reach(adj, s, k) ==> v < |dist| && dist[v] <= k)
    && forall v :: 0 <= v < |dist| ==> (dist[v] < Inf <==> v in Reachable(adj, s))
  }

  /** The search starts with `s` at distance zero, queued, and every other node at `Inf`. */
  lemma SearchStart(adj: Lists, s: nat, dist: seq<int>, q: seq<int>)
    requires s < |adj| && dist == seq(|adj|, _ => Inf)[s := 0] && q == [s]
    ensures Searching(adj, dist, s, q)
  {
    assert s in Reach(adj, s, 0);
  }

  /** Popping the front of the queue starts a scan of its edges. */
  lemma ScanFirst(adj: Lists, dist: seq<int>, s: nat, q: seq<int>)
    requires Searching(adj, dist, s, q) && |q| > 0
    ensures Scanning(adj, dist, s, q[1..], q[0], 0)
  {
    forall u | 0 <= u < |dist| && u != q[0] && dist[u] < Inf && u !in q[1..]
      ensures Relaxed(adj, dist, u)
    {
      assert u !in q;
    }
  }

  /** A scan over all of `top`'s edges leaves `top` relaxed. */
  lemma ScanLast(adj: Lists, dist: seq<int>, s: nat, q: seq<int>, top: int)
    requires 0 <= top < |adj| && Scanning(adj, dist, s, q, top, |adj[top]|)
    ensures Searching(adj, dist, s, q)
  {
    assert Relaxed(adj, dist, top);
  }

  /** Lowering the distance of `w` to one past `top`'s, and queueing it, keeps the scan's facts. */
  lemma ScanLower(adj: Lists, d0: seq<int>, s: nat, q0: seq<int>, top: int, i: int, d1: seq<int>, q1: seq<int>)
    requires Heads(adj) && Scanning(adj, d0, s, q0, top, i) && i < |adj[top]| && adj[top][i].capacity > 0
    requires d0[top] + 1 < d0[adj[top][i].node]
    requires d1 == d0[adj[top][i].node := d0[top] + 1] && q1 == q0 + [adj[top][i].node]
    ensures Scanning(adj, d1, s, q1, top, i + 1)
  {
    var w := adj[top][i].node;
    assert EdgeAt(adj, top, i);
    LowerLabelled(adj, d0, s, top, i, d1);
    forall u | 0 <= u < |d1| && u != top && d1[u] < Inf && u !in q1
      ensures Relaxed(adj, d1, u)
    {
      assert u != w && u !in q0;
      assert Relaxed(adj, d0, u);
    }
  }

  /** Lowering the head of a residual edge of `top` to one more than `top`'s distance keeps the labels witnessed. */
  lemma LowerLabelled(adj: Lists, d0: seq<int>, s: nat, top: int, i: int, d1: seq<int>)
    requires Heads(adj) && Labelled(adj, d0, s) && EdgeAt(adj, top, i) && adj[top][i].capacity > 0
    requires 0 <= top < |adj| && d0[top] < Inf && d0[top] + 1 < d0[adj[top][i].node]
    requires d1 == d0[adj[top][i].node := d0[top] + 1]
    ensures Labelled(adj, d1, s)
  {
    assert top in Reach(adj, s, d0[top]);
    ReachStep(adj, s, d0[top], top, i);
  }

  /** An edge without residual capacity, or whose head is near enough already, changes nothing. */
  lemma ScanKeep(adj: Lists, dist: seq<int>, s: nat, q: seq<int>, top: int, i: int)
    requires Heads(adj) && Scanning(adj, dist, s, q, top, i) && i < |adj[top]|
    requires !(adj[top][i].capacity > 0 && dist[top] + 1 < dist[adj[top][i].node])
    ensures Scanning(adj, dist, s, q, top, i + 1)
  {
    assert EdgeAt(adj, top, i);
  }

  /** One edge of the scan: a check of its head when it has residual capacity. */
  lemma ScanEdge(adj: Lists, d0: seq<int>, s: nat, q0: seq<int>, top: int, i: int, d1: seq<int>, q1: seq<int>)
    requires Heads(adj) && Scanning(adj, d0, s, q0, top, i) && i < |adj[top]|
    requires adj[top][i].capacity > 0 && d0[top] + 1 < d0[adj[top][i].node] ==>
      d1 == d0[adj[top][i].node := d0[top] + 1] && q1 == q0 + [adj[top][i].node]
    requires !(adj[top][i].capacity > 0 && d0[top] + 1 < d0[adj[top][i].node]) ==> d1 == d0 && q1 == q0
    ensures Scanning(adj, d1, s, q1, top, i + 1)
    ensures Total(d1) < Total(d0) || (d1 == d0 && q1 == q0)
  {
    assert EdgeAt(adj, top, i);
    if adj[top][i].capacity > 0 && d0[top] + 1 < d0[adj[top][i].node] {
      ScanLower(adj, d0, s, q0, top, i, d1, q1);
      TotalSet(d0, adj[top][i].node, d0[top] + 1);
    } else {
      ScanKeep(adj, d0, s, q0, top, i);
    }
  }

  /** With the queue empty every finite node is relaxed, so the distances are the shortest. */
  lemma SearchEnd(adj: Lists, dist: seq<int>, s: nat)
    requires Heads(adj) && |adj| < Inf && Searching(adj, dist, s, [])
    ensures Shortest(adj, dist, s)
  {
    assert Settled(adj, dist, s);
    forall k: nat
      ensures forall v :: v in Reach(adj, s, k) ==> v < |dist| && dist[v] <= k
    {
      SettledBelow(adj, dist, s, k);
    }
    forall v | 0 <= v < |dist|
      ensures dist[v] < Inf <==> v in Reachable(adj, s)
    {
      if dist[v] < Inf {
        ReachSettles(adj, s, dist[v]);
      }
    }
  }

  // ---------------------------------------------------------------------------
  // the blocking-flow search, on values

  /** Every edge pointer lies within its node's list. */
  ghost predicate Pointers(adj: Lists, ei: seq<int>)
  {
    |ei| == |adj| && forall v :: 0 <= v < |adj| ==> 0 <= ei[v] <= |adj[v]|
  }

  /** The lists and edge pointers of the nodes nearer than `d` are as they were. */
  ghost predicate Below(a: Lists, b: Lists, ea: seq<int>, eb: seq<int>, dist: seq<int>, d: int)
  {
    && |b| == |a| && |ea| == |a| && |eb| == |a| && |dist| == |a|
    && forall y :: 0 <= y < |a| && dist[y] < d ==> b[y] == a[y] && eb[y] == ea[y]
  }

  /**
   * What a search from `x` leaves behind: every edge still paired and in its
   * place, the edge pointers valid, `r` units of net flow moved from `x` to
   * `sink`, and the nodes nearer than `x` untouched.
   */
  ghost predicate Pushed(a: Lists, b: Lists, ea: seq<int>, eb: seq<int>, dist: seq<int>, x: int, sink: int, r: int)
  {
    && Paired(b) && SameShape(a, b) && Pointers(b, eb) && Moved(a, b, x, sink, r)
    && 0 <= x < |dist| && Below(a, b, ea, eb, dist, dist[x])
  }

  /** A search that moves nothing, or ends at the sink at once, changes nothing. */
  lemma PushedNone(a: Lists, ea: seq<int>, dist: seq<int>, x: int, sink: int, r: int)
    requires Paired(a) && Pointers(a, ea) && 0 <= x < |dist| == |a| && (r == 0 || x == sink)
    ensures Pushed(a, a, ea, ea, dist, x, sink, r)
  {
  }

  /** A search from `w` nearer the sink than `x` leaves `x`'s list and pointer alone. */
  lemma PushedKeeps(a: Lists, b: Lists, ea: seq<int>, eb: seq<int>, dist: seq<int>, w: int, sink: int, r: int, x: int)
    requires Pushed(a, b, ea, eb, dist, w, sink, r) && 0 <= x < |a| && dist[x] < dist[w]
    ensures b[x] == a[x] && eb[x] == ea[x]
  {
  }

  /**
   * After `total` units from `x`, a search from the head `w` of one of `x`'s
   * edges moving `path` units and a push of `path` along that edge make
   * `total + path` units from `x`.
   */
  lemma PushStep(a0: Lists, a1: Lists, a2: Lists, a3: Lists, e0: seq<int>, e1: seq<int>, e2: seq<int>,
                 dist: seq<int>, x: int, w: int, sink: int, total: int, path: int)
    requires Pushed(a0, a1, e0, e1, dist, x, sink, total)
    requires 0 <= w < |dist| && dist[x] < dist[w]
    requires Pushed(a1, a2, e1, e2, dist, w, sink, path)
    requires Paired(a3) && SameShape(a2, a3) && Moved(a2, a3, x, w, path)
    requires forall y :: 0 <= y < |a2| && y != x && y != w ==> a3[y] == a2[y]
    ensures Pushed(a0, a3, e0, e2, dist, x, sink, total + path)
  {
    SameShapeChain(a0, a1, a2);
    SameShapeChain(a0, a2, a3);
    MovedChain(a1, a2, a3, x, w, sink, path);
    MovedAdd(a0, a1, a3, x, sink, total, path);
  }

  /** A search from the head `w` of an edge of `x`, then a push of what arrived along the edge. */
  lemma PushOne(a1: Lists, a2: Lists, a3: Lists, e1: seq<int>, e2: seq<int>,
                dist: seq<int>, x: int, w: int, sink: int, path: int)
    requires Paired(a1) && Pointers(a1, e1) && 0 <= x < |dist| == |a1|
    requires 0 <= w < |dist| && dist[x] < dist[w]
    requires Pushed(a1, a2, e1, e2, dist, w, sink, path)
    requires Paired(a3) && SameShape(a2, a3) && Moved(a2, a3, x, w, path)
    requires forall y :: 0 <= y < |a2| && y != x && y != w ==> a3[y] == a2[y]
    ensures Pushed(a1, a3, e1, e2, dist, x, sink, path)
  {
    PushedNone(a1, e1, dist, x, sink, 0);
    PushStep(a1, a1, a2, a3, e1, e1, e2, dist, x, w, sink, 0, path);
  }

  /** Two searches from `x` add up. */
  lemma PushedAdd(a0: Lists, a1: Lists, a2: Lists, e0: seq<int>, e2: seq<int>,
                  dist: seq<int>, x: int, sink: int, total: int, path: int)
    requires exists e1 :: Pushed(a0, a1, e0, e1, dist, x, sink, total) && Pushed(a1, a2, e1, e2, dist, x, sink, path)
    ensures Pushed(a0, a2, e0, e2, dist, x, sink, total + path)
  {
    var e1 :| Pushed(a0, a1, e0, e1, dist, x, sink, total) && Pushed(a1, a2, e1, e2, dist, x, sink, path);
    SameShapeChain(a0, a1, a2);
    MovedAdd(a0, a1, a2, x, sink, total, path);
  }

  /** Moving the pointer of `x` past an edge keeps the search's facts. */
  lemma Advance(a0: Lists, adj: Lists, e0: seq<int>, ei: seq<int>, dist: seq<int>, x: int, sink: int, total: int)
    requires Pushed(a0, adj, e0, ei, dist, x, sink, total) && ei[x] < |adj[x]|
    ensures Pushed(a0, adj, e0, ei[x := ei[x] + 1], dist, x, sink, total)
  {
  }

  // ---------------------------------------------------------------------------
  // the reachability search, on values

  /** Every marked node is reachable from `s`. */
  ghost predicate MarksReachable(adj: Lists, marked: seq<bool>, s: nat)
  {
    forall v :: 0 <= v < |marked| && marked[v] ==> v in Reachable(adj, s)
  }

  /** `b` keeps every mark of `a`. */
  ghost predicate MoreMarks(a: seq<bool>, b: seq<bool>)
  {
    |a| == |b| && forall v :: 0 <= v < |a| && a[v] ==> b[v]
  }

  /** Every node marked in `b` but not in `a` is shut in `b`. */
  ghost predicate NewShut(adj: Lists, a: seq<bool>, b: seq<bool>)
  {
    |a| == |b| && forall v :: 0 <= v < |b| && b[v] && !a[v] ==> Shut(adj, b, v)
  }

  /** More marks keep the newly marked nodes shut. */
  lemma NewShutChain(adj: Lists, a: seq<bool>, b: seq<bool>, c: seq<bool>)
    requires NewShut(adj, a, b) && MoreMarks(b, c) && NewShut(adj, b, c)
    ensures NewShut(adj, a, c)
  {
    forall v | 0 <= v < |c| && c[v] && !a[v]
      ensures Shut(adj, c, v)
    {
      if b[v] {
        ShutMore(adj, b, c, v);
      }
    }
  }

  /** More marks leave no more unmarked nodes. */
  lemma NoMoreUnmarked(a: seq<bool>, b: seq<bool>)
    requires MoreMarks(a, b)
    ensures |Unmarked(b)| <= |Unmarked(a)|
  {
    assert Unmarked(b) <= Unmarked(a);
    assert Unmarked(a) == Unmarked(b) + (Unmarked(a) - Unmarked(b));
  }

  /** The search from `s` is finished: exactly the reachable nodes are marked. */
  lemma MarksDone(adj: Lists, marked: seq<bool>, s: nat)
    requires Heads(adj) && |marked| == |adj| && s < |adj| && marked[s]
    requires MarksReachable(adj, marked, s) && NewShut(adj, seq(|adj|, _ => false), marked)
    ensures forall v :: 0 <= v < |adj| ==> (marked[v] <==> v in Reachable(adj, s))
    ensures forall u :: 0 <= u < |adj| && marked[u] ==> Shut(adj, marked, u)
  {
    ShutCovers(adj, marked, s, |adj|);
  }

  // ---------------------------------------------------------------------------
  // the solver

  /** The smaller of two amounts. */
  function Min(a: int, b: int): (r: int)
    ensures r <= a && r <= b && (r == a || r == b)
  {
    if a <= b then a else b
  }

  /** A maximum-flow solver over `V` nodes; `V == -1` until it is initialised. */
  class Dinic {
    var V: int
    var adj: Lists
    var dist: seq<int>
    var edgeIndex: seq<int>
    var flowCalled: bool
    var reachable: seq<bool>

    /** Initialised, every list per node in place, and every edge paired with its reverse. */
    ghost predicate Valid()
      reads this
    {
      0 <= V < Inf && |adj| == V && |dist| == V && |edgeIndex| == V && Paired(adj)
    }

    /** A solver over `vertices` nodes, or an uninitialised one for a negative count. */
    constructor(vertices: int)
      requires vertices < Inf
      ensures vertices >= 0 ==> Valid() && V == vertices && adj == seq(vertices, _ => [])
      ensures vertices >= 0 ==> !flowCalled && dist == seq(vertices, _ => 0) && edgeIndex == dist
      ensures vertices < 0 ==> V == -1 && adj == [] && dist == [] && edgeIndex == []
      ensures reachable == []
    {
      V := -1;
      adj := [];
      dist := [];
      edgeIndex := [];
      reachable := [];
      new;
      if vertices >= 0 {
        Init(vertices);
      }
    }

    /** Resets to `vertices` nodes and no edges; the distance and pointer vectors are resized. */
    method Init(vertices: int)
      requires 0 <= vertices < Inf
      modifies this`V, this`adj, this`dist, this`edgeIndex, this`flowCalled
      ensures Valid() && V == vertices && adj == seq(vertices, _ => []) && !flowCalled
      ensures dist == Resize(old(dist), vertices) && edgeIndex == Resize(old(edgeIndex), vertices)
    {
      V := vertices;
      adj := seq(V, _ => []);
      dist := Resize(dist, V);
      edgeIndex := Resize(edgeIndex, V);
      flowCalled := false;
    }

    /** Adds the edge u -> v of capacity `c1` and its reverse v -> u of capacity `c2`. */
    method AddEdge(u: int, v: int, c1: int, c2: int)
      requires Valid() && 0 <= u < V && 0 <= v < V && 0 <= c1 && 0 <= c2
      modifies this`adj
      ensures Valid() && adj == Added(old(adj), u, v, c1, c2)
    {
      AddedPaired(adj, u, v, c1, c2);
      var uv := Edge(v, |adj[v]| + (if u == v then 1 else 0), c1, c1);
      var vu := Edge(u, |adj[u]|, c2, c2);
      adj := adj[u := adj[u] + [uv]];
      adj := adj[v := adj[v] + [vu]];
    }

    /** An edge of capacity `c` from `u` to `v` only. */
    method AddDirectionalEdge(u: int, v: int, c: int)
      requires Valid() && 0 <= u < V && 0 <= v < V && 0 <= c
      modifies this`adj
      ensures Valid() && adj == Added(old(adj), u, v, c, 0)
    {
      AddEdge(u, v, c, 0);
    }

    /** An edge of capacity `c` in both directions. */
    method AddBidirectionalEdge(u: int, v: int, c: int)
      requires Valid() && 0 <= u < V && 0 <= v < V && 0 <= c
      modifies this`adj
      ensures Valid() && adj == Added(old(adj), u, v, c, c)
    {
      AddEdge(u, v, c, c);
    }

    /** The position of the reverse of edge `i` of `u`: an edge other than it, whose reverse it is. */
    function ReverseEdge(u: int, i: int): (r: (int, int))
      reads this
      requires Valid() && EdgeAt(adj, u, i)
      ensures EdgeAt(adj, r.0, r.1) && r != (u, i) && Partner(adj, r.0, r.1) == (u, i)
    {
      assert PairedAt(adj, u, i);
      (adj[u][i].node, adj[u][i].rev)
    }

    /** Lowers the distance of `node` to `newDist` and queues it, when that is an improvement. */
    method BfsCheck(q: seq<int>, node: int, newDist: int) returns (q': seq<int>)
      requires 0 <= node < |dist|
      modifies this`dist
      ensures newDist < old(dist[node]) ==> dist == old(dist)[node := newDist] && q' == q + [node]
      ensures !(newDist < old(dist[node])) ==> dist == old(dist) && q' == q
    {
      q' := q;
      if newDist < dist[node] {
        dist := dist[node := newDist];
        q' := q' + [node];
      }
    }

    /** Checks the head of every edge of `top` that has residual capacity. */
    method Scan(top: int, q: seq<int>, ghost s: nat) returns (q': seq<int>)
      requires Valid() && Heads(adj) && Scanning(adj, dist, s, q, top, 0)
      modifies this`dist
      ensures Valid() && Searching(adj, dist, s, q')
      ensures Total(dist) < Total(old(dist)) || (dist == old(dist) && q' == q)
    {
      q' := q;
      var i := 0;
      while i < |adj[top]|
        invariant |dist| == V && Scanning(adj, dist, s, q', top, i)
        invariant Total(dist) < Total(old(dist)) || (dist == old(dist) && q' == q)
        decreases |adj[top]| - i
      {
        q' := ScanOne(top, i, q', s);
        i := i + 1;
      }
      ScanLast(adj, dist, s, q', top);
    }

    /** Checks the head of edge `i` of `top` when the edge has residual capacity. */
    method ScanOne(top: int, i: int, q: seq<int>, ghost s: nat) returns (q': seq<int>)
      requires Heads(adj) && Scanning(adj, dist, s, q, top, i) && i < |adj[top]|
      modifies this`dist
      ensures Scanning(adj, dist, s, q', top, i + 1)
      ensures Total(dist) < Total(old(dist)) || (dist == old(dist) && q' == q)
    {
      ghost var d0 := dist;
      assert EdgeAt(adj, top, i);
      var e := adj[top][i];
      q' := q;
      if e.capacity > 0 {
        q' := BfsCheck(q, e.node, dist[top] + 1);
      }
      ScanEdge(adj, d0, s, q, top, i, dist, q');
    }

    /**
     * Labels every node with its hop count from `s` over edges with residual
     * capacity, `Inf` where there is none, and tells whether `t` is reached.
     */
    method Bfs(s: int, t: int) returns (found: bool)
      requires Valid() && 0 <= s < V && 0 <= t < V
      modifies this`dist
      ensures Valid() && Shortest(adj, dist, s) && found == (dist[t] < Inf)
    {
      PairedHeads(adj);
      dist := seq(V, _ => Inf);
      var q := BfsCheck([], s, 0);
      SearchStart(adj, s, dist, q);
      while |q| > 0
        invariant Valid() && Searching(adj, dist, s, q)
        decreases Total(dist), |q|
      {
        ScanFirst(adj, dist, s, q);
        var top := q[0];
        q := Scan(top, q[1..], s);
        TotalNonNegative(dist);
      }
      SearchEnd(adj, dist, s);
      found := dist[t] < Inf;
    }
  
    /** Pushes `p` units along edge `i` of `u`: its capacity falls by `p`, its reverse's rises by `p`. */
    method Augment(u: int, i: int, p: int)
      requires Valid() && EdgeAt(adj, u, i) && 0 <= p <= adj[u][i].capacity
      modifies this`adj
      ensures Valid() && adj == Push(old(adj), u, i, p)
      ensures SameShape(old(adj), adj) && Moved(old(adj), adj, u, old(adj[u][i].node), p)
    {
      PushPaired(adj, u, i, p);
      PushEdges(adj, u, i, p);
      PushMoves(adj, u, i, p);
      assert PairedAt(adj, u, i);
      var e := adj[u][i];
      adj := adj[u := adj[u][i := e.(capacity := e.capacity - p)]];
      var f := adj[e.node][e.rev];
      adj := adj[e.node := adj[e.node][e.rev := f.(capacity := f.capacity + p)]];
    }

    /**
     * The blocking-flow search: sends up to `pathCap` units from `node`
     * towards `sink` along edges that lead one level further from the source,
     * resuming each node at its edge pointer, and returns how much it sent.
     */
    method Dfs(node: int, pathCap: int, sink: int) returns (r: int)
      requires Valid() && Pointers(adj, edgeIndex) && 0 <= node < V && 0 <= sink < V && 0 <= pathCap
      modifies this`adj, this`edgeIndex
      ensures Valid() && 0 <= r <= pathCap
      ensures Pushed(old(adj), adj, old(edgeIndex), edgeIndex, dist, node, sink, r)
      decreases dist[sink] - dist[node], 1
    {
      if node == sink {
        PushedNone(adj, edgeIndex, dist, node, sink, pathCap);
        return pathCap;
      }
      if dist[node] >= dist[sink] {
        PushedNone(adj, edgeIndex, dist, node, sink, 0);
        return 0;
      }
      ghost var a0, e0 := adj, edgeIndex;
      PushedNone(adj, edgeIndex, dist, node, sink, 0);
      var cap := pathCap;
      var total := 0;
      while edgeIndex[node] < |adj[node]|
        invariant Valid() && Pushed(a0, adj, e0, edgeIndex, dist, node, sink, total)
        invariant 0 <= cap && 0 <= total && total + cap == pathCap
        decreases |a0[node]| - edgeIndex[node]
      {
        var i := edgeIndex[node];
        PairedHeads(adj);
        assert EdgeAt(adj, node, i);
        var e := adj[node][i];
        if e.capacity > 0 && dist[node] + 1 == dist[e.node] {
          ghost var a1 := adj;
          var path := Route(node, i, cap, sink);
          PushedAdd(a0, a1, adj, e0, edgeIndex, dist, node, sink, total, path);
          cap := cap - path;
          total := total + path;
        }
        if cap == 0 {
          break;
        }
        Advance(a0, adj, e0, edgeIndex, dist, node, sink, total);
        edgeIndex := edgeIndex[node := edgeIndex[node] + 1];
      }
      return total;
    }

    /**
     * One edge of the blocking-flow search: sends up to `cap` units from the
     * head of edge `i` of `node` on to `sink`, then pushes what arrived along
     * the edge itself.
     */
    method Route(node: int, i: int, cap: int, sink: int) returns (path: int)
      requires Valid() && Pointers(adj, edgeIndex) && 0 <= node < V && 0 <= sink < V && 0 <= cap
      requires EdgeAt(adj, node, i) && 0 < adj[node][i].capacity && 0 <= adj[node][i].node < V
      requires dist[node] < dist[sink] && dist[node] + 1 == dist[adj[node][i].node]
      modifies this`adj, this`edgeIndex
      ensures Valid() && 0 <= path <= cap
      ensures Pushed(old(adj), adj, old(edgeIndex), edgeIndex, dist, node, sink, path)
      ensures edgeIndex[node] == old(edgeIndex[node])
      decreases dist[sink] - dist[node], 0
    {
      var e := adj[node][i];
      ghost var a1, e1 := adj, edgeIndex;
      path := Dfs(e.node, Min(cap, e.capacity), sink);
      PushedKeeps(a1, adj, e1, edgeIndex, dist, e.node, sink, path, node);
      ghost var a2, e2 := adj, edgeIndex;
      Augment(node, i, path);
      PushOne(a1, a2, adj, e1, e2, dist, node, e.node, sink, path);
    }
  
    /**
     * Sends up to `flowCap` units from `s` to `t`, one blocking flow per
     * breadth-first layering, and returns how much it sent.  It stops when
     * the cap is used up or `t` is cut off; `stalled` reports a layering in
     * which the search found no augmenting flow.
     */
    method Flow(s: int, t: int, flowCap: int) returns (total: int, stalled: bool)
      requires Valid() && 0 <= s < V && 0 <= t < V
      modifies this`adj, this`dist, this`edgeIndex, this`flowCalled
      ensures Valid() && flowCalled && SameShape(old(adj), adj) && Moved(old(adj), adj, s, t, total)
      ensures 0 <= total && (0 <= flowCap ==> total <= flowCap) && (flowCap <= 0 ==> total == 0)
      ensures !stalled ==> total >= flowCap || t !in Reachable(adj, s)
      ensures stalled ==> total < flowCap
      ensures t !in Reachable(old(adj), s) ==> total == 0 && adj == old(adj)
      ensures flowCap <= 0 ==> !stalled && adj == old(adj) && dist == old(dist) && edgeIndex == old(edgeIndex)
    {
      flowCalled := true;
      total, stalled := 0, false;
      var cap := flowCap;
      ghost var a0 := adj;
      assert SameShape(a0, adj) by {
        forall u, i | EdgeAt(a0, u, i)
          ensures ShapeAt(a0, a0, u, i)
        {
        }
      }
      while cap > 0
        invariant Valid() && flowCalled && SameShape(a0, adj) && Moved(a0, adj, s, t, total)
        invariant 0 <= total && total + cap == flowCap && (total == 0 || 0 <= cap)
        invariant t !in Reachable(a0, s) ==> total == 0 && adj == a0
        invariant flowCap <= 0 ==> !stalled && adj == a0 && dist == old(dist) && edgeIndex == old(edgeIndex)
        decreases cap
      {
        var found := Bfs(s, t);
        if !found {
          return;
        }
        edgeIndex := seq(V, _ => 0);
        ghost var a1 := adj;
        var increment := Dfs(s, cap, t);
        SameShapeChain(a0, a1, adj);
        MovedAdd(a0, a1, adj, s, t, total, increment);
        if increment <= 0 {
          stalled := true;
          return;
        }
        total := total + increment;
        cap := cap - increment;
      }
    }

    /** Marks `node` and everything reachable from it over edges with residual capacity that is not marked yet. */
    method ReachableDfs(node: int, ghost s: nat)
      requires Valid() && |reachable| == V && 0 <= node < V && !reachable[node] && s < V
      requires node in Reachable(adj, s) && MarksReachable(adj, reachable, s)
      modifies this`reachable
      ensures |reachable| == V && reachable[node] && MoreMarks(old(reachable), reachable)
      ensures NewShut(adj, old(reachable), reachable) && MarksReachable(adj, reachable, s)
      decreases |Unmarked(reachable)|
    {
      ghost var m0 := reachable;
      reachable := reachable[node := true];
      ghost var m1 := reachable;
      Fewer(m0, m1, node);
      PairedHeads(adj);
      var i := 0;
      while i < |adj[node]|
        invariant 0 <= i <= |adj[node]| && |reachable| == V
        invariant MoreMarks(m1, reachable) && NewShut(adj, m1, reachable) && MarksReachable(adj, reachable, s)
        invariant forall j :: 0 <= j < i && adj[node][j].capacity > 0 ==> reachable[adj[node][j].node]
      {
        assert EdgeAt(adj, node, i);
        var e := adj[node][i];
        if e.capacity > 0 && !reachable[e.node] {
          ghost var r1 := reachable;
          NoMoreUnmarked(m1, reachable);
          ReachableStep(adj, s, node, i);
          ReachableDfs(e.node, s);
          NewShutChain(adj, m1, r1, reachable);
        }
        i := i + 1;
      }
      assert Shut(adj, reachable, node);
    }

    /** Marks exactly the nodes reachable from `s` over edges with residual capacity. */
    method SolveReachable(s: int)
      requires Valid() && 0 <= s < V
      modifies this`reachable
      ensures |reachable| == V && reachable[s] && forall v :: 0 <= v < V ==> (reachable[v] <==> v in Reachable(adj, s))
      ensures forall u :: 0 <= u < V && reachable[u] ==> Shut(adj, reachable, u)
    {
      reachable := seq(V, _ => false);
      ReachGrows(adj, s, 0, |adj|);
      ReachableDfs(s, s);
      PairedHeads(adj);
      MarksDone(adj, reachable, s);
    }

    /**
     * After a flow, the edges of a minimum cut: every edge that leaves a node
     * reachable from `s`, enters one that is not and carries flow, with the
     * amount it carries, node by node and edge by edge.
     */
    method MinCut(s: int) returns (cut: seq<CutEdge>)
      requires Valid() && flowCalled && 0 <= s < V
      modifies this`reachable
      ensures |reachable| == V && reachable[s] && forall v :: 0 <= v < V ==> (reachable[v] <==> v in Reachable(adj, s))
      ensures cut == Cut(adj, reachable, V)
      ensures forall c :: c in cut <==>
        exists u, i :: 0 <= u < V && EdgeAt(adj, u, i) && reachable[u] && Crosses(adj[u][i], reachable)
          && c == CutEdge(Used(adj[u][i]), u, adj[u][i].node)
      ensures forall c :: c in cut ==>
        exists u, i :: 0 <= u < V && EdgeAt(adj, u, i) && reachable[u] && Crosses(adj[u][i], reachable)
          && adj[u][i].capacity == 0 && c == CutEdge(adj[u][i].original, u, adj[u][i].node)
    {
      SolveReachable(s);
      PairedHeads(adj);
      cut := [];
      var node := 0;
      while node < V
        invariant 0 <= node <= V && cut == Cut(adj, reachable, node)
      {
        if reachable[node] {
          var i := 0;
          while i < |adj[node]|
            invariant 0 <= i <= |adj[node]|
            invariant cut == Cut(adj, reachable, node) + CutList(adj[node][..i], reachable, node)
          {
            assert EdgeAt(adj, node, i);
            var e := adj[node][i];
            assert adj[node][..i + 1][..i] == adj[node][..i];
            if !reachable[e.node] && e.capacity < e.original {
              cut := cut + [CutEdge(e.original - e.capacity, node, e.node)];
            }
            i := i + 1;
          }
          assert adj[node][..i] == adj[node];
        }
        node := node + 1;
      }
      CutExact(adj, reachable, V);
      CutSaturated(adj, reachable, V);
    }

    /** The first edge of `a` whose head is `b`, or -1 when there is none. */
    method FindEdge(a: int, b: int) returns (i: int)
      requires Valid() && 0 <= a < V
      ensures -1 <= i < |adj[a]|
      ensures 0 <= i ==> adj[a][i].node == b && forall j :: 0 <= j < i ==> adj[a][j].node != b
      ensures i == -1 ==> forall j :: 0 <= j < |adj[a]| ==> adj[a][j].node != b
    {
      i := 0;
      while i < |adj[a]|
        invariant 0 <= i <= |adj[a]| && forall j :: 0 <= j < i ==> adj[a][j].node != b
      {
        if adj[a][i].node == b {
          return;
        }
        i := i + 1;
      }
      i := -1;
    }
  }
}

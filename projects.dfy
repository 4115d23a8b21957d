/**
 * The projects-and-tools problem as a minimum cut: project i gives a reward,
 * tool j costs money, and a project needs some tools.  The source feeds every
 * project with an edge of its reward, every tool drains into the sink with an
 * edge of its cost, and a dependency is an edge no cut can afford.  The best
 * profit is the total reward less the maximum flow, and the chosen projects
 * are read off the cut.
 */
module ProjectsModel {
  import opened FlowGraph
  import opened DinicModel

  /** The largest value of the 64-bit cost type: a dependency edge's capacity and the flow cap. */
  const MaxCost := 0x7fff_ffff_ffff_ffff

  /** The sum of the entries. */
  function Sum(xs: seq<int>): int
  {
    if xs == [] then 0 else Sum(xs[..|xs| - 1]) + xs[|xs| - 1]
  }

  /** The sum of the original capacities of the edges of a list. */
  function Originals(es: seq<Edge>): int
  {
    if es == [] then 0 else Originals(es[..|es| - 1]) + es[|es| - 1].original
  }

  lemma OriginalsAppend(es: seq<Edge>, e: Edge)
    ensures Originals(es + [e]) == Originals(es) + e.original
  {
    assert (es + [e])[..|es|] == es;
  }

  /** An edge list carries out of its tail at most its original capacities, when no capacity is negative. */
  lemma {:induction false} NetBelow(es: seq<Edge>)
    requires forall i :: 0 <= i < |es| ==> 0 <= es[i].capacity
    ensures Net(es) <= Originals(es)
  {
    if es != [] {
      NetBelow(es[..|es| - 1]);
    }
  }

  /** Residual capacities do not change the original ones. */
  lemma {:induction false} OriginalsShape(a: seq<Edge>, b: seq<Edge>)
    requires |a| == |b| && forall i :: 0 <= i < |a| ==> b[i].original == a[i].original
    ensures Originals(b) == Originals(a)
  {
    if a != [] {
      OriginalsShape(a[..|a| - 1], b[..|b| - 1]);
    }
  }

  /**
   * No flow leaves `x` beyond the original capacities of its edges: the net
   * flow `p` moved from `x` to another node `y` is at most that sum, when
   * none had left before.
   */
  lemma FlowWithinBudget(a: Lists, b: Lists, x: int, y: int, p: int)
    requires 0 <= x < |a| && x != y && Net(a[x]) == 0
    requires Moved(a, b, x, y, p) && SameShape(a, b) && Paired(b)
    ensures p <= Originals(a[x])
  {
    forall i | 0 <= i < |b[x]|
      ensures 0 <= b[x][i].capacity && b[x][i].original == a[x][i].original
    {
      assert EdgeAt(b, x, i) && PairedAt(b, x, i);
      assert ShapeAt(a, b, x, i);
    }
    NetBelow(b[x]);
    OriginalsShape(a[x], b[x]);
  }

  // ---------------------------------------------------------------------------
  // the edges the setup adds

  /** The lists after an edge of capacity `rewards[k]` from `source` to project k, for every k < n in turn. */
  function WithRewards(adj: Lists, source: int, rewards: seq<int>, n: nat): (r: Lists)
    requires 0 <= source < |adj| && n <= |adj| && n <= |rewards|
    ensures |r| == |adj|
  {
    if n == 0 then adj else Added(WithRewards(adj, source, rewards, n - 1), source, n - 1, rewards[n - 1], 0)
  }

  /** The lists after an edge of capacity `costs[k]` from tool node `first + k` to `sink`, for every k < n in turn. */
  function WithTools(adj: Lists, first: int, sink: int, costs: seq<int>, n: nat): (r: Lists)
    requires 0 <= first && first + n <= |adj| && 0 <= sink < |adj| && n <= |costs|
    ensures |r| == |adj|
  {
    if n == 0 then adj else Added(WithTools(adj, first, sink, costs, n - 1), first + n - 1, sink, costs[n - 1], 0)
  }

  /** An edge pair between two nodes other than `x` leaves `x`'s list alone. */
  lemma AddedElsewhere(adj: Lists, u: int, v: int, c1: int, c2: int, x: int)
    requires 0 <= u < |adj| && 0 <= v < |adj| && 0 <= x < |adj| && u != x && v != x
    ensures Added(adj, u, v, c1, c2)[x] == adj[x]
  {
  }

  /** An edge from `u` to another node appends one edge, of capacity `c1` both residual and original, to `u`'s list. */
  lemma AddedFrom(adj: Lists, u: int, v: int, c1: int)
    requires 0 <= u < |adj| && 0 <= v < |adj| && u != v
    ensures Added(adj, u, v, c1, 0)[u] == adj[u] + [Edge(v, |adj[v]|, c1, c1)]
  {
  }

  /** The reward edges add the rewards to the source's original capacities, carry no flow, and lead to projects. */
  lemma {:induction false} RewardsOut(adj: Lists, source: int, rewards: seq<int>, n: nat)
    requires 0 <= source < |adj| && n <= source && n <= |rewards|
    ensures var r := WithRewards(adj, source, rewards, n);
      && Originals(r[source]) == Originals(adj[source]) + Sum(rewards[..n])
      && Net(r[source]) == Net(adj[source])
      && |r[source]| == |adj[source]| + n
      && (forall j :: |adj[source]| <= j < |r[source]| ==> r[source][j].node == j - |adj[source]|)
      && (forall j :: 0 <= j < |adj[source]| ==> r[source][j] == adj[source][j])
  {
    if n > 0 {
      RewardsOut(adj, source, rewards, n - 1);
      var a := WithRewards(adj, source, rewards, n - 1);
      var e := Edge(n - 1, |a[n - 1]|, rewards[n - 1], rewards[n - 1]);
      AddedFrom(a, source, n - 1, rewards[n - 1]);
      OriginalsAppend(a[source], e);
      NetAppend(a[source], e);
      assert rewards[..n][..n - 1] == rewards[..n - 1];
    }
  }

  /** The tool edges leave the source's list alone. */
  lemma {:induction false} ToolsElsewhere(adj: Lists, first: int, sink: int, costs: seq<int>, n: nat, x: int)
    requires 0 <= first && first + n <= x && x < sink < |adj| && n <= |costs|
    ensures WithTools(adj, first, sink, costs, n)[x] == adj[x]
  {
    if n > 0 {
      ToolsElsewhere(adj, first, sink, costs, n - 1, x);
      AddedElsewhere(WithTools(adj, first, sink, costs, n - 1), first + n - 1, sink, costs[n - 1], 0, x);
    }
  }

  // ---------------------------------------------------------------------------
  // the chosen projects

  /** No edge from `source` into project `i` is in the cut between the `side` nodes and the rest. */
  ghost predicate Uncut(adj: Lists, side: seq<bool>, source: int, i: int)
    requires 0 <= source < |adj|
  {
    forall j :: 0 <= j < |adj[source]| && adj[source][j].node == i ==> !Crosses(adj[source][j], side)
  }

  /**
   * A project on the source side of the cut is uncut; one on the sink side is
   * uncut only when every edge from the source into it has original capacity 0.
   */
  lemma SourceSideAgrees(adj: Lists, side: seq<bool>, source: nat, i: int)
    requires Heads(adj) && source < |adj| == |side| && side[source]
    requires forall v :: 0 <= v < |adj| ==> (side[v] <==> v in Reachable(adj, source))
    requires 0 <= i < |adj|
    ensures side[i] ==> Uncut(adj, side, source, i)
    ensures !side[i] ==> (Uncut(adj, side, source, i) <==>
      forall j :: 0 <= j < |adj[source]| && adj[source][j].node == i ==>
        adj[source][j].original <= adj[source][j].capacity <= 0)
  {
    if !side[i] {
      forall j | 0 <= j < |adj[source]| && adj[source][j].node == i
        ensures adj[source][j].capacity <= 0
      {
        if adj[source][j].capacity > 0 {
          Reach0(adj, source);
          ReachableStep(adj, source, source, j);
        }
      }
    }
  }

  /** The source reaches itself. */
  lemma Reach0(adj: Lists, s: nat)
    ensures s in Reachable(adj, s)
  {
    ReachGrows(adj, s, 0, |adj|);
  }

  /** The solver's lists for one project of reward 0 that needs the one tool, of cost 5. */
  function ZeroRewardGraph(): Lists
  {
    Added(WithTools(WithRewards(seq(4, _ => []), 2, [0], 1), 1, 3, [5], 1), 0, 1, MaxCost, 0)
  }

  /**
   * With one project of reward 0 needing the one tool, of cost 5, the sink is out of
   * reach, so nothing flows and the profit is 0.  Project 0 is still uncut, so the
   * as-written choice reports it, though it and its tool both lie on the sink side
   * and doing it costs 5.
   */
  lemma ZeroRewardChosen()
    ensures var a, side := ZeroRewardGraph(), [false, false, true, false];
      && 3 !in Reachable(a, 2)
      && (forall v :: 0 <= v < 4 ==> (side[v] <==> v in Reachable(a, 2)))
      && Uncut(a, side, 2, 0) && !side[0] && !side[1]
      && |a[0]| == 2 && a[0][1] == Edge(1, 1, MaxCost, MaxCost) && |a[1]| == 2 && a[1][0] == Edge(3, 0, 5, 5)
  {
    var a0: Lists := seq(4, _ => []);
    assert WithRewards(a0, 2, [0], 0) == a0;
    var a1: Lists := [[Edge(2, 0, 0, 0)], [], [Edge(0, 0, 0, 0)], []];
    assert WithRewards(a0, 2, [0], 1) == Added(a0, 2, 0, 0, 0) == a1 by {
      var b := Added(a0, 2, 0, 0, 0);
      assert b[0] == a1[0] && b[1] == a1[1] && b[2] == a1[2] && b[3] == a1[3];
    }
    assert WithTools(a1, 1, 3, [5], 0) == a1;
    var a2: Lists := [[Edge(2, 0, 0, 0)], [Edge(3, 0, 5, 5)], [Edge(0, 0, 0, 0)], [Edge(1, 0, 0, 0)]];
    assert WithTools(a1, 1, 3, [5], 1) == Added(a1, 1, 3, 5, 0) == a2 by {
      var b := Added(a1, 1, 3, 5, 0);
      assert b[0] == a2[0] && b[1] == a2[1] && b[2] == a2[2] && b[3] == a2[3];
    }
    var a := ZeroRewardGraph();
    assert a == Added(a2, 0, 1, MaxCost, 0);
    assert a[2] == [Edge(0, 0, 0, 0)];
    assert Step(a, {2}) == {} by {
      forall x | x in Step(a, {2})
        ensures false
      {
      }
    }
    assert Reach(a, 2, 4) == {2} by {
      assert Reach(a, 2, 1) == {2};
      assert Reach(a, 2, 2) == {2};
      assert Reach(a, 2, 3) == {2};
    }
  }

  /** Strictly ascending. */
  predicate Ascending(xs: seq<int>)
  {
    forall k :: 0 <= k < |xs| - 1 ==> xs[k] < xs[k + 1]
  }

  /** The solver for `P` projects and `T` tools; nodes 0..P-1 are projects, P..P+T-1 tools. */
  class ProjectsAndTools {
    var P: int
    var T: int
    var V: int
    var source: int
    var sink: int
    const graph: Dinic
    var projectTotal: int

    /** The node layout is in place and every edge out of the source leads to a project. */
    ghost predicate Valid()
      reads this, graph
    {
      && graph.Valid() && 0 <= P && 0 <= T && V == P + T + 2 && source == V - 2 && sink == V - 1 && graph.V == V
      && forall j :: 0 <= j < |graph.adj[source]| ==> 0 <= graph.adj[source][j].node < P
    }

    /** No flow has left the source, and its edges' capacities add up to no more than the total reward. */
    ghost predicate Unsolved()
      reads this, graph
    {
      0 <= source < |graph.adj| && Net(graph.adj[source]) == 0 && Originals(graph.adj[source]) <= projectTotal
    }

    /** A solver nobody has initialised: the graph has no nodes yet. */
    constructor Unset()
      ensures fresh(graph) && graph.V == -1
    {
      graph := new Dinic(-1);
    }

    /** A solver for `p` projects and `t` tools and no edges. */
    constructor (p: int, t: int)
      requires 0 <= p && 0 <= t && p + t + 2 < Inf
      ensures fresh(graph) && Valid() && P == p && T == t
      ensures graph.adj == seq(V, _ => []) && !graph.flowCalled
    {
      graph := new Dinic(-1);
      new;
      Init(p, t);
    }

    /** A solver for the given project rewards and tool costs. */
    constructor FromCosts(projects: seq<int>, tools: seq<int>)
      requires |projects| + |tools| + 2 < Inf
      requires forall k :: 0 <= k < |projects| ==> 0 <= projects[k]
      requires forall k :: 0 <= k < |tools| ==> 0 <= tools[k]
      ensures fresh(graph) && Valid() && Unsolved() && P == |projects| && T == |tools|
      ensures projectTotal == Sum(projects)
      ensures graph.adj == WithTools(WithRewards(seq(V, _ => []), source, projects, P), P, sink, tools, T)
    {
      graph := new Dinic(-1);
      new;
      InitWith(projects, tools);
    }

    /** Lays out the nodes: projects, then tools, then the source and the sink. */
    method Init(p: int, t: int)
      requires 0 <= p && 0 <= t && p + t + 2 < Inf
      modifies this`P, this`T, this`V, this`source, this`sink
      modifies graph`V, graph`adj, graph`dist, graph`edgeIndex, graph`flowCalled
      ensures Valid() && P == p && T == t && graph.adj == seq(V, _ => []) && !graph.flowCalled
    {
      P, T := p, t;
      V := P + T + 2;
      source, sink := V - 2, V - 1;
      graph.Init(V);
    }

    /** Lays out the nodes for the given rewards and costs and adds their edges. */
    method InitWith(projects: seq<int>, tools: seq<int>)
      requires |projects| + |tools| + 2 < Inf
      requires forall k :: 0 <= k < |projects| ==> 0 <= projects[k]
      requires forall k :: 0 <= k < |tools| ==> 0 <= tools[k]
      modifies this`P, this`T, this`V, this`source, this`sink, this`projectTotal
      modifies graph`V, graph`adj, graph`dist, graph`edgeIndex, graph`flowCalled
      ensures Valid() && Unsolved() && P == |projects| && T == |tools| && projectTotal == Sum(projects)
      ensures graph.adj == WithTools(WithRewards(seq(V, _ => []), source, projects, P), P, sink, tools, T)
    {
      Init(|projects|, |tools|);
      SetProjects(projects);
      SetTools(tools);
      assert projects[..P] == projects;
    }

    /** Adds the edge from the source to each project with its reward, and totals the rewards. */
    method SetProjects(projects: seq<int>)
      requires Valid() && P <= |projects| && forall k :: 0 <= k < P ==> 0 <= projects[k]
      modifies this`projectTotal, graph`adj
      ensures Valid() && projectTotal == Sum(projects[..P])
      ensures graph.adj == WithRewards(old(graph.adj), source, projects, P)
      ensures Net(graph.adj[source]) == Net(old(graph.adj[source]))
      ensures Originals(graph.adj[source]) == Originals(old(graph.adj[source])) + projectTotal
    {
      ghost var a0 := graph.adj;
      projectTotal := 0;
      var i := 0;
      while i < P
        invariant 0 <= i <= P && Valid() && projectTotal == Sum(projects[..i])
        invariant graph.adj == WithRewards(a0, source, projects, i)
      {
        AddReward(i, projects[i]);
        projectTotal := projectTotal + projects[i];
        assert projects[..i + 1][..i] == projects[..i];
        i := i + 1;
      }
      RewardsOut(a0, source, projects, P);
    }

    /** Adds the edge from the source to project `k` with its reward. */
    method AddReward(k: int, reward: int)
      requires Valid() && 0 <= k < P && 0 <= reward
      modifies graph`adj
      ensures Valid() && graph.adj == Added(old(graph.adj), source, k, reward, 0)
    {
      AddedFrom(graph.adj, source, k, reward);
      graph.AddDirectionalEdge(source, k, reward);
    }

    /** Adds the edge from each tool to the sink with its cost. */
    method SetTools(tools: seq<int>)
      requires Valid() && T <= |tools| && forall k :: 0 <= k < T ==> 0 <= tools[k]
      modifies graph`adj
      ensures Valid() && graph.adj == WithTools(old(graph.adj), P, sink, tools, T)
      ensures graph.adj[source] == old(graph.adj[source])
    {
      ghost var a0 := graph.adj;
      var i := 0;
      while i < T
        invariant 0 <= i <= T && Valid() && graph.adj == WithTools(a0, P, sink, tools, i)
        invariant graph.adj[source] == a0[source]
      {
        AddedElsewhere(graph.adj, P + i, sink, tools[i], 0, source);
        graph.AddDirectionalEdge(P + i, sink, tools[i]);
        i := i + 1;
      }
    }

    /** Project `project` needs tool `tool`: an edge between them no cut can afford. */
    method AddDependency(project: int, tool: int)
      requires Valid() && 0 <= project < P && 0 <= tool < T
      modifies graph`adj
      ensures Valid() && graph.adj == Added(old(graph.adj), project, P + tool, MaxCost, 0)
      ensures graph.adj[source] == old(graph.adj[source])
    {
      AddedElsewhere(graph.adj, project, P + tool, MaxCost, 0, source);
      graph.AddDirectionalEdge(project, P + tool, MaxCost);
    }

    /** Project `p1` needs every tool project `p2` needs. */
    method AddProjectDependency(p1: int, p2: int)
      requires Valid() && 0 <= p1 < P && 0 <= p2 < P
      modifies graph`adj
      ensures Valid() && graph.adj == Added(old(graph.adj), p1, p2, MaxCost, 0)
      ensures graph.adj[source] == old(graph.adj[source])
    {
      AddedElsewhere(graph.adj, p1, p2, MaxCost, 0, source);
      graph.AddDirectionalEdge(p1, p2, MaxCost);
    }

    /**
     * The best profit: the total reward less the maximum flow from the source
     * to the sink.  On a setup that has sent no flow yet, it is never negative.
     */
    method Solve() returns (profit: int, stalled: bool)
      requires Valid()
      modifies graph`adj, graph`dist, graph`edgeIndex, graph`flowCalled
      ensures Valid() && graph.flowCalled
      ensures Moved(old(graph.adj), graph.adj, source, sink, projectTotal - profit)
      ensures 0 <= projectTotal - profit <= MaxCost
      ensures !stalled ==> projectTotal - profit == MaxCost || sink !in Reachable(graph.adj, source)
      ensures old(Unsolved()) ==> 0 <= profit
      ensures sink !in Reachable(old(graph.adj), source) ==> profit == projectTotal && graph.adj == old(graph.adj)
    {
      ghost var a0 := graph.adj;
      var total;
      total, stalled := graph.Flow(source, sink, MaxCost);
      profit := projectTotal - total;
      forall j | 0 <= j < |graph.adj[source]|
        ensures 0 <= graph.adj[source][j].node < P
      {
        assert EdgeAt(a0, source, j) && ShapeAt(a0, graph.adj, source, j);
      }
      if Net(a0[source]) == 0 {
        FlowWithinBudget(a0, graph.adj, source, sink, total);
      }
    }

    /**
     * The projects worth doing, ascending: those whose edge from the source is
     * not in the minimum cut after the flow.
     */
    method ChosenProjects() returns (result: seq<int>)
      requires Valid() && graph.flowCalled
      modifies graph`reachable
      ensures Valid() && |graph.reachable| == V
      ensures forall v :: 0 <= v < V ==> (graph.reachable[v] <==> v in Reachable(graph.adj, source))
      ensures Ascending(result)
      ensures forall i :: i in result <==> 0 <= i < P && Uncut(graph.adj, graph.reachable, source, i)
    {
      var cut := graph.MinCut(source);
      var chosen := seq(P, _ => true);
      var k := 0;
      while k < |cut|
        modifies {}
        invariant 0 <= k <= |cut| && |chosen| == P
        invariant forall i :: 0 <= i < P ==>
          (chosen[i] <==> forall m :: 0 <= m < k ==> !(cut[m].from == source && cut[m].to == i))
      {
        if cut[k].from == source {
          CutFromSource(cut[k]);
          chosen := chosen[cut[k].to := false];
        }
        k := k + 1;
      }
      forall i | 0 <= i < P
        ensures chosen[i] <==> Uncut(graph.adj, graph.reachable, source, i)
      {
        UncutByCut(cut, i);
      }
      result := [];
      var i := 0;
      while i < P
        modifies {}
        invariant 0 <= i <= P && Ascending(result)
        invariant forall x :: x in result <==> 0 <= x < i && chosen[x]
        invariant forall k :: 0 <= k < |result| ==> result[k] < i
      {
        if chosen[i] {
          result := result + [i];
        }
        i := i + 1;
      }
    }

    /** The projects on the source side of the cut, in ascending order: those worth doing. */
    method SourceSideProjects() returns (result: seq<int>)
      requires Valid()
      modifies graph`reachable
      ensures Valid() && |graph.reachable| == V
      ensures forall v :: 0 <= v < V ==> (graph.reachable[v] <==> v in Reachable(graph.adj, source))
      ensures Ascending(result)
      ensures forall i :: i in result <==> 0 <= i < P && i in Reachable(graph.adj, source)
    {
      graph.SolveReachable(source);
      result := [];
      var i := 0;
      while i < P
        modifies {}
        invariant 0 <= i <= P && Ascending(result)
        invariant forall x :: x in result <==> 0 <= x < i && graph.reachable[x]
        invariant forall k :: 0 <= k < |result| ==> result[k] < i
      {
        if graph.reachable[i] {
          result := result + [i];
        }
        i := i + 1;
      }
    }

    /** An entry of the minimum cut that leaves the source enters a project. */
    lemma CutFromSource(c: CutEdge)
      requires Valid() && |graph.reachable| == V
      requires forall c :: c in Cut(graph.adj, graph.reachable, V) <==>
        exists u, i :: 0 <= u < V && EdgeAt(graph.adj, u, i) && graph.reachable[u] && Crosses(graph.adj[u][i], graph.reachable)
          && c == CutEdge(Used(graph.adj[u][i]), u, graph.adj[u][i].node)
      requires c in Cut(graph.adj, graph.reachable, V) && c.from == source
      ensures 0 <= c.to < P
    {
    }

    /** Project `i` has no cut entry from the source exactly when no edge from the source into it crosses. */
    lemma UncutByCut(cut: seq<CutEdge>, i: int)
      requires Valid() && |graph.reachable| == V && 0 <= i < P && graph.reachable[source]
      requires forall c :: c in cut <==>
        exists u, j :: 0 <= u < V && EdgeAt(graph.adj, u, j) && graph.reachable[u] && Crosses(graph.adj[u][j], graph.reachable)
          && c == CutEdge(Used(graph.adj[u][j]), u, graph.adj[u][j].node)
      ensures (forall m :: 0 <= m < |cut| ==> !(cut[m].from == source && cut[m].to == i))
        <==> Uncut(graph.adj, graph.reachable, source, i)
    {
      if !Uncut(graph.adj, graph.reachable, source, i) {
        var j :| 0 <= j < |graph.adj[source]| && graph.adj[source][j].node == i && Crosses(graph.adj[source][j], graph.reachable);
        var c := CutEdge(Used(graph.adj[source][j]), source, i);
        assert EdgeAt(graph.adj, source, j);
        assert c in cut;
        var m :| 0 <= m < |cut| && cut[m] == c;
      } else {
        forall m | 0 <= m < |cut|
          ensures !(cut[m].from == source && cut[m].to == i)
        {
          assert cut[m] in cut;
          var u, j :| 0 <= u < V && EdgeAt(graph.adj, u, j) && graph.reachable[u] && Crosses(graph.adj[u][j], graph.reachable)
            && cut[m] == CutEdge(Used(graph.adj[u][j]), u, graph.adj[u][j].node);
        }
      }
    }
  }
}

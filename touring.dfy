/**
 * The tour pass, node by node: where the depth-first walk over a rooted
 * forest (children in list order, trees in increasing order of their root)
 * puts each node's first Euler-tour occurrence, its preorder index, the end
 * of its preorder range, its postorder index and the top of its heavy chain
 * (the chain that continues through first children).  The positions are
 * closed-form ghost functions of the forest; the step lemmas below carry
 * them through one call of the walk.
 */
module Touring {
  import opened Forest
  import opened Tours
  import opened Layout
  import opened Seqs
  import opened Tables
  import opened Rooting

  /** Where `u` first occurs in the forest tour. */
  ghost function FirstPos(f: Tree, u: int): int
    requires IsNode(f, u)
    decreases f.rank[u]
  {
    if f.par[u] < 0 then |ForestTour(f, u)|
    else FirstPos(f, f.par[u]) + 1 + 2 * SizeKids(f, f.par[u], KidIndex(f, u))
  }

  /** `u`'s index in the forest preorder. */
  ghost function StartPos(f: Tree, u: int): int
    requires IsNode(f, u)
    decreases f.rank[u]
  {
    if f.par[u] < 0 then |ForestPre(f, u)|
    else StartPos(f, f.par[u]) + 1 + SizeKids(f, f.par[u], KidIndex(f, u))
  }

  /** The top of `u`'s heavy chain: a first child continues its parent's chain. */
  ghost function TopOf(f: Tree, u: int): int
    requires IsNode(f, u)
    decreases f.rank[u]
  {
    if f.par[u] >= 0 && KidIndex(f, u) == 0 then TopOf(f, f.par[u]) else u
  }

  lemma FirstPosOk(f: Tree, first: seq<int>)
    requires |first| == |f.par| && forall u :: 0 <= u < |f.par| ==> first[u] == FirstPos(f, u)
    ensures FirstOk(f, first)
  {
    forall u | 0 <= u < |f.par|
      ensures FirstAt(f, first, u)
    {
    }
  }

  lemma StartPosOk(f: Tree, start: seq<int>)
    requires |start| == |f.par| && forall u :: 0 <= u < |f.par| ==> start[u] == StartPos(f, u)
    ensures StartOk(f, start)
  {
    forall u | 0 <= u < |f.par|
      ensures StartAt(f, start, u)
    {
    }
  }

  lemma TopOfOk(f: Tree, top: seq<int>)
    requires |top| == |f.par| && forall u :: 0 <= u < |f.par| ==> top[u] == TopOf(f, u)
    ensures forall u :: 0 <= u < |f.par| ==> TopAt(f, top, u)
  {
    forall u | 0 <= u < |f.par|
      ensures TopAt(f, top, u)
    {
    }
  }

  /** The per-node tables the tour pass writes. */
  datatype TourView = TourView(first: seq<int>, start: seq<int>, end: seq<int>, post: seq<int>, top: seq<int>)

  ghost predicate TSized(w: TourView, n: int)
  {
    |w.first| == n && |w.start| == n && |w.end| == n && |w.post| == n && |w.top| == n
  }

  /** What the tour pass leaves behind at a node it has finished. */
  ghost predicate TDone(f: Tree, w: TourView, u: int)
  {
    && TSized(w, |f.par|) && IsNode(f, u)
    && w.first[u] == FirstPos(f, u)
    && w.start[u] == StartPos(f, u)
    && w.top[u] == TopOf(f, u)
    && w.end[u] == StartPos(f, u) + Size(f, u)
    && w.post[u] == StartPos(f, u) + Size(f, u) - 1 - Depth(f, u)
  }

  /** Nothing recorded for `u` differs between `w` and `x`. */
  ghost predicate TSame(w: TourView, x: TourView, u: int)
  {
    && 0 <= u < |w.first| && 0 <= u < |x.first|
    && 0 <= u < |w.start| && 0 <= u < |x.start|
    && 0 <= u < |w.end| && 0 <= u < |x.end|
    && 0 <= u < |w.post| && 0 <= u < |x.post|
    && 0 <= u < |w.top| && 0 <= u < |x.top|
    && w.first[u] == x.first[u] && w.start[u] == x.start[u] && w.end[u] == x.end[u]
    && w.post[u] == x.post[u] && w.top[u] == x.top[u]
  }

  /** Which child's subtree of `node` the descendant `u` sits in, as a position among the children. */
  ghost function KidSlot(f: Tree, node: int, u: int): int
    requires IsNode(f, u) && Anc(f, node, u) && u != node
  {
    IndexOf(f.kids[node], ChildToward(f, node, u))
  }

  lemma KidSlotOfChild(f: Tree, node: int, i: int, u: int)
    requires Complete(f) && IsNode(f, node) && 0 <= i < |f.kids[node]|
    requires IsNode(f, u) && Anc(f, f.kids[node][i], u)
    ensures Anc(f, node, u) && u != node && KidSlot(f, node, u) == i
  {
    ChildTowardOfChild(f, node, f.kids[node][i], u);
    assert Distinct(f.kids[node]);
    IndexOfDistinct(f.kids[node], i);
  }

  lemma KidSlotInRange(f: Tree, node: int, u: int)
    requires Complete(f) && IsNode(f, u) && Anc(f, node, u) && u != node
    ensures 0 <= KidSlot(f, node, u) < |f.kids[node]|
    ensures Anc(f, f.kids[node][KidSlot(f, node, u)], u)
  {
    var c := ChildToward(f, node, u);
    assert c in f.kids[node];
  }

  /**
   * Inside `node`: its own first occurrence, preorder index and chain top are
   * recorded, the subtrees of its first `i` children are finished, and every
   * other node is as it was in `w0`.
   */
  ghost predicate TProgress(f: Tree, w0: TourView, w: TourView, node: int, i: int)
  {
    && TSized(w, |f.par|) && IsNode(f, node)
    && w.first[node] == FirstPos(f, node)
    && w.start[node] == StartPos(f, node)
    && w.top[node] == TopOf(f, node)
    && (forall u :: 0 <= u < |f.par| && Anc(f, node, u) && u != node ==>
          (KidSlot(f, node, u) < i ==> TDone(f, w, u)) &&
          (KidSlot(f, node, u) >= i ==> TSame(w0, w, u)))
    && (forall u :: 0 <= u < |f.par| && !Anc(f, node, u) ==> TSame(w0, w, u))
  }

  /** Recording `node`'s own three entries starts the walk below it. */
  lemma TEnterOk(f: Tree, w0: TourView, w: TourView, node: int)
    requires TSized(w0, |f.par|) && IsNode(f, node)
    requires w == w0.(first := w0.first[node := FirstPos(f, node)],
                      start := w0.start[node := StartPos(f, node)],
                      top := w0.top[node := TopOf(f, node)])
    ensures TProgress(f, w0, w, node, 0)
  {
  }

  /**
   * Leaving the `i`th child `c`: the walk below `c` finished its subtree and
   * turned `w1` into `w2` without touching anything else.
   */
  lemma TChildDone(f: Tree, w0: TourView, w1: TourView, w2: TourView, node: int, i: int)
    requires Complete(f) && IsNode(f, node) && 0 <= i < |f.kids[node]|
    requires TProgress(f, w0, w1, node, i) && TSized(w2, |f.par|)
    requires forall u :: 0 <= u < |f.par| && Anc(f, f.kids[node][i], u) ==> TDone(f, w2, u)
    requires forall u :: 0 <= u < |f.par| && !Anc(f, f.kids[node][i], u) ==> TSame(w1, w2, u)
    ensures TProgress(f, w0, w2, node, i + 1)
  {
    var c := f.kids[node][i];
    if Anc(f, c, node) {
      AncRank(f, c, node);
    }
    assert TSame(w1, w2, node);
    forall u | 0 <= u < |f.par| && Anc(f, node, u) && u != node
      ensures (KidSlot(f, node, u) < i + 1 ==> TDone(f, w2, u)) &&
              (KidSlot(f, node, u) >= i + 1 ==> TSame(w0, w2, u))
    {
      KidSlotInRange(f, node, u);
      if Anc(f, c, u) {
        KidSlotOfChild(f, node, i, u);
      } else {
        assert TSame(w1, w2, u);
      }
    }
    forall u | 0 <= u < |f.par| && !Anc(f, node, u)
      ensures TSame(w0, w2, u)
    {
      if Anc(f, c, u) {
        ChildTowardOfChild(f, node, c, u);
      }
      assert TSame(w1, w2, u);
    }
  }

  /** After the last child, recording the end of the range and the postorder index finishes `node`. */
  lemma TNodeDone(f: Tree, w0: TourView, w: TourView, x: TourView, node: int, tr: int, pt: int)
    requires Complete(f) && IsNode(f, node) && TProgress(f, w0, w, node, |f.kids[node]|)
    requires tr == StartPos(f, node) + Size(f, node) && pt == StartPos(f, node) + Size(f, node) - 1 - Depth(f, node)
    requires x == w.(end := w.end[node := tr], post := w.post[node := pt])
    ensures forall u :: 0 <= u < |f.par| && Anc(f, node, u) ==> TDone(f, x, u)
    ensures forall u :: 0 <= u < |f.par| && !Anc(f, node, u) ==> TSame(w0, x, u)
  {
    forall u | 0 <= u < |f.par| && Anc(f, node, u)
      ensures TDone(f, x, u)
    {
      if u != node {
        KidSlotInRange(f, node, u);
        assert TDone(f, w, u);
      }
    }
  }

  /** `s` with the block starting at `at` overwritten by `t`. */
  function Splice(s: seq<int>, at: int, t: seq<int>): (r: seq<int>)
    requires 0 <= at && at + |t| <= |s|
    ensures |r| == |s|
    ensures forall p :: 0 <= p < |t| ==> r[at + p] == t[p]
    ensures forall p :: 0 <= p < |s| && !(at <= p < at + |t|) ==> r[p] == s[p]
  {
    s[..at] + t + s[at + |t|..]
  }

  lemma SpliceOne(s: seq<int>, at: int, x: int)
    requires 0 <= at < |s|
    ensures s[at := x] == Splice(s, at, [x])
  {
  }

  /** Writing `x` and then `y` right after it writes `x + y`. */
  lemma SpliceTwice(s: seq<int>, at: int, x: seq<int>, y: seq<int>)
    requires 0 <= at && at + |x| + |y| <= |s|
    ensures Splice(Splice(s, at, x), at + |x|, y) == Splice(s, at, x + y)
  {
    var l := Splice(Splice(s, at, x), at + |x|, y);
    var r := Splice(s, at, x + y);
    forall p | 0 <= p < |s|
      ensures l[p] == r[p]
    {
      if at <= p < at + |x| {
        assert l[p] == x[p - at] == (x + y)[p - at];
      } else if at + |x| <= p < at + |x| + |y| {
        assert l[p] == y[p - at - |x|] == (x + y)[p - at];
      }
    }
  }
  /** One more child extends the tour written so far. */
  lemma EulerStep(f: Tree, node: int, i: int, e0: seq<int>)
    requires IsNode(f, node) && 0 <= i < |f.kids[node]|
    ensures e0 + [node] + EulerKids(f, node, i) + Euler(f, f.kids[node][i]) + [node] == e0 + [node] + EulerKids(f, node, i + 1)
  {
    var a, b := EulerKids(f, node, i), Euler(f, f.kids[node][i]);
    assert EulerKids(f, node, i + 1) == a + b + [node];
    assert e0 + [node] + (a + b + [node]) == e0 + [node] + a + b + [node];
  }

  /** One more child extends the preorder written so far. */
  lemma PreStep(f: Tree, node: int, i: int, l0: seq<int>, t0: int)
    requires IsNode(f, node) && 0 <= i < |f.kids[node]|
    requires 0 <= t0 && t0 + Size(f, node) <= |l0|
    ensures SizeKids(f, node, i + 1) == SizeKids(f, node, i) + Size(f, f.kids[node][i])
    ensures t0 + 1 + SizeKids(f, node, i + 1) <= t0 + Size(f, node)
    ensures Splice(Splice(l0, t0, [node] + PreKids(f, node, i)), t0 + 1 + SizeKids(f, node, i), Pre(f, f.kids[node][i]))
         == Splice(l0, t0, [node] + PreKids(f, node, i + 1))
  {
    SizeKidsMonotone(f, node, i + 1, |f.kids[node]|);
    var a, b := PreKids(f, node, i), Pre(f, f.kids[node][i]);
    var x := [node] + a;
    assert |x| == 1 + SizeKids(f, node, i);
    assert PreKids(f, node, i + 1) == a + b;
    assert x + b == [node] + PreKids(f, node, i + 1);
    SpliceTwice(l0, t0, x, b);
  }

  /** One more child, for the tour `eu`, list `tl` and counter `tr` written so far. */
  lemma WalkStep(f: Tree, node: int, i: int, e0: seq<int>, l0: seq<int>, t0: int, eu: seq<int>, tl: seq<int>, tr: int)
    requires IsNode(f, node) && 0 <= i < |f.kids[node]|
    requires 0 <= t0 && t0 + Size(f, node) <= |l0|
    requires eu == e0 + [node] + EulerKids(f, node, i)
    requires tr == t0 + 1 + SizeKids(f, node, i) && tr <= t0 + Size(f, node)
    requires tl == Splice(l0, t0, [node] + PreKids(f, node, i))
    ensures SizeKids(f, node, i + 1) == SizeKids(f, node, i) + Size(f, f.kids[node][i])
    ensures t0 + 1 + SizeKids(f, node, i + 1) <= t0 + Size(f, node)
    ensures eu + Euler(f, f.kids[node][i]) + [node] == e0 + [node] + EulerKids(f, node, i + 1)
    ensures 0 <= tr && tr + Size(f, f.kids[node][i]) <= |tl|
    ensures Splice(tl, tr, Pre(f, f.kids[node][i])) == Splice(l0, t0, [node] + PreKids(f, node, i + 1))
  {
    EulerStep(f, node, i, e0);
    PreStep(f, node, i, l0, t0);
  }

  /** After the last child, what was written is `node`'s whole tour and preorder. */
  lemma WalkDone(f: Tree, node: int, e0: seq<int>)
    requires IsNode(f, node)
    ensures e0 + [node] + EulerKids(f, node, |f.kids[node]|) == e0 + Euler(f, node)
    ensures [node] + PreKids(f, node, |f.kids[node]|) == Pre(f, node)
    ensures 1 + SizeKids(f, node, |f.kids[node]|) == Size(f, node)
  {
  }
  /**
   * The walk is inside `node` after its first `i` children, with tables `w`,
   * tour `eu`, list `tl` and counters `tr` and `pt`; it found the tables
   * `w0`, the tour `e0`, the list `l0` and the counter at `t0`.
   */
  ghost predicate Walking(f: Tree, w0: TourView, w: TourView, eu: seq<int>, tl: seq<int>, tr: int, pt: int,
                          node: int, i: int, e0: seq<int>, l0: seq<int>, t0: int)
  {
    && IsNode(f, node) && 0 <= i <= |f.kids[node]|
    && 0 <= t0 && t0 + Size(f, node) <= |l0| && |e0| == FirstPos(f, node) && t0 == StartPos(f, node)
    && TProgress(f, w0, w, node, i)
    && eu == e0 + [node] + EulerKids(f, node, i)
    && tr == t0 + 1 + SizeKids(f, node, i) && pt == t0 - Depth(f, node) + SizeKids(f, node, i)
    && tr <= t0 + Size(f, node)
    && tl == Splice(l0, t0, [node] + PreKids(f, node, i))
  }

  /** Entering `node`: its three entries recorded, itself pushed on the tour and written to the list. */
  lemma WalkStart(f: Tree, w0: TourView, w: TourView, eu: seq<int>, tl: seq<int>, tr: int, pt: int,
                  node: int, e0: seq<int>, l0: seq<int>, t0: int)
    requires TSized(w0, |f.par|) && IsNode(f, node)
    requires |e0| == FirstPos(f, node) && t0 == StartPos(f, node) && 0 <= t0 && t0 + Size(f, node) <= |l0|
    requires w == w0.(first := w0.first[node := FirstPos(f, node)],
                      start := w0.start[node := StartPos(f, node)],
                      top := w0.top[node := TopOf(f, node)])
    requires eu == e0 + [node] && tl == l0[t0 := node] && tr == t0 + 1 && pt == t0 - Depth(f, node)
    ensures Walking(f, w0, w, eu, tl, tr, pt, node, 0, e0, l0, t0)
  {
    TEnterOk(f, w0, w, node);
    SpliceOne(l0, t0, node);
  }

  /** Before the `i`th child: the child's own entry conditions hold. */
  lemma ChildEntry(f: Tree, w0: TourView, w: TourView, eu: seq<int>, tl: seq<int>, tr: int, pt: int,
                   node: int, i: int, e0: seq<int>, l0: seq<int>, t0: int)
    requires Complete(f) && Walking(f, w0, w, eu, tl, tr, pt, node, i, e0, l0, t0) && i < |f.kids[node]|
    ensures IsNode(f, f.kids[node][i]) && f.par[f.kids[node][i]] == node && KidIndex(f, f.kids[node][i]) == i
    ensures Height(f, f.kids[node][i]) < Height(f, node)
    ensures TSized(w, |f.par|) && w.top[node] == TopOf(f, node)
    ensures |eu| == FirstPos(f, f.kids[node][i]) && tr == StartPos(f, f.kids[node][i])
    ensures pt == tr - Depth(f, f.kids[node][i])
    ensures 0 <= tr && tr + Size(f, f.kids[node][i]) <= |tl|
  {
    assert Distinct(f.kids[node]);
    IndexOfDistinct(f.kids[node], i);
    SizeKidsMonotone(f, node, i + 1, |f.kids[node]|);
  }

  /** After the `i`th child `c`: its subtree is laid out right after what came before. */
  lemma ChildExit(f: Tree, w0: TourView, w: TourView, eu: seq<int>, tl: seq<int>, tr: int, pt: int,
                  w2: TourView, eu2: seq<int>, tl2: seq<int>, tr2: int, pt2: int,
                  node: int, i: int, e0: seq<int>, l0: seq<int>, t0: int)
    requires Complete(f) && Walking(f, w0, w, eu, tl, tr, pt, node, i, e0, l0, t0) && i < |f.kids[node]|
    requires 0 <= tr && tr + Size(f, f.kids[node][i]) <= |tl|
    requires TSized(w2, |f.par|)
    requires forall u :: 0 <= u < |f.par| && Anc(f, f.kids[node][i], u) ==> TDone(f, w2, u)
    requires forall u :: 0 <= u < |f.par| && !Anc(f, f.kids[node][i], u) ==> TSame(w, w2, u)
    requires eu2 == eu + Euler(f, f.kids[node][i]) + [node]
    requires tr2 == tr + Size(f, f.kids[node][i]) && pt2 == pt + Size(f, f.kids[node][i])
    requires tl2 == Splice(tl, tr, Pre(f, f.kids[node][i]))
    ensures Walking(f, w0, w2, eu2, tl2, tr2, pt2, node, i + 1, e0, l0, t0)
  {
    WalkStep(f, node, i, e0, l0, t0, eu, tl, tr);
    TChildDone(f, w0, w, w2, node, i);
    WalkingOf(f, w0, w2, eu2, tl2, tr2, pt2, node, i + 1, e0, l0, t0);
  }

  /** The conjuncts of `Walking`, one by one. */
  lemma WalkingOf(f: Tree, w0: TourView, w: TourView, eu: seq<int>, tl: seq<int>, tr: int, pt: int,
                  node: int, i: int, e0: seq<int>, l0: seq<int>, t0: int)
    requires IsNode(f, node) && 0 <= i <= |f.kids[node]|
    requires 0 <= t0 && t0 + Size(f, node) <= |l0| && |e0| == FirstPos(f, node) && t0 == StartPos(f, node)
    requires TProgress(f, w0, w, node, i)
    requires eu == e0 + [node] + EulerKids(f, node, i)
    requires tr == t0 + 1 + SizeKids(f, node, i) && pt == t0 - Depth(f, node) + SizeKids(f, node, i)
    requires tr <= t0 + Size(f, node)
    requires tl == Splice(l0, t0, [node] + PreKids(f, node, i))
    ensures Walking(f, w0, w, eu, tl, tr, pt, node, i, e0, l0, t0)
  {
  }

  /** After the last child: recording the range end and postorder index finishes `node`. */
  lemma WalkEnd(f: Tree, w0: TourView, w: TourView, eu: seq<int>, tl: seq<int>, tr: int, pt: int, x: TourView,
                node: int, e0: seq<int>, l0: seq<int>, t0: int)
    requires Complete(f) && IsNode(f, node) && Walking(f, w0, w, eu, tl, tr, pt, node, |f.kids[node]|, e0, l0, t0)
    requires x == w.(end := w.end[node := tr], post := w.post[node := pt])
    ensures TSized(x, |f.par|)
    ensures eu == e0 + Euler(f, node)
    ensures tr == t0 + Size(f, node) && pt + 1 == t0 - Depth(f, node) + Size(f, node)
    ensures tl == Splice(l0, t0, Pre(f, node))
    ensures forall u :: 0 <= u < |f.par| && Anc(f, node, u) ==> TDone(f, x, u)
    ensures forall u :: 0 <= u < |f.par| && !Anc(f, node, u) ==> TSame(w0, x, u)
  {
    WalkDone(f, node, e0);
    TNodeDone(f, w0, w, x, node, tr, pt);
  }
}

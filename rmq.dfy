/**
 * Sparse-table range-minimum (or range-maximum) index over a fixed sequence
 * of integers.  `rangeLow[k][i]` is the index of the best value in the window
 * [i, i + 2^k); a query combines two possibly overlapping power-of-two windows.
 * Among equal values the LATER index wins, both when comparing two indices and,
 * as proved here, for the whole range.
 */
module SparseTable {

  function Pow2(k: nat): (r: nat)
    ensures r >= 1
  {
    if k == 0 then 1 else 2 * Pow2(k - 1)
  }

  lemma {:induction false} Pow2Monotone(i: nat, j: nat)
    requires i <= j
    ensures Pow2(i) <= Pow2(j)
  {
    if i < j {
      Pow2Monotone(i, j - 1);
    }
  }

  /** floor(log2 x) for x > 0, and -1 for x == 0. */
  function HighestBit(x: nat): (r: int)
    ensures x == 0 <==> r == -1
    ensures x > 0 ==> 0 <= r && Pow2(r) <= x < Pow2(r + 1)
  {
    if x <= 1 then x - 1 else 1 + HighestBit(x / 2)
  }

  lemma HighestBitMonotone(x: nat, y: nat)
    requires 0 < x <= y
    ensures HighestBit(x) <= HighestBit(y)
  {
    if HighestBit(y) < HighestBit(x) {
      Pow2Monotone(HighestBit(y) + 1, HighestBit(x));
    }
  }

  /** Value `x` is strictly better than value `y`. */
  predicate Beats(maximumMode: bool, x: int, y: int)
  {
    if maximumMode then y < x else x < y
  }

  /**
   * `r` is the LATEST index in [a, b) holding a best value of `v`:
   * nothing in the range beats it, and it beats everything after it.
   */
  ghost predicate IsLatestBest(v: seq<int>, maximumMode: bool, a: int, b: int, r: int)
  {
    && 0 <= a <= r < b <= |v|
    && (forall j :: a <= j < b ==> !Beats(maximumMode, v[j], v[r]))
    && (forall j :: r < j < b ==> Beats(maximumMode, v[r], v[j]))
  }

  /** Row `k` of the table: the best index of every window of length 2^k. */
  ghost predicate LevelOk(v: seq<int>, maximumMode: bool, k: nat, row: seq<int>)
  {
    && |row| == |v| - Pow2(k) + 1
    && forall i :: 0 <= i < |row| ==> IsLatestBest(v, maximumMode, i, i + Pow2(k), row[i])
  }

  /** The index with the better value; on equal values the second one. */
  function Better(v: seq<int>, maximumMode: bool, x: int, y: int): (r: int)
    requires 0 <= x < |v| && 0 <= y < |v|
    ensures r == x || r == y
    ensures v[x] == v[y] ==> r == y
    ensures !Beats(maximumMode, v[x], v[r]) && !Beats(maximumMode, v[y], v[r])
  {
    if Beats(maximumMode, v[x], v[y]) then x else y
  }

  /**
   * Two windows [a, m) and [c, b) that together cover [a, b) without a gap
   * combine into the answer for [a, b); they may overlap.
   */
  lemma CombineWindows(v: seq<int>, maximumMode: bool, a: int, m: int, c: int, b: int, x: int, y: int)
    requires IsLatestBest(v, maximumMode, a, m, x)
    requires IsLatestBest(v, maximumMode, c, b, y)
    requires a <= c <= m <= b
    ensures IsLatestBest(v, maximumMode, a, b, Better(v, maximumMode, x, y))
  {
  }

  /** Row 0: every window of length 1 is its own best index. */
  method FirstLevel(v: seq<int>, maximumMode: bool) returns (row: seq<int>)
    requires |v| > 0
    ensures LevelOk(v, maximumMode, 0, row)
  {
    row := [];
    for i := 0 to |v|
      invariant |row| == i
      invariant forall j :: 0 <= j < i ==> row[j] == j
    {
      row := row + [i];
    }
  }

  /** Row k from row k - 1: each window is two adjacent half-length windows. */
  method NextLevel(v: seq<int>, maximumMode: bool, k: nat, prev: seq<int>) returns (row: seq<int>)
    requires 0 < k && Pow2(k) <= |v|
    requires LevelOk(v, maximumMode, k - 1, prev)
    ensures LevelOk(v, maximumMode, k, row)
  {
    var half := Pow2(k - 1);
    row := [];
    var i := 0;
    while i <= |v| - Pow2(k)
      invariant 0 <= i <= |v| - Pow2(k) + 1
      invariant |row| == i
      invariant forall j :: 0 <= j < i ==> IsLatestBest(v, maximumMode, j, j + Pow2(k), row[j])
    {
      CombineWindows(v, maximumMode, i, i + half, i + half, i + Pow2(k), prev[i], prev[i + half]);
      row := row + [Better(v, maximumMode, prev[i], prev[i + half])];
      i := i + 1;
    }
  }

  class Rmq {
    const maximumMode: bool
    var n: int
    var values: seq<int>
    var rangeLow: seq<seq<int>>

    ghost predicate Valid()
      reads this
    {
      && n == |values|
      && |rangeLow| == HighestBit(n) + 1
      && forall k :: 0 <= k < |rangeLow| ==> LevelOk(values, maximumMode, k, rangeLow[k])
    }

    /** The table over `vals`; `WeightedLca` builds it over a non-empty tour, and building [] gives the empty table. */
    constructor (maximumMode: bool, vals: seq<int>)
      ensures Valid() && this.maximumMode == maximumMode && values == vals
    {
      this.maximumMode := maximumMode;
      n := 0;
      values := [];
      rangeLow := [];
      new;
      if |vals| > 0 {
        Build(vals);
      }
    }

    method Build(vals: seq<int>)
      modifies this
      ensures Valid() && values == vals
    {
      var len := |vals|;
      var levels := HighestBit(len) + 1;
      var table: seq<seq<int>> := [];
      if levels > 0 {
        var row0 := FirstLevel(vals, maximumMode);
        table := [row0];
        for k := 1 to levels
          invariant |table| == k
          invariant forall kk :: 0 <= kk < k ==> LevelOk(vals, maximumMode, kk, table[kk])
        {
          Pow2Monotone(k, levels - 1);
          var row := NextLevel(vals, maximumMode, k, table[k - 1]);
          table := table + [row];
        }
      }
      values, n, rangeLow := vals, len, table;
    }

    /** Index of the best value in [a, b), the latest one among equals. */
    function QueryIndex(a: int, b: int): (r: int)
      reads this
      requires Valid() && 0 <= a < b <= n
      ensures IsLatestBest(values, maximumMode, a, b, r)
    {
      var level := HighestBit(b - a);
      HighestBitMonotone(b - a, n);
      assert LevelOk(values, maximumMode, level, rangeLow[level]);
      CombineWindows(values, maximumMode, a, a + Pow2(level), b - Pow2(level), b,
                     rangeLow[level][a], rangeLow[level][b - Pow2(level)]);
      Better(values, maximumMode, rangeLow[level][a], rangeLow[level][b - Pow2(level)])
    }

    /** The best value in [a, b). */
    function QueryValue(a: int, b: int): (r: int)
      reads this
      requires Valid() && 0 <= a < b <= n
      ensures exists j :: a <= j < b && values[j] == r
      ensures forall j :: a <= j < b ==> !Beats(maximumMode, values[j], r)
    {
      values[QueryIndex(a, b)]
    }
  }
}

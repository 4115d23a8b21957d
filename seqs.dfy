/**
 * The standard-library sequence operations the tree code relies on: sorting
 * by a key, merging two sorted runs, removing adjacent duplicates, reversing,
 * counting the elements of a duplicate-free sequence, and resizing a vector.
 */
module Seqs {

  /** `s` cut or zero-padded to length `n`, as a vector resize does. */
  function Resize(s: seq<int>, n: nat): (r: seq<int>)
    ensures |r| == n
  {
    if n <= |s| then s[..n] else s + seq(n - |s|, _ => 0)
  }

  /** A resize keeps the entries that fit and pads with zeros. */
  lemma ResizeKeeps(s: seq<int>, n: nat)
    ensures forall i :: 0 <= i < n && i < |s| ==> Resize(s, n)[i] == s[i]
    ensures forall i :: |s| <= i < n ==> Resize(s, n)[i] == 0
  {
  }

  ghost predicate SortedBy<T>(s: seq<T>, key: T -> int)
  {
    forall i, j :: 0 <= i < j < |s| ==> key(s[i]) <= key(s[j])
  }

  ghost predicate Distinct(s: seq<int>)
  {
    forall i, j :: 0 <= i < j < |s| ==> s[i] != s[j]
  }

  /** `s` with `x` placed after every element whose key does not exceed x's. */
  function Insert<T>(s: seq<T>, x: T, key: T -> int): (r: seq<T>)
    requires SortedBy(s, key)
    ensures multiset(r) == multiset(s) + multiset{x}
    ensures |r| == |s| + 1
    ensures SortedBy(r, key)
  {
    if |s| == 0 then [x]
    else if key(x) < key(s[0]) then [x] + s
    else
      var t := Insert(s[1..], x, key);
      InsertHead(s, x, key, t);
      [s[0]] + t
  }

  lemma InsertHead<T>(s: seq<T>, x: T, key: T -> int, t: seq<T>)
    requires SortedBy(s, key) && |s| > 0 && key(s[0]) <= key(x)
    requires multiset(t) == multiset(s[1..]) + multiset{x} && SortedBy(t, key)
    ensures multiset([s[0]] + t) == multiset(s) + multiset{x}
    ensures SortedBy([s[0]] + t, key)
  {
    assert s == [s[0]] + s[1..];
    forall k | 0 <= k < |t|
      ensures key(s[0]) <= key(t[k])
    {
      assert t[k] in multiset(t);
      if t[k] != x {
        assert t[k] in multiset(s[1..]);
        var j :| 0 <= j < |s[1..]| && s[1..][j] == t[k];
        assert s[j + 1] == t[k];
      }
    }
  }

  /** Sorting by a key (insertion sort) in place of the library sort, which promises the same two facts. */
  method SortByKey<T>(s: seq<T>, key: T -> int) returns (r: seq<T>)
    ensures multiset(r) == multiset(s)
    ensures SortedBy(r, key)
  {
    r := [];
    for i := 0 to |s|
      invariant multiset(r) == multiset(s[..i])
      invariant SortedBy(r, key)
    {
      assert s[..i + 1] == s[..i] + [s[i]];
      r := Insert(r, s[i], key);
    }
    assert s[..|s|] == s;
  }

  /** Stable merge of two sorted runs: on equal keys the element of `a` comes first. */
  function Merge<T>(a: seq<T>, b: seq<T>, key: T -> int): (r: seq<T>)
    requires SortedBy(a, key) && SortedBy(b, key)
    ensures multiset(r) == multiset(a) + multiset(b)
    ensures |r| == |a| + |b|
    ensures SortedBy(r, key)
    ensures |r| > 0 && |a| > 0 && |b| > 0 ==> r[0] == a[0] || r[0] == b[0]
    decreases |a| + |b|
  {
    if |a| == 0 then b
    else if |b| == 0 then a
    else if key(b[0]) < key(a[0]) then
      SortedFirst(a, key);
      SortedFirst(b, key);
      var t := Merge(a, b[1..], key);
      MergeHead(a, b[1..], key, t, b[0]);
      [b[0]] + t
    else
      SortedFirst(a, key);
      SortedFirst(b, key);
      var t := Merge(a[1..], b, key);
      MergeHead(a[1..], b, key, t, a[0]);
      [a[0]] + t
  }

  /** The first element of a sorted sequence has the least key, and the rest is sorted. */
  lemma SortedFirst<T>(s: seq<T>, key: T -> int)
    requires SortedBy(s, key) && |s| > 0
    ensures s == [s[0]] + s[1..] && SortedBy(s[1..], key)
    ensures forall k :: 0 <= k < |s| ==> key(s[0]) <= key(s[k])
    ensures forall k :: 0 <= k < |s| - 1 ==> key(s[0]) <= key(s[1..][k])
  {
  }

  /** An element no greater than what is left to merge can go in front. */
  lemma MergeHead<T>(a: seq<T>, b: seq<T>, key: T -> int, t: seq<T>, x: T)
    requires SortedBy(a, key) && SortedBy(b, key)
    requires multiset(t) == multiset(a) + multiset(b) && SortedBy(t, key)
    requires forall k :: 0 <= k < |a| ==> key(x) <= key(a[k])
    requires forall k :: 0 <= k < |b| ==> key(x) <= key(b[k])
    ensures SortedBy([x] + t, key)
    ensures multiset([x] + t) == multiset{x} + multiset(a) + multiset(b) && |[x] + t| == 1 + |t|
  {
    forall k | 0 <= k < |t|
      ensures key(x) <= key(t[k])
    {
      assert t[k] in multiset(t);
      if t[k] in multiset(a) {
        var j :| 0 <= j < |a| && a[j] == t[k];
      } else {
        assert t[k] in multiset(b);
        var j :| 0 <= j < |b| && b[j] == t[k];
      }
    }
  }

  /** One more element of `s` extends its prefix of length `i`. */
  lemma PrefixExtend<T>(s: seq<T>, i: int)
    requires 0 <= i < |s|
    ensures s[..i + 1] == s[..i] + [s[i]]
  {
  }

  /** Removes every element equal to the one before it (the library `unique`). */
  function Unique(s: seq<int>): (r: seq<int>)
    ensures |r| <= |s|
    ensures forall x :: x in r <==> x in s
    ensures forall i :: 0 <= i < |r| - 1 ==> r[i] != r[i + 1]
    ensures |s| > 0 ==> |r| > 0 && r[0] == s[0]
  {
    if |s| <= 1 then s
    else
      var t := Unique(s[1..]);
      assert s == [s[0]] + s[1..];
      assert forall x :: x in s <==> x == s[0] || x in s[1..];
      if s[0] == s[1] then t else [s[0]] + t
  }

  /** A sequence sorted by a key that no two different elements share repeats nothing once `Unique` is applied. */
  lemma UniqueOfSortedIsStrict(s: seq<int>, key: int -> int)
    requires SortedBy(s, key)
    requires forall i, j :: 0 <= i < |s| && 0 <= j < |s| && key(s[i]) == key(s[j]) ==> s[i] == s[j]
    ensures forall i, j :: 0 <= i < j < |Unique(s)| ==> key(Unique(s)[i]) < key(Unique(s)[j])
  {
    if |s| > 1 {
      UniqueOfSortedIsStrict(s[1..], key);
      var t := Unique(s[1..]);
      if s[0] != s[1] {
        forall j | 0 <= j < |t|
          ensures key(s[0]) < key(t[j])
        {
          assert t[j] in s[1..];
          var m :| 1 <= m < |s| && s[m] == t[j];
          assert key(s[0]) <= key(s[m]);
        }
      }
    }
  }

  function Reverse<T>(s: seq<T>): (r: seq<T>)
    ensures |r| == |s|
    ensures forall i :: 0 <= i < |s| ==> r[i] == s[|s| - 1 - i]
  {
    if |s| == 0 then [] else Reverse(s[1..]) + [s[0]]
  }

  // ---------------------------------------------------------------------------
  // Counting

  ghost function Range(n: nat): (r: set<int>)
    ensures |r| == n
    ensures forall x :: x in r <==> 0 <= x < n
  {
    if n == 0 then {} else Range(n - 1) + {n - 1}
  }

  lemma {:induction false} DistinctElems(s: seq<int>)
    requires Distinct(s)
    ensures |set x | x in s| == |s|
  {
    if |s| > 0 {
      var t := s[..|s| - 1];
      assert Distinct(t);
      DistinctElems(t);
      assert (set x | x in s) == (set x | x in t) + {s[|s| - 1]};
      assert s[|s| - 1] !in t;
    }
  }

  lemma SubsetCard(a: set<int>, b: set<int>)
    requires a <= b
    ensures |a| <= |b|
  {
    assert b == a + (b - a);
    assert a * (b - a) == {};
  }

  /** A duplicate-free sequence of nodes 0 .. n-1 has at most n entries, and exactly n when it has them all. */
  lemma DistinctNodes(s: seq<int>, n: nat)
    requires Distinct(s)
    requires forall k :: 0 <= k < |s| ==> 0 <= s[k] < n
    ensures |s| <= n
    ensures (forall u :: 0 <= u < n ==> u in s) ==> |s| == n
  {
    DistinctElems(s);
    var e := set x | x in s;
    var all := Range(n);
    assert e <= all;
    SubsetCard(e, all);
    if forall u :: 0 <= u < n ==> u in s {
      forall x | x in all
        ensures x in e
      {
        assert x in s;
      }
      assert e == all;
    }
  }

  lemma DistinctConcat(a: seq<int>, b: seq<int>)
    requires Distinct(a) && Distinct(b)
    requires forall x :: x in a ==> x !in b
    ensures Distinct(a + b)
  {
    var s := a + b;
    forall i, j | 0 <= i < j < |s|
      ensures s[i] != s[j]
    {
      if i < |a| && j >= |a| {
        assert s[i] in a && s[j] == b[j - |a|];
      }
    }
  }

  /** Index of the first occurrence of `x` in `s`, or |s| when there is none. */
  function IndexOf(s: seq<int>, x: int): (r: nat)
    ensures r <= |s|
    ensures r < |s| <==> x in s
    ensures r < |s| ==> s[r] == x
    ensures forall i :: 0 <= i < r ==> s[i] != x
  {
    if |s| == 0 then 0 else if s[0] == x then 0 else 1 + IndexOf(s[1..], x)
  }

  lemma IndexOfDistinct(s: seq<int>, t: int)
    requires Distinct(s) && 0 <= t < |s|
    ensures IndexOf(s, s[t]) == t
  {
  }
}

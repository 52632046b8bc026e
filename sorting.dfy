/**
 * What every bubble sort in the samples is proved against: sortedness, the
 * multiset of elements, a reference insertion sort that is the unique sorted
 * permutation, and the inversion count that bounds the number of passes.
 */
module Sorting {

  /** Non-decreasing. */
  predicate Sorted(s: seq<int>)
  {
    forall i, j :: 0 <= i < j < |s| ==> s[i] <= s[j]
  }

  /** Every adjacent pair before slot `j` is in order. */
  predicate AdjacentUpTo(s: seq<int>, j: int)
  {
    forall k :: 0 <= k < j && k + 1 < |s| ==> s[k] <= s[k + 1]
  }

  /** Every adjacent pair is in order: what a pass without a swap observes. */
  predicate AdjacentSorted(s: seq<int>)
  {
    AdjacentUpTo(s, |s| - 1)
  }

  /** `s` with the cells `i` and `j` exchanged. */
  function Swapped(s: seq<int>, i: nat, j: nat): (r: seq<int>)
    requires i < |s| && j < |s|
    ensures |r| == |s| && r[i] == s[j] && r[j] == s[i]
    ensures forall k :: 0 <= k < |s| && k != i && k != j ==> r[k] == s[k]
  {
    s[i := s[j]][j := s[i]]
  }

  lemma SwappedPermutes(s: seq<int>, i: nat, j: nat)
    requires i < |s| && j < |s|
    ensures multiset(Swapped(s, i, j)) == multiset(s)
  {
  }

  lemma {:induction false} AdjacentChainUpTo(s: seq<int>, m: nat, a: nat, b: nat)
    requires m <= |s| && AdjacentUpTo(s, m - 1) && a <= b < m
    ensures s[a] <= s[b]
    decreases b - a
  {
    if a < b {
      AdjacentChainUpTo(s, m, a + 1, b);
    }
  }

  /** A pass that found every adjacent pair in order has found the whole sequence sorted. */
  lemma AdjacentSortedIsSorted(s: seq<int>)
    requires AdjacentSorted(s)
    ensures Sorted(s)
  {
    forall i, j | 0 <= i < j < |s|
      ensures s[i] <= s[j]
    {
      AdjacentChainUpTo(s, |s|, i, j);
    }
  }

  /** Insert `x` in front of the first element not smaller than it. */
  function Insert(x: int, s: seq<int>): (r: seq<int>)
    ensures multiset(r) == multiset(s) + multiset{x}
    ensures |r| == |s| + 1 && (r[0] == x || (|s| > 0 && r[0] == s[0]))
  {
    if s == [] || x <= s[0] then
      [x] + s
    else
      assert s == [s[0]] + s[1..];
      [s[0]] + Insert(x, s[1..])
  }

  lemma {:induction false} InsertSorted(x: int, s: seq<int>)
    requires Sorted(s)
    ensures Sorted(Insert(x, s))
  {
    if s != [] && x > s[0] {
      InsertSorted(x, s[1..]);
      SortedCons(s[0], Insert(x, s[1..]));
    }
  }

  lemma SortedCons(x: int, t: seq<int>)
    requires Sorted(t) && (|t| > 0 ==> x <= t[0])
    ensures Sorted([x] + t)
  {
    var r := [x] + t;
    forall i, j | 0 <= i < j < |r|
      ensures r[i] <= r[j]
    {
      if i == 0 {
        assert r[j] == t[j - 1] && t[0] <= t[j - 1];
      } else {
        assert r[i] == t[i - 1] && r[j] == t[j - 1];
      }
    }
  }

  /** The reference sort: insertion sort, independent of the bubble sorts. */
  function Sort(s: seq<int>): (r: seq<int>)
    ensures Sorted(r)
    ensures multiset(r) == multiset(s)
  {
    if s == [] then
      []
    else
      assert s == [s[0]] + s[1..];
      InsertSorted(s[0], Sort(s[1..]));
      Insert(s[0], Sort(s[1..]))
  }

  lemma SortedHeadIsLeast(s: seq<int>, x: int)
    requires Sorted(s) && x in multiset(s)
    ensures |s| > 0 && s[0] <= x
  {
    var k :| 0 <= k < |s| && s[k] == x;
  }

  /** Two sorted sequences with the same elements are the same sequence. */
  lemma {:induction false} SortedPermutationUnique(a: seq<int>, b: seq<int>)
    requires Sorted(a) && Sorted(b)
    requires multiset(a) == multiset(b)
    ensures a == b
  {
    if a == [] {
      assert |multiset(b)| == 0;
    } else {
      assert a[0] in multiset(a);
      SortedHeadIsLeast(b, a[0]);
      assert b[0] in multiset(b);
      SortedHeadIsLeast(a, b[0]);
      assert a[0] == b[0];
      assert a == [a[0]] + a[1..];
      assert b == [b[0]] + b[1..];
      assert multiset(a[1..]) == multiset(a) - multiset{a[0]};
      assert multiset(b[1..]) == multiset(b) - multiset{b[0]};
      assert multiset(a[1..]) == multiset(b[1..]);
      SortedPermutationUnique(a[1..], b[1..]);
    }
  }

  /** Any sorted permutation of `s` is `Sort(s)`: every correct sort returns the same sequence. */
  lemma SortedPermutationIsSort(r: seq<int>, s: seq<int>)
    requires Sorted(r) && multiset(r) == multiset(s)
    ensures r == Sort(s)
  {
    SortedPermutationUnique(r, Sort(s));
  }

  /** Sorting an already sorted sequence changes nothing. */
  lemma SortOfSorted(s: seq<int>)
    requires Sorted(s)
    ensures Sort(s) == s
  {
    SortedPermutationUnique(s, Sort(s));
  }

  /** Sorting twice is sorting once. */
  lemma SortIdempotent(s: seq<int>)
    ensures Sort(Sort(s)) == Sort(s)
  {
    SortOfSorted(Sort(s));
  }

  /** How many elements of `s` are smaller than `x`. */
  function CountBelow(x: int, s: seq<int>): nat
  {
    if s == [] then 0 else (if s[0] < x then 1 else 0) + CountBelow(x, s[1..])
  }

  /** The number of pairs `i < j` with `s[i] > s[j]`: the termination measure of the unbounded passes. */
  function Inversions(s: seq<int>): nat
  {
    if s == [] then 0 else CountBelow(s[0], s[1..]) + Inversions(s[1..])
  }

  lemma {:induction false} CountBelowSwapAdjacent(x: int, s: seq<int>, k: nat)
    requires k + 1 < |s|
    ensures CountBelow(x, Swapped(s, k, k + 1)) == CountBelow(x, s)
  {
    var t := Swapped(s, k, k + 1);
    if k == 0 {
      assert t[1..][1..] == s[1..][1..];
    } else {
      assert t[1..] == Swapped(s[1..], k - 1, k);
      CountBelowSwapAdjacent(x, s[1..], k - 1);
    }
  }

  /** Exchanging an adjacent pair that is out of order removes exactly one inversion. */
  lemma {:induction false} SwapRemovesInversion(s: seq<int>, k: nat)
    requires k + 1 < |s| && s[k] > s[k + 1]
    ensures Inversions(Swapped(s, k, k + 1)) == Inversions(s) - 1
  {
    var t := Swapped(s, k, k + 1);
    if k == 0 {
      var rest := s[2..];
      assert s[1..] == [s[1]] + rest && s[1..][1..] == rest;
      assert t[1..] == [s[0]] + rest && t[1..][1..] == rest;
      assert CountBelow(s[0], s[1..]) == 1 + CountBelow(s[0], rest);
      assert CountBelow(s[1], t[1..]) == CountBelow(s[1], rest);
    } else {
      assert t[1..] == Swapped(s[1..], k - 1, k);
      CountBelowSwapAdjacent(s[0], s[1..], k - 1);
      SwapRemovesInversion(s[1..], k - 1);
    }
  }

  /** Sorting keeps the length, and keeps every element within any bounds the input respects. */
  lemma SortWithinBounds(s: seq<int>, lo: int, hi: int)
    requires forall k :: 0 <= k < |s| ==> lo <= s[k] <= hi
    ensures |Sort(s)| == |s|
    ensures forall k :: 0 <= k < |Sort(s)| ==> lo <= Sort(s)[k] <= hi
  {
    var r := Sort(s);
    assert |r| == |multiset(r)| == |multiset(s)| == |s|;
    forall k | 0 <= k < |r|
      ensures lo <= r[k] <= hi
    {
      assert r[k] in multiset(r);
      var j :| 0 <= j < |s| && s[j] == r[k];
    }
  }

  // Passes with a shrinking bound: a sorted tail grows behind an unsorted front.

  /** `s[m..]` is in order. */
  predicate SortedFrom(s: seq<int>, m: nat)
  {
    forall a, b :: m <= a < b < |s| ==> s[a] <= s[b]
  }

  /** Nothing in front of slot `m` is bigger than anything from `m` on. */
  predicate Partitioned(s: seq<int>, m: nat)
  {
    forall a, b :: 0 <= a < m <= b < |s| ==> s[a] <= s[b]
  }

  /** `s[j]` is a largest element of `s[0..j]`. */
  predicate MaxAt(s: seq<int>, j: nat)
    requires j < |s|
  {
    forall k :: 0 <= k < j ==> s[k] <= s[j]
  }


  /** One step of the inner loop: compare `j` with `j + 1`, exchange them if they are out of order. */
  function Step(s: seq<int>, j: nat): seq<int>
    requires j + 1 < |s|
  {
    if s[j] > s[j + 1] then Swapped(s, j, j + 1) else s
  }

  /** What holds between passes: `s` is a permutation of `s0` with a sorted tail `s[m..]` no smaller than the front. */
  predicate Bubbled(s: seq<int>, s0: seq<int>, m: nat)
  {
    multiset(s) == multiset(s0) && SortedFrom(s, m) && Partitioned(s, m)
  }

  /** A step inside the unsorted front keeps the sorted tail and the partition, and carries the maximum along. */
  lemma StepKeeps(s: seq<int>, s0: seq<int>, m: nat, j: nat)
    requires j + 1 < m <= |s|
    requires Bubbled(s, s0, m) && MaxAt(s, j)
    ensures var t := Step(s, j); |t| == |s| && Bubbled(t, s0, m) && MaxAt(t, j + 1)
  {
    if s[j] > s[j + 1] {
      SwappedPermutes(s, j, j + 1);
    }
  }

  /** At the end of a pass the largest element of the front sits in slot `m - 1`: the sorted tail grows by one. */
  lemma PassEnd(s: seq<int>, s0: seq<int>, m: nat)
    requires 1 <= m <= |s|
    requires Bubbled(s, s0, m) && MaxAt(s, m - 1)
    ensures Bubbled(s, s0, m - 1)
  {
  }

  /** An ordered front, a sorted tail behind it, and the partition between them: all sorted. */
  lemma Finish(s: seq<int>, m: nat)
    requires m <= |s|
    requires AdjacentUpTo(s, m - 1) && SortedFrom(s, m) && Partitioned(s, m)
    ensures Sorted(s)
  {
    forall a, b | 0 <= a < b < m
      ensures s[a] <= s[b]
    {
      AdjacentChainUpTo(s, m, a, b);
    }
  }
}

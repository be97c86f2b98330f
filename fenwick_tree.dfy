/**
 * A Fenwick tree (binary indexed tree) over a fixed-size integer array.
 *
 * The tree keeps `size + 1` cells; cell 0 is never used and cell `j`
 * (1-based) holds the sum of the `LowBit(j)` array elements that end at
 * 0-based position `j - 1`.  The abstract value is the array `A`.
 */
module FenwickTrees {

  /** Sum of s[lo..hi]. */
  function Sum(s: seq<int>, lo: nat, hi: nat): int
    requires lo <= hi <= |s|
    decreases hi - lo
  {
    if lo == hi then 0 else Sum(s, lo, hi - 1) + s[hi - 1]
  }

  /** Sum of the first n elements of a; zero when n is not positive. */
  function PrefixSum(a: seq<int>, n: int): int
    requires n <= |a|
  {
    if n <= 0 then 0 else Sum(a, 0, n)
  }

  /** The lowest set bit of n, `n & -n` in two's complement arithmetic. */
  function LowBit(n: nat): (r: nat)
    requires n > 0
    ensures 1 <= r <= n
  {
    if n % 2 == 1 then 1 else 2 * LowBit(n / 2)
  }

  /** What remains of n once its trailing zero bits are shifted out. */
  function OddPart(n: nat): nat
    requires n > 0
  {
    if n % 2 == 1 then n else OddPart(n / 2)
  }

  predicate IsPowerOfTwo(n: nat)
  {
    n == 1 || (n > 1 && n % 2 == 0 && IsPowerOfTwo(n / 2))
  }

  /** LowBit(n) is the power of two that, times an odd number, gives n:
      exactly the single bit that `n & -n` keeps. */
  lemma {:induction false} LowBitIsLowestSetBit(n: nat)
    requires n > 0
    ensures IsPowerOfTwo(LowBit(n))
    ensures OddPart(n) % 2 == 1
    ensures n == LowBit(n) * OddPart(n)
  {
    if n % 2 == 0 {
      var h := n / 2;
      LowBitIsLowestSetBit(h);
      var low, odd := LowBit(h), OddPart(h);
      assert LowBit(n) == 2 * low && OddPart(n) == odd;
      DoubleProduct(low, odd);
    }
  }

  lemma DoubleProduct(x: int, y: int)
    ensures (2 * x) * y == 2 * (x * y)
  {
  }

  /** Adding a value smaller than LowBit(i) leaves only the low bits of r. */
  lemma {:induction false} LowBitOfSmallerAddend(i: nat, r: nat)
    requires i > 0 && 0 < r < LowBit(i)
    ensures LowBit(i + r) == LowBit(r)
  {
    if i % 2 == 0 && r % 2 == 0 {
      LowBitOfSmallerAddend(i / 2, r / 2);
      assert (i + r) / 2 == i / 2 + r / 2;
    }
  }

  /** Stepping up by the lowest set bit at least doubles the lowest set bit. */
  lemma {:induction false} LowBitAfterStep(i: nat)
    requires i > 0
    ensures LowBit(i + LowBit(i)) >= 2 * LowBit(i)
  {
    if i % 2 == 0 {
      LowBitAfterStep(i / 2);
      assert (i + LowBit(i)) / 2 == i / 2 + LowBit(i / 2);
    }
  }

  /** Cell j (1-based) covers the 1-based position p. */
  predicate Covers(j: nat, p: nat)
    requires j > 0
  {
    j - LowBit(j) < p <= j
  }

  /** The cells the update loop visits are exactly those covering p: from a
      covering cell i, no cell strictly between i and i + LowBit(i) covers p,
      and i + LowBit(i) covers it again. */
  lemma UpdateStepCovers(i: nat, p: nat)
    requires i > 0 && Covers(i, p)
    ensures Covers(i + LowBit(i), p)
    ensures forall j :: i < j < i + LowBit(i) ==> !Covers(j, p)
  {
    LowBitAfterStep(i);
    forall j | i < j < i + LowBit(i)
      ensures !Covers(j, p)
    {
      LowBitOfSmallerAddend(i, j - i);
    }
  }

  lemma {:induction false} SumSplit(s: seq<int>, lo: nat, mid: nat, hi: nat)
    requires lo <= mid <= hi <= |s|
    ensures Sum(s, lo, hi) == Sum(s, lo, mid) + Sum(s, mid, hi)
    decreases hi - mid
  {
    if mid < hi {
      SumSplit(s, lo, mid, hi - 1);
    }
  }

  /** Adding d at position k changes a range sum by d exactly when k is in range. */
  lemma {:induction false} SumAfterAdd(s: seq<int>, k: nat, d: int, lo: nat, hi: nat)
    requires k < |s| && lo <= hi <= |s|
    ensures Sum(s[k := s[k] + d], lo, hi) == Sum(s, lo, hi) + (if lo <= k < hi then d else 0)
    decreases hi - lo
  {
    if lo < hi {
      SumAfterAdd(s, k, d, lo, hi - 1);
    }
  }

  lemma {:induction false} SumOfZeros(n: nat, lo: nat, hi: nat)
    requires lo <= hi <= n
    ensures Sum(seq(n, _ => 0), lo, hi) == 0
    decreases hi - lo
  {
    if lo < hi {
      SumOfZeros(n, lo, hi - 1);
    }
  }

  lemma {:induction false} SumPointwise(a: seq<int>, b: seq<int>, lo: nat, hi: nat)
    requires lo <= hi <= |a| && hi <= |b|
    requires forall k :: lo <= k < hi ==> a[k] == b[k]
    ensures Sum(a, lo, hi) == Sum(b, lo, hi)
    decreases hi - lo
  {
    if lo < hi {
      SumPointwise(a, b, lo, hi - 1);
    }
  }

  /** A fresh tree answers every prefix query with zero. */
  lemma FreshQueryIsZero(size: nat, n: int)
    requires n <= size
    ensures PrefixSum(seq(size, _ => 0), n) == 0
  {
    if n > 0 {
      SumOfZeros(size, 0, n);
    }
  }

  /** After adding d at position i, the prefix sum up to and including
      position j grows by d when j >= i and is unchanged when j < i. */
  lemma QueryAfterUpdate(a: seq<int>, i: nat, d: int, j: int)
    requires i < |a| && j < |a|
    ensures PrefixSum(a[i := a[i] + d], j + 1) == PrefixSum(a, j + 1) + (if i <= j then d else 0)
  {
    if j >= 0 {
      SumAfterAdd(a, i, d, 0, j + 1);
    }
  }

  /** The range sum computed as a difference of prefix sums is the sum of
      the elements from left to right inclusive. */
  lemma RangeIsDifferenceOfPrefixes(a: seq<int>, left: nat, right: nat)
    requires left <= right < |a|
    ensures PrefixSum(a, right + 1) - PrefixSum(a, left) == Sum(a, left, right + 1)
  {
    SumSplit(a, 0, left, right + 1);
  }

  /** a with arr added element-wise where arr has elements; arr may be
      longer or shorter than a. */
  function AddArray(a: seq<int>, arr: seq<int>, n: nat): (r: seq<int>)
    ensures |r| == |a|
  {
    seq(|a|, k requires 0 <= k < |a| => a[k] + (if k < n && k < |arr| then arr[k] else 0))
  }

  /** Building a fresh tree from arr gives the prefix sums of arr. */
  lemma BuildGivesPrefixSums(size: nat, arr: seq<int>, i: nat)
    requires i < size && i < |arr|
    ensures PrefixSum(AddArray(seq(size, _ => 0), arr, |arr|), i + 1) == PrefixSum(arr, i + 1)
  {
    SumPointwise(AddArray(seq(size, _ => 0), arr, |arr|), arr, 0, i + 1);
  }

  /** Cell j of t holds the sum of the LowBit(j) elements of a ending at
      0-based position j - 1; cell 0 holds nothing. */
  ghost predicate CellsHold(t: seq<int>, a: seq<int>)
  {
    && |t| == |a| + 1
    && t[0] == 0
    && forall j :: 1 <= j <= |a| ==> t[j] == Sum(a, j - LowBit(j), j)
  }

  /** The cells of t hold the sums of a, except that the cells covering p
      from i upwards still lack delta. */
  ghost predicate PendingCells(t: seq<int>, a: seq<int>, i: nat, p: nat, delta: int)
  {
    && |t| == |a| + 1
    && t[0] == 0
    && forall j :: 1 <= j <= |a| ==>
         t[j] == Sum(a, j - LowBit(j), j) - (if i <= j && Covers(j, p) then delta else 0)
  }

  /** Before the update loop, every cell covering index + 1 lacks delta. */
  lemma UpdateStart(t: seq<int>, a: seq<int>, index: nat, delta: int)
    requires CellsHold(t, a)
    ensures PendingCells(t, if index < |a| then a[index := a[index] + delta] else a, index + 1, index + 1, delta)
  {
    var a' := if index < |a| then a[index := a[index] + delta] else a;
    forall j | 1 <= j <= |a|
      ensures t[j] == Sum(a', j - LowBit(j), j) - (if index + 1 <= j && Covers(j, index + 1) then delta else 0)
    {
      if index < |a| {
        SumAfterAdd(a, index, delta, j - LowBit(j), j);
      }
    }
  }

  /** One iteration of the update loop: cell i receives delta and the walk
      moves on to the next cell covering p. */
  lemma UpdateStep(t: seq<int>, a: seq<int>, i: nat, p: nat, delta: int)
    requires 1 <= i <= |a| && Covers(i, p)
    requires PendingCells(t, a, i, p, delta)
    ensures Covers(i + LowBit(i), p)
    ensures PendingCells(t[i := t[i] + delta], a, i + LowBit(i), p, delta)
  {
    UpdateStepCovers(i, p);
  }

  /** Once the walk has passed the last cell, no cell lacks delta. */
  lemma UpdateEnd(t: seq<int>, a: seq<int>, i: nat, p: nat, delta: int)
    requires i > |a| && PendingCells(t, a, i, p, delta)
    ensures CellsHold(t, a)
  {
  }

  class FenwickTree {
    const size: nat
    const tree: array<int>
    /** The array the tree encodes. */
    ghost var A: seq<int>

    ghost predicate Valid()
      reads this, tree
    {
      && tree.Length == size + 1
      && |A| == size
      && CellsHold(tree[..], A)
    }

    /** All size + 1 cells start at zero. */
    constructor (size: nat)
      ensures Valid() && fresh(tree)
      ensures this.size == size && A == seq(size, _ => 0)
    {
      this.size := size;
      tree := new int[size + 1](_ => 0);
      A := seq(size, _ => 0);
      new;
      forall j | 1 <= j <= size
        ensures tree[j] == Sum(A, j - LowBit(j), j)
      {
        SumOfZeros(size, j - LowBit(j), j);
      }
    }

    /** Adds delta to element `index`, walking up by the lowest set bit.
        An index at or past `size` leaves the loop at once; a negative one
        would never leave it, since `0 & -0 == 0`. */
    method Update(index: int, delta: int)
      requires Valid()
      requires index >= 0
      modifies this, tree
      ensures Valid()
      ensures A == if index < size then old(A)[index := old(A)[index] + delta] else old(A)
    {
      ghost var a := if index < size then A[index := A[index] + delta] else A;
      ghost var p := index + 1;
      UpdateStart(tree[..], A, index, delta);
      var i := index + 1;
      assert Covers(i, p);
      while i <= size
        invariant 1 <= i && Covers(i, p)
        invariant tree.Length == size + 1
        invariant PendingCells(tree[..], a, i, p, delta)
        decreases size + 1 - i
      {
        ghost var t := tree[..];
        UpdateStep(t, a, i, p, delta);
        tree[i] := tree[i] + delta;
        assert tree[..] == t[i := t[i] + delta];
        i := i + LowBit(i);
      }
      UpdateEnd(tree[..], a, i, p, delta);
      A := a;
    }

    /** The sum of elements 0..index inclusive, walking down by the lowest
        set bit; a negative index gives 0, one past the end has no cell. */
    method Query(index: int) returns (result: int)
      requires Valid()
      requires index < size
      ensures result == PrefixSum(A, index + 1)
    {
      var i := index + 1;
      result := 0;
      while i > 0
        invariant i <= index + 1
        invariant result + PrefixSum(A, i) == PrefixSum(A, index + 1)
        decreases i
      {
        SumSplit(A, 0, i - LowBit(i), i);
        result := result + tree[i];
        i := i - LowBit(i);
      }
    }

    /** The sum of elements left..right inclusive. */
    method RangeQuery(left: int, right: int) returns (result: int)
      requires Valid()
      requires left <= size && right < size
      ensures result == PrefixSum(A, right + 1) - PrefixSum(A, left)
      ensures 0 <= left <= right ==> result == Sum(A, left, right + 1)
    {
      if left > 0 {
        var r := Query(right);
        var l := Query(left - 1);
        result := r - l;
      } else {
        result := Query(right);
      }
      if 0 <= left <= right {
        RangeIsDifferenceOfPrefixes(A, left, right);
      }
    }

    /** Applies Update(i, arr[i]) for every position of arr in order;
        positions at or past `size` are ignored by Update. */
    method BuildFromArray(arr: seq<int>)
      requires Valid()
      modifies this, tree
      ensures Valid()
      ensures A == AddArray(old(A), arr, |arr|)
    {
      for i := 0 to |arr|
        invariant Valid()
        invariant A == AddArray(old(A), arr, i)
      {
        Update(i, arr[i]);
      }
    }
  }

  /** Updates followed by queries, on a tree of five elements. */
  method UpdateThenQueryExample()
  {
    var f := new FenwickTree(5);
    f.Update(0, 3);
    f.Update(2, 4);
    f.Update(7, 9);
    assert f.A == [3, 0, 4, 0, 0];
    var q := f.Query(2);
    assert q == 7;
    var r := f.RangeQuery(1, 2);
    assert r == 4;
    var z := f.Query(-1);
    assert z == 0;
  }
}

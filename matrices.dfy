/**
 * The matrix store shared by both multipliers: the three square buffers
 * (first, second and result matrix), the dot-product specification over an
 * inclusive reduction range, and the inner accumulation loop that every
 * kernel of both programs runs for one result cell.
 *
 * Entries are mathematical integers, so the order in which partial sums are
 * added does not change the result.
 */
module Matrices {

  /** A, B and R are n×n for one n, and the result buffer R is neither input. */
  predicate Conformant(A: array2<int>, B: array2<int>, R: array2<int>)
  {
    A.Length0 == A.Length1 == B.Length0 == B.Length1 == R.Length0 == R.Length1
    && R != A && R != B
  }

  /** lo..hi is an inclusive, possibly empty (hi == lo - 1) range of indices below n. */
  predicate ValidRange(lo: int, hi: int, n: int)
  {
    0 <= lo <= hi + 1 <= n
  }

  /** Sum over k in lo..hi of A[i, k] * B[k, j]; the empty range sums to 0. */
  function Dot(A: array2<int>, B: array2<int>, i: int, j: int, lo: int, hi: int): int
    reads A, B
    requires 0 <= i < A.Length0 && 0 <= j < B.Length1
    requires ValidRange(lo, hi, A.Length1) && hi < B.Length0
    decreases hi - lo
  {
    if hi < lo then 0 else Dot(A, B, i, j, lo, hi - 1) + A[i, hi] * B[hi, j]
  }

  /** Cutting the reduction range at any point splits the dot product into two parts. */
  lemma {:induction false} DotSplit(A: array2<int>, B: array2<int>, i: int, j: int, lo: int, mid: int, hi: int)
    requires 0 <= i < A.Length0 && 0 <= j < B.Length1
    requires ValidRange(lo, hi, A.Length1) && hi < B.Length0
    requires lo <= mid + 1 <= hi + 1
    ensures Dot(A, B, i, j, lo, hi) == Dot(A, B, i, j, lo, mid) + Dot(A, B, i, j, mid + 1, hi)
    decreases hi - mid
  {
    if mid < hi {
      DotSplit(A, B, i, j, lo, mid, hi - 1);
    }
  }

  /**
   * The innermost loop of every kernel: a running sum started at 0 that adds
   * A[i, k] * B[k, j] for k = lo, lo + 1, ..., hi.
   */
  method PartialDot(A: array2<int>, B: array2<int>, i: int, j: int, lo: int, hi: int) returns (sum: int)
    requires 0 <= i < A.Length0 && 0 <= j < B.Length1
    requires ValidRange(lo, hi, A.Length1) && hi < B.Length0
    ensures sum == Dot(A, B, i, j, lo, hi)
  {
    sum := 0;
    var k := lo;
    while k <= hi
      invariant lo <= k <= hi + 1
      invariant sum == Dot(A, B, i, j, lo, k - 1)
    {
      sum := sum + A[i, k] * B[k, j];
      k := k + 1;
    }
  }

  /** Every cell of M is 0. */
  ghost predicate IsZero(M: array2<int>)
    reads M
  {
    forall i, j :: 0 <= i < M.Length0 && 0 <= j < M.Length1 ==> M[i, j] == 0
  }

  /** Every cell R[i, j] is the full dot product of row i of A with column j of B. */
  ghost predicate IsProduct(A: array2<int>, B: array2<int>, R: array2<int>)
    reads A, B, R
    requires Conformant(A, B, R)
  {
    forall i, j :: 0 <= i < R.Length0 && 0 <= j < R.Length1 ==> R[i, j] == Dot(A, B, i, j, 0, R.Length0 - 1)
  }

  /** The contents of M as a value, row by row. */
  ghost function Snapshot(M: array2<int>): seq<seq<int>>
    reads M
  {
    seq(M.Length0, i reads M requires 0 <= i < M.Length0 =>
      seq(M.Length1, j reads M requires 0 <= j < M.Length1 => M[i, j]))
  }

  /** The product of A and B as a value: what IsProduct says a result buffer holds. */
  ghost function Product(A: array2<int>, B: array2<int>): seq<seq<int>>
    reads A, B
    requires A.Length0 == A.Length1 == B.Length0 == B.Length1
  {
    seq(A.Length0, i reads A, B requires 0 <= i < A.Length0 =>
      seq(A.Length0, j reads A, B requires 0 <= j < A.Length0 => Dot(A, B, i, j, 0, A.Length0 - 1)))
  }

  /** A buffer that holds the product has exactly the contents Product(A, B). */
  lemma ProductSnapshot(A: array2<int>, B: array2<int>, R: array2<int>)
    requires Conformant(A, B, R) && IsProduct(A, B, R)
    ensures Snapshot(R) == Product(A, B)
  {
    var s, p := Snapshot(R), Product(A, B);
    assert |s| == |p|;
    forall i | 0 <= i < |s|
      ensures s[i] == p[i]
    {
      assert |s[i]| == |p[i]|;
      forall j | 0 <= j < |s[i]|
        ensures s[i][j] == p[i][j]
      {
        assert s[i][j] == R[i, j];
      }
    }
  }
}

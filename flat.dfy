/**
 * The flat multiplier: a triple loop that computes each result cell in a
 * running sum and then ASSIGNS it, once in matrixMultiSequential and once in
 * matrixMulti (whose body is the same loop; it carries no OpenMP pragma).
 */
module FlatMultiplier {
  import opened Matrices

  /**
   * matrixMultiSequential: rows in order, columns in order within a row; each
   * cell gets the full dot product of its row and column.
   */
  method MatrixMultiSequential(A: array2<int>, B: array2<int>, R: array2<int>)
    requires Conformant(A, B, R)
    modifies R
    ensures IsProduct(A, B, R)
  {
    var n := R.Length0;
    var row := 0;
    while row < n
      invariant 0 <= row <= n
      invariant forall i, j :: 0 <= i < row && 0 <= j < n ==> R[i, j] == Dot(A, B, i, j, 0, n - 1)
    {
      var col := 0;
      while col < n
        invariant 0 <= col <= n
        invariant forall i, j :: 0 <= i < row && 0 <= j < n ==> R[i, j] == Dot(A, B, i, j, 0, n - 1)
        invariant forall j :: 0 <= j < col ==> R[row, j] == Dot(A, B, row, j, 0, n - 1)
      {
        var resultValue := PartialDot(A, B, row, col, 0, n - 1);
        R[row, col] := resultValue;
        col := col + 1;
      }
      row := row + 1;
    }
  }

  /** matrixMulti: the same triple loop as MatrixMultiSequential. */
  method MatrixMulti(A: array2<int>, B: array2<int>, R: array2<int>)
    requires Conformant(A, B, R)
    modifies R
    ensures IsProduct(A, B, R)
  {
    var n := R.Length0;
    var row := 0;
    while row < n
      invariant 0 <= row <= n
      invariant forall i, j :: 0 <= i < row && 0 <= j < n ==> R[i, j] == Dot(A, B, i, j, 0, n - 1)
    {
      var col := 0;
      while col < n
        invariant 0 <= col <= n
        invariant forall i, j :: 0 <= i < row && 0 <= j < n ==> R[i, j] == Dot(A, B, i, j, 0, n - 1)
        invariant forall j :: 0 <= j < col ==> R[row, j] == Dot(A, B, row, j, 0, n - 1)
      {
        var resultValue := PartialDot(A, B, row, col, 0, n - 1);
        R[row, col] := resultValue;
        col := col + 1;
      }
      row := row + 1;
    }
  }

  /**
   * main without its timing: matrixMultiSequential, then matrixMulti on the
   * same buffer without a reset. The ghost result is the matrix the first call
   * left; the second call leaves the same matrix, whatever the buffer held
   * before, and both are the product.
   */
  method FlatMain(A: array2<int>, B: array2<int>, R: array2<int>)
    returns (ghost sequentialRun: seq<seq<int>>)
    requires Conformant(A, B, R)
    modifies R
    ensures sequentialRun == Product(A, B)
    ensures Snapshot(R) == sequentialRun
  {
    MatrixMultiSequential(A, B, R);
    ProductSnapshot(A, B, R);
    sequentialRun := Snapshot(R);
    MatrixMulti(A, B, R);
    ProductSnapshot(A, B, R);
  }
}

/**
 * The two programs compared: the flat product and the block-recursive pass
 * from a zeroed buffer give the same matrix, and a 2×2 instance worked out.
 */
module Agreement {
  import opened Matrices
  import BlockMultiplier
  import FlatMultiplier

  /**
   * The flat multiplier into S and the block-recursive multiplier into a
   * zeroed R (any block size) leave equal matrices.
   */
  method FlatAgreesWithBlock(A: array2<int>, B: array2<int>, R: array2<int>, S: array2<int>, blockSize: int)
    requires Conformant(A, B, R) && Conformant(A, B, S) && R != S
    requires blockSize >= 1 && R.Length0 >= 1 && IsZero(R)
    modifies R, S
    ensures forall i, j :: 0 <= i < R.Length0 && 0 <= j < R.Length1 ==> R[i, j] == S[i, j]
  {
    FlatMultiplier.MatrixMultiSequential(A, B, S);
    BlockMultiplier.BlockMultiply(A, B, R, blockSize);
  }

  /** A 2×2 matrix from its four entries. */
  method Square2(a: int, b: int, c: int, d: int) returns (M: array2<int>)
    ensures fresh(M) && M.Length0 == 2 && M.Length1 == 2
    ensures M[0, 0] == a && M[0, 1] == b && M[1, 0] == c && M[1, 1] == d
  {
    M := new int[2, 2];
    M[0, 0], M[0, 1], M[1, 0], M[1, 1] := a, b, c, d;
  }

  /** Over the reduction range 0..1 the dot product has exactly two terms. */
  lemma DotOfTwo(A: array2<int>, B: array2<int>, i: int, j: int)
    requires 0 <= i < A.Length0 && 0 <= j < B.Length1 && A.Length1 >= 2 && B.Length0 >= 2
    ensures Dot(A, B, i, j, 0, 1) == A[i, 0] * B[0, j] + A[i, 1] * B[1, j]
  {
    assert Dot(A, B, i, j, 0, 0) == A[i, 0] * B[0, j];
  }

  /**
   * [[1, 2], [3, 4]] times [[5, 6], [7, 8]] is [[19, 22], [43, 50]], by the
   * flat multiplier and by the block-recursive one with BLOCK_SIZE 1 (one
   * level of eight-way splitting); the two buffers are returned.
   */
  method TwoByTwo() returns (flat: array2<int>, block: array2<int>)
    ensures flat.Length0 == flat.Length1 == block.Length0 == block.Length1 == 2
    ensures flat[0, 0] == 19 && flat[0, 1] == 22 && flat[1, 0] == 43 && flat[1, 1] == 50
    ensures block[0, 0] == 19 && block[0, 1] == 22 && block[1, 0] == 43 && block[1, 1] == 50
  {
    var A := Square2(1, 2, 3, 4);
    var B := Square2(5, 6, 7, 8);
    assert A[0, 0] == 1 && A[0, 1] == 2 && A[1, 0] == 3 && A[1, 1] == 4;
    assert B[0, 0] == 5 && B[0, 1] == 6 && B[1, 0] == 7 && B[1, 1] == 8;
    DotOfTwo(A, B, 0, 0);
    DotOfTwo(A, B, 0, 1);
    DotOfTwo(A, B, 1, 0);
    DotOfTwo(A, B, 1, 1);
    flat := new int[2, 2];
    FlatMultiplier.MatrixMultiSequential(A, B, flat);
    block := Square2(0, 0, 0, 0);
    BlockMultiplier.BlockMultiply(A, B, block, 1);
  }
}

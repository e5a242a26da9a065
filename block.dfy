/**
 * The block-recursive multiplier: two leaf kernels that add a partial
 * product into a sub-block of the result, the recursive procedure that
 * bisects the work cube (rows × columns × reduction index) into eight
 * octants, the reset of the result buffer and the two top-level passes.
 *
 * A work cube is given by inclusive ranges rowLo..rowHi, colLo..colHi and
 * transLo..transHi (upperOfRow..bottomOfRow, leftOfCol..rightOfCol and
 * transLeft..transRight in the C code). OpenMP tasks run here one after
 * another in the order they are spawned.
 */
module BlockMultiplier {
  import opened Matrices

  /** Cell (i, j) lies in the row × column block of a cube. */
  predicate InBlock(i: int, j: int, rowLo: int, rowHi: int, colLo: int, colHi: int)
  {
    rowLo <= i <= rowHi && colLo <= j <= colHi
  }

  /** The three ranges of a cube are valid ranges below n. */
  predicate Cube(rowLo: int, rowHi: int, colLo: int, colHi: int, transLo: int, transHi: int, n: int)
  {
    ValidRange(rowLo, rowHi, n) && ValidRange(colLo, colHi, n) && ValidRange(transLo, transHi, n)
  }

  /**
   * What processing a cube adds to cell (i, j): the partial dot product over
   * the cube's reduction range inside its block, nothing outside it.
   */
  function Contrib(A: array2<int>, B: array2<int>, i: int, j: int,
                   rowLo: int, rowHi: int, colLo: int, colHi: int, transLo: int, transHi: int): int
    reads A, B
    requires 0 <= i < A.Length0 && 0 <= j < B.Length1
    requires ValidRange(transLo, transHi, A.Length1) && transHi < B.Length0
  {
    if InBlock(i, j, rowLo, rowHi, colLo, colHi) then Dot(A, B, i, j, transLo, transHi) else 0
  }

  /**
   * smallMatrixMult: for every cell of the block, in row-major order, compute
   * the partial dot product over the reduction range and ADD it to the cell.
   */
  method SmallMatrixMult(A: array2<int>, B: array2<int>, R: array2<int>,
                         rowLo: int, rowHi: int, colLo: int, colHi: int, transLo: int, transHi: int)
    requires Conformant(A, B, R)
    requires Cube(rowLo, rowHi, colLo, colHi, transLo, transHi, R.Length0)
    modifies R
    ensures forall i, j :: 0 <= i < R.Length0 && 0 <= j < R.Length1 ==>
      R[i, j] == old(R[i, j]) + Contrib(A, B, i, j, rowLo, rowHi, colLo, colHi, transLo, transHi)
  {
    var i := rowLo;
    while i <= rowHi
      invariant rowLo <= i <= rowHi + 1
      invariant forall i', j' :: 0 <= i' < R.Length0 && 0 <= j' < R.Length1 ==>
        R[i', j'] == old(R[i', j']) +
          (if i' < i then Contrib(A, B, i', j', rowLo, rowHi, colLo, colHi, transLo, transHi) else 0)
    {
      var j := colLo;
      while j <= colHi
        invariant colLo <= j <= colHi + 1
        invariant forall i', j' :: 0 <= i' < R.Length0 && 0 <= j' < R.Length1 ==>
          R[i', j'] == old(R[i', j']) +
            (if i' < i || (i' == i && j' < j)
             then Contrib(A, B, i', j', rowLo, rowHi, colLo, colHi, transLo, transHi) else 0)
      {
        var sum := PartialDot(A, B, i, j, transLo, transHi);
        R[i, j] := R[i, j] + sum;
        j := j + 1;
      }
      i := i + 1;
    }
  }

  /** Position of cell (i, j) in the row-major numbering of a block that is cols wide. */
  function Ordinal(i: int, j: int, rowLo: int, colLo: int, cols: int): int
  {
    (i - rowLo) * cols + (j - colLo)
  }

  /** A positive multiple of a positive number is at least that number. */
  lemma {:induction false} MulAtLeast(x: int, c: int)
    requires x >= 1 && c > 0
    ensures x * c >= c
    decreases x
  {
    if x > 1 {
      MulAtLeast(x - 1, c);
      assert x * c == (x - 1) * c + c;
    }
  }

  /** Row-major numbering is one-to-one: number t belongs to row t / cols, column t % cols. */
  lemma Unflatten(t: int, cols: int, a: int, b: int)
    requires cols > 0 && 0 <= b < cols && t == a * cols + b
    ensures t / cols == a && t % cols == b
  {
    var q, r := t / cols, t % cols;
    assert t == q * cols + r;
    assert (a - q) * cols == r - b;
    if a > q {
      MulAtLeast(a - q, cols);
    } else if a < q {
      MulAtLeast(q - a, cols);
    }
  }

  /** A cell inside a rows × cols block is numbered below rows * cols. */
  lemma OrdinalBound(a: int, b: int, rows: int, cols: int)
    requires 0 <= a < rows && 0 <= b < cols
    ensures 0 <= a * cols + b < rows * cols
  {
    MulAtLeast(rows - a, cols);
    assert rows * cols == a * cols + (rows - a) * cols;
  }

  /** Every number below rows * cols is the number of a cell inside the block. */
  lemma OrdinalOnto(t: int, rows: int, cols: int)
    requires 0 <= rows && 0 <= cols && 0 <= t < rows * cols
    ensures cols > 0 && 0 <= t / cols < rows && 0 <= t % cols < cols
    ensures t == (t / cols) * cols + t % cols
  {
  }

  /**
   * smallMatrixMultParallel: the same loop body as SmallMatrixMult under
   * `parallel for collapse(2)`, i.e. ONE loop over the rows * cols cells of
   * the block, iteration t handling row rowLo + t / cols and column
   * colLo + t % cols. Iterations run here in iteration order.
   */
  method SmallMatrixMultParallel(A: array2<int>, B: array2<int>, R: array2<int>,
                                 rowLo: int, rowHi: int, colLo: int, colHi: int, transLo: int, transHi: int)
    requires Conformant(A, B, R)
    requires Cube(rowLo, rowHi, colLo, colHi, transLo, transHi, R.Length0)
    modifies R
    ensures forall i, j :: 0 <= i < R.Length0 && 0 <= j < R.Length1 ==>
      R[i, j] == old(R[i, j]) + Contrib(A, B, i, j, rowLo, rowHi, colLo, colHi, transLo, transHi)
  {
    var rows := rowHi - rowLo + 1;
    var cols := colHi - colLo + 1;
    var t := 0;
    while t < rows * cols
      invariant 0 <= t <= rows * cols
      invariant forall i', j' :: 0 <= i' < R.Length0 && 0 <= j' < R.Length1 ==>
        R[i', j'] == old(R[i', j']) +
          (if Ordinal(i', j', rowLo, colLo, cols) < t
           then Contrib(A, B, i', j', rowLo, rowHi, colLo, colHi, transLo, transHi) else 0)
    {
      OrdinalOnto(t, rows, cols);
      var i := rowLo + t / cols;
      var j := colLo + t % cols;
      forall i', j' | InBlock(i', j', rowLo, rowHi, colLo, colHi) && Ordinal(i', j', rowLo, colLo, cols) == t
        ensures i' == i && j' == j
      {
        Unflatten(t, cols, i' - rowLo, j' - colLo);
      }
      var sum := PartialDot(A, B, i, j, transLo, transHi);
      R[i, j] := R[i, j] + sum;
      t := t + 1;
    }
    forall i', j' | InBlock(i', j', rowLo, rowHi, colLo, colHi)
      ensures Ordinal(i', j', rowLo, colLo, cols) < t
    {
      OrdinalBound(i' - rowLo, j' - colLo, rows, cols);
    }
  }

  /**
   * The split point (lo + hi) / 2 of a range, as the C code computes it. C's
   * integer division truncates toward zero; the two agree with Dafny's here
   * because lo + hi is never negative.
   */
  function Mid(lo: int, hi: int): (m: int)
    requires 0 <= lo <= hi + 1 && 0 <= hi
    ensures 0 <= m && lo <= m + 1 <= hi + 1
    ensures lo <= hi ==> lo <= m
    ensures lo < hi ==> m < hi
  {
    (lo + hi) / 2
  }

  /** lo..mid and mid + 1..hi are disjoint and together are exactly lo..hi. */
  lemma SplitPartitions(lo: int, hi: int, k: int)
    requires 0 <= lo <= hi + 1 && 0 <= hi
    ensures lo <= k <= hi <==> (lo <= k <= Mid(lo, hi) || Mid(lo, hi) + 1 <= k <= hi)
    ensures !(lo <= k <= Mid(lo, hi) && Mid(lo, hi) + 1 <= k <= hi)
  {
  }

  /**
   * The eight octants of a cube, cut at rowMid, colMid and transMid, add to
   * each cell exactly what the whole cube adds.
   */
  lemma OctantsCover(A: array2<int>, B: array2<int>, i: int, j: int,
                     rowLo: int, rowMid: int, rowHi: int,
                     colLo: int, colMid: int, colHi: int,
                     transLo: int, transMid: int, transHi: int)
    requires 0 <= i < A.Length0 && 0 <= j < B.Length1
    requires ValidRange(transLo, transHi, A.Length1) && transHi < B.Length0
    requires rowLo <= rowMid + 1 <= rowHi + 1 && colLo <= colMid + 1 <= colHi + 1
    requires transLo <= transMid + 1 <= transHi + 1
    ensures Contrib(A, B, i, j, rowLo, rowHi, colLo, colHi, transLo, transHi) ==
      Contrib(A, B, i, j, rowLo, rowMid, colLo, colMid, transLo, transMid) +
      Contrib(A, B, i, j, rowLo, rowMid, colLo, colMid, transMid + 1, transHi) +
      Contrib(A, B, i, j, rowLo, rowMid, colMid + 1, colHi, transLo, transMid) +
      Contrib(A, B, i, j, rowLo, rowMid, colMid + 1, colHi, transMid + 1, transHi) +
      Contrib(A, B, i, j, rowMid + 1, rowHi, colLo, colMid, transLo, transMid) +
      Contrib(A, B, i, j, rowMid + 1, rowHi, colLo, colMid, transMid + 1, transHi) +
      Contrib(A, B, i, j, rowMid + 1, rowHi, colMid + 1, colHi, transLo, transMid) +
      Contrib(A, B, i, j, rowMid + 1, rowHi, colMid + 1, colHi, transMid + 1, transHi)
  {
    DotSplit(A, B, i, j, transLo, transMid, transHi);
  }

  /**
   * matrixMulti: a cube whose row span is below blockSize goes to the leaf
   * kernel; a larger one is bisected in all three ranges and the eight
   * octants are processed in the order the source spawns them as tasks.
   * Either way the cube's partial products are added into its block.
   */
  method MatrixMulti(A: array2<int>, B: array2<int>, R: array2<int>, blockSize: int,
                     rowLo: int, rowHi: int, colLo: int, colHi: int, transLo: int, transHi: int)
    requires Conformant(A, B, R) && blockSize >= 1
    requires Cube(rowLo, rowHi, colLo, colHi, transLo, transHi, R.Length0)
    requires 0 <= colHi && 0 <= transHi
    modifies R
    ensures forall i, j :: 0 <= i < R.Length0 && 0 <= j < R.Length1 ==>
      R[i, j] == old(R[i, j]) + Contrib(A, B, i, j, rowLo, rowHi, colLo, colHi, transLo, transHi)
    decreases rowHi - rowLo
  {
    if rowHi - rowLo < blockSize {
      SmallMatrixMultParallel(A, B, R, rowLo, rowHi, colLo, colHi, transLo, transHi);
    } else {
      var rowMid, colMid, transMid := Mid(rowLo, rowHi), Mid(colLo, colHi), Mid(transLo, transHi);
      MatrixMulti(A, B, R, blockSize, rowLo, rowMid, colLo, colMid, transLo, transMid);
      MatrixMulti(A, B, R, blockSize, rowLo, rowMid, colLo, colMid, transMid + 1, transHi);
      MatrixMulti(A, B, R, blockSize, rowLo, rowMid, colMid + 1, colHi, transLo, transMid);
      MatrixMulti(A, B, R, blockSize, rowLo, rowMid, colMid + 1, colHi, transMid + 1, transHi);
      MatrixMulti(A, B, R, blockSize, rowMid + 1, rowHi, colLo, colMid, transLo, transMid);
      MatrixMulti(A, B, R, blockSize, rowMid + 1, rowHi, colLo, colMid, transMid + 1, transHi);
      MatrixMulti(A, B, R, blockSize, rowMid + 1, rowHi, colMid + 1, colHi, transLo, transMid);
      MatrixMulti(A, B, R, blockSize, rowMid + 1, rowHi, colMid + 1, colHi, transMid + 1, transHi);
      forall i, j | 0 <= i < R.Length0 && 0 <= j < R.Length1 {
        OctantsCover(A, B, i, j, rowLo, rowMid, rowHi, colLo, colMid, colHi, transLo, transMid, transHi);
      }
    }
  }

  /** The reset loop of main: every cell of the result buffer becomes 0, row by row. */
  method ResetResult(R: array2<int>)
    modifies R
    ensures IsZero(R)
  {
    var i := 0;
    while i < R.Length0
      invariant 0 <= i <= R.Length0
      invariant forall i', j' :: 0 <= i' < i && 0 <= j' < R.Length1 ==> R[i', j'] == 0
    {
      var j := 0;
      while j < R.Length1
        invariant 0 <= j <= R.Length1
        invariant forall i', j' :: 0 <= i' < i && 0 <= j' < R.Length1 ==> R[i', j'] == 0
        invariant forall j' :: 0 <= j' < j ==> R[i, j'] == 0
      {
        R[i, j] := 0;
        j := j + 1;
      }
      i := i + 1;
    }
  }

  /**
   * The top-level call matrixMulti(0, N-1, 0, N-1, 0, N-1): it adds the full
   * product to whatever the buffer holds, so from a zeroed buffer the result
   * is the product.
   */
  method BlockMultiply(A: array2<int>, B: array2<int>, R: array2<int>, blockSize: int)
    requires Conformant(A, B, R) && blockSize >= 1 && R.Length0 >= 1
    modifies R
    ensures forall i, j :: 0 <= i < R.Length0 && 0 <= j < R.Length1 ==>
      R[i, j] == old(R[i, j]) + Dot(A, B, i, j, 0, R.Length0 - 1)
    ensures old(IsZero(R)) ==> IsProduct(A, B, R)
  {
    var n := R.Length0;
    MatrixMulti(A, B, R, blockSize, 0, n - 1, 0, n - 1, 0, n - 1);
  }

  /**
   * main without its timing: a block-recursive pass from the zero-initialised
   * buffer, the reset, and a second pass (the one that runs under OpenMP). The
   * ghost result is the matrix the first pass left; the second pass leaves the
   * same matrix, and both are the product.
   */
  method BlockMain(A: array2<int>, B: array2<int>, R: array2<int>, blockSize: int)
    returns (ghost sequentialRun: seq<seq<int>>)
    requires Conformant(A, B, R) && blockSize >= 1 && R.Length0 >= 1
    requires IsZero(R)
    modifies R
    ensures sequentialRun == Product(A, B)
    ensures Snapshot(R) == sequentialRun
  {
    BlockMultiply(A, B, R, blockSize);
    ProductSnapshot(A, B, R);
    sequentialRun := Snapshot(R);
    ResetResult(R);
    BlockMultiply(A, B, R, blockSize);
    ProductSnapshot(A, B, R);
  }
}

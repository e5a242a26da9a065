# Dense square matrix multiplication: block-recursive and flat

This project models the two matrix-multiplication programs of the repository
and proves what they compute. Both programs work on three global N×N buffers:
`firstMatrix` (A), `secondMatrix` (B) and `matrixMultiResult` (R).

- **Block-recursive multiplier** (`OpenMP_block_optimized_template.c`). A work cube
  is a row range, a column range and a reduction range, all inclusive. `matrixMulti`
  looks only at the row span. If that span is below `BLOCK_SIZE`, it hands the cube
  to a leaf kernel. Otherwise it bisects all three ranges at `(lo + hi) / 2` and
  recurses on the eight octants. The leaf kernels *add* each block cell's partial
  dot product into R. `main` runs one pass from the zero-initialised buffer, resets
  R to zero, and runs a second pass.
- **Flat multiplier** (`Matrix_Multiple_Sample.c`). `matrixMultiSequential` and
  `matrixMulti` are the same triple loop. Each one *assigns* every cell its full
  dot product.

Modelling choices:

- The global buffers become `array2<int>` parameters. `Matrices.Conformant` says
  that all three are n×n and that R is a separate buffer from A and B.
- Every method modifies only result buffers (`modifies R`, or `modifies R, S` where
  two result buffers are compared), never A or B. This is how the model states
  that A and B are only read.
- N and `BLOCK_SIZE` are parameters (`blockSize >= 1`) instead of 4096 and 512.
- Entries are integers, so summation order does not matter.
- `Matrices.Dot(A, B, i, j, lo, hi)` is the specification: the sum of
  `A[i, k] * B[k, j]` over `k` in `lo..hi`. The empty range gives 0.
- The innermost running-sum loop is the same in all four kernels. It is modelled
  once, as `Matrices.PartialDot`, and every kernel calls it.
- OpenMP tasks run one after another, in the order they are spawned.
  `parallel for collapse(2)` becomes a single loop over the block's cells, numbered
  in row-major order as the collapsed iteration space numbers them.
- C truncates integer division toward zero; Dafny's `/` does not. The two agree
  on `(lo + hi) / 2` only when `lo + hi >= 0`. So `BlockMultiplier.MatrixMulti`
  requires the column and reduction ranges to end at an index `>= 0`. The split
  keeps that true, and it is true at the top call whenever N >= 1. Without it, C
  would turn the empty range `0..-1` into the non-empty half `0..0`.
- A range may be empty (`lo == hi + 1`). The split creates such halves when it
  bisects a one-element column or reduction range, and the recursion handles
  them. Every range at the top call is non-empty.
- The comment at Matrix_Multiple_Sample.c:68 says "With OpenMP", but the flat
  `matrixMulti` has no pragma. It is modelled as the plain loop it is.

## Model

| member | source | states |
|---|---|---|
| `Matrices.PartialDot` | OpenMP_block_optimized_template.c:29-32 | The running sum `sum += A[i][k] * B[k][j]` for k = lo..hi, started at 0, ends equal to the dot product over lo..hi. The empty range gives 0. |
| `Matrices.DotSplit` | OpenMP_block_optimized_template.c:58-75 | For any cut point in a reduction range, the dot product over the range equals the product over the lower part plus the product over the upper part. This is why two reduction-split siblings together add the full-range sum. |
| `BlockMultiplier.SmallMatrixMult` | OpenMP_block_optimized_template.c:26-36 | Each cell inside the row × column block ends as its old value plus the partial dot product over the reduction range (`+=`, not an overwrite). Every cell outside the block is unchanged. A and B are not modified. |
| `BlockMultiplier.SmallMatrixMultParallel` | OpenMP_block_optimized_template.c:39-50 | Run as one collapsed loop over the block's cells, it has exactly the effect stated for SmallMatrixMult: the same postcondition on every cell. |
| `BlockMultiplier.Mid` | OpenMP_block_optimized_template.c:58-75 | For the split point m = (lo + hi) / 2, both lo..m and m+1..hi are valid ranges inside lo..hi. When lo < hi, both halves are non-empty and each is strictly shorter than the parent, so a row split (span >= BLOCK_SIZE >= 1) makes the recursion terminate. |
| `BlockMultiplier.SplitPartitions` | OpenMP_block_optimized_template.c:58-75 | Each index of lo..hi lies in exactly one of the halves lo..m and m+1..hi, and no index outside lo..hi lies in either. |
| `BlockMultiplier.OctantsCover` | OpenMP_block_optimized_template.c:58-75 | For every cell, what the eight octants add (each row-half × column-half × reduction-half combination once, in spawn order) totals what the whole cube adds. |
| `BlockMultiplier.MatrixMulti` | OpenMP_block_optimized_template.c:53-79 | On any cube, the recursive procedure has the same effect as one leaf call on the same ranges. Block cells gain the full-range partial dot product and all other cells are unchanged. (Body, not contract: when the row span is below blockSize, the body makes exactly one call of the collapsed leaf kernel.) |
| `BlockMultiplier.ResetResult` | OpenMP_block_optimized_template.c:91-95 | Afterwards every cell of the result buffer is 0. |
| `BlockMultiplier.BlockMultiply` | OpenMP_block_optimized_template.c:86 | The top call on the full cube adds the full product to every cell. So, starting from a zeroed buffer, the buffer ends holding exactly the product. |
| `BlockMultiplier.BlockMain` | OpenMP_block_optimized_template.c:81-112 | This is main without timing. From the zero-initialised buffer, the first pass leaves the product. After the reset, the second pass leaves the same matrix again. |
| `FlatMultiplier.MatrixMultiSequential` | Matrix_Multiple_Sample.c:40-50 | Every cell ends equal to the full dot product of its row and column. The postcondition does not mention the old contents, because cells are assigned rather than accumulated. The loop invariants say that finished rows, and the finished columns of the current row, already hold their final values. |
| `FlatMultiplier.MatrixMulti` | Matrix_Multiple_Sample.c:14-26 | It produces the same matrix as MatrixMultiSequential: the product, whatever the buffer held before. |
| `FlatMultiplier.FlatMain` | Matrix_Multiple_Sample.c:55-78 | This is main without timing. matrixMultiSequential and then matrixMulti, on the same buffer with no reset between them, leave identical matrices (idempotence), and both are the product. |
| `Agreement.FlatAgreesWithBlock` | Matrix_Multiple_Sample.c:40-50 | For every block size, the flat product agrees cell by cell with the block-recursive multiplier (OpenMP_block_optimized_template.c:53-79) run from a zeroed buffer. |
| `Agreement.TwoByTwo` | Matrix_Multiple_Sample.c:40-50 | [[1,2],[3,4]] times [[5,6],[7,8]] is [[19,22],[43,50]], both for the flat multiplier and for the block-recursive pass with BLOCK_SIZE 1. (Body, not contract: with BLOCK_SIZE 1 that pass splits once.) |

## Left out

- OpenMP concurrency (`task`, `taskwait`, `parallel for`, `parallel`, `single`) is not modelled. Tasks and loop iterations run one after another in source order. Under real parallel scheduling, the two reduction-split siblings of an octant both do a plain `+=` on the same cells, which is a data race. A sequential model cannot express that race.
- `matrixInit` is not modelled (OpenMP_block_optimized_template.c:15-23 and Matrix_Multiple_Sample.c:29-38). It depends on the C library's `srand` and `rand`, so A and B are arbitrary inputs instead.
- Timing and reporting are I/O and are not modelled: `omp_get_wtime`, `clock`, `printf`, and the speedup division with its possible zero divisor.
- `double` arithmetic and the `FactorIntToDouble` scale factor are not modelled. Entries are unbounded integers, so rounding and summation-order effects are out of scope.
- The fixed sizes N = 4096 and BLOCK_SIZE = 512 are generalised to any n >= 1 and any blockSize >= 1.
- BlockMultiplier.MatrixMulti: requires the column and reduction ranges to end at an index >= 0, so it says nothing about a cube such as `matrixMulti(0, 1000, 0, -1, 0, -1)`. The C code accepts that cube, but its truncating `(0 + -1) / 2` gives 0, which produces the non-empty octant `0..0`, and that octant writes to column 0, outside the cube. The only call (OpenMP_block_optimized_template.c:86 and 102) passes `0..N-1` with N >= 1, and splitting never produces such a range.
- BlockMultiplier.SmallMatrixMult: nothing calls it. The source's `smallMatrixMult` (OpenMP_block_optimized_template.c:26-36) is never called either, because line 55 calls the parallel kernel. It is modelled and proved in its own right.

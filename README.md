# Matrix — a verified model of a dense matrix class

The modelled system is a single C++ class, `Matrix`. It is a dense
rows×cols grid of scalars stored as a vector of rows. It offers
zero-filled construction, bounds-checked element access, a
prefix-preserving `resize`, in-place `selfTranspose`, out-of-place
`transpose` and the matrix product `operator*`.

The Dafny project has three modules:

- `Grid` (`grid.dfy`) is the value-level view. It holds the error tags
  `InvalidDimension`, `IndexOutOfRange` and `DimensionMismatch`, the
  storage invariant `IsGrid`, and the reference definitions of a resized
  grid (`Resized`), a transpose (`Transposed`), a row-by-column sum
  (`Dot`) and a product (`Product`). It also holds the lemmas about them:
  the resize round trip, transpose involution, identity laws, the
  transpose of a product, and the worked examples.
- `InPlaceTranspose` (`in_place_transpose.dfy`) holds the element swap
  that `selfTranspose` is built from, and the swap loop exactly as
  written, together with its defect on non-square input. It also holds
  the loop invariant and step lemmas that prove the loop correct on
  square input.
- `Matrices` (`matrix.dfy`) holds class `Matrix`. Its fields are `rows`,
  `cols` and `data: seq<seq<real>>`, and `Valid()` is the storage
  invariant. Methods that change the matrix in place (`Set`, `Resize`,
  `SelfTranspose`) have `modifies this`. Methods that build a new matrix
  (`Transpose`, `Multiply`) fill a fresh object through nested loops with
  invariants. Each method is proved against the `Grid` definitions.

C++ exceptions become result values. `Result<T>` is `Ok(value)` or
`Err(error)`, and `Outcome` is `Pass` or `Fail(error)`. Scalars are `real`,
so the product is stated as an exact sum.

Construction checks its dimensions only after building the storage:
`data_` is built at `main.cpp:75`, before the check at `main.cpp:76`, so a
negative size already fails inside `vector`. Either way no matrix is
produced. The model treats both paths as one failure: `Matrix.Create`
returns `Err(InvalidDimension)`.

## Model

| member | source | states |
|---|---|---|
| `Matrices.Matrix.constructor` | main.cpp:17 | the default matrix is 0×0 with empty storage and satisfies the storage invariant |
| `Matrices.Matrix.Zero` | main.cpp:74-79 | for r, c ≥ 0 the new matrix has rows == r, cols == c, storage of r rows of c cells, and every cell 0 |
| `Matrices.Matrix.Create` | main.cpp:74-79 | construction succeeds exactly when r ≥ 0 and c ≥ 0 and then gives a fresh zero-filled r×c matrix; otherwise it fails with InvalidDimension and yields no matrix |
| `Matrices.Matrix.Rows` | main.cpp:24 | returns the recorded row count `rows`, which is non-negative and equals the number of stored rows |
| `Matrices.Matrix.Cols` | main.cpp:30 | returns the recorded column count `cols`, which is non-negative and is the length of every stored row |
| `Matrices.Matrix.Get` | main.cpp:81-86 | reading (i, j) succeeds exactly when 0 ≤ i < rows and 0 ≤ j < cols and then yields the stored cell; otherwise it fails with IndexOutOfRange |
| `Matrices.Matrix.Set` | main.cpp:81-86 | writing v to (i, j) succeeds exactly when the index is in range; on success cell (i, j) becomes v and the shape and every other cell stay the same; out of range it fails with IndexOutOfRange and nothing changes |
| `Grid.VectorResize` | main.cpp:96-98 | resizing a vector to n elements keeps its first min(length, n) elements, and each added element is the fill value |
| `Matrices.Matrix.Resize` | main.cpp:88-100 | a negative argument fails with InvalidDimension and leaves rows, cols and storage unchanged; otherwise rows == r, cols == c, the storage invariant holds again, and the storage equals the reference resized grid |
| `Grid.ResizeKeepsPrefix` | main.cpp:94-99 | after resizing an r0×c0 grid to r×c, cell (i, j) keeps its old value when i < min(r0, r) and j < min(c0, c), and every other cell is 0 |
| `Grid.ResizeSameShape` | main.cpp:88-100 | resizing to the current shape changes nothing |
| `Grid.ResizeRoundTrip` | main.cpp:88-100 | growing a grid and then shrinking it back to its old shape restores it exactly |
| `Grid.ResizeGrowExample` | main.cpp:94-99 | [[1,2],[3,4]] resized to 3×3 is [[1,2,0],[3,4,0],[0,0,0]] |
| `Grid.ResizeShrinkExample` | main.cpp:94-99 | [[1,2,3],[4,5,6],[7,8,9]] resized to 2×2 is [[1,2],[4,5]] |
| `InPlaceTranspose.SwapCells` | main.cpp:107 | one inner-loop step exchanges cell (i, j) with cell (j, i), keeps every row length, and leaves every other cell unchanged |
| `InPlaceTranspose.RowStart` | main.cpp:105-106 | starting row i's inner loop at j = i + 1 skips only the diagonal cell, so the loop invariant holds at entry |
| `InPlaceTranspose.SwapStep` | main.cpp:106-107 | each inner-loop swap exchanges exactly one more off-diagonal pair, so the loop invariant advances from j to j + 1 |
| `InPlaceTranspose.RowEnd` | main.cpp:105-108 | when row i's inner loop finishes, every pair in row i is exchanged, which is the invariant at the start of row i + 1 |
| `InPlaceTranspose.AllSwapped` | main.cpp:105-109 | after the last row every off-diagonal pair has been exchanged once and the diagonal is untouched, so the storage is the transpose of the original, and it is also the storage that `SelfTransposeAsWritten` computes |
| `Matrices.Matrix.SelfTranspose` | main.cpp:102-111 | on a square matrix the swap loop followed by the exchange of rows and cols leaves a valid matrix whose storage is the transpose of the old storage, the same value `Transpose` returns for the same input; the resulting rows, cols and storage are exactly those of `SelfTransposeAsWritten`, so the imperative loop and the as-written model agree |
| `InPlaceTranspose.InnerLoop` | main.cpp:106-108 | the inner loop of row i as written, from column j: the storage keeps its rows×cols shape, cell (i, q) is exchanged with cell (q, i) for every q in [j, cols), and every other cell is unchanged; the per-cell clause is proved from the recursive call's own contract |
| `InPlaceTranspose.OuterLoop` | main.cpp:105-109 | the outer loop as written, from row i: the storage keeps its rows×cols shape, (p, q) is exchanged with (q, p) for every off-diagonal pair with i ≤ p, q < cols, and every other cell is unchanged, including every row from cols on |
| `InPlaceTranspose.SelfTransposeAsWritten` | main.cpp:102-111 | as written, on the shapes where the loops stay inside storage (rows ≥ cols, or rows == 0), the recorded dimensions are exchanged, the top cols×cols block of the storage is transposed, every row from cols on is untouched, and the storage keeps its old rows×cols shape; this follows from the contract of `OuterLoop` |
| `InPlaceTranspose.AsWrittenSquareIsTranspose` | main.cpp:102-111 | on square input the as-written loop gives exactly the transpose, with the same dimensions |
| `InPlaceTranspose.AsWrittenBreaksShape` | main.cpp:110 | for every non-square input on which the loops stay inside storage (rows > cols, or 0 rows and cols > 0), the as-written result violates the storage invariant |
| `InPlaceTranspose.AsWrittenTwoByOne` | main.cpp:102-111 | on [[1],[2]] no swap happens and the recorded shape becomes 1×2; cell (0, 1) then passes the bounds check but row 0 holds only one cell |
| `InPlaceTranspose.AsWrittenZeroByTwo` | main.cpp:105-110 | on the 0×2 matrix the loops run zero times and the recorded shape becomes 2×0 over storage with no rows |
| `Matrices.Matrix.Transpose` | main.cpp:113-122 | returns a fresh, valid cols×rows matrix whose storage is the transpose of the receiver's: result(j, i) == this(i, j); the receiver does not change |
| `Grid.TransposeInvolution` | main.cpp:113-122 | transposing twice gives back the original grid |
| `Matrices.Matrix.Multiply` | main.cpp:133-157 | fails with DimensionMismatch exactly when this.cols != a.rows; otherwise it returns a fresh, valid rows×a.cols matrix whose cell (i, j) is the sum over k < cols of this(i, k)·a(k, j), accumulated from 0 in increasing k; neither operand changes |
| `Grid.DotRightIdentity` | main.cpp:149-152 | the running sum of row i times column j of the identity, taken over the first k terms, is g[i][j] when j < k and 0 otherwise |
| `Grid.DotLeftIdentity` | main.cpp:149-152 | the running sum of row i of the identity times column j, taken over the first k terms, is g[i][j] when i < k and 0 otherwise |
| `Grid.ProductRightIdentity` | main.cpp:146-156 | multiplying a grid by the identity on the right gives it back |
| `Grid.ProductLeftIdentity` | main.cpp:146-156 | multiplying a grid by the identity on the left gives it back |
| `Grid.DotTransposed` | main.cpp:149-152 | the sum for cell (i, j) of g·h equals the sum for cell (j, i) of hᵀ·gᵀ, term by term |
| `Grid.TransposeOfProduct` | main.cpp:146-156 | the transpose of a product is the product of the transposes in reverse order |
| `Grid.ProductExample` | main.cpp:146-156 | [[1,2],[3,4]] times [[5,6],[7,8]] is [[19,22],[43,50]] |

## Left out

- `print` (main.cpp:124-131) writes to the console. Output is not modelled.
- `main` (main.cpp:159-161) is an empty entry point and is not modelled.
- Scalars are `real`, not IEEE `double`. Rounding in the product's sum is not modelled. The order of the sum (from 0, increasing k) is kept in `Grid.Dot`.
- Dimensions are unbounded integers. Overflow of C++ `int` and allocation failure are not modelled.
- The exact exception types (`invalid_argument`, `out_of_range`, and the `length_error` that `vector` raises first for a negative size in the constructor) are not modelled. They map to the three error tags.
- `operator()` returns a mutable reference. It is modelled as the pair `Get`/`Set`, and both do the same bounds check. Aliasing a reference across later operations is not modelled.
- Matrices.Matrix.SelfTranspose: requires `rows == cols`. The source accepts any shape. When rows > cols, or rows == 0 < cols, its result breaks the storage invariant (see Findings). In the rows == 0 < cols case the break cannot be seen through the class's own operations. When 1 ≤ rows < cols, the loop reads `data_[j]` past the last row, which is undefined behaviour.
- InPlaceTranspose.SelfTransposeAsWritten: only defined when rows ≥ cols or rows == 0, the shapes on which the source loop stays inside storage. The out-of-bounds case (1 ≤ rows < cols) has no defined result to model.
- Error tags: the code throws `invalid_argument` for a negative dimension (main.cpp:77, main.cpp:91) and for mismatched product shapes (main.cpp:143). The model gives these separate tags, `InvalidDimension` and `DimensionMismatch`.
- Value semantics: in C++ `Matrix` is a value type. Its implicit copy constructor and assignment copy `data_`, and `transpose` and `operator*` return by value. The Dafny `Matrix` is a reference, so `var b := a` aliases. No modelled operation depends on copying: `Transpose` and `Multiply` return fresh objects and leave their operands unchanged.
- Thread safety is not modelled. The class has no internal locking, and the model is sequential.

## Findings

| source | as written | input that shows it | evidently intended | confidence | as-written member | corrected member |
|---|---|---|---|---|---|---|
| main.cpp:102-111 | swaps cells only inside the existing rows×cols extent, then exchanges `rows_` and `cols_` without reshaping `data_` | the 2×1 matrix [[1],[2]]: no swap happens, `rows_` becomes 1 and `cols_` becomes 2, but `data_` still holds 2 rows of 1 cell, so element (0, 1) passes the bounds check and reads past row 0 | an in-place transpose that leaves a valid cols×rows matrix; the model applies it only to square matrices, where the swap loop is proved to give exactly the transpose | not executed; high | `InPlaceTranspose.AsWrittenTwoByOne` | `Matrices.Matrix.SelfTranspose` |
| main.cpp:105-110 | on a matrix with no rows the loops run zero times, then `rows_` and `cols_` are exchanged over empty storage | the 0×2 matrix: `rows_` becomes 2 and `cols_` becomes 0, but `data_` holds no rows, so the recorded shape claims two rows that do not exist. Unlike the 2×1 case, the class's own operations cannot observe this: with `cols_` 0, `operator()` rejects every index, `transpose`, `print` and `operator*` reach `data_[i]` only inside loops bounded by a zero count, and `resize` gives the same grid as on a valid 2×0 matrix | an in-place transpose that leaves a valid cols×rows matrix; the model applies it only to square matrices, where the swap loop is proved to give exactly the transpose | not executed; high | `InPlaceTranspose.AsWrittenZeroByTwo` | `Matrices.Matrix.SelfTranspose` |

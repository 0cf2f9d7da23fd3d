# t-matrix core in Dafny

A model of the two index-arithmetic cores of the t-matrix library, with proofs about them.

- **`src/base.js`** is the strided column-major `Matrix` class. A matrix is a descriptor
  over a shared buffer. It holds `rows`, `cols`, a column span (`SPAN`, the slots from the start of
  one column to the start of the next) and the slot of cell (0, 0). Cell (r, c) is at slot
  `origin + r + c * span`. The `span - rows` slots after each column (`SKIP`) belong to no cell.
  Views (`row`, `column`, `subMatrix`) are new descriptors over the same buffer.
- **`src/manipulations.js`** works on a second representation: a row-offset list R, a
  column-offset list C and a shared buffer D. Cell (r, c) is `D[R[r] + C[c]]`.
  - `swapRows`/`swapCols` permute R or C in place.
  - `minor` filters both lists.
  - `diag` extracts, builds or sets a diagonal.
  - `reshape`, `repmat`, `vcat` and `hcat` build new matrices from row-major streams.

The project has four modules:

| file | module | contents |
|---|---|---|
| `arithmetic.dfy` | `Arithmetic` | The non-linear index arithmetic the layouts need, proved once. |
| `dense.dfy` | `Dense` | Logical matrices as values (`Grid = seq<seq<int>>`). It covers the strided window a buffer holds, column-major and row-major orders, transpose, minor, product and determinant. These are the specifications the imperative code is proved against. |
| `base.dfy` | `Base` | `class Matrix` with `array<int>` storage. Its methods follow the loops of `src/base.js`. Each is proved against `Dense`. |
| `manipulations.dfy` | `Manipulations` | `class IndexMatrix` (offset lists that change in place, over a shared `array<int>`), with the in-place swaps and `diag`. The pure constructions are functions on grids. |

Cells are exact integers. Offsets are counted in elements.

## Model

| member | source | states |
|---|---|---|
| Base.Matrix.Zeros | src/base.js:46-50 | `new Matrix(rows, cols)` is a fresh contiguous matrix (span == rows, origin 0) of `rows * cols` slots, all 0 |
| Base.Matrix.View | src/base.js:31-40 | a view over a Matrix is built exactly when its start lies within the root buffer (past the end the typed-array view throws, even for no columns) and the buffer holds `origin + span * cols - skip` slots; an absent span means `rows`; the view shares the buffer and starts `offset` slots after the source's origin |
| Base.Matrix.FromArray | src/base.js:31-45 | an array source is rejected exactly when its length is below `span * cols + offset - skip`; otherwise the fresh matrix holds the strided window of `values` starting at `offset` |
| Dense.ViewFitsCellsFit | src/base.js:39-42 | the constructor's length check is enough for every addressed cell to exist |
| Base.Matrix.Get | src/base.js:66-68 | get(r, c) reads slot `origin + r + c * span`, which is cell (r, c) of the logical contents |
| Base.Matrix.Set | src/base.js:76-79 | set writes only slot `origin + r + c * span`; every other slot keeps its value; the contents change in cell (r, c) alone; returns the same matrix |
| Base.Matrix.SlotsOfOtherCells | src/base.js:76-79 | distinct cells have distinct slots, so a set is seen in no other cell |
| Base.Matrix.GapIsNoCell | src/base.js:84 | the SKIP slots after a column belong to no cell |
| Base.Matrix.SetEach | src/base.js:83-88 | every cell (r, c) becomes `fn(old value, r, c, c * span + r)`; every slot that is no cell, the SKIP gaps included, is untouched; returns the same matrix |
| Base.Matrix.SetEachInColumn | src/base.js:84-86 | one pass of the outer loop updates exactly column `c` and leaves other columns and non-cell slots alone |
| Base.Matrix.ForEach | src/base.js:95-100 | forEach makes one call per cell in column-major order, passing value, row, column and `c * span + r`, and writes nothing |
| Base.Matrix.Fill | src/base.js:162-165 | fill(v) makes every cell `v` and leaves non-cell slots alone |
| Base.Matrix.Scale | src/base.js:147-149 | scale(s) multiplies every cell by `s` in place and returns the same matrix |
| Base.Matrix.SetTo | src/base.js:89-94 | for a gap-free matrix, the contents become `values` read in column-major order |
| Base.Matrix.SetToMatrix | src/base.js:89-94 | setTo(a) of any matrix with enough cells fills this matrix, column by column, from the column-major order of the cells `a` had, even when `a` shares this buffer; for the same shape that is a copy of `a` |
| Base.Matrix.SetDiag | src/base.js:115-120 | exactly the min(rows, cols) cells (d, d) change, each to `fn(old, d, d * (span + 1))`; no other slot changes |
| Base.Matrix.ToArray | src/base.js:101-111 | a fresh array holding the cells in column-major order, whether or not the matrix has gaps |
| Base.Matrix.CopyColumn | src/base.js:106-109 | one round of the copy appends column `c` to what was copied before |
| Dense.ContiguousIsColumnMajor | src/base.js:102-104 | for a gap-free block, the buffer itself is the column-major order of its cells (the slice branch) |
| Dense.ColumnMajorRoundTrip | src/base.js:112-114 | reading a column-major copy back as a contiguous block gives back the grid |
| Base.Matrix.Clone | src/base.js:112-114 | clone() is a fresh gap-free matrix with equal contents |
| Base.Matrix.Map | src/base.js:80-82 | map(fn) gives a fresh matrix of `fn(cell, r, c, c * rows + r)`; this matrix is unchanged |
| Base.Matrix.Neg | src/base.js:150-152 | neg() gives a fresh matrix of negated cells; this matrix is unchanged |
| Base.Matrix.MultScalar | src/base.js:138 | mult with a number gives a fresh scaled matrix; this matrix is unchanged |
| Base.Matrix.Column | src/base.js:153-155 | column(c) is a rows×1 view sharing the buffer and span; view cell (i, 0) is parent cell (i, c) |
| Base.Matrix.Row | src/base.js:156-158 | row(r) is a 1×cols view sharing the buffer and span, built exactly when the view constructor accepts it (start within the buffer, enough slots); view cell (0, j) is parent cell (r, j) |
| Base.Matrix.SubMatrix | src/base.js:159-161 | subMatrix(r, c, h, w) is built exactly when the view constructor accepts it (start within the buffer, enough slots); it shares the buffer and span; view cell (i, j) is parent cell (r + i, c + j) |
| Dense.WindowOfWindow | src/base.js:159-161 | a block inside a window, read at the same stride from the shifted origin, is the sub-window |
| Base.ViewOfParent | src/base.js:36-40 | a 2×2 view built from a 4×4 Matrix source with span 4 and offset 2 covers rows 2-3 of columns 0-1: a set through either descriptor is seen through the other, and the other cells are untouched |
| Base.Matrix.Transpose | src/base.js:121-129 | a fresh cols×rows gap-free matrix whose contents are the transpose, gapped sources included |
| Base.Matrix.TransposeColumn | src/base.js:125-127 | the inner loop writes column `c` into row `c` of the result and nothing else |
| Dense.TransposeTwice | src/base.js:121-129 | transposing twice gives back the contents |
| Base.Matrix.To2dArray | src/base.js:130-136 | to2dArray()[r][c] is cell (r, c): the result is the logical contents |
| Base.Matrix.ColumnIsRow | src/base.js:131-134 | in the transpose's buffer, the `cols` slots from `r * cols` are row `r` |
| Base.Matrix.Minor | src/base.js:166-179 | for a gap-free source, a fresh (rows-1)×(cols-1) matrix whose cell (i, j) is source cell (i + [i ≥ row], j + [j ≥ col]) |
| Base.Matrix.MinorColumn | src/base.js:170-176 | one pass of the outer loop copies one source column without row `row`, skipping column `col` and the last row as the source does |
| Dense.MinorDeletes | src/base.js:166-179 | the minor is the grid with one row deleted and one position deleted from every row |
| Base.Matrix.Mult | src/base.js:137-146 | for gap-free operands with `cols == m.rows`, a fresh rows×m.cols matrix whose (i, k) is Σ_t this(i, t)·m(t, k) |
| Base.Matrix.MultColumn | src/base.js:141-143 | the middle loop fills result column `col` with dot products and touches no other column |
| Base.Matrix.MultCell | src/base.js:143-144 | the inner loop accumulates the dot product of row `row` and column `col` in one slot |
| Dense.MultTranspose | src/base.js:137-146 | the transpose of a product is the product of the transposes in reverse order |
| Dense.MultIdentity | src/base.js:137-146 | the identity is neutral on both sides of the product |
| Base.Matrix.Det | src/base.js:180-191 | det() of a gap-free matrix is 0 when not square, and otherwise the determinant |
| Base.Matrix.Expand | src/base.js:186-190 | the loop, two rows per round, computes the full expansion down column 0 |
| Base.Matrix.Term | src/base.js:188-190 | one product `a(k, 0) * det(minor(k, 0))` is the next term of the expansion |
| Dense.LaplaceExpansion | src/base.js:180-191 | for n ≥ 2 the determinant is Σ_i (−1)^i·a(i, 0)·det(minor(i, 0)); for n = 2 and 3 this says the closed forms agree with the expansion, from n = 4 on it is the loop itself |
| Dense.LaplaceTwo | src/base.js:183 | the 2×2 closed form agrees with the expansion |
| Dense.LaplaceThree | src/base.js:184 | the 3×3 closed form agrees with the expansion |
| Dense.CofactorStep | src/base.js:188-190 | each term adds the cell times the minor's determinant with alternating sign |
| Dense.SignAlternates | src/base.js:186-190 | the loop adds even rows and subtracts odd ones |
| Dense.DetIdentity | src/base.js:180-191 | the identity has determinant 1 |
| Dense.DetOfColumnMajorExample | src/base.js:23 | the documented `new Matrix(2,2,[1,2,4,3])` is read column-major: the grid [[1, 4], [2, 3]], with determinant −5 |
| Dense.DetAsWrittenOneByOne | src/base.js:180-191 | as written, a 1×1 matrix has determinant 0, not its cell |
| Dense.DetAsWrittenAgrees | src/base.js:180-191 | apart from the 1×1 case the determinant as written is the corrected one |
| Manipulations.SwapRows | src/manipulations.js:75-81 | the pairs `(A[k], B[k])` are swapped in order in R; C and the buffer are unchanged; the same matrix is returned |
| Manipulations.SwapCols | src/manipulations.js:98-104 | the same on C; R and the buffer are unchanged; the same matrix is returned |
| Manipulations.ZipIgnoresExtra | src/manipulations.js:64-66 | entries of the longer list past the end of the shorter are ignored |
| Manipulations.SwapAllPermutes | src/manipulations.js:75-81 | the swapped offset list is a permutation of the original |
| Manipulations.SwapAllAsPermutation | src/manipulations.js:75-81 | entry `i` of the swapped list is entry `perm[i]` of the original, `perm` being the same swaps applied to 0..n-1 |
| Manipulations.SwapAllUndo | src/manipulations.js:75-81 | the same pairs swapped in reverse order restore the list |
| Manipulations.SwapExchangesRows | src/manipulations.js:78 | one swap of R exchanges two rows of the matrix and nothing else |
| Manipulations.SwapExchangesCols | src/manipulations.js:101 | one swap of C exchanges two columns and nothing else |
| Manipulations.SwapKeepsFit | src/manipulations.js:75-104 | swapping keeps every cell inside the buffer |
| Manipulations.EyeWithCorner | test/manipulations.js:49-50 | the test's eye(4) with (0, 3) set to 1 |
| Manipulations.SwapRowsExample | test/manipulations.js:47-53 | swapRows(m, 0, 3) iterates as `[0,0,0,1, 0,1,0,0, 0,0,1,0, 1,0,0,1]` |
| Manipulations.SwapColsExample | test/manipulations.js:55-61 | swapCols(m, 0, 3) iterates as `[1,0,0,1, 0,1,0,0, 0,0,1,0, 1,0,0,0]` |
| Manipulations.Without | src/manipulations.js:120-121 | the filtered list drops position `k` and keeps the rest in order |
| Manipulations.WithoutFits | src/manipulations.js:118-123 | the filtered lists still address cells inside the buffer |
| Manipulations.WithoutIsMinor | src/manipulations.js:118-123 | filtering both lists cuts out exactly the minor of the logical grid |
| Manipulations.MatrixMinor | src/manipulations.js:118-123 | minor is a new matrix over the same buffer whose cells are the minor; nothing is copied |
| Manipulations.Plan | src/manipulations.js:22-39 | a new diagonal matrix is built exactly for a one-column matrix whose row count is not 1 (an empty column included); a 1×1 matrix is returned itself |
| Manipulations.DiagZeroFillAsWritten | src/manipulations.js:26-32 | the fill test as written and as documented differ exactly on the fill 0, where `diag(m, 0)` extracts instead of setting |
| Manipulations.Diag | src/manipulations.js:22-39 | each branch of diag: the matrix itself, the fill written into a 1×1 matrix, a new diagonal matrix from a column, the fill written along the diagonal, or the diagonal as a view |
| Manipulations.DiagView | src/manipulations.js:36-38 | the extracted diagonal is a min(rows, cols)×1 view over the same buffer holding cells (i, i) |
| Manipulations.DiagonalView | src/manipulations.js:36-38 | the offsets `R[i] + C[i]` with column offset 0 address exactly the diagonal |
| Manipulations.Diagonal | src/manipulations.js:36-38 | the diagonal of a rows×cols matrix has min(rows, cols) rows and one column |
| Manipulations.DiagonalEveryStep | test/manipulations.js:20-25 | on a square matrix the diagonal is every (n + 1)-th cell of the row-major order |
| Manipulations.SetColumn | src/manipulations.js:26-33 | setting a column vector writes the fill cell by cell, top to bottom, into the shared buffer |
| Manipulations.SetDiagonalEffect | src/manipulations.js:32-34 | writing a fill along the diagonal of a matrix whose cells have slots of their own sets each cell (i, i) and leaves every other cell alone |
| Manipulations.SetDiagonalOn | src/manipulations.js:32-34 | diagonal cell (k, k) takes the fill's value |
| Manipulations.SetDiagonalOff | src/manipulations.js:32-34 | an off-diagonal cell keeps its value |
| Manipulations.FromColumn | src/manipulations.js:29-34 | diag of a column of n cells is a fresh n×n matrix with the column on its diagonal and 0 elsewhere |
| Manipulations.ZerosWithDiagonal | src/manipulations.js:29-34 | writing a column along the diagonal of a fresh zero matrix gives the diagonal matrix of that column |
| Manipulations.DiagonalOfDiagGrid | src/manipulations.js:16-18 | extracting the diagonal of a built diagonal matrix gives back its column |
| Manipulations.DiagGridSum | test/manipulations.js:26-32 | a diagonal matrix built from a column holds the same sum as the column |
| Manipulations.DiagGridEveryStep | test/manipulations.js:26-32 | the column sits at every (n + 1)-th cell of the built matrix in row-major order |
| Manipulations.Reshape | src/manipulations.js:56-58 | reshape gives a rows×cols matrix |
| Manipulations.ReshapeKeepsOrder | src/manipulations.js:41-58 | reshape keeps the row-major order of the cells (test/manipulations.js:40-44) |
| Dense.RowMajorRoundTrip | src/manipulations.js:56-58 | reading a grid filled row by row from `s` gives back `s` |
| Dense.FromRowMajorRoundTrip | src/manipulations.js:56-58 | filling a grid from its own row-major order gives it back |
| Manipulations.ReshapeBack | src/manipulations.js:56-58 | reshaping back to the original size restores the matrix |
| Manipulations.Repmat | src/manipulations.js:133-136 | repmat has shape (v·rows)×(h·cols) |
| Manipulations.RepmatDefaults | src/manipulations.js:133 | with the default counts `vRepeat = 1, hRepeat = 1` repmat gives back the matrix |
| Manipulations.RepmatAt | src/manipulations.js:133-142 | cell (i, j) of repmat is cell (i mod rows, j mod cols) of the original |
| Manipulations.RepmatStreamAt | src/manipulations.js:138-142 | position `j` of the copies of row `r` in pass `a` of the stream holds cell `j mod cols` of that row |
| Manipulations.RepeatAt | src/manipulations.js:141 | copy `q` of a repeated row holds that row |
| Manipulations.RowsRepeatedAt | src/manipulations.js:140-141 | row `r`, repeated, sits at position `r * (h * cols)` of one pass |
| Manipulations.VcatStacks | src/manipulations.js:150-166 | vcat fails exactly when there is no operand or a width differs from the first; otherwise it stacks the operands' rows in argument order, with height the sum of heights |
| Manipulations.StackShape | src/manipulations.js:155-166 | the stacked grid is as high as the heights add up to, and the stream of _vcat is its row-major order |
| Manipulations.HeightsPrefix | src/manipulations.js:155 | the operands before `k` and operand `k` fit inside the summed height |
| Manipulations.StackAt | src/manipulations.js:164-166 | row `i` of operand `k` is row `Heights(ops[..k]) + i` of the stack |
| Manipulations.HcatJoins | src/manipulations.js:174-191 | hcat fails exactly when there is no operand or a height differs from the first; otherwise row `r` joins the operands' rows `r` left to right, with width the sum of widths |
| Manipulations.JoinRowAt | src/manipulations.js:188-191 | cell `c` of row `r` of operand `k` is cell `Widths(ops[..k]) + c` of joined row `r` |
| Manipulations.HcatStreamJoined | src/manipulations.js:188-191 | the stream of _hcat is the row-major order of the joined rows |

## Left out

- inv and ldiv (src/base.js:192-222) are not modelled. They are floating-point Gauss-Jordan elimination with a pivot tolerance: numerics, not index structure.
- Floating point is not modelled. Cells are exact integers, so IEEE-754 rounding of `Float64Array` values is absent, and so is NaN. `mult` and `det` are exact.
- Byte offsets are not modelled. `byteOffset` and the `* 8` scaling of a Matrix source (src/base.js:37-40) become element offsets into one shared `array<int>`; a view's origin is absolute in that array.
- A raw `ArrayBuffer` source, as in the example at src/base.js:24-26, is not modelled. The source sends it down the array branch (src/base.js:41-45): it has no `length`, so the length test passes, and `slice(offset)` copies bytes, not elements. The `Float64Array` of the 126 bytes left from the example then throws, so that call makes no view. Views are modelled only from a Matrix source, the branch at src/base.js:36-40; see Base.ViewOfParent.
- Base.Matrix.View: `span < rows` (columns that overlap themselves) is excluded by a requires; the model's validity needs `rows <= span`.
- Base.Matrix.FromArray: same `rows <= span` requires as View.
- Base.Matrix.SubMatrix: requires `h <= span` for the same reason.
- Base.Matrix.ToArray: follows the evident intent, a column-major copy starting at the view's own origin. As written, the source reads `this.offset`, which the constructor never sets (src/base.js:103, 106), and the gapped branch reads from the start of the root buffer.
- Base.Matrix.Clone: built on the intended ToArray, for the same reason.
- Base.Matrix.SetTo: requires `span == rows` and at least `rows * cols` values. The source passes setEach's gapped slot index to the array; past its end it stores `undefined`, which integer cells cannot hold.
- Base.Matrix.Minor: requires `span == rows`; the source indexes the buffer as if the matrix were gap-free.
- Base.Matrix.Mult: requires `span == rows` for both operands and `cols == m.rows`. The source checks neither and reads unrelated slots otherwise.
- Base.Matrix.Det: requires `span == rows`, like Minor and Mult.
- Base.Matrix.ForEach: returns the sequence of calls instead of invoking a callback. Callbacks with side effects are not modelled.
- Base.Matrix.SetEach: `fn` is a pure function value. SetEach's `i` restarts at `c * span` for each column, which equals the source's running index.
- The core Matrix of src/manipulations.js is not part of this model. It is imported from `./core`, as are `from`, `range`, `zipIters`, `rows` and the symbols from `./const`. The offset-list matrix stands in for it, and plain sequences stand in for generators and the iterator protocol.
- Range syntax for the index lists of swapRows/swapCols is not modelled; the lists are plain sequences of positions.
- Manipulations.SwapRows: requires every paired position to be a row (PairsBelow). In JavaScript an out-of-range position would add an entry to the offset array.
- Manipulations.SwapCols: same requirement on columns.
- Manipulations.SetColumn: stands for the one-argument `set` of the core Matrix, which is not part of this model. The assumed behaviour: a number goes to every cell; a list of values goes to the first cells in order, as far as both reach.
- Manipulations.Diag: function fills are not modelled, only absent, numeric and array/matrix fills. NaN is falsy in JavaScript but does not arise with integer cells.
- Manipulations.FromColumn: the fresh matrix of the core constructor is assumed to lay out its cells column by column (row offsets `i`, column offsets `j * rows`).
- Manipulations.Reshape: requires `rows * cols` to equal the number of cells. What the core constructor does with a stream of another length is not part of this model.
- Manipulations.Repmat: works on the logical grid of the operand, read by rows; the result is a value, not a new core Matrix.
- The vcat and hcat results are values (a grid with its size), not new core Matrix objects, and the `from` conversion of the operands is left out.
- Error messages are not modelled. hcat's error text (it names vcat and width) is not reproduced; the model only distinguishes NoOperands, WidthMismatch and HeightMismatch.
- The `METHOD` mixin tags (src/manipulations.js:59, 82, 105) are packaging only.

## Findings

| source | as written | input that shows it | evidently intended | confidence | as-written member | corrected member |
|---|---|---|---|---|---|---|
| src/base.js:180-191 | det() has no 1×1 case. A 1×1 matrix falls through to the expansion, whose one term multiplies by the determinant of a 0×0 minor, and that is 0 | a 1×1 matrix [[5]]: det() gives 0 | the determinant of a 1×1 matrix is its cell | not executed | Dense.DetAsWrittenOneByOne | Base.Matrix.Det |
| src/manipulations.js:26-32 | `if (set)` tests the fill for truthiness, so the fill 0 counts as absent | `diag(mRand, 0)`, the documented way to zero the diagonal (src/manipulations.js:19-20): it returns the extracted diagonal and leaves `mRand` unchanged | any given fill, 0 included, is written along the diagonal | not executed | Manipulations.DiagZeroFillAsWritten | Manipulations.Diag |

/** Logical matrices as values: a matrix is its grid of cells, `g[r][c]` being the cell in
    row `r` and column `c`. The strided buffers of module Base are read into grids by
    `Window`, and the algebra of src/base.js (transpose, minor, mult, det) is specified here
    on grids, with exact integer cells. */
module Dense {
  import opened Arithmetic

  type Grid = seq<seq<int>>

  /** `g` has `rows` rows of `cols` cells each. */
  predicate IsShape<T>(g: seq<seq<T>>, rows: nat, cols: nat) {
    |g| == rows && forall r :: 0 <= r < rows ==> |g[r]| == cols
  }

  /** Two grids of one shape are equal when they agree on every cell. */
  lemma CellsDetermine<T>(a: seq<seq<T>>, b: seq<seq<T>>, rows: nat, cols: nat)
    requires IsShape(a, rows, cols) && IsShape(b, rows, cols)
    requires forall r, c :: 0 <= r < rows && 0 <= c < cols ==> a[r][c] == b[r][c]
    ensures a == b
  {
    forall r | 0 <= r < rows ensures a[r] == b[r] {
      assert forall c :: 0 <= c < cols ==> a[r][c] == b[r][c];
    }
  }

  // ---------------------------------------------------------------------------------------
  // Strided column-major buffers

  /** The length check of the view constructor: a buffer of `len` slots must hold
      `origin + span * cols - skip` slots, where `skip == span - rows`. */
  predicate ViewFits(origin: int, span: int, rows: int, cols: int, len: int) {
    origin + span * cols - (span - rows) <= len
  }

  /** Every cell of a `rows` by `cols` block that starts at `origin` and whose columns
      start `span` slots apart lies inside a buffer of `len` slots. */
  predicate CellsFit(origin: nat, span: nat, rows: nat, cols: nat, len: nat) {
    rows == 0 || cols == 0 || origin + (cols - 1) * span + rows <= len
  }

  /** The constructor's length check is enough for every cell to exist, and for a block of
      at least one column it is exactly that. */
  lemma ViewFitsCellsFit(origin: nat, span: nat, rows: nat, cols: nat, len: nat)
    ensures ViewFits(origin, span, rows, cols, len) ==> CellsFit(origin, span, rows, cols, len)
    ensures cols > 0 && rows > 0 ==>
      (ViewFits(origin, span, rows, cols, len) <==> CellsFit(origin, span, rows, cols, len))
  {
    if cols > 0 {
      assert (cols - 1) * span == span * cols - span;
    }
  }

  /** The grid a buffer holds when cell (r, c) lives at slot `origin + r + c * span`. */
  function Window(buf: seq<int>, origin: nat, span: nat, rows: nat, cols: nat): (g: Grid)
    requires CellsFit(origin, span, rows, cols, |buf|)
    ensures IsShape(g, rows, cols)
  {
    seq(rows, r requires 0 <= r < rows =>
      seq(cols, c requires 0 <= c < cols =>
        StridedBound(r, c, rows, cols, span); buf[origin + r + c * span]))
  }

  /** A block inside a window, read at the same stride from a shifted origin, is the
      corresponding part of the window: the arithmetic behind row, column and subMatrix views. */
  lemma {:induction false} WindowOfWindow(buf: seq<int>, origin: nat, span: nat, rows: nat, cols: nat,
                                          r0: nat, c0: nat, h: nat, w: nat, i: nat, j: nat)
    requires CellsFit(origin, span, rows, cols, |buf|)
    requires r0 + h <= rows && c0 + w <= cols && i < h && j < w
    ensures CellsFit(origin + r0 + c0 * span, span, h, w, |buf|)
    ensures Window(buf, origin + r0 + c0 * span, span, h, w)[i][j]
         == Window(buf, origin, span, rows, cols)[r0 + i][c0 + j]
  {
    StridedBound(r0 + h - 1, c0 + w - 1, rows, cols, span);
    assert (c0 + w - 1) * span == c0 * span + (w - 1) * span;
    assert (c0 + j) * span == c0 * span + j * span;
  }

  // ---------------------------------------------------------------------------------------
  // Column-major flattening (what toArray produces)

  /** Column `c` of `g`, from top to bottom. */
  function ColumnOf<T>(g: seq<seq<T>>, rows: nat, cols: nat, c: nat): (s: seq<T>)
    requires IsShape(g, rows, cols) && c < cols
    ensures |s| == rows && forall r :: 0 <= r < rows ==> s[r] == g[r][c]
  {
    seq(rows, r requires 0 <= r < rows => g[r][c])
  }

  /** The first `k` columns of `g`, each from top to bottom. */
  function ColumnsOf<T>(g: seq<seq<T>>, rows: nat, cols: nat, k: nat): (s: seq<T>)
    requires IsShape(g, rows, cols) && k <= cols
    ensures |s| == k * rows
  {
    if k == 0 then []
    else ColumnsOf(g, rows, cols, k - 1) + ColumnOf(g, rows, cols, k - 1)
  }

  /** All cells of `g` in column-major order. */
  function ColumnMajor<T>(g: seq<seq<T>>, rows: nat, cols: nat): (s: seq<T>)
    requires IsShape(g, rows, cols)
    ensures |s| == rows * cols
  {
    ColumnsOf(g, rows, cols, cols)
  }

  /** Cell (r, c) of a column already walked sits at position `c * rows + r` of the walk. */
  lemma {:induction false} ColumnsOfAt<T>(g: seq<seq<T>>, rows: nat, cols: nat, k: nat, r: nat, c: nat)
    requires IsShape(g, rows, cols) && k <= cols && r < rows && c < k
    ensures c * rows + r < k * rows
    ensures ColumnsOf(g, rows, cols, k)[c * rows + r] == g[r][c]
  {
    CellIndexBound(r, c, rows, k);
    if c < k - 1 {
      ColumnsOfAt(g, rows, cols, k - 1, r, c);
    }
  }

  /** Cell (r, c) sits at position `c * rows + r` of the column-major sequence. */
  lemma ColumnMajorAt<T>(g: seq<seq<T>>, rows: nat, cols: nat, r: nat, c: nat)
    requires IsShape(g, rows, cols) && r < rows && c < cols
    ensures c * rows + r < rows * cols
    ensures ColumnMajor(g, rows, cols)[c * rows + r] == g[r][c]
  {
    ColumnsOfAt(g, rows, cols, cols, r, c);
  }

  /** Reading a column-major sequence back as a contiguous block (origin 0, stride `rows`)
      gives the grid that was flattened. */
  lemma ColumnMajorRoundTrip(g: Grid, rows: nat, cols: nat)
    requires IsShape(g, rows, cols)
    ensures CellsFit(0, rows, rows, cols, rows * cols)
    ensures Window(ColumnMajor(g, rows, cols), 0, rows, rows, cols) == g
  {
    if rows > 0 && cols > 0 {
      CellIndexBound(rows - 1, cols - 1, rows, cols);
    }
    var w := Window(ColumnMajor(g, rows, cols), 0, rows, rows, cols);
    forall r, c | 0 <= r < rows && 0 <= c < cols ensures w[r][c] == g[r][c] {
      ColumnMajorAt(g, rows, cols, r, c);
    }
    CellsDetermine(w, g, rows, cols);
  }

  /** A contiguous block is the column-major flattening of the grid it holds. */
  lemma ContiguousIsColumnMajor(buf: seq<int>, rows: nat, cols: nat)
    requires |buf| == rows * cols
    ensures CellsFit(0, rows, rows, cols, |buf|)
    ensures ColumnMajor(Window(buf, 0, rows, rows, cols), rows, cols) == buf
  {
    if rows > 0 && cols > 0 {
      CellIndexBound(rows - 1, cols - 1, rows, cols);
    }
    var s := ColumnMajor(Window(buf, 0, rows, rows, cols), rows, cols);
    forall k | 0 <= k < |buf| ensures s[k] == buf[k] {
      ContiguousAt(buf, rows, cols, k);
    }
  }

  /** Position `k` of a contiguous block is position `k` of the column-major flattening of its grid. */
  lemma ContiguousAt(buf: seq<int>, rows: nat, cols: nat, k: nat)
    requires |buf| == rows * cols && k < |buf|
    ensures CellsFit(0, rows, rows, cols, |buf|)
    ensures |ColumnMajor(Window(buf, 0, rows, rows, cols), rows, cols)| == |buf|
    ensures ColumnMajor(Window(buf, 0, rows, rows, cols), rows, cols)[k] == buf[k]
  {
    CopyAndOffset(k, rows, cols);
    ContiguousCell(buf, rows, cols, k % rows, k / rows);
  }

  /** The slot of cell (r, c) of a contiguous block is the position of that cell in the
      column-major flattening. */
  lemma ContiguousCell(buf: seq<int>, rows: nat, cols: nat, r: nat, c: nat)
    requires |buf| == rows * cols && r < rows && c < cols
    ensures CellsFit(0, rows, rows, cols, |buf|) && c * rows + r < |buf|
    ensures |ColumnMajor(Window(buf, 0, rows, rows, cols), rows, cols)| == |buf|
    ensures ColumnMajor(Window(buf, 0, rows, rows, cols), rows, cols)[c * rows + r] == buf[c * rows + r]
  {
    CellIndexBound(rows - 1, cols - 1, rows, cols);
    var g := Window(buf, 0, rows, rows, cols);
    ColumnMajorAt(g, rows, cols, r, c);
    assert g[r][c] == buf[r + c * rows];
  }

  // ---------------------------------------------------------------------------------------
  // Row-major order: the order in which a matrix is iterated, and in which the matrix
  // constructor of src/manipulations.js fills a new matrix from a sequence of numbers

  /** All cells of `g`, row after row. */
  function RowMajor(g: Grid): (s: seq<int>)
  {
    if |g| == 0 then [] else RowMajor(g[..|g| - 1]) + g[|g| - 1]
  }

  /** A grid of `rows` rows of `cols` cells has `rows * cols` cells in row-major order. */
  lemma {:induction false} RowMajorLength(g: Grid, rows: nat, cols: nat)
    requires IsShape(g, rows, cols)
    ensures |RowMajor(g)| == rows * cols
  {
    if rows > 0 {
      RowMajorLength(g[..rows - 1], rows - 1, cols);
      assert (rows - 1) * cols + cols == rows * cols;
    }
  }

  /** Cell (r, c) sits at position `r * cols + c` of the row-major sequence. */
  lemma {:induction false} RowMajorAt(g: Grid, rows: nat, cols: nat, r: nat, c: nat)
    requires IsShape(g, rows, cols) && r < rows && c < cols
    ensures |RowMajor(g)| == rows * cols && r * cols + c < rows * cols
    ensures RowMajor(g)[r * cols + c] == g[r][c]
  {
    RowMajorLength(g, rows, cols);
    CellIndexBound(c, r, cols, rows);
    RowMajorLength(g[..rows - 1], rows - 1, cols);
    if r < rows - 1 {
      RowMajorAt(g[..rows - 1], rows - 1, cols, r, c);
    } else {
      assert r * cols == |RowMajor(g[..rows - 1])|;
    }
  }

  /** Stacking grids concatenates their row-major sequences. */
  lemma {:induction false} RowMajorAppend(a: Grid, b: Grid)
    ensures RowMajor(a + b) == RowMajor(a) + RowMajor(b)
  {
    if |b| > 0 {
      assert (a + b)[..|a + b| - 1] == a + b[..|b| - 1];
      RowMajorAppend(a, b[..|b| - 1]);
    } else {
      assert a + b == a;
    }
  }

  /** The `rows` by `cols` grid filled row by row from the start of `s`. */
  function FromRowMajor(s: seq<int>, rows: nat, cols: nat): (g: Grid)
    requires rows * cols <= |s|
    ensures IsShape(g, rows, cols)
  {
    seq(rows, r requires 0 <= r < rows =>
      seq(cols, c requires 0 <= c < cols => CellIndexBound(c, r, cols, rows); s[r * cols + c]))
  }

  /** Filling a grid from its own row-major sequence gives it back. */
  lemma FromRowMajorRoundTrip(g: Grid, rows: nat, cols: nat)
    requires IsShape(g, rows, cols)
    ensures |RowMajor(g)| == rows * cols
    ensures FromRowMajor(RowMajor(g), rows, cols) == g
  {
    RowMajorLength(g, rows, cols);
    var h := FromRowMajor(RowMajor(g), rows, cols);
    forall r, c | 0 <= r < rows && 0 <= c < cols ensures h[r][c] == g[r][c] {
      RowMajorAt(g, rows, cols, r, c);
    }
    CellsDetermine(h, g, rows, cols);
  }

  /** Reading a grid filled from `s` row by row gives back exactly `s`. */
  lemma RowMajorRoundTrip(s: seq<int>, rows: nat, cols: nat)
    requires |s| == rows * cols
    ensures RowMajor(FromRowMajor(s, rows, cols)) == s
  {
    var g := FromRowMajor(s, rows, cols);
    RowMajorLength(g, rows, cols);
    forall k | 0 <= k < |s| ensures RowMajor(g)[k] == s[k] {
      FilledAt(s, rows, cols, k);
    }
  }

  /** Position `k` of the row-major sequence of a grid filled from `s` is `s[k]`. */
  lemma FilledAt(s: seq<int>, rows: nat, cols: nat, k: nat)
    requires |s| == rows * cols && k < |s|
    ensures |RowMajor(FromRowMajor(s, rows, cols))| == rows * cols
    ensures RowMajor(FromRowMajor(s, rows, cols))[k] == s[k]
  {
    var g := FromRowMajor(s, rows, cols);
    CopyAndOffset(k, cols, rows);
    var r, c := k / cols, k % cols;
    RowMajorAt(g, rows, cols, r, c);
  }

  // ---------------------------------------------------------------------------------------
  // Transpose

  /** The `cols` by `rows` grid whose cell (c, r) is cell (r, c) of `g`. */
  function Transpose(g: Grid, rows: nat, cols: nat): (t: Grid)
    requires IsShape(g, rows, cols)
    ensures IsShape(t, cols, rows)
  {
    seq(cols, c requires 0 <= c < cols => seq(rows, r requires 0 <= r < rows => g[r][c]))
  }

  /** Transposing twice gives back the grid. */
  lemma TransposeTwice(g: Grid, rows: nat, cols: nat)
    requires IsShape(g, rows, cols)
    ensures Transpose(Transpose(g, rows, cols), cols, rows) == g
  {
    CellsDetermine(Transpose(Transpose(g, rows, cols), cols, rows), g, rows, cols);
  }

  // ---------------------------------------------------------------------------------------
  // Minor

  /** Position `i` of a list from which position `k` was removed, in the original list. */
  function Skip(i: nat, k: nat): (j: nat)
  {
    if i < k then i else i + 1
  }

  /** `g` with row `row` and column `col` removed. */
  function Minor(g: Grid, rows: nat, cols: nat, row: nat, col: nat): (m: Grid)
    requires IsShape(g, rows, cols) && row < rows && col < cols
    ensures IsShape(m, rows - 1, cols - 1)
  {
    seq(rows - 1, i requires 0 <= i < rows - 1 =>
      seq(cols - 1, j requires 0 <= j < cols - 1 => g[Skip(i, row)][Skip(j, col)]))
  }

  /** A list with position `k` deleted. */
  function Delete<T>(s: seq<T>, k: nat): (d: seq<T>)
    requires k < |s|
    ensures |d| == |s| - 1
  {
    s[..k] + s[k + 1..]
  }

  /** The minor is the grid with row `row` deleted and position `col` deleted from every
      remaining row. */
  lemma MinorDeletes(g: Grid, rows: nat, cols: nat, row: nat, col: nat)
    requires IsShape(g, rows, cols) && row < rows && col < cols
    ensures Minor(g, rows, cols, row, col)
         == Delete(seq(rows, r requires 0 <= r < rows => Delete(g[r], col)), row)
  {
    var m := Minor(g, rows, cols, row, col);
    var d := Delete(seq(rows, r requires 0 <= r < rows => Delete(g[r], col)), row);
    forall i, j | 0 <= i < rows - 1 && 0 <= j < cols - 1 ensures m[i][j] == d[i][j] {
      assert d[i] == Delete(g[Skip(i, row)], col);
    }
    CellsDetermine(m, d, rows - 1, cols - 1);
  }

  // ---------------------------------------------------------------------------------------
  // Multiplication

  /** The sum of `a[i][t] * b[t][k]` over the first `n` values of `t`. */
  function Dot(a: Grid, b: Grid, i: nat, k: nat, n: nat): int
    requires i < |a| && n <= |a[i]| && n <= |b|
    requires forall t :: 0 <= t < n ==> k < |b[t]|
  {
    if n == 0 then 0 else Dot(a, b, i, k, n - 1) + a[i][n - 1] * b[n - 1][k]
  }

  /** The `n` by `p` product of an `n` by `m` grid and an `m` by `p` grid. */
  function Mult(a: Grid, b: Grid, n: nat, m: nat, p: nat): (c: Grid)
    requires IsShape(a, n, m) && IsShape(b, m, p)
    ensures IsShape(c, n, p)
  {
    seq(n, i requires 0 <= i < n => seq(p, k requires 0 <= k < p => Dot(a, b, i, k, m)))
  }

  /** The `n` by `n` identity. */
  function Identity(n: nat): (e: Grid)
    ensures IsShape(e, n, n)
  {
    seq(n, i requires 0 <= i < n => seq(n, j requires 0 <= j < n => if i == j then 1 else 0))
  }

  /** A partial dot product is unchanged when both factors are transposed and swapped. */
  lemma {:induction false} DotTranspose(a: Grid, b: Grid, n: nat, m: nat, p: nat, i: nat, k: nat, t: nat)
    requires IsShape(a, n, m) && IsShape(b, m, p) && i < n && k < p && t <= m
    ensures Dot(a, b, i, k, t) == Dot(Transpose(b, m, p), Transpose(a, n, m), k, i, t)
  {
    if t > 0 {
      DotTranspose(a, b, n, m, p, i, k, t - 1);
    }
  }

  /** The transpose of a product is the product of the transposes, in reverse order. */
  lemma MultTranspose(a: Grid, b: Grid, n: nat, m: nat, p: nat)
    requires IsShape(a, n, m) && IsShape(b, m, p)
    ensures Transpose(Mult(a, b, n, m, p), n, p)
         == Mult(Transpose(b, m, p), Transpose(a, n, m), p, m, n)
  {
    var lhs := Transpose(Mult(a, b, n, m, p), n, p);
    var rhs := Mult(Transpose(b, m, p), Transpose(a, n, m), p, m, n);
    forall k, i | 0 <= k < p && 0 <= i < n ensures lhs[k][i] == rhs[k][i] {
      DotTranspose(a, b, n, m, p, i, k, m);
    }
    CellsDetermine(lhs, rhs, p, n);
  }

  /** Against the identity on the right, a partial dot product picks cell (i, k) once `t` passes `k`. */
  lemma {:induction false} DotIdentityRight(a: Grid, n: nat, m: nat, i: nat, k: nat, t: nat)
    requires IsShape(a, n, m) && i < n && k < m && t <= m
    ensures Dot(a, Identity(m), i, k, t) == if k < t then a[i][k] else 0
  {
    if t > 0 {
      DotIdentityRight(a, n, m, i, k, t - 1);
    }
  }

  /** Against the identity on the left, a partial dot product picks cell (i, k) once `t` passes `i`. */
  lemma {:induction false} DotIdentityLeft(a: Grid, n: nat, m: nat, i: nat, k: nat, t: nat)
    requires IsShape(a, n, m) && i < n && k < m && t <= n
    ensures Dot(Identity(n), a, i, k, t) == if i < t then a[i][k] else 0
  {
    if t > 0 {
      DotIdentityLeft(a, n, m, i, k, t - 1);
    }
  }

  /** The identity is neutral on both sides of a product. */
  lemma MultIdentity(a: Grid, n: nat, m: nat)
    requires IsShape(a, n, m)
    ensures Mult(a, Identity(m), n, m, m) == a
    ensures Mult(Identity(n), a, n, n, m) == a
  {
    forall i, k | 0 <= i < n && 0 <= k < m
      ensures Mult(a, Identity(m), n, m, m)[i][k] == a[i][k]
      ensures Mult(Identity(n), a, n, n, m)[i][k] == a[i][k]
    {
      DotIdentityRight(a, n, m, i, k, m);
      DotIdentityLeft(a, n, m, i, k, n);
    }
    CellsDetermine(Mult(a, Identity(m), n, m, m), a, n, m);
    CellsDetermine(Mult(Identity(n), a, n, n, m), a, n, m);
  }

  // ---------------------------------------------------------------------------------------
  // Determinant

  /** The sign of the cofactor of cell (i, 0). */
  function Sign(i: nat): (s: int)
  {
    if i % 2 == 0 then 1 else -1
  }

  /** Even positions of column 0 are added, odd ones subtracted. */
  lemma SignAlternates(h: nat)
    ensures Sign(2 * h) == 1 && Sign(2 * h + 1) == -1
  {
    DivModUnique(2 * h, 2, h, 0);
    DivModUnique(2 * h + 1, 2, h, 1);
  }

  /** The determinant: 0 for a grid that is not square, closed forms for 2 by 2 and 3 by 3,
      and otherwise the Laplace expansion down column 0. A 1 by 1 grid is its cell (the
      source as written returns 0 there, see DetAsWritten). */
  function Det(g: Grid, rows: nat, cols: nat): int
    requires IsShape(g, rows, cols)
    decreases rows, 1, 0
  {
    if rows != cols then 0
    else if rows == 1 then g[0][0]
    else if rows == 2 then g[0][0] * g[1][1] - g[1][0] * g[0][1]
    else if rows == 3 then
      g[0][0] * (g[1][1] * g[2][2] - g[1][2] * g[2][1])
      + g[1][0] * (g[2][1] * g[0][2] - g[2][2] * g[0][1])
      + g[2][0] * (g[0][1] * g[1][2] - g[0][2] * g[1][1])
    else Cofactors(g, rows, rows)
  }

  /** The first `k` terms of the expansion down column 0:
      the sum of `Sign(i) * g[i][0] * Det(minor(i, 0))` for `i < k`. */
  function Cofactors(g: Grid, n: nat, k: nat): int
    requires IsShape(g, n, n) && k <= n
    decreases n, 0, k
  {
    if k == 0 then 0
    else Cofactors(g, n, k - 1) + Sign(k - 1) * g[k - 1][0] * Det(Minor(g, n, n, k - 1, 0), n - 1, n - 1)
  }

  /** One more term of the expansion, given the cell and the minor's determinant. */
  lemma CofactorStep(g: Grid, n: nat, k: nat, v: int, m: Grid, mn: nat, dm: int)
    requires IsShape(g, n, n) && k < n && v == g[k][0]
    requires mn == n - 1 && m == Minor(g, n, n, k, 0) && dm == Det(m, mn, mn)
    ensures Cofactors(g, n, k + 1) == Cofactors(g, n, k) + Sign(k) * (v * dm)
  {
    assert Cofactors(g, n, k + 1) == Cofactors(g, n, k) + Sign(k) * v * dm;
    SignedProduct(Sign(k), v, dm);
  }

  /** Cell (i, j) of a minor is the cell of the grid it was cut from. */
  lemma MinorAt(g: Grid, rows: nat, cols: nat, row: nat, col: nat, i: nat, j: nat)
    requires IsShape(g, rows, cols) && row < rows && col < cols && i < rows - 1 && j < cols - 1
    ensures Minor(g, rows, cols, row, col)[i][j] == g[Skip(i, row)][Skip(j, col)]
  {
  }

  /** The minor at (row, 0) of a 3 by 3 grid, as a 2 by 2 literal. */
  lemma MinorOfThree(g: Grid, row: nat)
    requires IsShape(g, 3, 3) && row < 3
    ensures Minor(g, 3, 3, row, 0)
         == [[g[Skip(0, row)][1], g[Skip(0, row)][2]], [g[Skip(1, row)][1], g[Skip(1, row)][2]]]
  {
    var m := Minor(g, 3, 3, row, 0);
    var e := [[g[Skip(0, row)][1], g[Skip(0, row)][2]], [g[Skip(1, row)][1], g[Skip(1, row)][2]]];
    forall i, j | 0 <= i < 2 && 0 <= j < 2 ensures m[i][j] == e[i][j] {
      MinorAt(g, 3, 3, row, 0, i, j);
    }
    CellsDetermine(m, e, 2, 2);
  }

  /** The 2 by 2 closed form agrees with the expansion down column 0. */
  lemma LaplaceTwo(g: Grid)
    requires IsShape(g, 2, 2)
    ensures Det(g, 2, 2) == Cofactors(g, 2, 2)
  {
    MinorAt(g, 2, 2, 0, 0, 0, 0);
    MinorAt(g, 2, 2, 1, 0, 0, 0);
  }

  /** The 3 by 3 closed form agrees with the expansion down column 0. */
  lemma LaplaceThree(g: Grid)
    requires IsShape(g, 3, 3)
    ensures Det(g, 3, 3) == Cofactors(g, 3, 3)
  {
    var a, b, c := g[0][0], g[0][1], g[0][2];
    var d, e, f := g[1][0], g[1][1], g[1][2];
    var p, q, t := g[2][0], g[2][1], g[2][2];
    MinorOfThree(g, 0);
    MinorOfThree(g, 1);
    MinorOfThree(g, 2);
    var d0 := Det(Minor(g, 3, 3, 0, 0), 2, 2);
    var d1 := Det(Minor(g, 3, 3, 1, 0), 2, 2);
    var d2 := Det(Minor(g, 3, 3, 2, 0), 2, 2);
    assert d0 == e * t - q * f;
    assert d1 == b * t - q * c;
    assert d2 == b * f - e * c;
    assert Cofactors(g, 3, 3) == a * d0 - d * d1 + p * d2;
    assert Det(g, 3, 3) == a * (e * t - f * q) + d * (q * c - t * b) + p * (b * f - c * e);
  }

  /** For every square grid of size 2 or more the determinant is its Laplace expansion down
      column 0; in particular the 2 by 2 and 3 by 3 closed forms agree with it. */
  lemma LaplaceExpansion(g: Grid, n: nat)
    requires IsShape(g, n, n) && n >= 2
    ensures Det(g, n, n) == Cofactors(g, n, n)
  {
    if n == 2 {
      LaplaceTwo(g);
    } else if n == 3 {
      LaplaceThree(g);
    }
  }

  /** The minor of the identity at (0, 0) is the identity one size down. */
  lemma IdentityMinor(n: nat)
    requires n >= 1
    ensures Minor(Identity(n), n, n, 0, 0) == Identity(n - 1)
  {
    CellsDetermine(Minor(Identity(n), n, n, 0, 0), Identity(n - 1), n - 1, n - 1);
  }

  /** Every prefix of the expansion of the identity is 1: only its first term is non-zero. */
  lemma {:induction false} CofactorsOfIdentity(n: nat, k: nat)
    requires 2 <= n && 1 <= k <= n
    requires Det(Identity(n - 1), n - 1, n - 1) == 1
    ensures Cofactors(Identity(n), n, k) == 1
  {
    if k == 1 {
      IdentityMinor(n);
    } else {
      CofactorsOfIdentity(n, k - 1);
      assert Identity(n)[k - 1][0] == 0;
    }
  }

  /** The identity has determinant 1. */
  lemma {:induction false} DetIdentity(n: nat)
    requires n >= 1
    ensures Det(Identity(n), n, n) == 1
  {
    if n >= 2 {
      DetIdentity(n - 1);
      CofactorsOfIdentity(n, n);
      LaplaceExpansion(Identity(n), n);
    }
  }

  /** The documented `new Matrix(2, 2, [1, 2, 4, 3])`: the data is read column-major, so the
      matrix holds 1, 2 in its first column and 4, 3 in its second, and has determinant
      1 * 3 - 4 * 2. */
  lemma DetOfColumnMajorExample()
    ensures CellsFit(0, 2, 2, 2, 4)
    ensures Window([1, 2, 4, 3], 0, 2, 2, 2) == [[1, 4], [2, 3]]
    ensures Det(Window([1, 2, 4, 3], 0, 2, 2, 2), 2, 2) == -5
  {
    var g := Window([1, 2, 4, 3], 0, 2, 2, 2);
    assert g[0][1] == 4 && g[1][0] == 2;
    CellsDetermine(g, [[1, 4], [2, 3]], 2, 2);
  }

  // ---------------------------------------------------------------------------------------
  // The determinant as src/base.js:180-191 computes it

  /** det() as written: no 1 by 1 case, so a 1 by 1 grid falls through to the expansion,
      whose only term multiplies by the determinant of a 0 by 0 grid, which is 0. */
  function DetAsWritten(g: Grid, rows: nat, cols: nat): int
    requires IsShape(g, rows, cols)
    decreases rows, 1, 0
  {
    if rows != cols then 0
    else if rows == 2 then g[0][0] * g[1][1] - g[1][0] * g[0][1]
    else if rows == 3 then
      g[0][0] * (g[1][1] * g[2][2] - g[1][2] * g[2][1])
      + g[1][0] * (g[2][1] * g[0][2] - g[2][2] * g[0][1])
      + g[2][0] * (g[0][1] * g[1][2] - g[0][2] * g[1][1])
    else CofactorsAsWritten(g, rows, rows)
  }

  /** The first `k` terms of the expansion as written, the minors taken with DetAsWritten. */
  function CofactorsAsWritten(g: Grid, n: nat, k: nat): int
    requires IsShape(g, n, n) && k <= n
    decreases n, 0, k
  {
    if k == 0 then 0
    else CofactorsAsWritten(g, n, k - 1)
         + Sign(k - 1) * g[k - 1][0] * DetAsWritten(Minor(g, n, n, k - 1, 0), n - 1, n - 1)
  }

  /** As written, every 1 by 1 matrix has determinant 0: [[5]] gives 0 instead of 5. */
  lemma DetAsWrittenOneByOne(a: int)
    ensures DetAsWritten([[a]], 1, 1) == 0
    ensures Det([[a]], 1, 1) == a
  {
    assert Minor([[a]], 1, 1, 0, 0) == [];
    assert CofactorsAsWritten([], 0, 0) == 0;
  }

  /** From size 4 on, the expansion as written stops at the 3 by 3 closed form and never
      reaches a 1 by 1 minor, so it agrees with the corrected one. */
  lemma {:induction false} CofactorsAsWrittenAgree(g: Grid, n: nat, k: nat)
    requires IsShape(g, n, n) && n >= 4 && k <= n
    ensures CofactorsAsWritten(g, n, k) == Cofactors(g, n, k)
    decreases n, 0, k
  {
    if k > 0 {
      CofactorsAsWrittenAgree(g, n, k - 1);
      DetAsWrittenAgrees(Minor(g, n, n, k - 1, 0), n - 1);
    }
  }

  /** Apart from the 1 by 1 case the source's determinant is the corrected one. */
  lemma {:induction false} DetAsWrittenAgrees(g: Grid, n: nat)
    requires IsShape(g, n, n) && n >= 2
    ensures DetAsWritten(g, n, n) == Det(g, n, n)
    decreases n, 1
  {
    if n >= 4 {
      CofactorsAsWrittenAgree(g, n, n);
    }
  }
}

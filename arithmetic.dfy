/** Facts about the index arithmetic of strided, column-major and row-major layouts.
    The solver handles linear arithmetic well but products of two variables poorly,
    so the few non-linear steps the layouts need are proved here once. */
module Arithmetic {

  /** The smaller of two numbers. */
  function Min(a: nat, b: nat): nat
  {
    if a < b then a else b
  }

  /** Multiplication by a natural number is monotonic. */
  lemma {:induction false} MulMono(a: nat, b: nat, n: nat)
    requires a <= b
    ensures a * n <= b * n
  {
    if a < b {
      MulMono(a, b - 1, n);
      assert (b - 1) * n + n == b * n;
    }
  }

  /** A slot `c * span + r` with `r < span` lies before the start of column `c + 1`,
      and so before the start of every later column. */
  lemma ColumnBound(c: nat, r: nat, cols: nat, span: nat)
    requires c < cols && r < span
    ensures c * span + r < cols * span
    ensures c * span + span <= cols * span
  {
    MulMono(c + 1, cols, span);
  }

  /** The cell index of (r, c) in a contiguous column-major block of `rows * cols` cells. */
  lemma CellIndexBound(r: nat, c: nat, rows: nat, cols: nat)
    requires r < rows && c < cols
    ensures c * rows + r < rows * cols
    ensures c * rows + rows <= rows * cols
  {
    ColumnBound(c, r, cols, rows);
  }

  /** The highest cell of a strided block lies below `(cols - 1) * span + rows`. */
  lemma StridedBound(r: nat, c: nat, rows: nat, cols: nat, span: nat)
    requires r < rows && c < cols
    ensures c * span + r < (cols - 1) * span + rows
  {
    MulMono(c, cols - 1, span);
  }

  /** Two slots of a layout whose column stride exceeds every in-column offset coincide
      only when they are the same cell. */
  lemma SlotsDistinct(c1: nat, r1: nat, c2: nat, r2: nat, span: nat)
    requires r1 < span && r2 < span
    requires c1 * span + r1 == c2 * span + r2
    ensures c1 == c2 && r1 == r2
  {
    if c1 < c2 {
      MulMono(c1 + 1, c2, span);
    } else if c2 < c1 {
      MulMono(c2 + 1, c1, span);
    }
  }

  /** Euclidean division is determined by any quotient and in-range remainder. */
  lemma DivModUnique(x: int, d: int, q: int, r: int)
    requires 0 <= r < d && x == q * d + r
    ensures x / d == q && x % d == r
  {
    var q', r' := x / d, x % d;
    assert x == q' * d + r';
    if q' < q {
      assert (q - q') * d >= d by { MulMono(1, q - q', d); }
    } else if q < q' {
      assert (q' - q) * d >= d by { MulMono(1, q' - q, d); }
    }
  }

  /** Removing one period from a non-negative number keeps its remainder. */
  lemma ModMinusPeriod(k: int, n: int)
    requires 0 < n <= k
    ensures (k - n) % n == k % n
  {
    var q, r := (k - n) / n, (k - n) % n;
    assert k == (q + 1) * n + r;
    DivModUnique(k, n, q + 1, r);
  }

  /** A column-major walk `row + t * rows` with `row < rows` stays below `n * rows` exactly
      for the first `n` values of `t`. */
  lemma StrideBelow(row: nat, t: nat, rows: nat, n: nat)
    requires row < rows
    ensures row + t * rows < n * rows <==> t < n
  {
    if t < n {
      MulMono(t + 1, n, rows);
    } else {
      MulMono(n, t, rows);
    }
  }

  /** Walking a column-major block of `n` columns of `rows` cells a column at a time, the
      start of column `col` is inside the block exactly while `col < n`. */
  lemma ColumnStart(col: nat, rows: nat, n: nat)
    requires 0 < rows
    ensures col * rows < rows * n <==> col < n
  {
    StrideBelow(0, col, rows, n);
  }

  /** Multiplying by the sign of a cofactor only flips the sign of the product. */
  lemma SignedProduct(s: int, v: int, d: int)
    requires s == 1 || s == -1
    ensures s * v * d == s * (v * d)
  {
    if s == -1 {
      assert (-1) * v == -v;
      assert (-v) * d == -(v * d);
    }
  }

  /** The next multiple of `n` after `x * n`. */
  lemma NextMultiple(x: int, n: int)
    ensures (x + 1) * n == x * n + n
  {
  }

  /** Splitting a row index into whole blocks of `rows` rows and a remainder splits the
      position of that row in a stream of `w` cells per row the same way. */
  lemma BlockOffset(a: nat, rows: nat, r: nat, w: nat)
    ensures (a * rows + r) * w == a * (rows * w) + r * w
  {
  }

  /** `v` passes over `rows` rows of `h * cols` cells fill `rows * v` rows of `cols * h` cells. */
  lemma Regroup(rows: nat, cols: nat, v: nat, h: nat)
    ensures v * (rows * (h * cols)) == (rows * v) * (cols * h)
  {
    var w := h * cols;
    assert w == cols * h;
    assert v * (rows * w) == (rows * v) * w;
  }

  /** A position below `n * len` falls in copy `k / len` of a block of `len`, at offset
      `k % len`. */
  lemma CopyAndOffset(k: nat, len: nat, n: nat)
    requires k < n * len
    ensures len > 0 && k / len < n && k % len < len
    ensures k == (k / len) * len + k % len
  {
    StrideBelow(k % len, k / len, len, n);
  }
}

/** The index-list manipulations of src/manipulations.js.

    These functions work on a second matrix representation: a row-offset list R, a
    column-offset list C and a shared data buffer D, cell (r, c) being `D[R[r] + C[c]]`.
    Swapping rows or columns permutes R or C in place and copies no data; a minor and the
    extracted diagonal are new offset lists over the same buffer. Reshape, repmat, vcat and
    hcat build new matrices from the row-major stream of their operands and are modelled on
    grids. */
module Manipulations {
  import opened Arithmetic
  import opened Dense

  // ---------------------------------------------------------------------------------------
  // The offset-list matrix

  /** Every cell (r, c) of offset lists `rowIdx` and `colIdx` lies in a buffer of `len` slots. */
  predicate Fits(rowIdx: seq<nat>, colIdx: seq<nat>, len: nat) {
    forall r, c :: 0 <= r < |rowIdx| && 0 <= c < |colIdx| ==> rowIdx[r] + colIdx[c] < len
  }

  /** The cells addressed by two offset lists in buffer `d`. */
  function CellsOf(rowIdx: seq<nat>, colIdx: seq<nat>, d: seq<int>): (g: Grid)
    requires Fits(rowIdx, colIdx, |d|)
    ensures IsShape(g, |rowIdx|, |colIdx|)
  {
    seq(|rowIdx|, r requires 0 <= r < |rowIdx| =>
      seq(|colIdx|, c requires 0 <= c < |colIdx| => d[rowIdx[r] + colIdx[c]]))
  }

  /** Cell (r, c) is the buffer slot its offsets address. */
  lemma CellAt(rowIdx: seq<nat>, colIdx: seq<nat>, d: seq<int>, r: nat, c: nat)
    requires Fits(rowIdx, colIdx, |d|) && r < |rowIdx| && c < |colIdx|
    ensures rowIdx[r] + colIdx[c] < |d|
    ensures CellsOf(rowIdx, colIdx, d)[r][c] == d[rowIdx[r] + colIdx[c]]
  {
  }

  /** The buffer slot of cell (r, c). */
  function SlotOf(rowIdx: seq<nat>, colIdx: seq<nat>, r: nat, c: nat): nat
    requires r < |rowIdx| && c < |colIdx|
  {
    rowIdx[r] + colIdx[c]
  }

  /** No two cells share a slot of the buffer. */
  predicate Injective(rowIdx: seq<nat>, colIdx: seq<nat>) {
    forall r1, c1, r2, c2 ::
      (0 <= r1 < |rowIdx| && 0 <= c1 < |colIdx| && 0 <= r2 < |rowIdx| && 0 <= c2 < |colIdx| &&
       SlotOf(rowIdx, colIdx, r1, c1) == SlotOf(rowIdx, colIdx, r2, c2)) ==> r1 == r2 && c1 == c2
  }

  /** A matrix as a pair of offset lists over a shared buffer. The offset lists belong to
      the matrix and change in place; the buffer may be shared with other matrices. */
  class IndexMatrix {
    var rowIdx: seq<nat>
    var colIdx: seq<nat>
    const data: array<int>

    /** Every cell addressed by the offset lists lies inside the buffer. */
    ghost predicate Valid()
      reads this
    {
      Fits(rowIdx, colIdx, data.Length)
    }

    /** The logical contents, as the matrix iterates them row by row. */
    function Cells(): (g: Grid)
      requires Valid()
      reads this, data
      ensures IsShape(g, |rowIdx|, |colIdx|)
      ensures forall r, c :: 0 <= r < |rowIdx| && 0 <= c < |colIdx| ==>
        g[r][c] == data[rowIdx[r] + colIdx[c]]
    {
      CellsOf(rowIdx, colIdx, data[..])
    }

    /** A matrix over existing offset lists and buffer; no data is copied. */
    constructor Over(rowIdx: seq<nat>, colIdx: seq<nat>, data: array<int>)
      requires Fits(rowIdx, colIdx, data.Length)
      ensures this.rowIdx == rowIdx && this.colIdx == colIdx && this.data == data
      ensures Valid()
    {
      this.rowIdx := rowIdx;
      this.colIdx := colIdx;
      this.data := data;
    }

    /** A fresh `rows` by `cols` matrix of zeros, laid out column by column. */
    constructor Zeros(rows: nat, cols: nat)
      ensures rowIdx == Iota(rows, 1) && colIdx == Iota(cols, rows)
      ensures fresh(data) && data[..] == seq(rows * cols, _ => 0)
      ensures Valid() && Injective(rowIdx, colIdx)
      ensures Cells() == seq(rows, r => seq(cols, c => 0))
    {
      var ri, ci := Iota(rows, 1), Iota(cols, rows);
      ColumnLayout(rows, cols);
      rowIdx, colIdx := ri, ci;
      data := new int[rows * cols](_ => 0);
      new;
      CellsDetermine(Cells(), seq(rows, r => seq(cols, c => 0)), rows, cols);
    }
  }

  /** The column-by-column layout of a `rows` by `cols` block fits it and gives every cell
      a slot of its own. */
  lemma ColumnLayout(rows: nat, cols: nat)
    ensures Fits(Iota(rows, 1), Iota(cols, rows), rows * cols)
    ensures Injective(Iota(rows, 1), Iota(cols, rows))
  {
    var ri, ci := Iota(rows, 1), Iota(cols, rows);
    forall r, c | 0 <= r < rows && 0 <= c < cols ensures ri[r] + ci[c] < rows * cols {
      CellIndexBound(r, c, rows, cols);
    }
    forall r1, c1, r2, c2 | 0 <= r1 < rows && 0 <= c1 < cols && 0 <= r2 < rows && 0 <= c2 < cols &&
      SlotOf(ri, ci, r1, c1) == SlotOf(ri, ci, r2, c2)
      ensures r1 == r2 && c1 == c2
    {
      SlotsDistinct(c1, r1, c2, r2, rows);
    }
  }

  /** The offsets `0, step, 2 * step, ...` of `n` evenly spaced rows or columns. */
  function Iota(n: nat, step: nat): (s: seq<nat>)
    ensures |s| == n && forall i :: 0 <= i < n ==> s[i] == i * step
  {
    seq(n, i requires 0 <= i < n => i * step)
  }

  // ---------------------------------------------------------------------------------------
  // swapRows and swapCols

  /** The destructuring assignment `[s[x], s[y]] = [s[y], s[x]]`: both right-hand values are
      read first, then `s[x]` is written and then `s[y]`. */
  function Swap(s: seq<nat>, x: nat, y: nat): (t: seq<nat>)
    requires x < |s| && y < |s|
  {
    s[x := s[y]][y := s[x]]
  }

  /** The pairs visited by zipping two index lists: position by position, up to the end of
      the shorter list. */
  function Zip(a: seq<nat>, b: seq<nat>): (p: seq<(nat, nat)>)
    ensures |p| == Min(|a|, |b|)
    ensures forall k :: 0 <= k < |p| ==> p[k] == (a[k], b[k])
  {
    seq(Min(|a|, |b|), k requires 0 <= k < Min(|a|, |b|) => (a[k], b[k]))
  }

  /** Every index of every pair is below `n`. */
  predicate PairsBelow(p: seq<(nat, nat)>, n: nat) {
    forall k :: 0 <= k < |p| ==> p[k].0 < n && p[k].1 < n
  }

  /** The swaps of `p` applied to `s` one after another, in order. */
  function SwapAll(s: seq<nat>, p: seq<(nat, nat)>): (t: seq<nat>)
    requires PairsBelow(p, |s|)
    ensures |t| == |s|
  {
    if |p| == 0 then s
    else
      assert PairsBelow(p[..|p| - 1], |s|);
      Swap(SwapAll(s, p[..|p| - 1]), p[|p| - 1].0, p[|p| - 1].1)
  }

  /** The entries of the longer list beyond the end of the shorter one are ignored. */
  lemma ZipIgnoresExtra(a: seq<nat>, b: seq<nat>, extra: seq<nat>)
    ensures |a| >= |b| ==> Zip(a + extra, b) == Zip(a, b)
    ensures |b| >= |a| ==> Zip(a, b + extra) == Zip(a, b)
  {
    if |a| >= |b| {
      assert forall k :: 0 <= k < |b| ==> (a + extra)[k] == a[k];
    }
    if |b| >= |a| {
      assert forall k :: 0 <= k < |a| ==> (b + extra)[k] == b[k];
    }
  }

  /** Applying a list of swaps in two parts is applying the whole list. */
  lemma {:induction false} SwapAllAppend(s: seq<nat>, p: seq<(nat, nat)>, q: seq<(nat, nat)>)
    requires PairsBelow(p, |s|) && PairsBelow(q, |s|)
    ensures PairsBelow(p + q, |s|)
    ensures SwapAll(s, p + q) == SwapAll(SwapAll(s, p), q)
  {
    assert forall k :: 0 <= k < |p + q| ==> (p + q)[k] == if k < |p| then p[k] else q[k - |p|];
    if |q| > 0 {
      var q' := q[..|q| - 1];
      assert (p + q)[..|p + q| - 1] == p + q';
      SwapAllAppend(s, p, q');
    } else {
      assert p + q == p;
    }
  }

  /** A swap undoes itself. */
  lemma SwapTwice(s: seq<nat>, x: nat, y: nat)
    requires x < |s| && y < |s|
    ensures Swap(Swap(s, x, y), x, y) == s
  {
  }

  /** The pairs in reverse order. */
  function Reverse(p: seq<(nat, nat)>): (q: seq<(nat, nat)>)
    ensures |q| == |p|
  {
    if |p| == 0 then [] else [p[|p| - 1]] + Reverse(p[..|p| - 1])
  }

  /** Reversing the pairs keeps every index below `n`. */
  lemma {:induction false} ReverseBelow(p: seq<(nat, nat)>, n: nat)
    requires PairsBelow(p, n)
    ensures PairsBelow(Reverse(p), n)
  {
    if |p| > 0 {
      ReverseBelow(p[..|p| - 1], n);
    }
  }

  /** Swapping the same pairs again in reverse order restores the offset list: a
      swapRows or swapCols call is undone by the call with the pairs reversed. */
  lemma {:induction false} SwapAllUndo(s: seq<nat>, p: seq<(nat, nat)>)
    requires PairsBelow(p, |s|)
    ensures PairsBelow(Reverse(p), |s|)
    ensures SwapAll(SwapAll(s, p), Reverse(p)) == s
  {
    ReverseBelow(p, |s|);
    if |p| > 0 {
      var init, last := p[..|p| - 1], p[|p| - 1];
      var mid := SwapAll(s, init);
      ReverseBelow(init, |s|);
      SwapAllAppend(SwapAll(s, p), [last], Reverse(init));
      assert SwapAll(SwapAll(s, p), [last]) == mid by {
        var none: seq<(nat, nat)> := [];
        assert [last][..0] == none;
        SwapTwice(mid, last.0, last.1);
      }
      SwapAllUndo(s, init);
    }
  }

  /** Swaps only move entries around: the result is a permutation of the offset list. */
  lemma {:induction false} SwapAllPermutes(s: seq<nat>, p: seq<(nat, nat)>)
    requires PairsBelow(p, |s|)
    ensures multiset(SwapAll(s, p)) == multiset(s)
  {
    if |p| > 0 {
      var t, x, y := SwapAll(s, p[..|p| - 1]), p[|p| - 1].0, p[|p| - 1].1;
      SwapAllPermutes(s, p[..|p| - 1]);
      UpdatePermutes(t, x, t[y]);
      UpdatePermutes(t[x := t[y]], y, t[x]);
    }
  }

  /** Overwriting entry `i` trades one occurrence of the old entry for one of the new. */
  lemma UpdatePermutes(s: seq<nat>, i: nat, v: nat)
    requires i < |s|
    ensures multiset(s[i := v]) == multiset(s) - multiset{s[i]} + multiset{v}
  {
    assert s == s[..i] + [s[i]] + s[i + 1..];
    assert s[i := v] == s[..i] + [v] + s[i + 1..];
  }

  /** Entry `i` of the swapped list is entry `perm[i]` of the original, where `perm` is what
      the same swaps make of the identity list `0, 1, ..., n - 1`. */
  lemma {:induction false} SwapAllAsPermutation(s: seq<nat>, p: seq<(nat, nat)>)
    requires PairsBelow(p, |s|)
    ensures forall i :: 0 <= i < |s| ==> SwapAll(Iota(|s|, 1), p)[i] < |s|
    ensures forall i :: 0 <= i < |s| ==> SwapAll(s, p)[i] == s[SwapAll(Iota(|s|, 1), p)[i]]
  {
    if |p| > 0 {
      SwapAllAsPermutation(s, p[..|p| - 1]);
    }
  }

  /** Every entry of the swapped list was an entry of the original. */
  lemma SwapAllEntries(s: seq<nat>, p: seq<(nat, nat)>, i: nat)
    requires PairsBelow(p, |s|) && i < |s|
    ensures exists j :: 0 <= j < |s| && SwapAll(s, p)[i] == s[j]
  {
    SwapAllAsPermutation(s, p);
    var j := SwapAll(Iota(|s|, 1), p)[i];
    assert SwapAll(s, p)[i] == s[j];
  }

  /** Swapping two row offsets exchanges the two rows of the matrix and nothing else. */
  lemma SwapExchangesRows(rowIdx: seq<nat>, colIdx: seq<nat>, d: seq<int>, x: nat, y: nat)
    requires Fits(rowIdx, colIdx, |d|) && x < |rowIdx| && y < |rowIdx|
    ensures Fits(Swap(rowIdx, x, y), colIdx, |d|)
    ensures forall r :: 0 <= r < |rowIdx| ==>
      CellsOf(Swap(rowIdx, x, y), colIdx, d)[r]
        == CellsOf(rowIdx, colIdx, d)[if r == y then x else if r == x then y else r]
  {
    var g, h := CellsOf(rowIdx, colIdx, d), CellsOf(Swap(rowIdx, x, y), colIdx, d);
    forall r | 0 <= r < |rowIdx| ensures h[r] == g[if r == y then x else if r == x then y else r] {
      assert h[r] == g[if r == y then x else if r == x then y else r];
    }
  }

  /** Swapping two column offsets exchanges the two columns of the matrix and nothing else. */
  lemma SwapExchangesCols(rowIdx: seq<nat>, colIdx: seq<nat>, d: seq<int>, x: nat, y: nat)
    requires Fits(rowIdx, colIdx, |d|) && x < |colIdx| && y < |colIdx|
    ensures Fits(rowIdx, Swap(colIdx, x, y), |d|)
    ensures forall r, c :: 0 <= r < |rowIdx| && 0 <= c < |colIdx| ==>
      CellsOf(rowIdx, Swap(colIdx, x, y), d)[r][c]
        == CellsOf(rowIdx, colIdx, d)[r][if c == y then x else if c == x then y else c]
  {
  }

  /** Swapping entries of either offset list keeps every cell inside the buffer. */
  lemma SwapKeepsFit(rowIdx: seq<nat>, colIdx: seq<nat>, len: nat, p: seq<(nat, nat)>, q: seq<(nat, nat)>)
    requires Fits(rowIdx, colIdx, len) && PairsBelow(p, |rowIdx|) && PairsBelow(q, |colIdx|)
    ensures Fits(SwapAll(rowIdx, p), SwapAll(colIdx, q), len)
  {
    forall r, c | 0 <= r < |rowIdx| && 0 <= c < |colIdx|
      ensures SwapAll(rowIdx, p)[r] + SwapAll(colIdx, q)[c] < len
    {
      SwapAllEntries(rowIdx, p, r);
      SwapAllEntries(colIdx, q, c);
    }
  }

  /** swapRows: the pairs `(a[k], b[k])` of row positions are swapped in order, in the row
      offset list only; the column offsets and the data stay as they are. Returns the same
      matrix, for chaining. */
  method SwapRows(m: IndexMatrix, a: seq<nat>, b: seq<nat>) returns (self: IndexMatrix)
    requires m.Valid() && PairsBelow(Zip(a, b), |m.rowIdx|)
    modifies m
    ensures self == m
    ensures m.rowIdx == SwapAll(old(m.rowIdx), Zip(a, b))
    ensures m.colIdx == old(m.colIdx) && m.Valid()
  {
    ghost var p := Zip(a, b);
    ghost var r0 := m.rowIdx;
    var n := Min(|a|, |b|);
    var k := 0;
    while k < n
      invariant 0 <= k <= n
      invariant PairsBelow(p[..k], |r0|)
      invariant m.rowIdx == SwapAll(r0, p[..k])
      invariant m.colIdx == old(m.colIdx)
    {
      var x, y := a[k], b[k];
      assert p[..k + 1][..k] == p[..k];
      m.rowIdx := m.rowIdx[x := m.rowIdx[y]][y := m.rowIdx[x]];
      k := k + 1;
    }
    assert p[..n] == p;
    SwapKeepsFit(r0, m.colIdx, m.data.Length, p, []);
    self := m;
  }

  /** swapCols: as swapRows, on the column offset list. Returns the same matrix. */
  method SwapCols(m: IndexMatrix, a: seq<nat>, b: seq<nat>) returns (self: IndexMatrix)
    requires m.Valid() && PairsBelow(Zip(a, b), |m.colIdx|)
    modifies m
    ensures self == m
    ensures m.colIdx == SwapAll(old(m.colIdx), Zip(a, b))
    ensures m.rowIdx == old(m.rowIdx) && m.Valid()
  {
    ghost var p := Zip(a, b);
    ghost var c0 := m.colIdx;
    var n := Min(|a|, |b|);
    var k := 0;
    while k < n
      invariant 0 <= k <= n
      invariant PairsBelow(p[..k], |c0|)
      invariant m.colIdx == SwapAll(c0, p[..k])
      invariant m.rowIdx == old(m.rowIdx)
    {
      var x, y := a[k], b[k];
      assert p[..k + 1][..k] == p[..k];
      m.colIdx := m.colIdx[x := m.colIdx[y]][y := m.colIdx[x]];
      k := k + 1;
    }
    assert p[..n] == p;
    SwapKeepsFit(m.rowIdx, c0, m.data.Length, [], p);
    self := m;
  }

  /** The 4 by 4 identity with cell (0, 3) set to 1, stored column by column. */
  method EyeWithCorner() returns (m: IndexMatrix)
    ensures fresh(m) && m.Valid() && m.rowIdx == [0, 1, 2, 3] && m.colIdx == [0, 4, 8, 12]
    ensures m.data[..] == [1, 0, 0, 0, 0, 1, 0, 0, 0, 0, 1, 0, 1, 0, 0, 1]
  {
    var d := new int[16](_ => 0);
    d[0], d[5], d[10], d[15], d[12] := 1, 1, 1, 1, 1;
    m := new IndexMatrix.Over([0, 1, 2, 3], [0, 4, 8, 12], d);
  }

  /** Exchanging rows 0 and 3 of that matrix moves the corner cell to the bottom row. */
  method SwapRowsExample() returns (m: IndexMatrix)
    ensures m.Valid()
    ensures RowMajor(m.Cells()) == [0, 0, 0, 1, 0, 1, 0, 0, 0, 0, 1, 0, 1, 0, 0, 1]
  {
    m := EyeWithCorner();
    m := SwapRows(m, [0], [3]);
    assert m.rowIdx == [3, 1, 2, 0] by {
      assert Zip([0], [3]) == [(0, 3)];
      assert Zip([0], [3])[..0] == [];
    }
    RowsSwappedOrder(m.data[..]);
  }

  /** The row-major order of the corner matrix with rows 0 and 3 exchanged. */
  lemma RowsSwappedOrder(d: seq<int>)
    requires d == [1, 0, 0, 0, 0, 1, 0, 0, 0, 0, 1, 0, 1, 0, 0, 1]
    ensures Fits([3, 1, 2, 0], [0, 4, 8, 12], |d|)
    ensures RowMajor(CellsOf([3, 1, 2, 0], [0, 4, 8, 12], d)) == [0, 0, 0, 1, 0, 1, 0, 0, 0, 0, 1, 0, 1, 0, 0, 1]
  {
    RowMajorOfFour([3, 1, 2, 0], [0, 4, 8, 12], d);
  }

  /** Exchanging columns 0 and 3 of that matrix moves the corner cell to the left column. */
  method SwapColsExample() returns (m: IndexMatrix)
    ensures m.Valid()
    ensures RowMajor(m.Cells()) == [1, 0, 0, 1, 0, 1, 0, 0, 0, 0, 1, 0, 1, 0, 0, 0]
  {
    m := EyeWithCorner();
    m := SwapCols(m, [0], [3]);
    assert m.colIdx == [12, 4, 8, 0] by {
      assert Zip([0], [3]) == [(0, 3)];
      assert Zip([0], [3])[..0] == [];
    }
    ColsSwappedOrder(m.data[..]);
  }

  /** The row-major order of the corner matrix with columns 0 and 3 exchanged. */
  lemma ColsSwappedOrder(d: seq<int>)
    requires d == [1, 0, 0, 0, 0, 1, 0, 0, 0, 0, 1, 0, 1, 0, 0, 1]
    ensures Fits([0, 1, 2, 3], [12, 4, 8, 0], |d|)
    ensures RowMajor(CellsOf([0, 1, 2, 3], [12, 4, 8, 0], d)) == [1, 0, 0, 1, 0, 1, 0, 0, 0, 0, 1, 0, 1, 0, 0, 0]
  {
    RowMajorOfFour([0, 1, 2, 3], [12, 4, 8, 0], d);
  }

  /** The row-major order of a 4 by 4 offset-list matrix, written out. */
  lemma RowMajorOfFour(rowIdx: seq<nat>, colIdx: seq<nat>, d: seq<int>)
    requires |rowIdx| == 4 && |colIdx| == 4 && Fits(rowIdx, colIdx, |d|)
    ensures RowMajor(CellsOf(rowIdx, colIdx, d)) ==
      [d[rowIdx[0] + colIdx[0]], d[rowIdx[0] + colIdx[1]], d[rowIdx[0] + colIdx[2]], d[rowIdx[0] + colIdx[3]],
       d[rowIdx[1] + colIdx[0]], d[rowIdx[1] + colIdx[1]], d[rowIdx[1] + colIdx[2]], d[rowIdx[1] + colIdx[3]],
       d[rowIdx[2] + colIdx[0]], d[rowIdx[2] + colIdx[1]], d[rowIdx[2] + colIdx[2]], d[rowIdx[2] + colIdx[3]],
       d[rowIdx[3] + colIdx[0]], d[rowIdx[3] + colIdx[1]], d[rowIdx[3] + colIdx[2]], d[rowIdx[3] + colIdx[3]]]
  {
    var g := CellsOf(rowIdx, colIdx, d);
    RowMajorOfFourRows(g);
    RowOfFour(rowIdx, colIdx, d, 0);
    RowOfFour(rowIdx, colIdx, d, 1);
    RowOfFour(rowIdx, colIdx, d, 2);
    RowOfFour(rowIdx, colIdx, d, 3);
  }

  /** Row `i` of a 4 by 4 offset-list matrix, written out. */
  lemma RowOfFour(rowIdx: seq<nat>, colIdx: seq<nat>, d: seq<int>, i: nat)
    requires |rowIdx| == 4 && |colIdx| == 4 && Fits(rowIdx, colIdx, |d|) && i < 4
    ensures CellsOf(rowIdx, colIdx, d)[i]
         == [d[rowIdx[i] + colIdx[0]], d[rowIdx[i] + colIdx[1]], d[rowIdx[i] + colIdx[2]], d[rowIdx[i] + colIdx[3]]]
  {
  }

  /** The row-major order of four rows is the four rows one after another. */
  lemma RowMajorOfFourRows(g: Grid)
    requires |g| == 4
    ensures RowMajor(g) == g[0] + g[1] + g[2] + g[3]
  {
    assert RowMajor(g[..1]) == g[0] by { assert g[..1][..0] == g[..0]; }
    assert RowMajor(g[..2]) == g[0] + g[1] by { assert g[..2][..1] == g[..1]; }
    assert RowMajor(g[..3]) == g[0] + g[1] + g[2] by { assert g[..3][..2] == g[..2]; }
    assert g[..4] == g;
  }

  // ---------------------------------------------------------------------------------------
  // minor

  /** The list filtered to drop position `k`; a `k` past the end drops nothing. */
  function Without(s: seq<nat>, k: nat): (t: seq<nat>)
    ensures |t| == if k < |s| then |s| - 1 else |s|
    ensures forall i :: 0 <= i < |t| ==> t[i] == s[if k < |s| then Skip(i, k) else i]
  {
    if k < |s| then s[..k] + s[k + 1..] else s
  }

  /** Cutting an offset list keeps every cell inside the buffer. */
  lemma WithoutFits(rowIdx: seq<nat>, colIdx: seq<nat>, len: nat, row: nat, col: nat)
    requires Fits(rowIdx, colIdx, len)
    ensures Fits(Without(rowIdx, row), Without(colIdx, col), len)
  {
    var rs, cs := Without(rowIdx, row), Without(colIdx, col);
    forall i, j | 0 <= i < |rs| && 0 <= j < |cs| ensures rs[i] + cs[j] < len {
      var r := if row < |rowIdx| then Skip(i, row) else i;
      var c := if col < |colIdx| then Skip(j, col) else j;
      assert rs[i] + cs[j] == rowIdx[r] + colIdx[c];
    }
  }

  /** Filtering both offset lists cuts out exactly the minor of the logical grid. */
  lemma WithoutIsMinor(rowIdx: seq<nat>, colIdx: seq<nat>, d: seq<int>, row: nat, col: nat)
    requires Fits(rowIdx, colIdx, |d|) && row < |rowIdx| && col < |colIdx|
    ensures Fits(Without(rowIdx, row), Without(colIdx, col), |d|)
    ensures CellsOf(Without(rowIdx, row), Without(colIdx, col), d)
         == Minor(CellsOf(rowIdx, colIdx, d), |rowIdx|, |colIdx|, row, col)
  {
    WithoutFits(rowIdx, colIdx, |d|, row, col);
    var g := CellsOf(rowIdx, colIdx, d);
    var a := CellsOf(Without(rowIdx, row), Without(colIdx, col), d);
    var b := Minor(g, |rowIdx|, |colIdx|, row, col);
    forall i, j | 0 <= i < |rowIdx| - 1 && 0 <= j < |colIdx| - 1 ensures a[i][j] == b[i][j] {
      MinorAt(g, |rowIdx|, |colIdx|, row, col, i, j);
    }
    CellsDetermine(a, b, |rowIdx| - 1, |colIdx| - 1);
  }

  /** minor: a new matrix over the same buffer, with position `row` filtered out of the row
      offsets and position `col` out of the column offsets; no cell is copied. */
  method MatrixMinor(m: IndexMatrix, row: nat, col: nat) returns (res: IndexMatrix)
    requires m.Valid()
    ensures fresh(res) && res.Valid() && res.data == m.data
    ensures res.rowIdx == Without(m.rowIdx, row) && res.colIdx == Without(m.colIdx, col)
    ensures row < |m.rowIdx| && col < |m.colIdx| ==>
      res.Cells() == Minor(m.Cells(), |m.rowIdx|, |m.colIdx|, row, col)
  {
    WithoutFits(m.rowIdx, m.colIdx, m.data.Length, row, col);
    res := new IndexMatrix.Over(Without(m.rowIdx, row), Without(m.colIdx, col), m.data);
    if row < |m.rowIdx| && col < |m.colIdx| {
      WithoutIsMinor(m.rowIdx, m.colIdx, m.data[..], row, col);
    }
  }

  // ---------------------------------------------------------------------------------------
  // diag

  /** The optional second argument of diag: absent, a number, or values given as an array or
      as a matrix read in its iteration order. */
  datatype Fill = Absent | Number(v: int) | Values(vs: seq<int>)

  /** JavaScript truthiness, which the source's `if (set)` tests: the number 0 is false, every
      array and matrix is true. */
  predicate Truthy(f: Fill) {
    match f
    case Absent => false
    case Number(v) => v != 0
    case Values(_) => true
  }

  /** Whether a fill was passed at all, the test the documentation of diag relies on. */
  predicate Given(f: Fill) {
    f != Absent
  }

  /** What one call of diag does. */
  datatype DiagAction =
    | ReturnSelf       // a 1 by 1 matrix and no fill: the matrix itself
    | SetSelf          // a 1 by 1 matrix and a fill: the fill written into its one cell
    | BuildFromColumn  // a column of n > 1 cells: a new n by n matrix with it as diagonal
    | SetDiagonal      // any other shape and a fill: the fill written along the diagonal
    | ExtractView      // any other shape and no fill: the diagonal as a column over the buffer

  /** The branches of diag for a `rows` by `cols` matrix, given the outcome of the fill test. */
  function Plan(rows: nat, cols: nat, present: bool): (a: DiagAction)
    ensures a == BuildFromColumn <==> cols == 1 && rows != 1
    ensures (a == ReturnSelf || a == SetSelf) <==> cols == 1 && rows == 1
  {
    if cols == 1 then
      if rows == 1 then (if present then SetSelf else ReturnSelf)
      else BuildFromColumn
    else if present then SetDiagonal
    else ExtractView
  }

  /** The branches as written, testing the fill for truthiness. */
  function DiagPlanAsWritten(rows: nat, cols: nat, f: Fill): (a: DiagAction)
  {
    Plan(rows, cols, Truthy(f))
  }

  /** The branches as documented, testing whether a fill was passed. */
  function DiagPlan(rows: nat, cols: nat, f: Fill): (a: DiagAction)
  {
    Plan(rows, cols, Given(f))
  }

  /** The two readings part exactly on a zero fill, and only where the fill is consulted:
      `diag(m, 0)` leaves a matrix that is not a column untouched and returns its diagonal,
      instead of setting the diagonal to zero. */
  lemma DiagZeroFillAsWritten(rows: nat, cols: nat, f: Fill)
    ensures DiagPlanAsWritten(rows, cols, f) != DiagPlan(rows, cols, f)
        <==> f == Number(0) && !(cols == 1 && rows != 1)
    ensures cols != 1 ==>
      DiagPlanAsWritten(rows, cols, Number(0)) == ExtractView &&
      DiagPlan(rows, cols, Number(0)) == SetDiagonal
  {
    if f == Number(0) && !(cols == 1 && rows != 1) {
      assert !Truthy(f) && Given(f);
    }
  }

  /** The offsets `R[i] + C[i]` of the diagonal cells, one per row of a tall matrix or one per
      column of a wide one. */
  function DiagOffsets(rowIdx: seq<nat>, colIdx: seq<nat>): (offs: seq<nat>)
    ensures |offs| == Min(|rowIdx|, |colIdx|)
    ensures forall i :: 0 <= i < |offs| ==> offs[i] == rowIdx[i] + colIdx[i]
  {
    if |rowIdx| < |colIdx| then seq(|rowIdx|, i requires 0 <= i < |rowIdx| => rowIdx[i] + colIdx[i])
    else seq(|colIdx|, i requires 0 <= i < |colIdx| => rowIdx[i] + colIdx[i])
  }

  /** The column of diagonal cells (i, i), as a grid with one column. */
  function Diagonal(g: Grid, rows: nat, cols: nat): (v: Grid)
    requires IsShape(g, rows, cols)
    ensures IsShape(v, Min(rows, cols), 1)
  {
    seq(Min(rows, cols), i requires 0 <= i < Min(rows, cols) => [g[i][i]])
  }

  /** The diagonal offsets with the single column offset 0 address exactly the diagonal. */
  lemma DiagonalView(rowIdx: seq<nat>, colIdx: seq<nat>, d: seq<int>)
    requires Fits(rowIdx, colIdx, |d|)
    ensures Fits(DiagOffsets(rowIdx, colIdx), [0], |d|)
    ensures CellsOf(DiagOffsets(rowIdx, colIdx), [0], d)
         == Diagonal(CellsOf(rowIdx, colIdx, d), |rowIdx|, |colIdx|)
  {
    var offs := DiagOffsets(rowIdx, colIdx);
    forall i, c | 0 <= i < |offs| && 0 <= c < 1 ensures offs[i] + [0][c] < |d| {
      assert offs[i] == rowIdx[i] + colIdx[i];
    }
    var a := CellsOf(offs, [0], d);
    var b := Diagonal(CellsOf(rowIdx, colIdx, d), |rowIdx|, |colIdx|);
    CellsDetermine(a, b, |offs|, 1);
  }

  /** On a square matrix the diagonal holds every (n + 1)-th cell of the row-major order. */
  lemma DiagonalEveryStep(g: Grid, n: nat, i: nat)
    requires IsShape(g, n, n) && i < n
    ensures |RowMajor(g)| == n * n && i * (n + 1) < n * n
    ensures Diagonal(g, n, n)[i][0] == RowMajor(g)[i * (n + 1)]
  {
    RowMajorAt(g, n, n, i, i);
    assert i * n + i == i * (n + 1);
  }

  /** The offsets of the cells of a column vector whose column offset is `c0`. */
  function ColumnOffsets(rowIdx: seq<nat>, c0: nat): (offs: seq<nat>)
    ensures |offs| == |rowIdx| && forall i :: 0 <= i < |offs| ==> offs[i] == rowIdx[i] + c0
  {
    seq(|rowIdx|, i requires 0 <= i < |rowIdx| => rowIdx[i] + c0)
  }

  /** The slot writes of setting a column vector to a fill: a number goes to every cell, a
      list of values to the first cells in order, as far as both reach. */
  function ColumnWrites(offs: seq<nat>, f: Fill): (ws: seq<(nat, int)>)
    ensures |ws| <= |offs| && forall k :: 0 <= k < |ws| ==> ws[k].0 == offs[k]
  {
    match f
    case Absent => []
    case Number(v) => seq(|offs|, i requires 0 <= i < |offs| => (offs[i], v))
    case Values(vs) => seq(Min(|offs|, |vs|), i requires 0 <= i < Min(|offs|, |vs|) => (offs[i], vs[i]))
  }

  /** The value that cell `i` of a column holds after the fill is written, `x` before. */
  function Written(f: Fill, i: nat, x: int): int
  {
    match f
    case Absent => x
    case Number(v) => v
    case Values(vs) => if i < |vs| then vs[i] else x
  }

  /** Every write lands inside a buffer of `len` slots. */
  predicate WritesBelow(ws: seq<(nat, int)>, len: nat) {
    forall k :: 0 <= k < |ws| ==> ws[k].0 < len
  }

  /** The writes applied to the buffer contents one after another. */
  function WriteAll(d: seq<int>, ws: seq<(nat, int)>): (e: seq<int>)
    requires WritesBelow(ws, |d|)
    ensures |e| == |d|
  {
    if |ws| == 0 then d
    else
      assert WritesBelow(ws[..|ws| - 1], |d|);
      WriteAll(d, ws[..|ws| - 1])[ws[|ws| - 1].0 := ws[|ws| - 1].1]
  }

  /** A slot that no write addresses keeps its value. */
  lemma {:induction false} WriteAllElsewhere(d: seq<int>, ws: seq<(nat, int)>, p: nat)
    requires WritesBelow(ws, |d|) && p < |d|
    requires forall k :: 0 <= k < |ws| ==> ws[k].0 != p
    ensures WriteAll(d, ws)[p] == d[p]
  {
    if |ws| > 0 {
      WriteAllElsewhere(d, ws[..|ws| - 1], p);
    }
  }

  /** When the writes address distinct slots, each slot written ends with its value. */
  lemma {:induction false} WriteAllDistinct(d: seq<int>, ws: seq<(nat, int)>, k: nat)
    requires WritesBelow(ws, |d|) && k < |ws|
    requires forall i, j :: 0 <= i < j < |ws| ==> ws[i].0 != ws[j].0
    ensures WriteAll(d, ws)[ws[k].0] == ws[k].1
  {
    if k < |ws| - 1 {
      WriteAllDistinct(d, ws[..|ws| - 1], k);
    }
  }

  /** The one-argument set of a column vector (also every 1 by 1 matrix): the fill is written
      cell by cell, top to bottom, into the shared buffer. */
  method SetColumn(m: IndexMatrix, f: Fill)
    requires m.Valid() && |m.colIdx| == 1
    modifies m.data
    ensures WritesBelow(ColumnWrites(ColumnOffsets(m.rowIdx, m.colIdx[0]), f), m.data.Length)
    ensures m.data[..] == WriteAll(old(m.data[..]), ColumnWrites(ColumnOffsets(m.rowIdx, m.colIdx[0]), f))
  {
    var ws := ColumnWrites(ColumnOffsets(m.rowIdx, m.colIdx[0]), f);
    assert WritesBelow(ws, m.data.Length) by {
      forall k | 0 <= k < |ws| ensures ws[k].0 < m.data.Length {
        assert ws[k].0 == m.rowIdx[k] + m.colIdx[0];
      }
    }
    ghost var d0 := m.data[..];
    var k := 0;
    while k < |ws|
      invariant 0 <= k <= |ws|
      invariant WritesBelow(ws[..k], |d0|)
      invariant m.data[..] == WriteAll(d0, ws[..k])
    {
      assert ws[..k + 1][..k] == ws[..k];
      m.data[ws[k].0] := ws[k].1;
      k := k + 1;
    }
    assert ws[..k] == ws;
  }

  /** The slot writes of setting the diagonal view of a matrix to a fill. */
  function DiagWrites(rowIdx: seq<nat>, colIdx: seq<nat>, f: Fill): (ws: seq<(nat, int)>)
    ensures |ws| <= Min(|rowIdx|, |colIdx|)
    ensures forall k :: 0 <= k < |ws| ==> ws[k].0 == rowIdx[k] + colIdx[k]
  {
    ColumnWrites(ColumnOffsets(DiagOffsets(rowIdx, colIdx), 0), f)
  }

  /** Diagonal cell `k` is written at its own slot with the value the fill gives it, or,
      past the writes, keeps the value `x` it had. */
  lemma DiagWriteValue(rowIdx: seq<nat>, colIdx: seq<nat>, f: Fill, k: nat, x: int)
    requires k < |rowIdx| && k < |colIdx|
    ensures k < |DiagWrites(rowIdx, colIdx, f)| ==>
              DiagWrites(rowIdx, colIdx, f)[k] == (rowIdx[k] + colIdx[k], Written(f, k, x))
    ensures |DiagWrites(rowIdx, colIdx, f)| <= k ==> Written(f, k, x) == x
  {
  }

  /** Distinct diagonal cells of a matrix whose cells have slots of their own are written
      at distinct slots. */
  lemma DiagWritesDistinct(rowIdx: seq<nat>, colIdx: seq<nat>, f: Fill)
    requires Injective(rowIdx, colIdx)
    ensures forall i, j :: 0 <= i < j < |DiagWrites(rowIdx, colIdx, f)|
              ==> DiagWrites(rowIdx, colIdx, f)[i].0 != DiagWrites(rowIdx, colIdx, f)[j].0
  {
    var ws := DiagWrites(rowIdx, colIdx, f);
    forall i, j | 0 <= i < j < |ws| ensures ws[i].0 != ws[j].0 {
      assert ws[i].0 == SlotOf(rowIdx, colIdx, i, i) && ws[j].0 == SlotOf(rowIdx, colIdx, j, j);
    }
  }

  /** Every diagonal write lands inside the buffer. */
  lemma DiagWritesFit(rowIdx: seq<nat>, colIdx: seq<nat>, len: nat, f: Fill)
    requires Fits(rowIdx, colIdx, len)
    ensures WritesBelow(DiagWrites(rowIdx, colIdx, f), len)
  {
    var ws := DiagWrites(rowIdx, colIdx, f);
    forall k | 0 <= k < |ws| ensures ws[k].0 < len {
      assert ws[k].0 == rowIdx[k] + colIdx[k];
    }
  }

  /** Slot `p` ends with `v` when write `k` is the only one addressing it and carries `v`,
      or when no write addresses it and it held `v` before. */
  lemma WriteAllSlot(d: seq<int>, ws: seq<(nat, int)>, k: nat, p: nat, v: int)
    requires WritesBelow(ws, |d|) && p < |d|
    requires forall i, j :: 0 <= i < j < |ws| ==> ws[i].0 != ws[j].0
    requires k < |ws| ==> ws[k] == (p, v)
    requires |ws| <= k ==> v == d[p] && forall i :: 0 <= i < |ws| ==> ws[i].0 != p
    ensures WriteAll(d, ws)[p] == v
  {
    if k < |ws| {
      WriteAllDistinct(d, ws, k);
    } else {
      WriteAllElsewhere(d, ws, p);
    }
  }

  /** Cell (r, c) shares its slot with no diagonal write other than that of cell (r, r). */
  lemma DiagWritesMiss(rowIdx: seq<nat>, colIdx: seq<nat>, f: Fill, r: nat, c: nat)
    requires Injective(rowIdx, colIdx) && r < |rowIdx| && c < |colIdx|
    requires r != c || |DiagWrites(rowIdx, colIdx, f)| <= r
    ensures forall i :: 0 <= i < |DiagWrites(rowIdx, colIdx, f)|
              ==> DiagWrites(rowIdx, colIdx, f)[i].0 != rowIdx[r] + colIdx[c]
  {
    var ws := DiagWrites(rowIdx, colIdx, f);
    forall i | 0 <= i < |ws| ensures ws[i].0 != rowIdx[r] + colIdx[c] {
      assert ws[i].0 == SlotOf(rowIdx, colIdx, i, i) && rowIdx[r] + colIdx[c] == SlotOf(rowIdx, colIdx, r, c);
    }
  }

  /** Writing a fill along the diagonal of a matrix whose cells have slots of their own sets
      cell (i, i) as a column set would, and leaves every other cell (r, c) as it was. */
  lemma SetDiagonalEffect(rowIdx: seq<nat>, colIdx: seq<nat>, d: seq<int>, f: Fill, r: nat, c: nat)
    requires Fits(rowIdx, colIdx, |d|) && Injective(rowIdx, colIdx)
    requires r < |rowIdx| && c < |colIdx|
    ensures WritesBelow(DiagWrites(rowIdx, colIdx, f), |d|)
    ensures r == c ==> CellsOf(rowIdx, colIdx, WriteAll(d, DiagWrites(rowIdx, colIdx, f)))[r][c]
                       == Written(f, r, CellsOf(rowIdx, colIdx, d)[r][c])
    ensures r != c ==> CellsOf(rowIdx, colIdx, WriteAll(d, DiagWrites(rowIdx, colIdx, f)))[r][c]
                       == CellsOf(rowIdx, colIdx, d)[r][c]
  {
    if r == c {
      SetDiagonalOn(rowIdx, colIdx, d, f, r);
    } else {
      SetDiagonalOff(rowIdx, colIdx, d, f, r, c);
    }
  }

  /** Diagonal cell (k, k) takes the value the fill gives it. */
  lemma SetDiagonalOn(rowIdx: seq<nat>, colIdx: seq<nat>, d: seq<int>, f: Fill, k: nat)
    requires Fits(rowIdx, colIdx, |d|) && Injective(rowIdx, colIdx)
    requires k < |rowIdx| && k < |colIdx|
    ensures WritesBelow(DiagWrites(rowIdx, colIdx, f), |d|)
    ensures CellsOf(rowIdx, colIdx, WriteAll(d, DiagWrites(rowIdx, colIdx, f)))[k][k]
         == Written(f, k, CellsOf(rowIdx, colIdx, d)[k][k])
  {
    DiagSlotWritten(rowIdx, colIdx, d, f, k);
    CellAt(rowIdx, colIdx, d, k, k);
    CellAt(rowIdx, colIdx, WriteAll(d, DiagWrites(rowIdx, colIdx, f)), k, k);
  }

  /** The slot of diagonal cell (k, k) ends with the value the fill gives it. */
  lemma {:induction false} DiagSlotWritten(rowIdx: seq<nat>, colIdx: seq<nat>, d: seq<int>, f: Fill, k: nat)
    requires Fits(rowIdx, colIdx, |d|) && Injective(rowIdx, colIdx)
    requires k < |rowIdx| && k < |colIdx|
    ensures WritesBelow(DiagWrites(rowIdx, colIdx, f), |d|) && rowIdx[k] + colIdx[k] < |d|
    ensures WriteAll(d, DiagWrites(rowIdx, colIdx, f))[rowIdx[k] + colIdx[k]]
         == Written(f, k, d[rowIdx[k] + colIdx[k]])
  {
    if k < |DiagWrites(rowIdx, colIdx, f)| {
      DiagSlotReached(rowIdx, colIdx, d, f, k);
    } else {
      DiagWritesMiss(rowIdx, colIdx, f, k, k);
      DiagSlotBeyond(rowIdx, colIdx, d, f, k);
      DiagWriteValue(rowIdx, colIdx, f, k, d[rowIdx[k] + colIdx[k]]);
    }
  }

  /** A diagonal slot the fill reaches holds the value written to it last, which is its own
      write, since no other write shares the slot. */
  lemma {:induction false} DiagSlotReached(rowIdx: seq<nat>, colIdx: seq<nat>, d: seq<int>, f: Fill, k: nat)
    requires Fits(rowIdx, colIdx, |d|) && Injective(rowIdx, colIdx)
    requires k < |DiagWrites(rowIdx, colIdx, f)|
    ensures WritesBelow(DiagWrites(rowIdx, colIdx, f), |d|) && rowIdx[k] + colIdx[k] < |d|
    ensures WriteAll(d, DiagWrites(rowIdx, colIdx, f))[rowIdx[k] + colIdx[k]]
         == Written(f, k, d[rowIdx[k] + colIdx[k]])
  {
    var p := rowIdx[k] + colIdx[k];
    DiagWritesFit(rowIdx, colIdx, |d|, f);
    DiagWritesDistinct(rowIdx, colIdx, f);
    DiagWriteValue(rowIdx, colIdx, f, k, d[p]);
    WriteAllDistinct(d, DiagWrites(rowIdx, colIdx, f), k);
  }

  /** A diagonal slot that no write addresses keeps its value. */
  lemma {:induction false} DiagSlotBeyond(rowIdx: seq<nat>, colIdx: seq<nat>, d: seq<int>, f: Fill, k: nat)
    requires Fits(rowIdx, colIdx, |d|) && k < |rowIdx| && k < |colIdx|
    requires forall i :: 0 <= i < |DiagWrites(rowIdx, colIdx, f)|
               ==> DiagWrites(rowIdx, colIdx, f)[i].0 != rowIdx[k] + colIdx[k]
    ensures WritesBelow(DiagWrites(rowIdx, colIdx, f), |d|) && rowIdx[k] + colIdx[k] < |d|
    ensures WriteAll(d, DiagWrites(rowIdx, colIdx, f))[rowIdx[k] + colIdx[k]] == d[rowIdx[k] + colIdx[k]]
  {
    var ws, p := DiagWrites(rowIdx, colIdx, f), rowIdx[k] + colIdx[k];
    DiagWritesFit(rowIdx, colIdx, |d|, f);
    WriteAllElsewhere(d, ws, p);
  }

  /** An off-diagonal cell (r, c) keeps its value. */
  lemma SetDiagonalOff(rowIdx: seq<nat>, colIdx: seq<nat>, d: seq<int>, f: Fill, r: nat, c: nat)
    requires Fits(rowIdx, colIdx, |d|) && Injective(rowIdx, colIdx)
    requires r < |rowIdx| && c < |colIdx| && r != c
    ensures WritesBelow(DiagWrites(rowIdx, colIdx, f), |d|)
    ensures CellsOf(rowIdx, colIdx, WriteAll(d, DiagWrites(rowIdx, colIdx, f)))[r][c]
         == CellsOf(rowIdx, colIdx, d)[r][c]
  {
    var ws := DiagWrites(rowIdx, colIdx, f);
    DiagWritesFit(rowIdx, colIdx, |d|, f);
    DiagWritesDistinct(rowIdx, colIdx, f);
    CellAt(rowIdx, colIdx, d, r, c);
    DiagWritesMiss(rowIdx, colIdx, f, r, c);
    CellAfterWrites(rowIdx, colIdx, d, ws, r, c, |ws|, d[rowIdx[r] + colIdx[c]]);
  }

  /** Cell (r, c) ends with `v` when write `k` is the only one addressing its slot and
      carries `v`, or when no write addresses it and it held `v` before. */
  lemma CellAfterWrites(rowIdx: seq<nat>, colIdx: seq<nat>, d: seq<int>, ws: seq<(nat, int)>,
                        r: nat, c: nat, k: nat, v: int)
    requires Fits(rowIdx, colIdx, |d|) && WritesBelow(ws, |d|) && r < |rowIdx| && c < |colIdx|
    requires forall i, j :: 0 <= i < j < |ws| ==> ws[i].0 != ws[j].0
    requires k < |ws| ==> ws[k] == (rowIdx[r] + colIdx[c], v)
    requires |ws| <= k ==>
               v == d[rowIdx[r] + colIdx[c]] && forall i :: 0 <= i < |ws| ==> ws[i].0 != rowIdx[r] + colIdx[c]
    ensures CellsOf(rowIdx, colIdx, WriteAll(d, ws))[r][c] == v
  {
    WriteAllSlot(d, ws, k, rowIdx[r] + colIdx[c], v);
    CellAt(rowIdx, colIdx, WriteAll(d, ws), r, c);
  }

  /** A new diagonal matrix: `vs` along the diagonal, 0 everywhere else. */
  function DiagGrid(vs: seq<int>): (g: Grid)
    ensures IsShape(g, |vs|, |vs|)
  {
    seq(|vs|, r requires 0 <= r < |vs| => Unit(|vs|, r, vs[r]))
  }

  /** A row of `n` cells holding `x` at position `k` and 0 elsewhere. */
  function Unit(n: nat, k: nat, x: int): (row: seq<int>)
    ensures |row| == n
  {
    seq(n, c => if c == k then x else 0)
  }

  /** Extracting the diagonal of a new diagonal matrix gives back the values it was built from. */
  lemma DiagonalOfDiagGrid(vs: seq<int>)
    ensures Diagonal(DiagGrid(vs), |vs|, |vs|) == seq(|vs|, i requires 0 <= i < |vs| => [vs[i]])
  {
  }

  /** The sum of all cells. */
  function Sum(s: seq<int>): int
  {
    if |s| == 0 then 0 else Sum(s[..|s| - 1]) + s[|s| - 1]
  }

  /** The sum of a concatenation is the sum of the parts. */
  lemma {:induction false} SumAppend(a: seq<int>, b: seq<int>)
    ensures Sum(a + b) == Sum(a) + Sum(b)
  {
    if |b| > 0 {
      assert (a + b)[..|a + b| - 1] == a + b[..|b| - 1];
      SumAppend(a, b[..|b| - 1]);
    } else {
      assert a + b == a;
    }
  }

  /** A unit row sums to the one value it holds. */
  lemma {:induction false} SumUnit(n: nat, k: nat, x: int)
    ensures Sum(Unit(n, k, x)) == if k < n then x else 0
  {
    if n > 0 {
      assert Unit(n, k, x)[..n - 1] == Unit(n - 1, k, x);
      SumUnit(n - 1, k, x);
    }
  }

  /** A diagonal matrix built from a column holds the same total as the column. */
  lemma DiagGridSum(vs: seq<int>)
    ensures Sum(RowMajor(DiagGrid(vs))) == Sum(vs)
  {
    var g := DiagGrid(vs);
    DiagGridSumPrefix(vs, |vs|);
    assert g[..|vs|] == g && vs[..|vs|] == vs;
  }

  /** The first `k` rows of a diagonal matrix sum to the first `k` values of its column. */
  lemma {:induction false} DiagGridSumPrefix(vs: seq<int>, k: nat)
    requires k <= |vs|
    ensures Sum(RowMajor(DiagGrid(vs)[..k])) == Sum(vs[..k])
  {
    if k > 0 {
      var g := DiagGrid(vs);
      DiagGridSumPrefix(vs, k - 1);
      assert g[..k][..k - 1] == g[..k - 1];
      assert RowMajor(g[..k]) == RowMajor(g[..k - 1]) + g[k - 1];
      SumAppend(RowMajor(g[..k - 1]), g[k - 1]);
      SumUnit(|vs|, k - 1, vs[k - 1]);
      assert vs[..k][..k - 1] == vs[..k - 1];
    }
  }

  /** The diagonal of a new diagonal matrix is every (n + 1)-th cell of its row-major order,
      and holds the column it was built from. */
  lemma DiagGridEveryStep(vs: seq<int>, i: nat)
    requires i < |vs|
    ensures |RowMajor(DiagGrid(vs))| == |vs| * |vs| && i * (|vs| + 1) < |vs| * |vs|
    ensures RowMajor(DiagGrid(vs))[i * (|vs| + 1)] == vs[i]
  {
    DiagonalEveryStep(DiagGrid(vs), |vs|, i);
  }

  /** The extraction view: the diagonal offsets and the single column offset 0, over the same
      buffer. */
  method DiagView(m: IndexMatrix) returns (res: IndexMatrix)
    requires m.Valid()
    ensures fresh(res) && res.Valid() && res.data == m.data
    ensures res.rowIdx == DiagOffsets(m.rowIdx, m.colIdx) && res.colIdx == [0]
    ensures res.Cells() == Diagonal(m.Cells(), |m.rowIdx|, |m.colIdx|)
  {
    DiagonalView(m.rowIdx, m.colIdx, m.data[..]);
    res := new IndexMatrix.Over(DiagOffsets(m.rowIdx, m.colIdx), [0], m.data);
  }

  /** The cells of the first column, top to bottom. */
  function Column0(g: Grid, rows: nat): (vs: seq<int>)
    requires IsShape(g, rows, 1)
    ensures |vs| == rows && forall i :: 0 <= i < rows ==> vs[i] == g[i][0]
  {
    seq(rows, i requires 0 <= i < rows => g[i][0])
  }

  /** Writing a column along the diagonal of a fresh square zero matrix gives the diagonal
      matrix of that column. */
  lemma ZerosWithDiagonal(vs: seq<int>)
    ensures Fits(Iota(|vs|, 1), Iota(|vs|, |vs|), |vs| * |vs|)
    ensures WritesBelow(DiagWrites(Iota(|vs|, 1), Iota(|vs|, |vs|), Values(vs)),
                        |vs| * |vs|)
    ensures CellsOf(Iota(|vs|, 1), Iota(|vs|, |vs|),
              WriteAll(seq(|vs| * |vs|, _ => 0),
                DiagWrites(Iota(|vs|, 1), Iota(|vs|, |vs|), Values(vs))))
         == DiagGrid(vs)
  {
    var n := |vs|;
    var ri, ci, z := Iota(n, 1), Iota(n, n), seq(n * n, _ => 0);
    ColumnLayout(n, n);
    DiagWritesFit(ri, ci, n * n, Values(vs));
    var a := CellsOf(ri, ci, WriteAll(z, DiagWrites(ri, ci, Values(vs))));
    forall r, c | 0 <= r < n && 0 <= c < n ensures a[r][c] == DiagGrid(vs)[r][c] {
      ZerosWithDiagonalAt(vs, r, c);
    }
    CellsDetermine(a, DiagGrid(vs), n, n);
  }

  /** Cell (r, c) of a square zero matrix after its diagonal is set to `vs`: `vs[r]` on the
      diagonal, 0 off it. */
  lemma ZerosWithDiagonalAt(vs: seq<int>, r: nat, c: nat)
    requires r < |vs| && c < |vs|
    ensures Fits(Iota(|vs|, 1), Iota(|vs|, |vs|), |vs| * |vs|)
    ensures WritesBelow(DiagWrites(Iota(|vs|, 1), Iota(|vs|, |vs|), Values(vs)), |vs| * |vs|)
    ensures CellsOf(Iota(|vs|, 1), Iota(|vs|, |vs|),
              WriteAll(seq(|vs| * |vs|, _ => 0),
                DiagWrites(Iota(|vs|, 1), Iota(|vs|, |vs|), Values(vs))))[r][c]
         == DiagGrid(vs)[r][c]
  {
    var n := |vs|;
    var ri, ci, z := Iota(n, 1), Iota(n, n), seq(n * n, _ => 0);
    ColumnLayout(n, n);
    SetDiagonalEffect(ri, ci, z, Values(vs), r, c);
    CellAt(ri, ci, z, r, c);
  }

  /** diag of a column of n cells: a new n by n zero matrix whose diagonal view is set to the
      column. */
  method FromColumn(m: IndexMatrix) returns (res: IndexMatrix)
    requires m.Valid() && |m.colIdx| == 1
    ensures fresh(res) && fresh(res.data) && res.Valid()
    ensures res.Cells() == DiagGrid(Column0(m.Cells(), |m.rowIdx|))
  {
    var n := |m.rowIdx|;
    var column := Column0(m.Cells(), n);
    var z := new IndexMatrix.Zeros(n, n);
    ghost var zeros := z.data[..];
    assert zeros == seq(n * n, _ => 0);
    var view := DiagView(z);
    assert ColumnOffsets(view.rowIdx, view.colIdx[0]) == ColumnOffsets(DiagOffsets(z.rowIdx, z.colIdx), 0);
    SetColumn(view, Values(column));
    ZerosWithDiagonal(column);
    res := z;
  }

  /** diag, following the documented dispatch (see DiagPlanAsWritten for the source's own
      test of the fill):
      - a 1 by 1 matrix is returned, after the fill is written into it if one is given;
      - a column of n cells gives a new n by n matrix with that column as its diagonal;
      - otherwise a given fill is written along the diagonal and the matrix returned,
      - and with no fill the diagonal is returned as a column over the same buffer. */
  method Diag(m: IndexMatrix, f: Fill) returns (res: IndexMatrix)
    requires m.Valid()
    modifies m.data
    ensures DiagPlan(|m.rowIdx|, |m.colIdx|, f) == ReturnSelf ==>
      res == m && m.data[..] == old(m.data[..])
    ensures DiagPlan(|m.rowIdx|, |m.colIdx|, f) == SetSelf ==>
      res == m &&
      WritesBelow(ColumnWrites(ColumnOffsets(m.rowIdx, m.colIdx[0]), f), m.data.Length) &&
      m.data[..] == WriteAll(old(m.data[..]), ColumnWrites(ColumnOffsets(m.rowIdx, m.colIdx[0]), f))
    ensures DiagPlan(|m.rowIdx|, |m.colIdx|, f) == BuildFromColumn ==>
      fresh(res) && fresh(res.data) && res.Valid() && m.data[..] == old(m.data[..]) &&
      res.Cells() == DiagGrid(Column0(m.Cells(), |m.rowIdx|))
    ensures DiagPlan(|m.rowIdx|, |m.colIdx|, f) == SetDiagonal ==>
      res == m &&
      WritesBelow(DiagWrites(m.rowIdx, m.colIdx, f), m.data.Length) &&
      m.data[..] == WriteAll(old(m.data[..]), DiagWrites(m.rowIdx, m.colIdx, f))
    ensures DiagPlan(|m.rowIdx|, |m.colIdx|, f) == ExtractView ==>
      fresh(res) && res.Valid() && res.data == m.data && m.data[..] == old(m.data[..]) &&
      res.rowIdx == DiagOffsets(m.rowIdx, m.colIdx) && res.colIdx == [0] &&
      res.Cells() == Diagonal(m.Cells(), |m.rowIdx|, |m.colIdx|)
  {
    var rl, cl := |m.rowIdx|, |m.colIdx|;
    if cl == 1 && rl == 1 {
      if Given(f) {
        SetColumn(m, f);
      }
      res := m;
    } else if cl == 1 {
      res := FromColumn(m);
    } else if Given(f) {
      var view := DiagView(m);
      assert ColumnOffsets(view.rowIdx, view.colIdx[0]) == ColumnOffsets(DiagOffsets(m.rowIdx, m.colIdx), 0);
      SetColumn(view, f);
      res := m;
    } else {
      res := DiagView(m);
    }
  }

  // ---------------------------------------------------------------------------------------
  // reshape

  /** reshape: a new `rows` by `cols` matrix filled row by row from the row-major order of
      the cells of `g`. */
  function Reshape(g: Grid, rows: nat, cols: nat): (h: Grid)
    requires rows * cols == |RowMajor(g)|
    ensures IsShape(h, rows, cols)
  {
    FromRowMajor(RowMajor(g), rows, cols)
  }

  /** Reshaping keeps the row-major order of the cells. */
  lemma ReshapeKeepsOrder(g: Grid, rows: nat, cols: nat)
    requires rows * cols == |RowMajor(g)|
    ensures RowMajor(Reshape(g, rows, cols)) == RowMajor(g)
  {
    RowMajorRoundTrip(RowMajor(g), rows, cols);
  }

  /** Reshaping back to the original size restores the matrix. */
  lemma ReshapeBack(g: Grid, rows: nat, cols: nat, rows': nat, cols': nat)
    requires IsShape(g, rows, cols) && rows' * cols' == rows * cols
    ensures |RowMajor(g)| == rows' * cols'
    ensures |RowMajor(Reshape(g, rows', cols'))| == rows * cols
    ensures Reshape(Reshape(g, rows', cols'), rows, cols) == g
  {
    RowMajorLength(g, rows, cols);
    ReshapeKeepsOrder(g, rows', cols');
    FromRowMajorRoundTrip(g, rows, cols);
  }

  // ---------------------------------------------------------------------------------------
  // repmat

  /** `s` repeated `n` times. */
  function Repeat(s: seq<int>, n: nat): (t: seq<int>)
    ensures |t| == n * |s|
  {
    if n == 0 then [] else Repeat(s, n - 1) + s
  }

  /** Position `t` of copy `q` of `s` holds `s[t]`. */
  lemma {:induction false} RepeatAt(s: seq<int>, n: nat, q: nat, t: nat)
    requires q < n && t < |s|
    ensures q * |s| + t < n * |s|
    ensures Repeat(s, n)[q * |s| + t] == s[t]
  {
    StrideBelow(t, q, |s|, n);
    if q < n - 1 {
      RepeatAt(s, n - 1, q, t);
      StrideBelow(t, q, |s|, n - 1);
    } else {
      assert q * |s| == |Repeat(s, n - 1)|;
    }
  }

  /** The two inner loops of _repmat: every row of `g`, each written `h` times in a row. */
  function RowsRepeated(g: Grid, h: nat): (s: seq<int>)
  {
    if |g| == 0 then [] else RowsRepeated(g[..|g| - 1], h) + Repeat(g[|g| - 1], h)
  }

  /** One pass of the two inner loops writes `h * cols` cells per row. */
  lemma {:induction false} RowsRepeatedLength(g: Grid, rows: nat, cols: nat, h: nat)
    requires IsShape(g, rows, cols)
    ensures |RowsRepeated(g, h)| == rows * (h * cols)
  {
    if rows > 0 {
      var w := h * cols;
      assert |Repeat(g[rows - 1], h)| == w;
      RowsRepeatedLength(g[..rows - 1], rows - 1, cols, h);
      NextMultiple(rows - 1, w);
    }
  }

  /** Row `r` of `g`, repeated, sits at position `r * (h * cols)` of one pass. */
  lemma {:induction false} RowsRepeatedAt(g: Grid, rows: nat, cols: nat, h: nat, r: nat, t: nat)
    requires IsShape(g, rows, cols) && r < rows && t < h * cols
    ensures |RowsRepeated(g, h)| == rows * (h * cols) && t + r * (h * cols) < rows * (h * cols)
    ensures RowsRepeated(g, h)[t + r * (h * cols)] == Repeat(g[r], h)[t]
  {
    RowsRepeatedLength(g, rows, cols, h);
    RowsRepeatedLength(g[..rows - 1], rows - 1, cols, h);
    StrideBelow(t, r, h * cols, rows);
    if r < rows - 1 {
      RowsRepeatedAt(g[..rows - 1], rows - 1, cols, h, r, t);
    }
  }

  /** The stream of _repmat: `v` passes over the rows. */
  function RepmatStream(g: Grid, v: nat, h: nat): (s: seq<int>)
  {
    Repeat(RowsRepeated(g, h), v)
  }

  /** repmat: the `rows * v` by `cols * h` matrix filled row by row from the stream. */
  function Repmat(g: Grid, rows: nat, cols: nat, v: nat, h: nat): (m: Grid)
    requires IsShape(g, rows, cols)
    ensures IsShape(m, rows * v, cols * h)
  {
    RowsRepeatedLength(g, rows, cols, h);
    Regroup(rows, cols, v, h);
    FromRowMajor(RepmatStream(g, v, h), rows * v, cols * h)
  }

  /** With the default repeat counts `vRepeat = 1` and `hRepeat = 1`, repmat is a copy. */
  lemma RepmatDefaults(g: Grid, rows: nat, cols: nat)
    requires IsShape(g, rows, cols)
    ensures Repmat(g, rows, cols, 1, 1) == g
  {
    var m := Repmat(g, rows, cols, 1, 1);
    forall i, j | 0 <= i < rows && 0 <= j < cols ensures m[i][j] == g[i][j] {
      RepmatAt(g, rows, cols, 1, 1, i, j);
      DivModUnique(i, rows, 0, i);
      DivModUnique(j, cols, 0, j);
    }
    CellsDetermine(m, g, rows, cols);
  }

  /** Position `t` of pass `a` of the stream is position `t` of one pass. */
  lemma PassAt(g: Grid, rows: nat, cols: nat, v: nat, h: nat, a: nat, t: nat, k: nat)
    requires IsShape(g, rows, cols) && a < v && t < rows * (h * cols)
    requires k == a * (rows * (h * cols)) + t
    ensures k < |RepmatStream(g, v, h)| && t < |RowsRepeated(g, h)|
    ensures RepmatStream(g, v, h)[k] == RowsRepeated(g, h)[t]
  {
    RowsRepeatedLength(g, rows, cols, h);
    RepeatAt(RowsRepeated(g, h), v, a, t);
  }

  /** Position `j` of the `h` copies of row `r` in one pass holds cell `j mod cols` of
      that row. */
  lemma RowCopyAt(g: Grid, rows: nat, cols: nat, h: nat, w: nat, r: nat, j: nat, t: nat)
    requires IsShape(g, rows, cols) && w == h * cols && r < rows && j < w && t == j + r * w
    ensures cols > 0 && t < |RowsRepeated(g, h)|
    ensures RowsRepeated(g, h)[t] == g[r][j % cols]
  {
    CopyAndOffset(j, cols, h);
    RowsRepeatedAt(g, rows, cols, h, r, j);
    assert |g[r]| == cols;
    RepeatAt(g[r], h, j / cols, j % cols);
  }

  /** Position `k = a * (rows * (h * cols)) + r * (h * cols) + j` of the stream, that is
      position `j` of the copies of row `r` in pass `a`, holds cell `j mod cols` of that row. */
  lemma RepmatStreamAt(g: Grid, rows: nat, cols: nat, v: nat, h: nat, a: nat, r: nat, j: nat, k: nat)
    requires IsShape(g, rows, cols) && a < v && r < rows && j < h * cols
    requires k == a * (rows * (h * cols)) + (j + r * (h * cols))
    ensures cols > 0 && k < |RepmatStream(g, v, h)|
    ensures RepmatStream(g, v, h)[k] == g[r][j % cols]
  {
    var w := h * cols;
    var t := j + r * w;
    RowCopyAt(g, rows, cols, h, w, r, j, t);
    RowsRepeatedLength(g, rows, cols, h);
    PassAt(g, rows, cols, v, h, a, t, k);
  }

  /** Cell (i, j) of the repeated matrix is cell (i mod rows, j mod cols) of the original. */
  lemma RepmatAt(g: Grid, rows: nat, cols: nat, v: nat, h: nat, i: nat, j: nat)
    requires IsShape(g, rows, cols) && i < rows * v && j < cols * h
    ensures rows > 0 && cols > 0
    ensures Repmat(g, rows, cols, v, h)[i][j] == g[i % rows][j % cols]
  {
    CopyAndOffset(i, rows, v);
    var w := h * cols;
    var a, r := i / rows, i % rows;
    var k := i * (cols * h) + j;
    assert k == a * (rows * w) + (j + r * w) by {
      BlockOffset(a, rows, r, w);
    }
    RepmatStreamAt(g, rows, cols, v, h, a, r, j, k);
    CellIndexBound(j, i, cols * h, rows * v);
  }

  // ---------------------------------------------------------------------------------------
  // vcat and hcat

  /** An operand of vcat or hcat: the cells of a matrix and its size. */
  datatype Operand = Operand(cells: Grid, rows: nat, cols: nat)

  /** Every operand has the size it claims. */
  predicate WellShaped(ops: seq<Operand>) {
    forall k :: 0 <= k < |ops| ==> IsShape(ops[k].cells, ops[k].rows, ops[k].cols)
  }

  /** Why a concatenation throws: no operand at all (reading the size of a missing first
      operand), or an operand whose width (vcat) or height (hcat) differs from the first. */
  datatype Error = NoOperands | WidthMismatch | HeightMismatch

  datatype Result<T> = Success(value: T) | Failure(error: Error)

  /** The sum of the heights, as `reduce` adds them from the left. */
  function Heights(ops: seq<Operand>): nat
  {
    if |ops| == 0 then 0 else Heights(ops[..|ops| - 1]) + ops[|ops| - 1].rows
  }

  /** The sum of the widths. */
  function Widths(ops: seq<Operand>): nat
  {
    if |ops| == 0 then 0 else Widths(ops[..|ops| - 1]) + ops[|ops| - 1].cols
  }

  /** All operands have the width `w`. */
  predicate AllWidth(ops: seq<Operand>, w: nat) {
    forall k :: 0 <= k < |ops| ==> ops[k].cols == w
  }

  /** All operands have the height `n`. */
  predicate AllHeight(ops: seq<Operand>, n: nat) {
    forall k :: 0 <= k < |ops| ==> ops[k].rows == n
  }

  /** The stream of _vcat: each operand in its own row-major order, one after the other. */
  function VcatStream(ops: seq<Operand>): (s: seq<int>)
  {
    if |ops| == 0 then [] else VcatStream(ops[..|ops| - 1]) + RowMajor(ops[|ops| - 1].cells)
  }

  /** The rows of all operands, stacked in argument order. */
  function Stack(ops: seq<Operand>): (g: Grid)
  {
    if |ops| == 0 then [] else Stack(ops[..|ops| - 1]) + ops[|ops| - 1].cells
  }

  /** Stacking operands of width `w` gives a grid of the summed height and width `w`, and the
      stream of _vcat is its row-major order. */
  lemma {:induction false} StackShape(ops: seq<Operand>, w: nat)
    requires WellShaped(ops) && AllWidth(ops, w)
    ensures IsShape(Stack(ops), Heights(ops), w)
    ensures VcatStream(ops) == RowMajor(Stack(ops))
  {
    if |ops| > 0 {
      var init, last := ops[..|ops| - 1], ops[|ops| - 1];
      StackShape(init, w);
      RowMajorAppend(Stack(init), last.cells);
      var g := Stack(ops);
      forall r | 0 <= r < |g| ensures |g[r]| == w {
        if r >= |Stack(init)| {
          assert g[r] == last.cells[r - |Stack(init)|];
        }
      }
    }
  }

  /** Row `i` of operand `k` is row `Heights(ops[..k]) + i` of the stack. */
  lemma {:induction false} StackAt(ops: seq<Operand>, k: nat, i: nat)
    requires WellShaped(ops) && k < |ops| && i < ops[k].rows
    ensures |Stack(ops)| == Heights(ops) && Heights(ops[..k]) + i < Heights(ops)
    ensures Stack(ops)[Heights(ops[..k]) + i] == ops[k].cells[i]
  {
    var init := ops[..|ops| - 1];
    StackHeight(ops);
    assert ops[..|ops|] == ops;
    if k < |ops| - 1 {
      assert init[..k] == ops[..k];
      StackAt(init, k, i);
      HeightsPrefix(ops, k);
    } else {
      StackHeight(init);
    }
  }

  /** The stacked grid has as many rows as the heights add up to. */
  lemma {:induction false} StackHeight(ops: seq<Operand>)
    requires WellShaped(ops)
    ensures |Stack(ops)| == Heights(ops)
  {
    if |ops| > 0 {
      StackHeight(ops[..|ops| - 1]);
    }
  }

  /** The heights of a prefix never exceed those of the whole list. */
  lemma {:induction false} HeightsPrefix(ops: seq<Operand>, k: nat)
    requires k < |ops|
    ensures Heights(ops[..k]) + ops[k].rows <= Heights(ops)
  {
    if k < |ops| - 1 {
      assert ops[..|ops| - 1][..k] == ops[..k];
      HeightsPrefix(ops[..|ops| - 1], k);
    } else {
      assert ops[..k] == ops[..|ops| - 1];
    }
  }

  /** vcat: fails with no operands or when a width differs from the first operand's;
      otherwise the operands' rows, one operand after another, in a matrix as wide as each
      operand and as high as all of them together. */
  function Vcat(ops: seq<Operand>): (res: Result<Operand>)
    requires WellShaped(ops)
  {
    if |ops| == 0 then Failure(NoOperands)
    else if exists k :: 0 <= k < |ops| && ops[k].cols != ops[0].cols then Failure(WidthMismatch)
    else
      StackShape(ops, ops[0].cols);
      RowMajorLength(Stack(ops), Heights(ops), ops[0].cols);
      Success(Operand(FromRowMajor(VcatStream(ops), Heights(ops), ops[0].cols), Heights(ops), ops[0].cols))
  }

  /** vcat fails exactly when there is no operand or the widths differ, and otherwise stacks
      the operands' rows in argument order. */
  lemma VcatStacks(ops: seq<Operand>)
    requires WellShaped(ops)
    ensures Vcat(ops).Failure? <==> |ops| == 0 || !AllWidth(ops, ops[0].cols)
    ensures |ops| > 0 && AllWidth(ops, ops[0].cols) ==>
      Vcat(ops) == Success(Operand(Stack(ops), Heights(ops), ops[0].cols))
  {
    if |ops| > 0 && AllWidth(ops, ops[0].cols) {
      StackShape(ops, ops[0].cols);
      FromRowMajorRoundTrip(Stack(ops), Heights(ops), ops[0].cols);
    }
  }

  /** Row `r` of every operand, joined left to right. */
  function JoinRow(ops: seq<Operand>, r: nat): (row: seq<int>)
    requires forall k :: 0 <= k < |ops| ==> r < |ops[k].cells|
  {
    if |ops| == 0 then [] else JoinRow(ops[..|ops| - 1], r) + ops[|ops| - 1].cells[r]
  }

  /** A joined row is as wide as the widths add up to. */
  lemma {:induction false} JoinRowLength(ops: seq<Operand>, r: nat)
    requires WellShaped(ops) && forall k :: 0 <= k < |ops| ==> r < ops[k].rows
    ensures |JoinRow(ops, r)| == Widths(ops)
  {
    if |ops| > 0 {
      JoinRowLength(ops[..|ops| - 1], r);
    }
  }

  /** Cell `c` of row `r` of operand `k` sits at `Widths(ops[..k]) + c` of the joined row. */
  lemma {:induction false} JoinRowAt(ops: seq<Operand>, r: nat, k: nat, c: nat)
    requires WellShaped(ops) && forall k :: 0 <= k < |ops| ==> r < ops[k].rows
    requires k < |ops| && c < ops[k].cols
    ensures |JoinRow(ops, r)| == Widths(ops) && Widths(ops[..k]) + c < Widths(ops)
    ensures JoinRow(ops, r)[Widths(ops[..k]) + c] == ops[k].cells[r][c]
  {
    var init := ops[..|ops| - 1];
    JoinRowLength(ops, r);
    JoinRowLength(init, r);
    if k < |ops| - 1 {
      assert init[..k] == ops[..k];
      JoinRowAt(init, r, k, c);
    } else {
      assert ops[..k] == init;
    }
  }

  /** The stream of _hcat for the first `n` rows: row after row, each the join of the
      operands' rows. */
  function HcatStream(ops: seq<Operand>, n: nat): (s: seq<int>)
    requires forall k :: 0 <= k < |ops| ==> n <= |ops[k].cells|
  {
    if n == 0 then [] else HcatStream(ops, n - 1) + JoinRow(ops, n - 1)
  }

  /** The joined rows as a grid. */
  function Joined(ops: seq<Operand>, n: nat): (g: Grid)
    requires forall k :: 0 <= k < |ops| ==> n <= |ops[k].cells|
  {
    seq(n, r requires 0 <= r < n => JoinRow(ops, r))
  }

  /** Joining operands of one height gives a grid of that height and the summed width, and the
      stream of _hcat is its row-major order. */
  lemma {:induction false} HcatStreamJoined(ops: seq<Operand>, height: nat, n: nat)
    requires WellShaped(ops) && AllHeight(ops, height) && n <= height
    ensures IsShape(Joined(ops, n), n, Widths(ops))
    ensures HcatStream(ops, n) == RowMajor(Joined(ops, n))
  {
    forall r | 0 <= r < n ensures |Joined(ops, n)[r]| == Widths(ops) {
      JoinRowLength(ops, r);
    }
    if n > 0 {
      HcatStreamJoined(ops, height, n - 1);
      assert Joined(ops, n)[..n - 1] == Joined(ops, n - 1);
    }
  }

  /** hcat: fails with no operands or when a height differs from the first operand's;
      otherwise a matrix as high as each operand and as wide as all of them together, whose
      row `r` joins the operands' rows `r` left to right. */
  function Hcat(ops: seq<Operand>): (res: Result<Operand>)
    requires WellShaped(ops)
  {
    if |ops| == 0 then Failure(NoOperands)
    else if exists k :: 0 <= k < |ops| && ops[k].rows != ops[0].rows then Failure(HeightMismatch)
    else
      HcatStreamJoined(ops, ops[0].rows, ops[0].rows);
      RowMajorLength(Joined(ops, ops[0].rows), ops[0].rows, Widths(ops));
      Success(Operand(FromRowMajor(HcatStream(ops, ops[0].rows), ops[0].rows, Widths(ops)),
                      ops[0].rows, Widths(ops)))
  }

  /** hcat fails exactly when there is no operand or the heights differ, and otherwise cell
      `c` of row `r` of operand `k` is cell `Widths(ops[..k]) + c` of row `r` of the result. */
  lemma HcatJoins(ops: seq<Operand>)
    requires WellShaped(ops)
    ensures Hcat(ops).Failure? <==> |ops| == 0 || !AllHeight(ops, ops[0].rows)
    ensures |ops| > 0 && AllHeight(ops, ops[0].rows) ==>
      Hcat(ops) == Success(Operand(Joined(ops, ops[0].rows), ops[0].rows, Widths(ops)))
  {
    if |ops| > 0 && AllHeight(ops, ops[0].rows) {
      HcatStreamJoined(ops, ops[0].rows, ops[0].rows);
      FromRowMajorRoundTrip(Joined(ops, ops[0].rows), ops[0].rows, Widths(ops));
    }
  }
}

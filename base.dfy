/** The strided column-major Matrix of src/base.js.

    A Matrix is a descriptor over a shared buffer: `rows` and `cols`, the column span
    (SPAN, the number of slots from the start of one column to the start of the next),
    the slot `origin` of cell (0, 0) and the buffer itself (DATA). Cell (r, c) lives at
    slot `origin + r + c * span`; the `span - rows` slots after each column (SKIP) belong to
    no cell. Views (row, column, subMatrix) are new descriptors over the same buffer, so a
    write through one is seen through every other. Buffer cells are exact integers and
    offsets are counted in elements, not bytes. */
module Base {
  import opened Arithmetic
  import opened Dense

  datatype Option<T> = None | Some(value: T)

  /** The arguments one call of the forEach callback receives: value, row, column and the
      slot index relative to the origin. */
  datatype Visit = Visit(value: int, r: nat, c: nat, i: nat)

  class Matrix {
    const rows: nat
    const cols: nat
    const span: nat
    const origin: nat
    const data: array<int>

    /** Every cell lies inside the buffer, and columns do not overlap. */
    predicate Valid()
    {
      rows <= span && CellsFit(origin, span, rows, cols, data.Length)
    }

    /** The buffer slot of cell (r, c). */
    function Slot(r: int, c: int): int
    {
      origin + r + c * span
    }

    /** Slot k of the buffer holds some cell of this matrix. */
    ghost predicate IsCellSlot(k: int)
    {
      exists r, c :: 0 <= r < rows && 0 <= c < cols && k == Slot(r, c)
    }

    /** The slot of a cell is inside the buffer and not before the origin. */
    lemma SlotInBuffer(r: nat, c: nat)
      requires Valid() && r < rows && c < cols
      ensures origin <= Slot(r, c) < data.Length
    {
      StridedBound(r, c, rows, cols, span);
    }

    /** Distinct cells occupy distinct slots. */
    lemma SlotsOfOtherCells(r: nat, c: nat)
      requires Valid() && r < rows && c < cols
      ensures forall r', c' :: 0 <= r' < rows && 0 <= c' < cols && (r' != r || c' != c)
                ==> Slot(r', c') != Slot(r, c)
    {
      forall r', c' | 0 <= r' < rows && 0 <= c' < cols && Slot(r', c') == Slot(r, c)
        ensures r' == r && c' == c
      {
        SlotsDistinct(c', r', c, r, span);
      }
    }

    /** The SKIP slots after a column belong to no cell. */
    lemma GapIsNoCell(g: nat, c: nat)
      requires Valid() && rows <= g < span && c < cols
      ensures !IsCellSlot(Slot(g, c))
    {
      forall r', c' | 0 <= r' < rows && 0 <= c' < cols
        ensures Slot(g, c) != Slot(r', c')
      {
        if Slot(g, c) == Slot(r', c') {
          SlotsDistinct(c, g, c', r', span);
        }
      }
    }

    /** The logical contents, row by row: what to2dArray returns. */
    function Contents(): (g: seq<seq<int>>)
      reads data
      requires Valid()
      ensures IsShape(g, rows, cols)
    {
      Window(data[..], origin, span, rows, cols)
    }

    /** A grid that agrees with every cell is the contents. */
    lemma ContentsFromCells(h: seq<seq<int>>)
      requires Valid() && IsShape(h, rows, cols)
      requires forall r, c :: 0 <= r < rows && 0 <= c < cols ==> Get(r, c) == h[r][c]
      ensures Contents() == h
    {
      CellsDetermine(Contents(), h, rows, cols);
    }

    /** get(r, c): the cell in row r and column c. */
    function Get(r: nat, c: nat): (v: int)
      reads data
      requires Valid() && r < rows && c < cols
      ensures v == Contents()[r][c]
    {
      SlotInBuffer(r, c);
      data[Slot(r, c)]
    }

    /** The descriptor of a view over an existing buffer (the constructor after its checks). */
    constructor Over(rows: nat, cols: nat, span: nat, origin: nat, data: array<int>)
      requires rows <= span && CellsFit(origin, span, rows, cols, data.Length)
      ensures Valid()
      ensures this.rows == rows && this.cols == cols && this.span == span
      ensures this.origin == origin && this.data == data
    {
      this.rows, this.cols, this.span, this.origin, this.data := rows, cols, span, origin, data;
    }

    /** new Matrix(rows, cols): a fresh zero-filled contiguous matrix (span == rows, no skip). */
    constructor Zeros(rows: nat, cols: nat)
      ensures Valid() && fresh(data)
      ensures this.rows == rows && this.cols == cols && span == rows && origin == 0
      ensures data.Length == rows * cols
      ensures forall k :: 0 <= k < data.Length ==> data[k] == 0
      ensures forall r, c :: 0 <= r < rows && 0 <= c < cols ==> Get(r, c) == 0
    {
      if rows > 0 && cols > 0 {
        CellIndexBound(rows - 1, cols - 1, rows, cols);
      }
      this.rows, this.cols, span, origin := rows, cols, rows, 0;
      data := new int[rows * cols](_ => 0);
      new;
      forall r, c | 0 <= r < rows && 0 <= c < cols ensures Get(r, c) == 0 {
        SlotInBuffer(r, c);
      }
    }

    /** new Matrix(rows, cols, source, span, offset) with `source` a Matrix: a view over the
        root buffer of `source`, starting `offset` slots after the origin of `source`. A span of
        0 stands for an absent one and means `rows`. Fails (None) exactly when the buffer is
        shorter than `origin + span * cols - skip` slots, or when the start lies past its end
        (the typed-array view over the buffer then throws, even for a block of no columns). */
    static method View(rows: nat, cols: nat, source: Matrix, span: nat, offset: nat)
      returns (m: Option<Matrix>)
      requires span == 0 || rows <= span
      ensures m.Some? <==> source.origin + offset <= source.data.Length
                           && ViewFits(source.origin + offset, if span == 0 then rows else span,
                                       rows, cols, source.data.Length)
      ensures m.Some? ==> fresh(m.value) && m.value.Valid() && m.value.data == source.data
      ensures m.Some? ==> m.value.rows == rows && m.value.cols == cols
      ensures m.Some? ==> m.value.span == (if span == 0 then rows else span)
      ensures m.Some? ==> m.value.origin == source.origin + offset
    {
      var sp := if span == 0 then rows else span;
      var skip := sp - rows;
      var start := source.origin + offset;
      if source.data.Length < start || source.data.Length < sp * cols - skip + start {
        return None;
      }
      ViewFitsCellsFit(start, sp, rows, cols, source.data.Length);
      var v := new Matrix.Over(rows, cols, sp, start, source.data);
      return Some(v);
    }

    /** new Matrix(rows, cols, values, span, offset) with `values` an array: copies
        `values.slice(offset)` into a fresh buffer whose slot 0 is cell (0, 0). Fails (None)
        exactly when `values` is shorter than `span * cols + offset - skip`. */
    static method FromArray(rows: nat, cols: nat, values: seq<int>, span: nat, offset: nat)
      returns (m: Option<Matrix>)
      requires span == 0 || rows <= span
      ensures m.Some? <==> ViewFits(offset, if span == 0 then rows else span, rows, cols, |values|)
      ensures m.Some? ==> CellsFit(offset, if span == 0 then rows else span, rows, cols, |values|)
      ensures m.Some? ==> fresh(m.value) && fresh(m.value.data) && m.value.Valid()
      ensures m.Some? ==> m.value.rows == rows && m.value.cols == cols && m.value.origin == 0
      ensures m.Some? ==> m.value.span == (if span == 0 then rows else span)
      ensures m.Some? ==> m.value.Contents()
                          == Window(values, offset, if span == 0 then rows else span, rows, cols)
    {
      var sp := if span == 0 then rows else span;
      var skip := sp - rows;
      if |values| < sp * cols + offset - skip {
        return None;
      }
      ViewFitsCellsFit(offset, sp, rows, cols, |values|);
      var copied := if offset > 0 then values[Min(offset, |values|)..] else values;
      var buf := new int[|copied|](k requires 0 <= k < |copied| => copied[k]);
      var v := new Matrix.Over(rows, cols, sp, 0, buf);
      forall r, c | 0 <= r < rows && 0 <= c < cols
        ensures v.Contents()[r][c] == Window(values, offset, sp, rows, cols)[r][c]
      {
        StridedBound(r, c, rows, cols, sp);
      }
      CellsDetermine(v.Contents(), Window(values, offset, sp, rows, cols), rows, cols);
      return Some(v);
    }

    /** set(r, c, v): writes slot `origin + r + c * span`, changes no other slot and returns
        the same matrix. */
    method Set(r: nat, c: nat, v: int) returns (self: Matrix)
      requires Valid() && r < rows && c < cols
      modifies data
      ensures self == this
      ensures Get(r, c) == v
      ensures forall k :: 0 <= k < data.Length && k != Slot(r, c) ==> data[k] == old(data[k])
      ensures Contents() == old(Contents())[r := old(Contents())[r][c := v]]
    {
      SlotInBuffer(r, c);
      data[Slot(r, c)] := v;
      SlotsOfOtherCells(r, c);
      ghost var want := old(Contents())[r := old(Contents())[r][c := v]];
      forall r', c' | 0 <= r' < rows && 0 <= c' < cols ensures Contents()[r'][c'] == want[r'][c'] {
        SlotInBuffer(r', c');
        assert Contents()[r'][c'] == data[Slot(r', c')];
        assert old(Contents())[r'][c'] == old(data[Slot(r', c')]);
      }
      CellsDetermine(Contents(), want, rows, cols);
      self := this;
    }

    /** A write of `v` into slot `k` of the buffer, where `k` is the slot of cell (r, c):
        that cell now holds `v` and every other cell keeps its value. */
    method WriteCell(r: nat, c: nat, k: nat, v: int)
      requires Valid() && r < rows && c < cols && k == Slot(r, c)
      modifies data
      ensures Get(r, c) == v
      ensures forall r', c' :: 0 <= r' < rows && 0 <= c' < cols && (r' != r || c' != c)
                ==> Get(r', c') == old(Get(r', c'))
    {
      SlotInBuffer(r, c);
      SlotsOfOtherCells(r, c);
      data[k] := v;
    }

    /** setEach(fn): visits the cells column by column, rows inside, stores
        `fn(value, r, c, i)` in each, `i` being the slot relative to the origin, and leaves
        every slot that is no cell (the SKIP gaps and the rest of the buffer) untouched.
        Returns the same matrix. */
    method SetEach(fn: (int, nat, nat, nat) -> int) returns (self: Matrix)
      requires Valid()
      modifies data
      ensures self == this
      ensures forall r, c :: 0 <= r < rows && 0 <= c < cols
                ==> Get(r, c) == fn(old(Get(r, c)), r, c, c * span + r)
      ensures forall k :: 0 <= k < data.Length && !IsCellSlot(k) ==> data[k] == old(data[k])
    {
      var c := 0;
      while c < cols
        invariant 0 <= c <= cols
        invariant forall r', c' :: 0 <= r' < rows && 0 <= c' < c
                    ==> Get(r', c') == fn(old(Get(r', c')), r', c', c' * span + r')
        invariant forall r', c' :: 0 <= r' < rows && c <= c' < cols ==> Get(r', c') == old(Get(r', c'))
        invariant forall k :: 0 <= k < data.Length && !IsCellSlot(k) ==> data[k] == old(data[k])
      {
        SetEachInColumn(fn, c);
        c := c + 1;
      }
      self := this;
    }

    /** One column of setEach's walk: the cells of column `c`, top to bottom, each set to
        `fn` of its value, its row, its column and its offset from the first cell. */
    method SetEachInColumn(fn: (int, nat, nat, nat) -> int, c: nat)
      requires Valid() && c < cols
      modifies data
      ensures forall r :: 0 <= r < rows ==> Get(r, c) == fn(old(Get(r, c)), r, c, c * span + r)
      ensures forall r', c' :: 0 <= r' < rows && 0 <= c' < cols && c' != c ==> Get(r', c') == old(Get(r', c'))
      ensures forall k :: 0 <= k < data.Length && !IsCellSlot(k) ==> data[k] == old(data[k])
    {
      var r, i := 0, c * span;
      while r < rows
        invariant 0 <= r <= rows && i == c * span + r
        invariant forall r' :: 0 <= r' < r ==> Get(r', c) == fn(old(Get(r', c)), r', c, c * span + r')
        invariant forall r' :: r <= r' < rows ==> Get(r', c) == old(Get(r', c))
        invariant forall r', c' :: 0 <= r' < rows && 0 <= c' < cols && c' != c ==> Get(r', c') == old(Get(r', c'))
        invariant forall k :: 0 <= k < data.Length && !IsCellSlot(k) ==> data[k] == old(data[k])
      {
        SlotInBuffer(r, c);
        SlotsOfOtherCells(r, c);
        data[Slot(r, c)] := fn(data[Slot(r, c)], r, c, i);
        r, i := r + 1, i + 1;
      }
    }

    /** forEach(fn): the same walk as setEach without writing; the calls `fn` receives, in
        order. (forEach returns the matrix itself, which changes nothing here.) */
    method ForEach() returns (visits: seq<Visit>)
      requires Valid()
      ensures visits == ColumnMajor(VisitGrid(), rows, cols)
    {
      ghost var vg := VisitGrid();
      visits := [];
      var i, c := 0, 0;
      while c < cols
        invariant 0 <= c <= cols && i == c * span
        invariant visits == ColumnsOf(vg, rows, cols, c)
      {
        var r := 0;
        while r < rows
          invariant 0 <= r <= rows && i == c * span + r
          invariant visits == ColumnsOf(vg, rows, cols, c) + ColumnOf(vg, rows, cols, c)[..r]
        {
          SlotInBuffer(r, c);
          assert vg[r][c] == Visit(data[Slot(r, c)], r, c, i);
          assert ColumnOf(vg, rows, cols, c)[..r + 1] == ColumnOf(vg, rows, cols, c)[..r] + [vg[r][c]];
          visits := visits + [Visit(data[Slot(r, c)], r, c, i)];
          r, i := r + 1, i + 1;
        }
        assert ColumnOf(vg, rows, cols, c)[..rows] == ColumnOf(vg, rows, cols, c);
        NextMultiple(c, span);
        c, i := c + 1, i + (span - rows);
      }
    }

    /** The call forEach makes for each cell, laid out as the matrix. */
    function VisitGrid(): (g: seq<seq<Visit>>)
      reads data
      requires Valid()
      ensures IsShape(g, rows, cols)
    {
      seq(rows, r requires 0 <= r < rows reads data =>
        seq(cols, c requires 0 <= c < cols reads data => Visit(Get(r, c), r, c, c * span + r)))
    }

    /** fill(v): every cell becomes `v`; slots that are no cell keep their values. Returns
        the same matrix. */
    method Fill(v: int) returns (self: Matrix)
      requires Valid()
      modifies data
      ensures self == this
      ensures forall r, c :: 0 <= r < rows && 0 <= c < cols ==> Get(r, c) == v
      ensures forall k :: 0 <= k < data.Length && !IsCellSlot(k) ==> data[k] == old(data[k])
    {
      self := SetEach((_, _, _, _) => v);
    }

    /** scale(s): multiplies every cell by `s` in place and returns the same matrix. */
    method Scale(s: int) returns (self: Matrix)
      requires Valid()
      modifies data
      ensures self == this
      ensures forall r, c :: 0 <= r < rows && 0 <= c < cols ==> Get(r, c) == old(Get(r, c)) * s
      ensures forall k :: 0 <= k < data.Length && !IsCellSlot(k) ==> data[k] == old(data[k])
    {
      self := SetEach((v, _, _, _) => v * s);
    }

    /** setTo(values) for a gap-free matrix: cell (r, c) becomes `values[c * rows + r]`,
        i.e. `values` is read in column-major order. The source passes setEach's slot index
        to `values`, which is the column-major position only when span == rows. */
    method SetTo(values: seq<int>)
      requires Valid() && span == rows && rows * cols <= |values|
      modifies data
      ensures CellsFit(0, rows, rows, cols, |values|)
      ensures Contents() == Window(values, 0, rows, rows, cols)
      ensures forall k :: 0 <= k < data.Length && !IsCellSlot(k) ==> data[k] == old(data[k])
    {
      if rows > 0 && cols > 0 {
        CellIndexBound(rows - 1, cols - 1, rows, cols);
      }
      var _ := SetEach((v, r, c, i) => if 0 <= i < |values| then values[i] else v);
      forall r, c | 0 <= r < rows && 0 <= c < cols
        ensures Contents()[r][c] == Window(values, 0, rows, rows, cols)[r][c]
      {
        CellIndexBound(r, c, rows, cols);
        assert Get(r, c) == Contents()[r][c];
      }
      CellsDetermine(Contents(), Window(values, 0, rows, rows, cols), rows, cols);
    }

    /** setTo(a) with `a` a Matrix: copies `a` out with toArray first, so it is safe even when
        `a` shares this buffer. The cells take the cells `a` had, read in column-major order
        whatever its shape; a matrix of the same shape ends up with the contents `a` had. */
    method SetToMatrix(a: Matrix)
      requires Valid() && a.Valid() && span == rows && rows * cols <= a.rows * a.cols
      modifies data
      ensures Contents() == Window(ColumnMajor(old(a.Contents()), a.rows, a.cols), 0, rows, rows, cols)
      ensures a.rows == rows && a.cols == cols ==> Contents() == old(a.Contents())
      ensures forall k :: 0 <= k < data.Length && !IsCellSlot(k) ==> data[k] == old(data[k])
    {
      var copy := a.ToArray();
      SetTo(copy[..]);
      if a.rows == rows && a.cols == cols {
        ColumnMajorRoundTrip(old(a.Contents()), rows, cols);
      }
    }

    /** The diagonal cells (d, d), d < min(rows, cols), are the slots setDiag writes. */
    ghost predicate IsDiagSlot(k: int)
    {
      exists d :: 0 <= d < Min(rows, cols) && k == Slot(d, d)
    }

    /** setDiag(fn): steps `span + 1` slots from cell (0, 0), storing `fn(value, d, i)` in each
        of the min(rows, cols) diagonal cells; no other slot changes. Returns the same matrix. */
    method SetDiag(fn: (int, nat, nat) -> int) returns (self: Matrix)
      requires Valid()
      modifies data
      ensures self == this
      ensures forall d :: 0 <= d < Min(rows, cols) ==> Get(d, d) == fn(old(Get(d, d)), d, d * (span + 1))
      ensures forall k :: 0 <= k < data.Length && !IsDiagSlot(k) ==> data[k] == old(data[k])
    {
      var step, lim := span + 1, Min(rows, cols);
      var r, i := 0, 0;
      while r < lim
        invariant 0 <= r <= lim && i == r * step
        invariant forall d :: 0 <= d < r ==> Get(d, d) == fn(old(Get(d, d)), d, d * step)
        invariant forall d :: r <= d < lim ==> Get(d, d) == old(Get(d, d))
        invariant forall k :: 0 <= k < data.Length && !IsDiagSlot(k) ==> data[k] == old(data[k])
      {
        SlotInBuffer(r, r);
        SlotsOfOtherCells(r, r);
        assert origin + i == Slot(r, r);
        data[origin + i] := fn(data[origin + i], r, i);
        NextMultiple(r, step);
        r, i := r + 1, i + step;
      }
      self := this;
    }

    /** toArray(): a fresh contiguous copy of the cells in column-major order, copied one
        column at a time, whether or not the matrix has gaps. The source reads the undefined
        `this.offset` here; this is what it evidently means (the view's own origin). */
    method ToArray() returns (a: array<int>)
      requires Valid()
      ensures fresh(a)
      ensures a[..] == ColumnMajor(Contents(), rows, cols)
    {
      ghost var g := Contents();
      a := new int[rows * cols];
      var i, j, c := origin, 0, 0;
      while c < cols
        invariant 0 <= c <= cols && j == c * rows && i == origin + c * span
        invariant j <= a.Length && a[..j] == ColumnsOf(g, rows, cols, c)
      {
        if 0 < rows {
          CellIndexBound(0, c, rows, cols);
        }
        CopyColumn(a, g, c, i, j);
        assert (c + 1) * rows == j + rows && (c + 1) * span == c * span + span;
        i, j, c := i + span, j + rows, c + 1;
      }
      assert a[..] == a[..j];
    }

    /** One round of toArray(): the `rows` slots of column `c`, which start at slot `i`,
        appended to the `j` positions of `a` already copied. */
    method CopyColumn(a: array<int>, ghost g: Grid, c: nat, i: nat, j: nat)
      requires Valid() && g == Contents() && a != data
      requires c < cols && i == origin + c * span && j + rows <= a.Length
      modifies a
      ensures a[..j + rows] == old(a[..j]) + ColumnOf(g, rows, cols, c)
    {
      var r := 0;
      while r < rows
        invariant 0 <= r <= rows
        invariant a[..j + r] == old(a[..j]) + ColumnOf(g, rows, cols, c)[..r]
      {
        SlotInBuffer(r, c);
        a[j + r] := data[i + r];
        assert ColumnOf(g, rows, cols, c)[..r + 1] == ColumnOf(g, rows, cols, c)[..r] + [g[r][c]];
        assert a[..j + r + 1] == a[..j + r] + [a[j + r]];
        r := r + 1;
      }
    }

    /** clone(): a fresh gap-free matrix with the same contents, built from toArray(). */
    method Clone() returns (m: Matrix)
      requires Valid()
      ensures fresh(m) && fresh(m.data) && m.Valid()
      ensures m.rows == rows && m.cols == cols && m.span == rows && m.origin == 0
      ensures m.Contents() == Contents()
    {
      var a := ToArray();
      var made := FromArray(rows, cols, a[..], 0, 0);
      ColumnMajorRoundTrip(Contents(), rows, cols);
      m := made.value;
    }

    /** map(fn): clone().setEach(fn); this matrix is left unchanged. The slot index the
        callback sees is that of the gap-free clone, `c * rows + r`. */
    method Map(fn: (int, nat, nat, nat) -> int) returns (m: Matrix)
      requires Valid()
      ensures fresh(m) && fresh(m.data) && m.Valid()
      ensures m.rows == rows && m.cols == cols && m.span == rows && m.origin == 0
      ensures forall r, c :: 0 <= r < rows && 0 <= c < cols ==> m.Get(r, c) == fn(Get(r, c), r, c, c * rows + r)
    {
      m := Clone();
      m := m.SetEach(fn);
    }

    /** neg(): a fresh matrix of the negated cells; this matrix is left unchanged. */
    method Neg() returns (m: Matrix)
      requires Valid()
      ensures fresh(m) && fresh(m.data) && m.Valid()
      ensures m.rows == rows && m.cols == cols && m.span == rows && m.origin == 0
      ensures forall r, c :: 0 <= r < rows && 0 <= c < cols ==> m.Get(r, c) == -Get(r, c)
    {
      m := Clone();
      m := m.SetEach((v, _, _, _) => -v);
    }

    /** mult(s) with a number: clone().scale(s); this matrix is left unchanged. */
    method MultScalar(s: int) returns (m: Matrix)
      requires Valid()
      ensures fresh(m) && fresh(m.data) && m.Valid()
      ensures m.rows == rows && m.cols == cols && m.span == rows && m.origin == 0
      ensures forall r, c :: 0 <= r < rows && 0 <= c < cols ==> m.Get(r, c) == Get(r, c) * s
    {
      m := Clone();
      m := m.Scale(s);
    }

    /** column(c): a rows×1 view over the same buffer starting at cell (0, c). */
    method Column(c: nat) returns (m: Option<Matrix>)
      requires Valid()
      ensures m.Some? <==> ViewFits(origin + c * span, if span == 0 then rows else span,
                                    rows, 1, data.Length)
      ensures c < cols && 0 < rows ==> m.Some?
      ensures m.Some? ==> fresh(m.value) && m.value.Valid() && m.value.data == data
      ensures m.Some? ==> m.value.rows == rows && m.value.cols == 1 && m.value.span == span
      ensures m.Some? ==> forall i :: 0 <= i < rows ==> m.value.Slot(i, 0) == Slot(i, c)
      ensures m.Some? && c < cols ==> forall i :: 0 <= i < rows ==> m.value.Get(i, 0) == Get(i, c)
    {
      if c < cols && 0 < rows {
        SlotInBuffer(rows - 1, c);
      }
      m := View(rows, 1, this, span, c * span);
    }

    /** row(r): a 1×cols view over the same buffer starting at cell (r, 0). */
    method Row(r: nat) returns (m: Option<Matrix>)
      requires Valid()
      ensures m.Some? <==> origin + r <= data.Length
                           && ViewFits(origin + r, if span == 0 then 1 else span, 1, cols, data.Length)
      ensures r < rows && 0 < cols ==> m.Some?
      ensures m.Some? ==> fresh(m.value) && m.value.Valid() && m.value.data == data
      ensures m.Some? ==> m.value.rows == 1 && m.value.cols == cols
      ensures m.Some? && 0 < span ==> m.value.span == span
      ensures m.Some? && 0 < span ==> forall j :: 0 <= j < cols ==> m.value.Slot(0, j) == Slot(r, j)
      ensures m.Some? && r < rows ==> forall j :: 0 <= j < cols ==> m.value.Get(0, j) == Get(r, j)
    {
      if r < rows && 0 < cols {
        SlotInBuffer(r, cols - 1);
      }
      m := View(1, cols, this, span, r);
    }

    /** An h×w block of cells inside the matrix starts and ends inside the buffer. */
    lemma BlockInside(r: nat, c: nat, h: nat, w: nat)
      requires Valid() && 0 < h && 0 < w && r + h <= rows && c + w <= cols
      ensures Slot(r, c) <= data.Length
      ensures ViewFits(Slot(r, c), span, h, w, data.Length)
    {
      SlotInBuffer(r + h - 1, c + w - 1);
      assert (c + w - 1) * span == c * span + span * w - span;
    }

    /** subMatrix(r, c, h, w): an h×w view over the same buffer whose cell (0, 0) is cell
        (r, c) of this matrix; inside the parent it is a window onto the parent's cells. */
    method SubMatrix(r: nat, c: nat, h: nat, w: nat) returns (m: Option<Matrix>)
      requires Valid() && (span == 0 || h <= span)
      ensures m.Some? <==> Slot(r, c) <= data.Length
                           && ViewFits(Slot(r, c), if span == 0 then h else span, h, w, data.Length)
      ensures 0 < h && 0 < w && r + h <= rows && c + w <= cols ==> m.Some?
      ensures m.Some? ==> fresh(m.value) && m.value.Valid() && m.value.data == data
      ensures m.Some? ==> m.value.rows == h && m.value.cols == w
      ensures m.Some? && 0 < span ==> m.value.span == span
      ensures m.Some? && 0 < span ==>
                (forall i, j :: 0 <= i < h && 0 <= j < w ==> m.value.Slot(i, j) == Slot(r + i, c + j))
      ensures m.Some? && r + h <= rows && c + w <= cols ==>
                (forall i, j :: 0 <= i < h && 0 <= j < w ==> m.value.Get(i, j) == Get(r + i, c + j))
    {
      if 0 < h && 0 < w && r + h <= rows && c + w <= cols {
        BlockInside(r, c, h, w);
      }
      var offset := r + c * span;
      assert origin + offset == Slot(r, c);
      m := View(h, w, this, span, offset);
    }

    /** transpose(): a fresh gap-free cols×rows matrix holding cell (r, c) at (c, r). The
        source walks this matrix slot by slot and moves the write index `j` down a row
        (`+ cols`) per cell and back to the next column (`- (cols * rows - 1)`) per column. */
    method Transpose() returns (t: Matrix)
      requires Valid()
      ensures fresh(t) && fresh(t.data) && t.Valid()
      ensures t.rows == cols && t.cols == rows && t.span == cols && t.origin == 0
      ensures t.Contents() == Dense.Transpose(Contents(), rows, cols)
    {
      ghost var g := Contents();
      t := new Matrix.Zeros(cols, rows);
      var step: int := cols * rows - 1;
      var i, j: int, c := 0, 0, 0;
      while c < cols
        invariant 0 <= c <= cols && i == c * span && j == c
        invariant forall r', c' :: 0 <= r' < rows && 0 <= c' < c ==> t.Get(c', r') == g[r'][c']
      {
        i, j := TransposeColumn(t, c, i, j);
        assert (c + 1) * span == c * span + span && rows * cols == cols * rows;
        c, i, j := c + 1, i + (span - rows), j - step;
      }
      forall c', r' | 0 <= c' < cols && 0 <= r' < rows
        ensures t.Contents()[c'][r'] == Dense.Transpose(g, rows, cols)[c'][r']
      {
        assert t.Get(c', r') == g[r'][c'];
      }
      CellsDetermine(t.Contents(), Dense.Transpose(g, rows, cols), cols, rows);
    }

    /** The inner loop of transpose(): copies column `c` into row `c` of `t`, advancing the
        read index one slot and the write index `cols` slots per cell. */
    method TransposeColumn(t: Matrix, c: nat, i0: nat, j0: int) returns (i: nat, j: int)
      requires Valid() && t.Valid() && t.data != data
      requires t.rows == cols && t.cols == rows && t.span == cols && t.origin == 0
      requires c < cols && i0 == c * span && j0 == c
      modifies t.data
      ensures i == c * span + rows && j == rows * cols + c
      ensures forall r' :: 0 <= r' < rows ==> t.Get(c, r') == Get(r', c)
      ensures forall r', c' :: 0 <= r' < rows && 0 <= c' < cols && c' != c
                ==> t.Get(c', r') == old(t.Get(c', r'))
    {
      i, j := i0, j0;
      var r := 0;
      while r < rows
        invariant 0 <= r <= rows && i == c * span + r && j == r * cols + c
        invariant forall r' :: 0 <= r' < r ==> t.Get(c, r') == Get(r', c)
        invariant forall r', c' :: 0 <= r' < rows && 0 <= c' < cols && c' != c
                    ==> t.Get(c', r') == old(t.Get(c', r'))
      {
        SlotInBuffer(r, c);
        t.WriteCell(c, r, j, data[origin + i]);
        NextMultiple(r, cols);
        r, i, j := r + 1, i + 1, j + cols;
      }
    }

    /** to2dArray(): the rows of the matrix as lists, read off the transpose's buffer
        `cols` slots at a time. */
    method To2dArray() returns (rowsOut: seq<seq<int>>)
      requires Valid()
      ensures rowsOut == Contents()
    {
      var t := Transpose();
      ghost var g := Contents();
      rowsOut := [];
      var i, r := 0, 0;
      while r < rows
        invariant 0 <= r <= rows && i == r * cols
        invariant rowsOut == g[..r]
        invariant t.Contents() == Dense.Transpose(g, rows, cols)
      {
        t.ColumnIsRow(g, r);
        assert g[..r + 1] == g[..r] + [g[r]];
        NextMultiple(r, cols);
        rowsOut := rowsOut + [t.data[i..i + cols]];
        i, r := i + cols, r + 1;
      }
      assert g[..rows] == g;
    }

    /** In a gap-free matrix holding the transpose of `g`, column `r` is row `r` of `g`, and
        it occupies `rows` consecutive slots of the buffer. */
    lemma ColumnIsRow(g: Grid, r: nat)
      requires Valid() && span == rows && origin == 0
      requires IsShape(g, cols, rows) && Contents() == Dense.Transpose(g, cols, rows) && r < cols
      ensures r * rows + rows <= data.Length
      ensures data[r * rows..r * rows + rows] == g[r]
    {
      StridedBound(0, r, 1, cols, rows);
      forall c | 0 <= c < rows ensures data[r * rows + c] == g[r][c] {
        SlotInBuffer(c, r);
        assert Get(c, r) == Contents()[c][r];
      }
    }

    /** minor(row, col) of a gap-free matrix: a fresh (rows-1)×(cols-1) matrix without row
        `row` and column `col`. The read index jumps a whole column at column `col` and one
        slot at row `row`, and steps over the last row of a column when that is the one cut. */
    method Minor(row: nat, col: nat) returns (m: Matrix)
      requires Valid() && span == rows && row < rows && col < cols
      ensures fresh(m) && fresh(m.data) && m.Valid()
      ensures m.rows == rows - 1 && m.cols == cols - 1 && m.span == rows - 1 && m.origin == 0
      ensures m.Contents() == Dense.Minor(Contents(), rows, cols, row, col)
    {
      ghost var g := Contents();
      var mr, mc := rows - 1, cols - 1;
      m := new Matrix.Zeros(mr, mc);
      var i, c, j := 0, 0, 0;
      while c < mc
        invariant 0 <= c <= mc && j == c * mr
        invariant i == (if c <= col then c else c + 1) * span
        invariant forall r', c' :: 0 <= r' < mr && 0 <= c' < c ==> m.Get(r', c') == g[Skip(r', row)][Skip(c', col)]
      {
        i, j := MinorColumn(m, row, col, c, i, j);
        NextMultiple(c, mr);
        c := c + 1;
      }
      m.HoldsMinor(g, rows, cols, row, col);
    }

    /** A matrix whose every cell is the matching cell of `g` outside row `row` and column
        `col` holds the minor of `g`. */
    lemma HoldsMinor(g: Grid, gr: nat, gc: nat, row: nat, col: nat)
      requires Valid() && IsShape(g, gr, gc) && row < gr && col < gc
      requires rows == gr - 1 && cols == gc - 1
      requires forall r, c :: 0 <= r < rows && 0 <= c < cols ==> Get(r, c) == g[Skip(r, row)][Skip(c, col)]
      ensures Contents() == Dense.Minor(g, gr, gc, row, col)
    {
      forall r, c | 0 <= r < rows && 0 <= c < cols
        ensures Get(r, c) == Dense.Minor(g, gr, gc, row, col)[r][c]
      {
        MinorAt(g, gr, gc, row, col, r, c);
      }
      ContentsFromCells(Dense.Minor(g, gr, gc, row, col));
    }

    /** One pass of the outer loop of minor(): steps over column `col` when it is the next
        column of the source, copies that column without row `row` into column `c` of `m`,
        and steps over the last source row when it is the one removed. */
    method MinorColumn(m: Matrix, row: nat, col: nat, c: nat, i0: nat, j0: nat) returns (i: nat, j: nat)
      requires Valid() && span == rows && row < rows && col < cols
      requires m.Valid() && m.data != data
      requires m.rows == rows - 1 && m.cols == cols - 1 && m.span == rows - 1 && m.origin == 0
      requires c < cols - 1 && i0 == (if c <= col then c else c + 1) * span && j0 == c * (rows - 1)
      modifies m.data
      ensures j == j0 + (rows - 1)
      ensures i == (if c + 1 <= col then c + 1 else c + 2) * span
      ensures forall r' :: 0 <= r' < rows - 1 ==> m.Get(r', c) == Get(Skip(r', row), Skip(c, col))
      ensures forall r', c' :: 0 <= r' < rows - 1 && 0 <= c' < cols - 1 && c' != c
                ==> m.Get(r', c') == old(m.Get(r', c'))
    {
      ghost var from := if c <= col then c else c + 1;
      i, j := i0, j0;
      if col == c {
        NextMultiple(from, span);
        i, from := i + span, from + 1;
      }
      var r := 0;
      while r < rows - 1
        invariant 0 <= r <= rows - 1 && j == j0 + r
        invariant i == from * span + r + (if row < r then 1 else 0)
        invariant forall r' :: 0 <= r' < r ==> m.Get(r', c) == Get(Skip(r', row), Skip(c, col))
        invariant forall r', c' :: 0 <= r' < rows - 1 && 0 <= c' < cols - 1 && c' != c
                    ==> m.Get(r', c') == old(m.Get(r', c'))
      {
        if row == r {
          i := i + 1;
        }
        SlotInBuffer(Skip(r, row), Skip(c, col));
        assert origin + i == Slot(Skip(r, row), Skip(c, col));
        m.WriteCell(r, c, j, data[origin + i]);
        r, i, j := r + 1, i + 1, j + 1;
      }
      if row == rows - 1 {
        i := i + 1;
      }
      NextMultiple(from, span);
    }

    /** mult(m) with a Matrix, both gap-free and `cols == m.rows` (the source checks neither):
        a fresh rows×m.cols matrix whose cell (i, k) is the sum over t of get(i, t) * m.get(t, k).
        The write index `k` runs over the result in column-major order; for each cell the read
        index `i` walks row i of this matrix (step `rows`) while `j` walks a column of `m`. */
    method Mult(other: Matrix) returns (res: Matrix)
      requires Valid() && other.Valid() && span == rows && other.span == other.rows
      requires cols == other.rows
      ensures fresh(res) && fresh(res.data) && res.Valid()
      ensures res.rows == rows && res.cols == other.cols && res.span == rows && res.origin == 0
      ensures res.Contents() == Dense.Mult(Contents(), other.Contents(), rows, cols, other.cols)
    {
      ghost var a, b := Contents(), other.Contents();
      res := new Matrix.Zeros(rows, other.cols);
      var kEl, iEl := rows * other.cols, rows * cols;
      var i, j, k := 0, 0, 0;
      ghost var col := 0;
      if 0 < rows {
        ColumnStart(col, rows, other.cols);
      }
      while k < kEl
        invariant 0 <= col <= other.cols && k == col * rows && i == 0 && j == col * other.rows
        invariant 0 < rows ==> (k < kEl <==> col < other.cols)
        invariant forall r', c' :: 0 <= r' < rows && 0 <= c' < other.cols
                    ==> res.Get(r', c') == if c' < col then Dot(a, b, r', c', cols) else 0
      {
        assert 0 < rows && col < other.cols;
        i, j, k := MultColumn(other, res, col, kEl, iEl, j, k);
        i, j := i - rows, j + other.rows;
        NextMultiple(col, rows);
        NextMultiple(col, other.rows);
        col := col + 1;
        ColumnStart(col, rows, other.cols);
      }
      res.HoldsProduct(a, b, cols);
    }

    /** A matrix whose cell (i, k) is the dot product of row i of `a` and column k of `b`
        holds the product of `a` and `b`. */
    lemma HoldsProduct(a: Grid, b: Grid, n: nat)
      requires Valid() && IsShape(a, rows, n) && IsShape(b, n, cols)
      requires forall r, c :: 0 <= r < rows && 0 <= c < cols ==> Get(r, c) == Dot(a, b, r, c, n)
      ensures Contents() == Dense.Mult(a, b, rows, n, cols)
    {
      ContentsFromCells(Dense.Mult(a, b, rows, n, cols));
    }

    /** The middle loop of mult(): the cells of column `col` of the result, row by row. */
    method MultColumn(other: Matrix, res: Matrix, ghost col: nat, kEl: nat, iEl: nat, j0: nat, k0: nat)
      returns (i: int, j: int, k: nat)
      requires Valid() && other.Valid() && span == rows && other.span == other.rows
      requires cols == other.rows && kEl == rows * other.cols && iEl == rows * cols
      requires res.Valid() && res.data != data && res.data != other.data
      requires res.rows == rows && res.cols == other.cols && res.span == rows && res.origin == 0
      requires col < other.cols && j0 == col * other.rows && k0 == col * rows
      requires forall r' :: 0 <= r' < rows ==> res.Get(r', col) == 0
      modifies res.data
      ensures i == rows && j == j0 && k == k0 + rows
      ensures forall r' :: 0 <= r' < rows ==> res.Get(r', col) == Dot(Contents(), other.Contents(), r', col, cols)
      ensures forall r', c' :: 0 <= r' < rows && 0 <= c' < other.cols && c' != col
                ==> res.Get(r', c') == old(res.Get(r', c'))
    {
      ghost var a, b := Contents(), other.Contents();
      i, j, k := 0, j0, k0;
      while i < rows
        invariant 0 <= i <= rows && j == j0 && k == k0 + i
        invariant forall r' :: 0 <= r' < rows ==> res.Get(r', col) == if r' < i then Dot(a, b, r', col, cols) else 0
        invariant forall r', c' :: 0 <= r' < rows && 0 <= c' < other.cols && c' != col
                    ==> res.Get(r', c') == old(res.Get(r', c'))
      {
        i, j := MultCell(other, res, i, col, iEl, i, j, k);
        i, j, k := i - (iEl - 1), j - other.rows, k + 1;
      }
    }

    /** The inner loop of mult(): accumulates `get(row, t) * other.get(t, col)` into slot `k`
        of the result for t = 0, 1, ..., cols - 1. */
    method MultCell(other: Matrix, res: Matrix, ghost row: nat, ghost col: nat, iEl: nat, i0: nat, j0: nat, k: nat)
      returns (i: int, j: int)
      requires Valid() && other.Valid() && span == rows && other.span == other.rows
      requires cols == other.rows && iEl == rows * cols
      requires res.Valid() && res.data != data && res.data != other.data
      requires res.rows == rows && res.cols == other.cols && res.span == rows && res.origin == 0
      requires row < rows && col < other.cols && i0 == row && j0 == col * other.rows && k == col * rows + row
      requires res.Get(row, col) == 0
      modifies res.data
      ensures i == row + iEl && j == j0 + cols
      ensures res.Get(row, col) == Dot(Contents(), other.Contents(), row, col, cols)
      ensures forall r', c' :: 0 <= r' < rows && 0 <= c' < other.cols && (r' != row || c' != col)
                ==> res.Get(r', c') == old(res.Get(r', c'))
    {
      ghost var a, b := Contents(), other.Contents();
      res.SlotInBuffer(row, col);
      res.SlotsOfOtherCells(row, col);
      i, j := i0, j0;
      ghost var t := 0;
      StrideBelow(row, t, rows, cols);
      while i < iEl
        invariant 0 <= t <= cols && i == row + t * rows && j == j0 + t
        invariant i < iEl <==> t < cols
        invariant res.Get(row, col) == Dot(a, b, row, col, t)
        invariant forall r', c' :: 0 <= r' < rows && 0 <= c' < other.cols && (r' != row || c' != col)
                    ==> res.Get(r', c') == old(res.Get(r', c'))
      {
        SlotInBuffer(row, t);
        other.SlotInBuffer(t, col);
        assert origin + i == Slot(row, t) && other.origin + j == other.Slot(t, col);
        assert data[origin + i] == a[row][t];
        assert other.data[other.origin + j] == b[t][col];
        res.data[k] := res.data[k] + data[origin + i] * other.data[other.origin + j];
        assert (t + 1) * rows == t * rows + rows;
        i, j, t := i + rows, j + 1, t + 1;
        StrideBelow(row, t, rows, cols);
      }
    }

    /** det() of a gap-free matrix: 0 unless square, the closed forms for 2×2 and 3×3 on the
        column-major slots, otherwise the expansion down column 0 taking two rows per round,
        the minors computed by minor() and their determinants recursively. The source has no
        1×1 case and returns 0 there (see Dense.DetAsWritten); this one returns the cell. */
    method Det() returns (d: int)
      requires Valid() && span == rows
      ensures d == Dense.Det(Contents(), rows, cols)
      decreases rows, 2
    {
      ghost var g := Contents();
      if rows != cols {
        return 0;
      }
      if rows == 1 {
        SlotInBuffer(0, 0);
        return data[origin];
      }
      if rows == 2 {
        SlotInBuffer(1, 1);
        assert g[0][0] == data[origin] && g[1][0] == data[origin + 1];
        assert g[0][1] == data[origin + 2] && g[1][1] == data[origin + 3];
        return data[origin] * data[origin + 3] - data[origin + 1] * data[origin + 2];
      }
      if rows == 3 {
        SlotInBuffer(2, 2);
        assert g[0][0] == data[origin] && g[1][0] == data[origin + 1] && g[2][0] == data[origin + 2];
        assert g[0][1] == data[origin + 3] && g[1][1] == data[origin + 4] && g[2][1] == data[origin + 5];
        assert g[0][2] == data[origin + 6] && g[1][2] == data[origin + 7] && g[2][2] == data[origin + 8];
        return data[origin] * (data[origin + 4] * data[origin + 8] - data[origin + 7] * data[origin + 5])
             + data[origin + 1] * (data[origin + 5] * data[origin + 6] - data[origin + 8] * data[origin + 3])
             + data[origin + 2] * (data[origin + 3] * data[origin + 7] - data[origin + 6] * data[origin + 4]);
      }
      d := Expand();
    }

    /** The loop of det() for a square matrix past the closed forms: the expansion down
        column 0, two rows per round, the last round taking one row when the size is odd. */
    method Expand() returns (d: int)
      requires Valid() && span == rows && rows == cols
      ensures d == Cofactors(Contents(), rows, rows)
      decreases rows, 1
    {
      ghost var g := Contents();
      d := 0;
      var i := 1;
      ghost var h := 0;
      while i <= cols
        invariant i == 2 * h + 1 && i <= cols + 2
        invariant d == Cofactors(g, rows, Min(i - 1, cols))
      {
        SignAlternates(h);
        assert Sign(i - 1) == 1 && Sign(i) == -1 by {
          assert i - 1 == 2 * h && i == 2 * h + 1;
        }
        assert d == Cofactors(g, rows, i - 1);
        var upper := Term(i - 1);
        assert Sign(i - 1) * upper == upper;
        assert Cofactors(g, rows, i) == d + upper;
        if i < cols {
          var lower := Term(i);
          assert Sign(i) * lower == -lower;
          assert Cofactors(g, rows, i + 1) == Cofactors(g, rows, i) - lower;
          d := d + upper - lower;
          assert Min(i + 1, cols) == i + 1;
        } else {
          d := d + upper;
          assert Min(i + 1, cols) == i;
        }
        h := h + 1;
        i := i + 2;
      }
    }

    /** One product of det()'s loop: cell (k, 0) times the determinant of minor(k, 0), the
        term the expansion adds (k even) or subtracts (k odd). */
    method Term(k: nat) returns (t: int)
      requires Valid() && span == rows && rows == cols && k < rows
      ensures Cofactors(Contents(), rows, k + 1) == Cofactors(Contents(), rows, k) + Sign(k) * t
      decreases rows, 0
    {
      var m := Minor(k, 0);
      ghost var mg := m.Contents();
      ghost var mr := m.rows;
      var dm := m.Det();
      SlotInBuffer(k, 0);
      assert Get(k, 0) == Contents()[k][0] && Slot(k, 0) == origin + k;
      CofactorStep(Contents(), rows, k, data[origin + k], mg, mr, dm);
      t := data[origin + k] * dm;
    }
  }

  /** The documented use of views: a 2×2 matrix over the buffer of a 4×4 one, two slots in
      and with the parent's span, so that it covers rows 2-3 of columns 0-1. A write through
      either descriptor is seen through the other. */
  method ViewOfParent() returns (parent: Matrix, view: Matrix)
    ensures parent.Valid() && view.Valid() && view.data == parent.data
    ensures parent.rows == 4 && parent.cols == 4 && view.rows == 2 && view.cols == 2
    ensures forall i, j :: 0 <= i < 2 && 0 <= j < 2 ==> view.Get(i, j) == parent.Get(2 + i, j)
    ensures parent.Get(3, 1) == 7 && view.Get(0, 0) == 5
    ensures parent.Get(0, 0) == 0
  {
    parent := new Matrix.Zeros(4, 4);
    var made := Matrix.View(2, 2, parent, 4, 2);
    view := made.value;
    var _ := view.Set(1, 1, 7);
    var _ := parent.Set(2, 0, 5);
  }
}

/** `dense_matrix_v` (one flat vector) and `dense_matrix_vv` (a vector of vectors),
    each row- or column-oriented. Both revisions of these classes behave alike in
    everything modelled here; the earlier revision's file load copies a nested vector
    into the flat one (`DenseV.LoadNested`). */
module Dense {
  import opened MatrixCommon
  import opened DenseLayout
  import opened PrintPolicy

  /** `dense_matrix_v<T, ORIENT>`: the extent `m_size`, the print level `m_print` and
      the flat storage `a`. */
  class DenseV {
    const rowMajor: bool
    var rows: nat
    var cols: nat
    var a: seq<real>
    var printLevel: int

    ghost predicate Valid()
      reads this
    {
      |a| == rows * cols
    }

    /** The m x n value the storage holds. */
    ghost function Matrix(): (m: seq<seq<real>>)
      reads this
      requires Valid()
      ensures Shaped(m, rows, cols)
    {
      Cells(rowMajor, rows, cols, a)
    }

    constructor(rowMajor: bool)
      ensures Valid() && this.rowMajor == rowMajor
      ensures rows == 0 && cols == 0 && a == [] && printLevel == 0
    {
      this.rowMajor := rowMajor;
      rows, cols, a, printLevel := 0, 0, [], 0;
    }

    /** `operator()(i, j)`: cell `(i, j)` of the matrix. */
    function At(i: nat, j: nat): (x: real)
      reads this
      requires Valid() && i < rows && j < cols
      ensures x == Matrix()[i][j]
    {
      CellsAt(rowMajor, rows, cols, a, i, j);
      a[Offset(rowMajor, rows, cols, i, j)]
    }

    /** `size(d)`. */
    function Size(d: nat): (n: nat)
      reads this
      ensures d == 0 ==> n == rows
      ensures d == 1 ==> n == cols
      ensures d > 1 ==> n == 0
    {
      SizeOf(rows, cols, d)
    }

    /** The level `print` renders at: chosen by the extent under `print_auto`, otherwise
        the clamped explicit level, whatever the extent. */
    function PrintLevel(): (l: Level)
      reads this
      ensures printLevel == 0 ==> l == AutoLevel(rows, cols)
      ensures printLevel != 0 ==> l == Resolve(printLevel, 0, 0)
    {
      Resolve(printLevel, rows, cols)
    }

    /** `clear()`: no storage, extent 0 x 0. */
    method Clear()
      modifies this
      ensures Valid() && rows == 0 && cols == 0 && a == [] && printLevel == old(printLevel)
    {
      a := [];
      rows, cols := 0, 0;
    }

    /** `initialize(i, j, value)`: a valid extent (both positive) becomes the extent with
        every cell `value`; an invalid one leaves the matrix as it was, without error. */
    method Initialize(i: nat, j: nat, x: real)
      requires Valid()
      modifies this
      ensures Valid() && printLevel == old(printLevel)
      ensures ValidSize(i, j) ==> rows == i && cols == j && Matrix() == Constant(i, j, x)
      ensures !ValidSize(i, j) ==> rows == old(rows) && cols == old(cols) && a == old(a)
    {
      if ValidSize(i, j) {
        Clear();
        rows, cols := i, j;
        if rows * cols != 0 {
          a := Filled(rows * cols, x);
        }
        CellsOfFilled(rowMajor, rows, cols, x);
      }
    }

    /** `operator=(value)`: `initialize` at the current extent. */
    method AssignValue(x: real)
      requires Valid()
      modifies this
      ensures Valid() && printLevel == old(printLevel) && rows == old(rows) && cols == old(cols)
      ensures ValidSize(rows, cols) ==> Matrix() == Constant(rows, cols, x)
      ensures !ValidSize(rows, cols) ==> a == old(a)
    {
      Initialize(rows, cols, x);
    }

    /** `initialize(vector)`: the vector must have as many values as the storage; its
        values are taken in row-major order whatever the orientation. */
    method InitializeFromValues(v: seq<real>) returns (o: Outcome)
      requires Valid()
      modifies this
      ensures Valid() && rows == old(rows) && cols == old(cols) && printLevel == old(printLevel)
      ensures o == (if |old(a)| == |v| then Pass else Fail(SizeMismatch))
      ensures o == Pass ==> Matrix() == Cells(true, rows, cols, v)
      ensures o != Pass ==> a == old(a)
    {
      if |a| != |v| {
        return Fail(SizeMismatch);
      }
      if rowMajor {
        a := v;
      } else {
        a := ColumnsFromRows(rows, cols, a, v);
      }
      o := Pass;
    }

    /** `zerorow(i)`: a row outside the extent fails; otherwise every cell of row `i`
        becomes zero and every other cell keeps its value. */
    method Zerorow(i: nat) returns (o: Outcome)
      requires Valid()
      modifies this
      ensures Valid() && rows == old(rows) && cols == old(cols) && printLevel == old(printLevel)
      ensures o == (if i < rows then Pass else Fail(RowOutOfBounds))
      ensures o == Pass ==> Matrix() == WithRowZeroed(old(Matrix()), i)
      ensures o != Pass ==> a == old(a)
    {
      if i >= rows {
        return Fail(RowOutOfBounds);
      }
      var before := a;
      if rowMajor {
        a := ZeroSlice(a, i * cols, i * cols + cols);
        ZeroSliceIsRow(rows, cols, before, i);
      } else {
        a := ZeroStrided(rows, cols, a, i);
      }
      CellsZeroRow(rowMajor, rows, cols, before, a, i);
      o := Pass;
    }

    /** `operator=(other)`: copies the storage and the extent (not the print level). */
    method Assign(other: DenseV)
      requires Valid() && other.Valid() && other.rowMajor == rowMajor
      modifies this
      ensures Valid() && printLevel == old(printLevel)
      ensures rows == old(other.rows) && cols == old(other.cols) && a == old(other.a)
      ensures Matrix() == old(other.Matrix())
    {
      a := other.a;
      rows, cols := other.rows, other.cols;
    }

    /** `swap(other)`: exchanges storage, extent and print level. */
    method Swap(other: DenseV)
      requires Valid() && other.Valid() && other.rowMajor == rowMajor
      modifies this, other
      ensures Valid() && other.Valid()
      ensures a == old(other.a) && rows == old(other.rows) && cols == old(other.cols) && printLevel == old(other.printLevel)
      ensures other.a == old(a) && other.rows == old(rows) && other.cols == old(cols) && other.printLevel == old(printLevel)
    {
      var ta, tr, tc, tp := a, rows, cols, printLevel;
      a, rows, cols, printLevel := other.a, other.rows, other.cols, other.printLevel;
      other.a, other.rows, other.cols, other.printLevel := ta, tr, tc, tp;
    }

    /** The `print_file` form of `print`: the header `rows cols`, then every cell, column
        by column and within a column row by row. Read as a column-oriented vector, the
        values are the matrix. */
    method FileForm() returns (header: (nat, nat), values: seq<real>)
      requires Valid()
      ensures header == (rows, cols)
      ensures |values| == rows * cols
      ensures Cells(false, rows, cols, values) == Matrix()
    {
      header := (rows, cols);
      values := ColumnOrder(rowMajor, rows, cols, a);
    }

    /** The array branch of `initialize(fname)` for MatrixMarket files, over the values
        of its non-comment lines: the storage is cleared and zero-filled at the extent
        read from the header, then each value goes to the cursor cell, which moves down
        the column and wraps to the top of the next column. Past the last cell the
        cursor's column is `cols`: in a row-oriented vector the write lands on the first
        cell of the next row, so up to `rows - 1` surplus values overwrite column 0 from
        row 1 down; any other surplus (one more, or any in a column-oriented vector)
        writes past the storage and is excluded. */
    method ReadArrayForm(r: nat, c: nat, tokens: seq<real>)
      requires Valid()
      requires |tokens| <= r * c || (rowMajor && c > 0 && |tokens| - r * c < r)
      modifies this
      ensures Valid() && rows == r && cols == c && printLevel == old(printLevel)
      ensures |tokens| <= r * c ==> Matrix() == Cells(false, r, c, Padded(tokens, r * c))
      ensures |tokens| > r * c ==> Matrix() == WithSurplus(Cells(false, r, c, tokens[..r * c]), tokens[r * c..])
    {
      Clear();
      rows, cols := r, c;
      a := Filled(r * c, 0.0);
      if |tokens| <= r * c {
        assert tokens[..|tokens|] == tokens;
        a := PlaceByColumns(rowMajor, r, c, a, tokens);
      } else {
        a := PlaceByColumns(rowMajor, r, c, a, tokens[..r * c]);
        assert Padded(tokens[..r * c], r * c) == tokens[..r * c];
        a := PlaceSurplus(r, c, a, tokens[r * c..]);
      }
    }

    /** The earlier revision's `initialize(fname)` after `read_dense` has produced the
        extent and one inner vector per row (row orientation) or per column: the
        storage is cleared, sized, and inner vector `k` is copied to offset
        `k * (ORIENT ? cols : rows)`. */
    method LoadNested(r: nat, c: nat, aa: seq<seq<real>>)
      requires Valid()
      requires NestedShaped(rowMajor, r, c, aa)
      modifies this
      ensures Valid() && rows == r && cols == c && printLevel == old(printLevel)
      ensures Matrix() == NestedCells(rowMajor, r, c, aa)
    {
      Clear();
      rows, cols := r, c;
      a := Filled(r * c, 0.0);
      a := Flatten(rowMajor, r, c, a, aa);
    }
  }

  /** `dense_matrix_vv<T, ORIENT>`: one inner vector per row (row orientation) or per
      column. */
  class DenseVV {
    const rowMajor: bool
    var rows: nat
    var cols: nat
    var aa: seq<seq<real>>
    var printLevel: int

    ghost predicate Valid()
      reads this
    {
      NestedShaped(rowMajor, rows, cols, aa)
    }

    ghost function Matrix(): (m: seq<seq<real>>)
      reads this
      requires Valid()
      ensures Shaped(m, rows, cols)
    {
      NestedCells(rowMajor, rows, cols, aa)
    }

    constructor(rowMajor: bool)
      ensures Valid() && this.rowMajor == rowMajor
      ensures rows == 0 && cols == 0 && aa == [] && printLevel == 0
    {
      this.rowMajor := rowMajor;
      rows, cols, aa, printLevel := 0, 0, [], 0;
    }

    /** The level `print` renders at: chosen by the extent under `print_auto`, otherwise
        the clamped explicit level, whatever the extent. */
    function PrintLevel(): (l: Level)
      reads this
      ensures printLevel == 0 ==> l == AutoLevel(rows, cols)
      ensures printLevel != 0 ==> l == Resolve(printLevel, 0, 0)
    {
      Resolve(printLevel, rows, cols)
    }

    /** `operator()(i, j)`: `a[i][j]` by rows, `a[j][i]` by columns. */
    function At(i: nat, j: nat): (x: real)
      reads this
      requires Valid() && i < rows && j < cols
      ensures x == Matrix()[i][j]
    {
      NestedAt(rowMajor, rows, cols, aa, i, j)
    }

    method Clear()
      modifies this
      ensures Valid() && rows == 0 && cols == 0 && aa == [] && printLevel == old(printLevel)
    {
      aa := [];
      rows, cols := 0, 0;
    }

    /** `initialize(i, j, value)`: as for the flat layout, a valid extent becomes a
        constant matrix, an invalid one changes nothing. */
    method Initialize(i: nat, j: nat, x: real)
      requires Valid()
      modifies this
      ensures Valid() && printLevel == old(printLevel)
      ensures ValidSize(i, j) ==> rows == i && cols == j && Matrix() == Constant(i, j, x)
      ensures !ValidSize(i, j) ==> rows == old(rows) && cols == old(cols) && aa == old(aa)
    {
      if ValidSize(i, j) {
        Clear();
        rows, cols := i, j;
        var outer := if rowMajor then rows else cols;
        var inner := if rowMajor then cols else rows;
        aa := seq(outer, _ => Filled(inner, x));
        var M, C := Matrix(), Constant(i, j, x);
        forall i2 | 0 <= i2 < i ensures M[i2] == C[i2] {
          forall j2 | 0 <= j2 < j ensures M[i2][j2] == C[i2][j2] {
            assert M[i2][j2] == NestedAt(rowMajor, rows, cols, aa, i2, j2);
          }
        }
      }
    }

    /** `initialize(vector)`: the vector must have `rows*cols` values; value `k` goes to
        cell `(k / cols, k % cols)`. */
    method InitializeFromValues(v: seq<real>) returns (o: Outcome)
      requires Valid()
      modifies this
      ensures Valid() && rows == old(rows) && cols == old(cols) && printLevel == old(printLevel)
      ensures o == (if rows * cols == |v| then Pass else Fail(SizeMismatch))
      ensures o == Pass ==> Matrix() == Cells(true, rows, cols, v)
      ensures o != Pass ==> aa == old(aa)
    {
      if rows * cols != |v| {
        return Fail(SizeMismatch);
      }
      aa := StoreRowWise(rowMajor, rows, cols, aa, v);
      o := Pass;
    }

    /** `zerorow(i)`: a row outside the extent fails; otherwise row `i` becomes zero. By
        rows the inner vector `i` is refilled; by columns element `i` of every inner
        vector is zeroed. */
    method Zerorow(i: nat) returns (o: Outcome)
      requires Valid()
      modifies this
      ensures Valid() && rows == old(rows) && cols == old(cols) && printLevel == old(printLevel)
      ensures o == (if i < rows then Pass else Fail(RowOutOfBounds))
      ensures o == Pass ==> Matrix() == WithRowZeroed(old(Matrix()), i)
      ensures o != Pass ==> aa == old(aa)
    {
      if i >= rows {
        return Fail(RowOutOfBounds);
      }
      if rowMajor {
        ghost var before := aa;
        aa := aa[i := Filled(cols, 0.0)];
        var M, Z := Matrix(), WithRowZeroed(NestedCells(rowMajor, rows, cols, before), i);
        forall i2 | 0 <= i2 < rows ensures M[i2] == Z[i2] {
          forall j2 | 0 <= j2 < cols ensures M[i2][j2] == Z[i2][j2] {
            assert M[i2][j2] == NestedAt(rowMajor, rows, cols, aa, i2, j2);
            assert NestedCells(rowMajor, rows, cols, before)[i2][j2] == NestedAt(rowMajor, rows, cols, before, i2, j2);
          }
        }
      } else {
        aa := ZeroEachColumn(rows, cols, aa, i);
      }
      o := Pass;
    }

    /** `operator=(other)`: copies storage and extent (not the print level). */
    method Assign(other: DenseVV)
      requires Valid() && other.Valid() && other.rowMajor == rowMajor
      modifies this
      ensures Valid() && printLevel == old(printLevel)
      ensures rows == old(other.rows) && cols == old(other.cols) && aa == old(other.aa)
      ensures Matrix() == old(other.Matrix())
    {
      aa := other.aa;
      rows, cols := other.rows, other.cols;
    }

    /** `swap(other)`: exchanges storage, extent and print level. */
    method Swap(other: DenseVV)
      requires Valid() && other.Valid() && other.rowMajor == rowMajor
      modifies this, other
      ensures Valid() && other.Valid()
      ensures aa == old(other.aa) && rows == old(other.rows) && cols == old(other.cols) && printLevel == old(other.printLevel)
      ensures other.aa == old(aa) && other.rows == old(rows) && other.cols == old(cols) && other.printLevel == old(printLevel)
    {
      var ta, tr, tc, tp := aa, rows, cols, printLevel;
      aa, rows, cols, printLevel := other.aa, other.rows, other.cols, other.printLevel;
      other.aa, other.rows, other.cols, other.printLevel := ta, tr, tc, tp;
    }
  }

  /** Cell `(i, j)` of a vector of vectors. */
  function NestedAt(rowMajor: bool, rows: nat, cols: nat, aa: seq<seq<real>>, i: nat, j: nat): (x: real)
    requires NestedShaped(rowMajor, rows, cols, aa) && i < rows && j < cols
    ensures x == NestedCells(rowMajor, rows, cols, aa)[i][j]
  {
    if rowMajor then aa[i][j] else aa[j][i]
  }

  /** `aa` with cell `(i, j)` set to `x` and every other cell as it was. */
  function NestedSet(rowMajor: bool, rows: nat, cols: nat, aa: seq<seq<real>>, i: nat, j: nat, x: real): (r: seq<seq<real>>)
    requires NestedShaped(rowMajor, rows, cols, aa) && i < rows && j < cols
    ensures NestedShaped(rowMajor, rows, cols, r)
    ensures NestedAt(rowMajor, rows, cols, r, i, j) == x
    ensures forall i2, j2 :: 0 <= i2 < rows && 0 <= j2 < cols && (i2 != i || j2 != j) ==>
              NestedAt(rowMajor, rows, cols, r, i2, j2) == NestedAt(rowMajor, rows, cols, aa, i2, j2)
  {
    if rowMajor then aa[i := aa[i][j := x]] else aa[j := aa[j][i := x]]
  }

  /** The loop of `dense_matrix_vv::initialize(vector)`: value `k = i*cols + j` goes to
      cell `(i, j)`. */
  method StoreRowWise(rowMajor: bool, rows: nat, cols: nat, aa: seq<seq<real>>, v: seq<real>) returns (bb: seq<seq<real>>)
    requires NestedShaped(rowMajor, rows, cols, aa) && |v| == rows * cols
    ensures NestedShaped(rowMajor, rows, cols, bb)
    ensures NestedCells(rowMajor, rows, cols, bb) == Cells(true, rows, cols, v)
  {
    bb := aa;
    OffsetsInRange(true, rows, cols);
    var i, k := 0, 0;
    while i < rows
      invariant 0 <= i <= rows && k == i * cols && NestedShaped(rowMajor, rows, cols, bb)
      invariant forall i2, j2 :: 0 <= i2 < i && 0 <= j2 < cols ==>
                  Offset(true, rows, cols, i2, j2) < |v| &&
                  NestedAt(rowMajor, rows, cols, bb, i2, j2) == v[Offset(true, rows, cols, i2, j2)]
    {
      var j := 0;
      while j < cols
        invariant 0 <= j <= cols && k == i * cols + j && NestedShaped(rowMajor, rows, cols, bb)
        invariant forall i2, j2 :: 0 <= i2 < rows && 0 <= j2 < cols && (i2 < i || (i2 == i && j2 < j)) ==>
                    Offset(true, rows, cols, i2, j2) < |v| &&
                    NestedAt(rowMajor, rows, cols, bb, i2, j2) == v[Offset(true, rows, cols, i2, j2)]
      {
        OffsetInRange(true, rows, cols, i, j);
        bb := NestedSet(rowMajor, rows, cols, bb, i, j, v[k]);
        j, k := j + 1, k + 1;
      }
      assert (i + 1) * cols == i * cols + cols;
      i := i + 1;
    }
    var M, C := NestedCells(rowMajor, rows, cols, bb), Cells(true, rows, cols, v);
    forall i2 | 0 <= i2 < rows ensures M[i2] == C[i2] {
      forall j2 | 0 <= j2 < cols ensures M[i2][j2] == C[i2][j2] {
        CellsAt(true, rows, cols, v, i2, j2);
        assert M[i2][j2] == NestedAt(rowMajor, rows, cols, bb, i2, j2);
      }
    }
  }

  /** The column-oriented loop of `dense_matrix_vv::zerorow(i)`: element `i` of every
      column vector becomes zero. */
  method ZeroEachColumn(rows: nat, cols: nat, aa: seq<seq<real>>, i: nat) returns (bb: seq<seq<real>>)
    requires NestedShaped(false, rows, cols, aa) && i < rows
    ensures NestedShaped(false, rows, cols, bb)
    ensures NestedCells(false, rows, cols, bb) == WithRowZeroed(NestedCells(false, rows, cols, aa), i)
  {
    bb := aa;
    var j := 0;
    while j < cols
      invariant 0 <= j <= cols && NestedShaped(false, rows, cols, bb)
      invariant forall i2, j2 :: 0 <= i2 < rows && 0 <= j2 < cols ==>
                  NestedAt(false, rows, cols, bb, i2, j2) == (if i2 == i && j2 < j then 0.0 else NestedAt(false, rows, cols, aa, i2, j2))
    {
      bb := NestedSet(false, rows, cols, bb, i, j, 0.0);
      j := j + 1;
    }
    var M, Z := NestedCells(false, rows, cols, bb), WithRowZeroed(NestedCells(false, rows, cols, aa), i);
    forall i2 | 0 <= i2 < rows ensures M[i2] == Z[i2] {
      forall j2 | 0 <= j2 < cols ensures M[i2][j2] == Z[i2][j2] {
        assert M[i2][j2] == NestedAt(false, rows, cols, bb, i2, j2);
        assert NestedCells(false, rows, cols, aa)[i2][j2] == NestedAt(false, rows, cols, aa, i2, j2);
      }
    }
  }

  /** The column-oriented loop of `initialize(vector)`: position `i*cols + j` of `v`
      is stored at cell `(i, j)`, i.e. at `j*rows + i`. */
  method ColumnsFromRows(rows: nat, cols: nat, a: seq<real>, v: seq<real>) returns (b: seq<real>)
    requires |a| == rows * cols && |v| == rows * cols
    ensures |b| == rows * cols
    ensures Cells(false, rows, cols, b) == Cells(true, rows, cols, v)
  {
    b := a;
    var i, k := 0, 0;
    while i < rows
      invariant 0 <= i <= rows && k == i * cols && |b| == rows * cols
      invariant forall i2, j2 :: 0 <= i2 < i && 0 <= j2 < cols ==>
                  Offset(false, rows, cols, i2, j2) < |b| && Offset(true, rows, cols, i2, j2) < |v| &&
                  b[Offset(false, rows, cols, i2, j2)] == v[Offset(true, rows, cols, i2, j2)]
    {
      var j := 0;
      while j < cols
        invariant 0 <= j <= cols && k == i * cols + j && |b| == rows * cols
        invariant forall i2, j2 :: 0 <= i2 < rows && 0 <= j2 < cols && (i2 < i || (i2 == i && j2 < j)) ==>
                    Offset(false, rows, cols, i2, j2) < |b| && Offset(true, rows, cols, i2, j2) < |v| &&
                    b[Offset(false, rows, cols, i2, j2)] == v[Offset(true, rows, cols, i2, j2)]
      {
        OffsetInRange(false, rows, cols, i, j);
        OffsetInRange(true, rows, cols, i, j);
        OffsetDistinct(false, rows, cols, i, j);
        b := b[Offset(false, rows, cols, i, j) := v[k]];
        j, k := j + 1, k + 1;
      }
      assert (i + 1) * cols == i * cols + cols;
      i := i + 1;
    }
    CellsEqual(false, true, rows, cols, b, v);
  }

  /** In the row-oriented layout row `i` is the slice `[i*cols, i*cols + cols)`. */
  lemma ZeroSliceIsRow(rows: nat, cols: nat, a: seq<real>, i: nat)
    requires |a| == rows * cols && i < rows
    ensures i * cols + cols <= |a|
    ensures forall i2, j2 :: 0 <= i2 < rows && 0 <= j2 < cols ==>
              Offset(true, rows, cols, i2, j2) < |a| &&
              ZeroSlice(a, i * cols, i * cols + cols)[Offset(true, rows, cols, i2, j2)] ==
                (if i2 == i then 0.0 else a[Offset(true, rows, cols, i2, j2)])
  {
    MulMono(i + 1, rows, cols);
    forall i2, j2 | 0 <= i2 < rows && 0 <= j2 < cols
      ensures Offset(true, rows, cols, i2, j2) < |a|
      ensures ZeroSlice(a, i * cols, i * cols + cols)[Offset(true, rows, cols, i2, j2)] ==
                (if i2 == i then 0.0 else a[Offset(true, rows, cols, i2, j2)])
    {
      OffsetInRange(true, rows, cols, i2, j2);
      PairLess(i2, j2, i, 0, cols);
      PairLess(i, cols - 1, i2, j2, cols);
    }
  }

  /** The column-oriented loop of `zerorow(i)`: from position `i` in steps of `rows`. */
  method ZeroStrided(rows: nat, cols: nat, a: seq<real>, i: nat) returns (b: seq<real>)
    requires |a| == rows * cols && i < rows
    ensures |b| == rows * cols
    ensures forall i2, j2 :: 0 <= i2 < rows && 0 <= j2 < cols ==>
              Offset(false, rows, cols, i2, j2) < |b| &&
              b[Offset(false, rows, cols, i2, j2)] == (if i2 == i then 0.0 else a[Offset(false, rows, cols, i2, j2)])
  {
    b := a;
    OffsetsInRange(false, rows, cols);
    var j, k := 0, i;
    while j < cols
      invariant 0 <= j <= cols && k == j * rows + i && |b| == rows * cols
      invariant forall i2, j2 :: 0 <= i2 < rows && 0 <= j2 < cols ==>
                  Offset(false, rows, cols, i2, j2) < |b| &&
                  b[Offset(false, rows, cols, i2, j2)] ==
                    (if i2 == i && j2 < j then 0.0 else a[Offset(false, rows, cols, i2, j2)])
    {
      OffsetInRange(false, rows, cols, i, j);
      ghost var prev := b;
      b := b[k := 0.0];
      forall i2, j2 | 0 <= i2 < rows && 0 <= j2 < cols
        ensures Offset(false, rows, cols, i2, j2) < |b|
        ensures b[Offset(false, rows, cols, i2, j2)] ==
                  (if i2 == i && j2 < j + 1 then 0.0 else a[Offset(false, rows, cols, i2, j2)])
      {
        if i2 != i || j2 != j {
          OffsetInRange(false, rows, cols, i2, j2);
          if Offset(false, rows, cols, i2, j2) == k {
            OffsetInjective(false, rows, cols, i2, j2, i, j);
          }
          assert b[Offset(false, rows, cols, i2, j2)] == prev[Offset(false, rows, cols, i2, j2)];
        }
      }
      assert (j + 1) * rows == j * rows + rows;
      j, k := j + 1, k + rows;
    }
  }

  /** The cells of a flat vector listed column by column, each column top to bottom. */
  method ColumnOrder(rowMajor: bool, rows: nat, cols: nat, a: seq<real>) returns (values: seq<real>)
    requires |a| == rows * cols
    ensures |values| == rows * cols
    ensures Cells(false, rows, cols, values) == Cells(rowMajor, rows, cols, a)
  {
    values := [];
    var j := 0;
    while j < cols
      invariant 0 <= j <= cols && |values| == j * rows
      invariant forall i2, j2 :: 0 <= i2 < rows && 0 <= j2 < j ==>
                  Offset(false, rows, cols, i2, j2) < |values| && Offset(rowMajor, rows, cols, i2, j2) < |a| &&
                  values[Offset(false, rows, cols, i2, j2)] == a[Offset(rowMajor, rows, cols, i2, j2)]
    {
      values := AppendColumn(rowMajor, rows, cols, a, values, j);
      j := j + 1;
    }
    assert cols * rows == rows * cols;
    CellsEqual(false, rowMajor, rows, cols, values, a);
  }

  /** One pass of the outer loop of `ColumnOrder`: appends column `j`, top to bottom. */
  method AppendColumn(rowMajor: bool, rows: nat, cols: nat, a: seq<real>, values: seq<real>, j: nat)
    returns (values': seq<real>)
    requires |a| == rows * cols && j < cols && |values| == j * rows
    requires forall i2, j2 :: 0 <= i2 < rows && 0 <= j2 < j ==>
               Offset(false, rows, cols, i2, j2) < |values| && Offset(rowMajor, rows, cols, i2, j2) < |a| &&
               values[Offset(false, rows, cols, i2, j2)] == a[Offset(rowMajor, rows, cols, i2, j2)]
    ensures |values'| == (j + 1) * rows
    ensures forall i2, j2 :: 0 <= i2 < rows && 0 <= j2 < j + 1 ==>
              Offset(false, rows, cols, i2, j2) < |values'| && Offset(rowMajor, rows, cols, i2, j2) < |a| &&
              values'[Offset(false, rows, cols, i2, j2)] == a[Offset(rowMajor, rows, cols, i2, j2)]
  {
    values' := values;
    var i := 0;
    while i < rows
      invariant 0 <= i <= rows && |values'| == j * rows + i
      invariant forall i2, j2 :: 0 <= i2 < rows && 0 <= j2 < cols && (j2 < j || (j2 == j && i2 < i)) ==>
                  Offset(false, rows, cols, i2, j2) < |values'| && Offset(rowMajor, rows, cols, i2, j2) < |a| &&
                  values'[Offset(false, rows, cols, i2, j2)] == a[Offset(rowMajor, rows, cols, i2, j2)]
    {
      OffsetInRange(rowMajor, rows, cols, i, j);
      values' := values' + [a[Offset(rowMajor, rows, cols, i, j)]];
      i := i + 1;
    }
    assert (j + 1) * rows == j * rows + rows;
  }

  /** The cursor loop of the array reader: value `n` goes to the cell at column-major
      position `n`, starting from an all-zero vector. */
  method PlaceByColumns(rowMajor: bool, r: nat, c: nat, a: seq<real>, tokens: seq<real>) returns (b: seq<real>)
    requires |a| == r * c && |tokens| <= r * c
    requires forall q :: 0 <= q < |a| ==> a[q] == 0.0
    ensures |b| == r * c
    ensures Cells(rowMajor, r, c, b) == Cells(false, r, c, Padded(tokens, r * c))
  {
    b := a;
    OffsetsInRange(rowMajor, r, c);
    OffsetsInRange(false, r, c);
    var ci, cj, n := 0, 0, 0;
    while n < |tokens|
      invariant n <= |tokens| && |b| == r * c
      invariant n == cj * r + ci && (ci < r || |tokens| == 0)
      invariant forall i2, j2 :: 0 <= i2 < r && 0 <= j2 < c ==>
                  Offset(rowMajor, r, c, i2, j2) < |b| && Offset(false, r, c, i2, j2) < r * c &&
                  b[Offset(rowMajor, r, c, i2, j2)] ==
                    (if Offset(false, r, c, i2, j2) < n then tokens[Offset(false, r, c, i2, j2)] else 0.0)
    {
      CursorInside(ci, cj, r, c);
      OffsetInRange(rowMajor, r, c, ci, cj);
      assert Offset(false, r, c, ci, cj) == n;
      ghost var prev := b;
      b := b[Offset(rowMajor, r, c, ci, cj) := tokens[n]];
      forall i2, j2 | 0 <= i2 < r && 0 <= j2 < c
        ensures b[Offset(rowMajor, r, c, i2, j2)] ==
                  (if Offset(false, r, c, i2, j2) < n + 1 then tokens[Offset(false, r, c, i2, j2)] else 0.0)
      {
        if i2 != ci || j2 != cj {
          if Offset(rowMajor, r, c, i2, j2) == Offset(rowMajor, r, c, ci, cj) {
            OffsetInjective(rowMajor, r, c, i2, j2, ci, cj);
          }
          if Offset(false, r, c, i2, j2) == n {
            OffsetInjective(false, r, c, i2, j2, ci, cj);
          }
          assert b[Offset(rowMajor, r, c, i2, j2)] == prev[Offset(rowMajor, r, c, i2, j2)];
        }
      }
      n, ci := n + 1, ci + 1;
      if ci >= r {
        assert (cj + 1) * r == cj * r + r;
        ci, cj := 0, cj + 1;
      }
    }
    CellsEqual(rowMajor, false, r, c, b, Padded(tokens, r * c));
  }

  /** The array reader's cursor past the last column of a row-oriented vector: surplus
      value `t` is written at `t*cols + cols`, the first cell of row `t + 1`. */
  method PlaceSurplus(r: nat, c: nat, a: seq<real>, extra: seq<real>) returns (b: seq<real>)
    requires |a| == r * c && c > 0 && |extra| < r
    ensures |b| == r * c
    ensures Cells(true, r, c, b) == WithSurplus(Cells(true, r, c, a), extra)
  {
    b := a;
    OffsetsInRange(true, r, c);
    var t := 0;
    while t < |extra|
      invariant t <= |extra| && |b| == r * c
      invariant forall i2, j2 :: 0 <= i2 < r && 0 <= j2 < c ==>
                  Offset(true, r, c, i2, j2) < |b| &&
                  b[Offset(true, r, c, i2, j2)] ==
                    (if j2 == 0 && 1 <= i2 <= t then extra[i2 - 1] else a[Offset(true, r, c, i2, j2)])
    {
      assert t * c + c == Offset(true, r, c, t + 1, 0);
      ghost var prev := b;
      b := b[t * c + c := extra[t]];
      forall i2, j2 | 0 <= i2 < r && 0 <= j2 < c
        ensures b[Offset(true, r, c, i2, j2)] ==
                  (if j2 == 0 && 1 <= i2 <= t + 1 then extra[i2 - 1] else a[Offset(true, r, c, i2, j2)])
      {
        if i2 != t + 1 || j2 != 0 {
          if Offset(true, r, c, i2, j2) == Offset(true, r, c, t + 1, 0) {
            OffsetInjective(true, r, c, i2, j2, t + 1, 0);
          }
          assert b[Offset(true, r, c, i2, j2)] == prev[Offset(true, r, c, i2, j2)];
        }
      }
      t := t + 1;
    }
    var M, W := Cells(true, r, c, b), WithSurplus(Cells(true, r, c, a), extra);
    forall i | 0 <= i < r ensures M[i] == W[i] {
      forall j | 0 <= j < c ensures M[i][j] == W[i][j] {
        CellsAt(true, r, c, b, i, j);
        CellsAt(true, r, c, a, i, j);
      }
    }
  }

  /** The inner vectors laid end to end. */
  function Concat(aa: seq<seq<real>>): seq<real> {
    if aa == [] then [] else Concat(aa[..|aa| - 1]) + aa[|aa| - 1]
  }

  /** With inner vectors of one length `inner`, element `t` of vector `x` sits at
      `x*inner + t` of the concatenation. */
  lemma {:induction false} ConcatAt(aa: seq<seq<real>>, inner: nat, x: nat, t: nat)
    requires forall q :: 0 <= q < |aa| ==> |aa[q]| == inner
    requires x < |aa| && t < inner
    ensures |Concat(aa)| == |aa| * inner
    ensures x * inner + t < |Concat(aa)| && Concat(aa)[x * inner + t] == aa[x][t]
  {
    var n := |aa| - 1;
    ConcatLength(aa, inner);
    ConcatLength(aa[..n], inner);
    assert Concat(aa) == Concat(aa[..n]) + aa[n];
    if x < n {
      ConcatAt(aa[..n], inner, x, t);
      PairLess(x, t, n, 0, inner);
    } else {
      assert x * inner + t == |Concat(aa[..n])| + t;
    }
  }

  lemma {:induction false} ConcatLength(aa: seq<seq<real>>, inner: nat)
    requires forall q :: 0 <= q < |aa| ==> |aa[q]| == inner
    ensures |Concat(aa)| == |aa| * inner
  {
    if aa != [] {
      var n := |aa| - 1;
      var front := aa[..n];
      assert forall q :: 0 <= q < |front| ==> |front[q]| == inner;
      ConcatLength(front, inner);
      assert Concat(aa) == Concat(front) + aa[n];
      assert |aa[n]| == inner;
      assert (n + 1) * inner == n * inner + inner;
    }
  }

  /** A column-major position below `r*c` with row below `r` has its column below `c`. */
  lemma CursorInside(ci: nat, cj: nat, r: nat, c: nat)
    ensures cj * r + ci < r * c && ci < r ==> cj < c
  {
    if cj >= c {
      MulMono(c, cj, r);
      assert c * r == r * c;
    }
  }

  /** The copy loop of the earlier revision's load: inner vector `k` lands at offset
      `k * inner`, where `inner` is the length of one inner vector. */
  method Flatten(rowMajor: bool, r: nat, c: nat, a: seq<real>, aa: seq<seq<real>>) returns (b: seq<real>)
    requires |a| == r * c && NestedShaped(rowMajor, r, c, aa)
    ensures |b| == r * c
    ensures Cells(rowMajor, r, c, b) == NestedCells(rowMajor, r, c, aa)
  {
    b := a;
    var outer := if rowMajor then r else c;
    var inner := if rowMajor then c else r;
    assert outer * inner == r * c;
    var i, k := 0, 0;
    while i < outer
      invariant 0 <= i <= outer && k == i * inner && |b| == r * c
      invariant k <= |b| && b[..k] == Concat(aa[..i])
    {
      b := PlaceVector(aa, b, outer, inner, i, k);
      i, k := i + 1, k + inner;
    }
    assert aa[..outer] == aa && b[..k] == b;
    ConcatCells(rowMajor, r, c, aa);
  }

  /** One pass of the copy loop of `operator=(vector<vector>)`: inner vector `i` is
      copied to positions `k .. k + inner` of the storage, right after those before it. */
  method PlaceVector(aa: seq<seq<real>>, b: seq<real>, outer: nat, inner: nat, i: nat, k: nat)
    returns (b': seq<real>)
    requires |aa| == outer && i < outer && |aa[i]| == inner
    requires |b| == outer * inner && k == i * inner && b[..k] == Concat(aa[..i])
    ensures |b'| == |b| && k + inner == (i + 1) * inner <= |b'| && b'[..k + inner] == Concat(aa[..i + 1])
  {
    MulMono(i + 1, outer, inner);
    assert (i + 1) * inner == k + inner;
    b' := b[..k] + aa[i] + b[k + inner..];
    assert aa[..i + 1][..i] == aa[..i];
    assert b'[..k + inner] == b[..k] + aa[i];
  }

  /** Concatenating the inner vectors of a nested form in order gives the flat storage
      of the same matrix. */
  lemma ConcatCells(rowMajor: bool, r: nat, c: nat, aa: seq<seq<real>>)
    requires NestedShaped(rowMajor, r, c, aa)
    ensures |Concat(aa)| == r * c
    ensures Cells(rowMajor, r, c, Concat(aa)) == NestedCells(rowMajor, r, c, aa)
  {
    var inner := if rowMajor then c else r;
    ConcatLength(aa, inner);
    assert |aa| * inner == r * c;
    var b := Concat(aa);
    var M, N := Cells(rowMajor, r, c, b), NestedCells(rowMajor, r, c, aa);
    forall i2 | 0 <= i2 < r ensures M[i2] == N[i2] {
      forall j2 | 0 <= j2 < c ensures M[i2][j2] == N[i2][j2] {
        CellsAt(rowMajor, r, c, b, i2, j2);
        if rowMajor {
          ConcatAt(aa, inner, i2, j2);
        } else {
          ConcatAt(aa, inner, j2, i2);
        }
      }
    }
  }

  /** `a` written through the file form and read back by the array reader gives the
      same storage: the reader's result is determined by the matrix it holds, and that
      matrix is the one written. */
  lemma {:induction false} FileFormRoundTrip(rowMajor: bool, rows: nat, cols: nat, a: seq<real>, values: seq<real>, b: seq<real>)
    requires |a| == rows * cols && |values| == rows * cols && |b| == rows * cols
    requires Cells(false, rows, cols, values) == Cells(rowMajor, rows, cols, a)
    requires Cells(rowMajor, rows, cols, b) == Cells(false, rows, cols, Padded(values, rows * cols))
    ensures b == a
  {
    assert Padded(values, rows * cols) == values;
    CellsDetermineStorage(rowMajor, rows, cols, a, b);
  }
}

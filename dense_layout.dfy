/** The addressing of the dense layouts. A dense matrix is one abstract value, an
    m x n array of numbers (`Cells`); the flat layout keeps it in one vector addressed
    row by row (`ORIENT` true: `i*cols + j`) or column by column (`j*rows + i`), the
    nested layout keeps one inner vector per row or per column. */
module DenseLayout {
  import opened MatrixCommon

  /** The position of cell `(i, j)` in the flat vector. */
  function Offset(rowMajor: bool, rows: nat, cols: nat, i: nat, j: nat): nat {
    if rowMajor then i * cols + j else j * rows + i
  }

  lemma MulMono(x: nat, y: nat, n: nat)
    requires x <= y
    ensures x * n <= y * n
  {
  }

  /** Moving to a larger first component moves past every second component below `n`. */
  lemma PairLess(x1: nat, y1: nat, x2: nat, y2: nat, n: nat)
    ensures x1 < x2 && y1 < n ==> x1 * n + y1 < x2 * n + y2
  {
    if x1 < x2 {
      MulMono(x1 + 1, x2, n);
      assert (x1 + 1) * n == x1 * n + n;
    }
  }

  /** `x*n + y` with `y < n` names the pair `(x, y)` uniquely. */
  lemma PairUnique(x1: nat, y1: nat, x2: nat, y2: nat, n: nat)
    requires y1 < n && y2 < n && x1 * n + y1 == x2 * n + y2
    ensures x1 == x2 && y1 == y2
  {
    PairLess(x1, y1, x2, y2, n);
    PairLess(x2, y2, x1, y1, n);
  }

  /** Every cell of an m x n matrix has a position inside the m*n vector. */
  lemma OffsetInRange(rowMajor: bool, rows: nat, cols: nat, i: nat, j: nat)
    requires i < rows && j < cols
    ensures Offset(rowMajor, rows, cols, i, j) < rows * cols
  {
    if rowMajor {
      MulMono(i + 1, rows, cols);
      assert (i + 1) * cols == i * cols + cols;
    } else {
      MulMono(j + 1, cols, rows);
      assert (j + 1) * rows == j * rows + rows;
      assert cols * rows == rows * cols;
    }
  }

  lemma OffsetsInRange(rowMajor: bool, rows: nat, cols: nat)
    ensures forall i, j :: 0 <= i < rows && 0 <= j < cols ==> Offset(rowMajor, rows, cols, i, j) < rows * cols
  {
    forall i, j | 0 <= i < rows && 0 <= j < cols ensures Offset(rowMajor, rows, cols, i, j) < rows * cols {
      OffsetInRange(rowMajor, rows, cols, i, j);
    }
  }

  /** Distinct cells have distinct positions, in either orientation. */
  lemma OffsetInjective(rowMajor: bool, rows: nat, cols: nat, i1: nat, j1: nat, i2: nat, j2: nat)
    requires i1 < rows && j1 < cols && i2 < rows && j2 < cols
    requires Offset(rowMajor, rows, cols, i1, j1) == Offset(rowMajor, rows, cols, i2, j2)
    ensures i1 == i2 && j1 == j2
  {
    if rowMajor {
      PairUnique(i1, j1, i2, j2, cols);
    } else {
      PairUnique(j1, i1, j2, i2, rows);
    }
  }

  /** Writing the position of cell `(i, j)` leaves every other cell's position alone. */
  lemma OffsetDistinct(rowMajor: bool, rows: nat, cols: nat, i: nat, j: nat)
    requires i < rows && j < cols
    ensures forall i2, j2 :: 0 <= i2 < rows && 0 <= j2 < cols && (i2 != i || j2 != j) ==>
              Offset(rowMajor, rows, cols, i2, j2) != Offset(rowMajor, rows, cols, i, j)
  {
    forall i2, j2 | 0 <= i2 < rows && 0 <= j2 < cols && Offset(rowMajor, rows, cols, i2, j2) == Offset(rowMajor, rows, cols, i, j)
      ensures i2 == i && j2 == j
    {
      OffsetInjective(rowMajor, rows, cols, i2, j2, i, j);
    }
  }

  /** Quotient and remainder of `q` by a positive `n`, by repeated subtraction. */
  ghost function Split(q: nat, n: nat): (r: (nat, nat))
    requires n > 0
    ensures r.1 < n && q == r.0 * n + r.1
    decreases q
  {
    if q < n then (0, q)
    else
      var r := Split(q - n, n);
      assert (r.0 + 1) * n == r.0 * n + n;
      (r.0 + 1, r.1)
  }

  /** Every position of the m*n vector belongs to some cell. */
  lemma OffsetOnto(rowMajor: bool, rows: nat, cols: nat, q: nat)
    requires q < rows * cols
    ensures exists i, j :: 0 <= i < rows && 0 <= j < cols && Offset(rowMajor, rows, cols, i, j) == q
  {
    var outer, inner := if rowMajor then rows else cols, if rowMajor then cols else rows;
    assert outer * inner == rows * cols;
    var (x, y) := Split(q, inner);
    if x >= outer {
      MulMono(outer, x, inner);
    }
    if rowMajor {
      assert Offset(rowMajor, rows, cols, x, y) == q;
    } else {
      assert Offset(rowMajor, rows, cols, y, x) == q;
    }
  }

  /** The abstract m x n value held by a flat vector. */
  function Cells(rowMajor: bool, rows: nat, cols: nat, a: seq<real>): (m: seq<seq<real>>)
    requires |a| == rows * cols
    ensures Shaped(m, rows, cols)
  {
    seq(rows, i requires 0 <= i < rows =>
      seq(cols, j requires 0 <= j < cols =>
        OffsetInRange(rowMajor, rows, cols, i, j); a[Offset(rowMajor, rows, cols, i, j)]))
  }

  predicate Shaped(m: seq<seq<real>>, rows: nat, cols: nat) {
    |m| == rows && forall i :: 0 <= i < rows ==> |m[i]| == cols
  }

  lemma CellsAt(rowMajor: bool, rows: nat, cols: nat, a: seq<real>, i: nat, j: nat)
    requires |a| == rows * cols && i < rows && j < cols
    ensures Offset(rowMajor, rows, cols, i, j) < |a|
    ensures Cells(rowMajor, rows, cols, a)[i][j] == a[Offset(rowMajor, rows, cols, i, j)]
  {
    OffsetInRange(rowMajor, rows, cols, i, j);
  }

  /** Two vectors hold the same matrix when they agree cell by cell. */
  lemma CellsEqual(o1: bool, o2: bool, rows: nat, cols: nat, a: seq<real>, b: seq<real>)
    requires |a| == rows * cols && |b| == rows * cols
    requires forall i, j :: 0 <= i < rows && 0 <= j < cols ==>
               Offset(o1, rows, cols, i, j) < |a| && Offset(o2, rows, cols, i, j) < |b| &&
               a[Offset(o1, rows, cols, i, j)] == b[Offset(o2, rows, cols, i, j)]
    ensures Cells(o1, rows, cols, a) == Cells(o2, rows, cols, b)
  {
    var A, B := Cells(o1, rows, cols, a), Cells(o2, rows, cols, b);
    forall i | 0 <= i < rows ensures A[i] == B[i] {
      forall j | 0 <= j < cols ensures A[i][j] == B[i][j] {
        CellsAt(o1, rows, cols, a, i, j);
        CellsAt(o2, rows, cols, b, i, j);
      }
    }
  }

  /** The flat layout is faithful: a vector is determined by the matrix it holds. */
  lemma {:induction false} CellsDetermineStorage(rowMajor: bool, rows: nat, cols: nat, a: seq<real>, b: seq<real>)
    requires |a| == rows * cols && |b| == rows * cols
    requires Cells(rowMajor, rows, cols, a) == Cells(rowMajor, rows, cols, b)
    ensures a == b
  {
    forall q | 0 <= q < |a| ensures a[q] == b[q] {
      OffsetOnto(rowMajor, rows, cols, q);
      var i, j :| 0 <= i < rows && 0 <= j < cols && Offset(rowMajor, rows, cols, i, j) == q;
      assert Cells(rowMajor, rows, cols, a)[i][j] == a[q];
      assert Cells(rowMajor, rows, cols, b)[i][j] == b[q];
    }
  }

  /** The m x n matrix with every cell `x`. */
  function Constant(rows: nat, cols: nat, x: real): (m: seq<seq<real>>)
    ensures Shaped(m, rows, cols)
  {
    seq(rows, _ => seq(cols, _ => x))
  }

  /** `m` with row `i` set to zero. */
  function WithRowZeroed(m: seq<seq<real>>, i: nat): (r: seq<seq<real>>)
    requires i < |m|
    ensures |r| == |m|
    ensures |r[i]| == |m[i]| && forall j :: 0 <= j < |m[i]| ==> r[i][j] == 0.0
    ensures forall k :: 0 <= k < |m| && k != i ==> r[k] == m[k]
  {
    m[i := seq(|m[i]|, _ => 0.0)]
  }

  /** Zeroing a row twice is zeroing it once. */
  lemma WithRowZeroedIdempotent(m: seq<seq<real>>, i: nat)
    requires i < |m|
    ensures WithRowZeroed(WithRowZeroed(m, i), i) == WithRowZeroed(m, i)
  {
  }

  /** The abstract value held by a vector of vectors: `ORIENT ? aa[i][j] : aa[j][i]`. */
  function NestedCells(rowMajor: bool, rows: nat, cols: nat, aa: seq<seq<real>>): (m: seq<seq<real>>)
    requires NestedShaped(rowMajor, rows, cols, aa)
    ensures Shaped(m, rows, cols)
  {
    seq(rows, i requires 0 <= i < rows =>
      seq(cols, j requires 0 <= j < cols => if rowMajor then aa[i][j] else aa[j][i]))
  }

  /** One inner vector per row (row orientation) or per column, each of full length. */
  predicate NestedShaped(rowMajor: bool, rows: nat, cols: nat, aa: seq<seq<real>>) {
    && |aa| == (if rowMajor then rows else cols)
    && forall k :: 0 <= k < |aa| ==> |aa[k]| == (if rowMajor then cols else rows)
  }

  /** `v` with its missing tail filled with zeros up to length `n`. */
  function Padded(v: seq<real>, n: nat): (r: seq<real>)
    requires |v| <= n
    ensures |r| == n
    ensures forall k :: 0 <= k < n ==> r[k] == (if k < |v| then v[k] else 0.0)
  {
    v + Filled(n - |v|, 0.0)
  }

  /** The array reader's cursor run past the last column of a row-oriented vector:
      surplus value `t` lands on the first cell of row `t + 1`. */
  function WithSurplus(m: seq<seq<real>>, extra: seq<real>): (r: seq<seq<real>>)
    ensures |r| == |m| && forall i :: 0 <= i < |m| ==> |r[i]| == |m[i]|
  {
    seq(|m|, i requires 0 <= i < |m| =>
      if 1 <= i <= |extra| && |m[i]| > 0 then m[i][0 := extra[i - 1]] else m[i])
  }

  /** A vector filled with one value holds the constant matrix. */
  lemma CellsOfFilled(rowMajor: bool, rows: nat, cols: nat, x: real)
    ensures Cells(rowMajor, rows, cols, Filled(rows * cols, x)) == Constant(rows, cols, x)
  {
    var A, C := Cells(rowMajor, rows, cols, Filled(rows * cols, x)), Constant(rows, cols, x);
    forall i | 0 <= i < rows ensures A[i] == C[i] {
      forall j | 0 <= j < cols ensures A[i][j] == C[i][j] {
        CellsAt(rowMajor, rows, cols, Filled(rows * cols, x), i, j);
      }
    }
  }

  /** A vector that agrees with another except that row `i` is zero holds the other's
      matrix with row `i` zeroed. */
  lemma CellsZeroRow(rowMajor: bool, rows: nat, cols: nat, before: seq<real>, after: seq<real>, i: nat)
    requires |before| == rows * cols && |after| == rows * cols && i < rows
    requires forall i2, j2 :: 0 <= i2 < rows && 0 <= j2 < cols ==>
               Offset(rowMajor, rows, cols, i2, j2) < |after| &&
               after[Offset(rowMajor, rows, cols, i2, j2)] == (if i2 == i then 0.0 else before[Offset(rowMajor, rows, cols, i2, j2)])
    ensures Cells(rowMajor, rows, cols, after) == WithRowZeroed(Cells(rowMajor, rows, cols, before), i)
  {
    var A, Z := Cells(rowMajor, rows, cols, after), WithRowZeroed(Cells(rowMajor, rows, cols, before), i);
    forall i2 | 0 <= i2 < rows ensures A[i2] == Z[i2] {
      forall j2 | 0 <= j2 < cols ensures A[i2][j2] == Z[i2][j2] {
        CellsAt(rowMajor, rows, cols, after, i2, j2);
        CellsAt(rowMajor, rows, cols, before, i2, j2);
      }
    }
  }
}

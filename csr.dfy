/** `detail::sparse_matrix_csr`: a fixed compressed-sparse-row store of the earlier
    revision. Its three arrays come from a file read and are only checked, never
    rebuilt: it cannot be resized, values are assigned in place, and a row is zeroed
    through its slice of `a`. */
module DetailCsr {
  import opened MatrixCommon
  import PrintPolicy

  /** 2^64: `size_t` arithmetic is taken modulo this. */
  const SizeModulus: int := 0x1_0000_0000_0000_0000

  /** The largest magnitude of a 32-bit `int`. */
  const IntLimit: int := 0x8000_0000

  /** The usual arithmetic conversion of an `int` operand compared with a `size_t`:
      a negative value wraps around to a large unsigned one. */
  function AsSize(x: int): (n: nat)
    ensures n < SizeModulus
    ensures 0 <= x < SizeModulus ==> n == x
    ensures -SizeModulus <= x < 0 ==> n == x + SizeModulus
  {
    x % SizeModulus
  }

  /** The validation `initialize(fname)` applies after reading: `ja` and `a` must have
      the same length, the row count must equal `nnu = |ia| - 1`, and the largest
      stored column, less BASE, must be below the column count. The tests run in order
      and stop at the first that fails; the last reads the maximum of `ja`, so it is
      only reached with `ja` nonempty. Both comparisons are made in `size_t`. */
  function IndexingCheck(rows: nat, cols: nat, base: int, ia: seq<int>, ja: seq<int>, a: seq<real>): (o: Outcome)
    requires |ja| != |a| || rows != AsSize(|ia| - 1) || |ja| > 0
    ensures o == Pass || o == Fail(IndexingNotCorrect)
    ensures |ja| != |a| ==> o == Fail(IndexingNotCorrect)
    ensures rows != AsSize(|ia| - 1) ==> o == Fail(IndexingNotCorrect)
    ensures o == Pass ==> |ja| > 0 && AsSize(MaxOf(ja) - base) < cols
  {
    if |ja| != |a| || rows != AsSize(|ia| - 1) || cols <= AsSize(MaxOf(ja) - base) then Fail(IndexingNotCorrect)
    else Pass
  }

  /** `ja` holds 32-bit `int` values and BASE is a 32-bit `int`. */
  predicate IntColumns(ja: seq<int>, base: int) {
    && -IntLimit <= base < IntLimit
    && forall k :: 0 <= k < |ja| ==> -IntLimit <= ja[k] < IntLimit
  }

  /** What a passed check establishes, and only that: one offset per row plus one, a
      value per stored column, every stored column below BASE + cols, and the largest
      not below BASE. Columns other than the largest may still lie below BASE. With an
      extent and an offset count below 2^63 the unsigned comparisons agree with the
      arithmetic ones. */
  lemma CheckMeaning(rows: nat, cols: nat, base: int, ia: seq<int>, ja: seq<int>, a: seq<real>)
    requires |ja| != |a| || rows != AsSize(|ia| - 1) || |ja| > 0
    requires IntColumns(ja, base) && rows < SizeModulus / 2 && cols < SizeModulus / 2 && |ia| < SizeModulus / 2
    ensures IndexingCheck(rows, cols, base, ia, ja, a) == Pass <==>
              |ja| == |a| && |ia| == rows + 1 && |ja| > 0 && 0 <= MaxOf(ja) - base < cols
    ensures IndexingCheck(rows, cols, base, ia, ja, a) == Pass ==>
              forall k :: 0 <= k < |ja| ==> ja[k] - base < cols
  {
    if |ia| == 0 {
      assert AsSize(|ia| - 1) == SizeModulus - 1;
    }
    if |ja| > 0 {
      var m := MaxOf(ja);
      assert -IntLimit <= m < IntLimit by { assert m in ja; }
      if m - base < 0 {
        assert AsSize(m - base) == m - base + SizeModulus;
      }
    }
  }

  /** The zeroing loop of `zerorow`: positions `lo <= k < hi` of `a` become zero, one by
      one; an empty range (`hi <= lo`) changes nothing. */
  method ZeroSliceLoop(a: seq<real>, lo: int, hi: int) returns (b: seq<real>)
    requires lo < hi ==> 0 <= lo && hi <= |a|
    ensures b == ZeroSlice(a, lo, hi)
  {
    b := a;
    if hi <= lo {
      assert b == ZeroSlice(a, lo, hi);
      return;
    }
    var k := lo;
    assert b == ZeroSlice(a, lo, k);
    while k < hi
      invariant lo <= k <= hi
      invariant b == ZeroSlice(a, lo, k)
    {
      b := b[k := 0.0];
      k := k + 1;
    }
  }

  /** The values of row `q`: its slice of `a`. */
  function RowValues(ia: seq<int>, base: int, a: seq<real>, q: nat): (v: seq<real>)
    requires q + 1 < |ia| && 0 <= ia[q] - base <= ia[q + 1] - base <= |a|
    ensures |v| == ia[q + 1] - ia[q]
    ensures forall t :: 0 <= t < |v| ==> v[t] == a[ia[q] - base + t]
  {
    a[ia[q] - base..ia[q + 1] - base]
  }

  /** Offsets that never decrease and span a prefix of `a` from BASE. */
  predicate Slices(ia: seq<int>, base: int, a: seq<real>) {
    && |ia| >= 1 && ia[0] == base && ia[|ia| - 1] - base <= |a|
    && forall p, q :: 0 <= p <= q < |ia| ==> ia[p] <= ia[q]
  }

  /** Zeroing the slice of row `r` zeroes every value of row `r` and leaves the values
      of every other row as they were. */
  lemma {:induction false} ZeroSliceRows(ia: seq<int>, base: int, a: seq<real>, r: nat)
    requires Slices(ia, base, a) && r + 1 < |ia|
    ensures forall q :: 0 <= q < |ia| - 1 && q != r ==>
              RowValues(ia, base, ZeroSlice(a, ia[r] - base, ia[r + 1] - base), q) == RowValues(ia, base, a, q)
    ensures RowValues(ia, base, ZeroSlice(a, ia[r] - base, ia[r + 1] - base), r) == Filled(ia[r + 1] - ia[r], 0.0)
  {
    var z := ZeroSlice(a, ia[r] - base, ia[r + 1] - base);
    forall q | 0 <= q < |ia| - 1 && q != r
      ensures RowValues(ia, base, z, q) == RowValues(ia, base, a, q)
    {
      if q < r {
        assert ia[q + 1] <= ia[r];
      } else {
        assert ia[r + 1] <= ia[q];
      }
    }
  }

  /** `sparse_matrix_csr<T, BASE>`: the extent `m_size`, the print level `m_print`, the
      index `idx` (`ia`, `ja`, `nnu`, `nnz`) and the values `a`. */
  class SparseMatrixCsr {
    const base: int
    var rows: nat
    var cols: nat
    var printLevel: int
    var ia: seq<int>
    var ja: seq<int>
    var nnu: int
    var nnz: int
    var a: seq<real>

    /** The constructor clears. */
    constructor(base: int)
      ensures this.base == base && printLevel == 0
      ensures rows == 0 && cols == 0 && ia == [] && ja == [] && a == [] && nnu == 0 && nnz == 0
    {
      this.base := base;
      rows, cols, printLevel := 0, 0, 0;
      ia, ja, a, nnu, nnz := [], [], [], 0, 0;
    }

    /** `size(d)` of the earlier revision. */
    function Size(d: nat): (n: nat)
      reads this
      ensures d == 0 ==> n == rows
      ensures d == 1 ==> n == cols
      ensures d > 1 ==> n == SizeMax
    {
      DetailSizeOf(rows, cols, d)
    }

    /** The level `print` renders at: an explicit level is used unchanged, whatever the
        extent; `print_auto` picks a summary, signs or every value by the extent. */
    function PrintLevel(): (n: int)
      reads this
      ensures printLevel != 0 ==> n == printLevel
      ensures printLevel == 0 ==> n == PrintPolicy.Ordinal(PrintPolicy.AutoLevel(rows, cols)) && 1 <= n <= 3
    {
      PrintPolicy.ResolveDetail(printLevel, rows, cols)
    }

    /** `clear()`: extent 0 x 0, no index, no values. */
    method Clear()
      modifies this
      ensures rows == 0 && cols == 0 && ia == [] && ja == [] && a == [] && nnu == 0 && nnz == 0
      ensures printLevel == old(printLevel)
    {
      rows, cols := 0, 0;
      ia, ja, nnu, nnz := [], [], 0, 0;
      a := [];
    }

    /** `operator=(value)`: every stored value becomes `value`; the pattern stays. */
    method AssignValue(x: real)
      modifies this
      ensures a == Filled(|old(a)|, x)
      ensures rows == old(rows) && cols == old(cols) && printLevel == old(printLevel)
      ensures ia == old(ia) && ja == old(ja) && nnu == old(nnu) && nnz == old(nnz)
    {
      a := Filled(|a|, x);
    }

    /** `initialize(i, j, value)`: only the current extent is accepted, and then it is
        `operator=(value)`; any other extent fails and changes nothing. */
    method InitializeSized(i: nat, j: nat, x: real) returns (o: Outcome)
      modifies this
      ensures o == (if i == old(rows) && j == old(cols) then Pass else Fail(ResizingNotAvailable))
      ensures a == (if o == Pass then Filled(|old(a)|, x) else old(a))
      ensures rows == old(rows) && cols == old(cols) && printLevel == old(printLevel)
      ensures ia == old(ia) && ja == old(ja) && nnu == old(nnu) && nnz == old(nnz)
    {
      if i == rows && j == cols {
        AssignValue(x);
        return Pass;
      }
      return Fail(ResizingNotAvailable);
    }

    /** `initialize(vector)`: always fails. */
    method InitializeFromValues(v: seq<real>) returns (o: Outcome)
      ensures o == Fail(InitializeFromVectorNotPossible)
    {
      o := Fail(InitializeFromVectorNotPossible);
    }

    /** `initialize(fname)` once the file reader has produced the extent and the three
        arrays: the matrix is cleared, takes them, sets `nnu = |ia| - 1` and
        `nnz = |ja|`, and then validates. A failed validation leaves the arrays read. */
    method Load(r: nat, c: nat, ia': seq<int>, ja': seq<int>, a': seq<real>) returns (o: Outcome)
      requires |ja'| != |a'| || r != AsSize(|ia'| - 1) || |ja'| > 0
      modifies this
      ensures rows == r && cols == c && ia == ia' && ja == ja' && a == a'
      ensures nnu == |ia'| - 1 && nnz == |ja'| && printLevel == old(printLevel)
      ensures o == IndexingCheck(r, c, base, ia', ja', a')
    {
      Clear();
      rows, cols := r, c;
      ia, ja, a := ia', ja', a';
      nnu := |ia| - 1;
      nnz := |ja|;
      if |ja| != |a| || rows != AsSize(nnu) || cols <= AsSize(MaxOf(ja) - base) {
        return Fail(IndexingNotCorrect);
      }
      o := Pass;
    }

    /** `zerorow(r)`: the values of row `r`'s slice `[ia[r]-BASE, ia[r+1]-BASE)` become
        zero; the index and every other value are kept. There is no bounds check, so
        the row and its slice must exist. */
    method Zerorow(r: nat)
      requires r + 1 < |ia| && (ia[r] < ia[r + 1] ==> 0 <= ia[r] - base && ia[r + 1] - base <= |a|)
      modifies this
      ensures a == ZeroSlice(old(a), old(ia[r]) - base, old(ia[r + 1]) - base)
      ensures rows == old(rows) && cols == old(cols) && printLevel == old(printLevel)
      ensures ia == old(ia) && ja == old(ja) && nnu == old(nnu) && nnz == old(nnz)
    {
      a := ZeroSliceLoop(a, ia[r] - base, ia[r + 1] - base);
    }

    /** `operator=(other)`: clears, then copies the extent, the index and the values of
        `other` (not the print level). Assigning a matrix to itself therefore leaves it
        empty. */
    method Assign(other: SparseMatrixCsr)
      requires other.base == base
      modifies this
      ensures other != this ==> rows == old(other.rows) && cols == old(other.cols) && a == old(other.a)
      ensures other != this ==> ia == old(other.ia) && ja == old(other.ja) && nnu == old(other.nnu) && nnz == old(other.nnz)
      ensures other == this ==> rows == 0 && cols == 0 && ia == [] && ja == [] && a == [] && nnu == 0 && nnz == 0
      ensures printLevel == old(printLevel)
    {
      Clear();
      rows, cols := other.rows, other.cols;
      ia, ja, nnu, nnz := other.ia, other.ja, other.nnu, other.nnz;
      a := other.a;
    }

    /** `operator=(other)` with the self-assignment test the copy evidently needs: a
        matrix assigned to itself keeps everything. */
    method AssignChecked(other: SparseMatrixCsr)
      requires other.base == base
      modifies this
      ensures rows == old(other.rows) && cols == old(other.cols) && a == old(other.a)
      ensures ia == old(other.ia) && ja == old(other.ja) && nnu == old(other.nnu) && nnz == old(other.nnz)
      ensures printLevel == old(printLevel)
    {
      if other == this {
        return;
      }
      Assign(other);
    }

    /** `swap(other)`: exchanges values, index, extent and print level. */
    method Swap(other: SparseMatrixCsr)
      requires other.base == base
      modifies this, other
      ensures rows == old(other.rows) && cols == old(other.cols) && printLevel == old(other.printLevel)
      ensures ia == old(other.ia) && ja == old(other.ja) && nnu == old(other.nnu) && nnz == old(other.nnz)
      ensures a == old(other.a)
      ensures other.rows == old(rows) && other.cols == old(cols) && other.printLevel == old(printLevel)
      ensures other.ia == old(ia) && other.ja == old(ja) && other.nnu == old(nnu) && other.nnz == old(nnz)
      ensures other.a == old(a)
    {
      if other == this {
        return;
      }
      var r, c, p, i, j, u, z, v := rows, cols, printLevel, ia, ja, nnu, nnz, a;
      SetFields(other.rows, other.cols, other.printLevel, other.ia, other.ja, other.nnu, other.nnz, other.a);
      other.SetFields(r, c, p, i, j, u, z, v);
    }

    /** Every field at once. */
    method SetFields(rows': nat, cols': nat, printLevel': int, ia': seq<int>, ja': seq<int>, nnu': int, nnz': int,
                     a': seq<real>)
      modifies this
      ensures rows == rows' && cols == cols' && printLevel == printLevel'
      ensures ia == ia' && ja == ja' && nnu == nnu' && nnz == nnz' && a == a'
    {
      rows, cols, printLevel := rows', cols', printLevel';
      ia, ja, nnu, nnz, a := ia', ja', nnu', nnz', a';
    }
  }
}

/** Pieces shared by every storage variant: the failure values that stand for the
    exceptions the storage classes throw, the extent query `size(d)` and the
    value-filling helpers used by `assign`, `fill_n` and `zerorow`. */
module MatrixCommon {

  datatype Option<+T> = None | Some(value: T)

  /** The runtime errors the storage classes and the linear system raise. */
  datatype Error =
    | RowOutOfBounds                   // "row index outside bounds"
    | SizeMismatch                     // "assignment not consistent with current size"
    | ResizingNotAvailable             // "resizing not available"
    | InitializeFromVectorNotPossible  // "initialize from vector is not possible"
    | IndexingNotCorrect               // "after reading file, indexing not correct"
    | IndexNotAvailable                // a write to a structurally absent compressed entry
    | SizeNotConsistent                // "linearsystem: size is not consistent"

  datatype Outcome = Pass | Fail(error: Error)

  /** The largest value of a 64-bit `size_t`. */
  const SizeMax: nat := 0xFFFF_FFFF_FFFF_FFFF

  /** `idx_t::is_valid_size`: both extents strictly positive. */
  predicate ValidSize(i: nat, j: nat) {
    i > 0 && j > 0
  }

  /** `matrix::size(d)` of the current revision: rows, columns, else zero. */
  function SizeOf(rows: nat, cols: nat, d: nat): (n: nat)
    ensures d == 0 ==> n == rows
    ensures d == 1 ==> n == cols
    ensures d > 1 ==> n == 0
  {
    if d == 0 then rows else if d == 1 then cols else 0
  }

  /** `matrix::size(d)` of the earlier revision: rows, columns, else the largest size_t. */
  function DetailSizeOf(rows: nat, cols: nat, d: nat): (n: nat)
    ensures d == 0 ==> n == rows
    ensures d == 1 ==> n == cols
    ensures d > 1 ==> n == SizeMax
  {
    if d == 0 then rows else if d == 1 then cols else SizeMax
  }

  /** `n` copies of `x` (`std::vector::assign(n, x)`). */
  function Filled(n: nat, x: real): (s: seq<real>)
    ensures |s| == n
    ensures forall k :: 0 <= k < n ==> s[k] == x
  {
    seq(n, _ => x)
  }

  /** `s` with the positions `lo <= k < hi` set to zero (`fill_n` over a row slice). */
  function ZeroSlice(s: seq<real>, lo: int, hi: int): (r: seq<real>)
    ensures |r| == |s|
    ensures forall k :: 0 <= k < |s| && lo <= k < hi ==> r[k] == 0.0
    ensures forall k :: 0 <= k < |s| && !(lo <= k < hi) ==> r[k] == s[k]
  {
    seq(|s|, k requires 0 <= k < |s| => if lo <= k < hi then 0.0 else s[k])
  }

  /** Zeroing the same slice twice leaves what zeroing it once leaves. */
  lemma ZeroSliceIdempotent(s: seq<real>, lo: int, hi: int)
    ensures ZeroSlice(ZeroSlice(s, lo, hi), lo, hi) == ZeroSlice(s, lo, hi)
  {
  }

  /** `*std::max_element(s.begin(), s.end())` of a nonempty vector. */
  function MaxOf(s: seq<int>): (m: int)
    requires |s| > 0
    ensures m in s
    ensures forall k :: 0 <= k < |s| ==> s[k] <= m
  {
    if |s| == 1 then s[0]
    else
      var rest := MaxOf(s[1..]);
      assert forall k :: 1 <= k < |s| ==> s[k] == s[1..][k - 1];
      if s[0] >= rest then s[0] else rest
  }
}

/** The size bookkeeping of `linearsystem`: the matrix `A`, the right-hand side `b` and
    the solution `x`, each a column-oriented flat dense matrix (`A` as the LAPACK
    solver stores it, `b` and `x` as `vector_t`), initialized, zeroed and cleared
    together, and checked for consistent sizes (`A` is i x j, `b` is i x k, `x` is
    j x k). */
module LinearSystems {
  import opened MatrixCommon
  import opened DenseLayout
  import opened Dense

  /** `consistent(Ai, Aj, bi, bj, xi, xj)`: `A x = b` is well-shaped; otherwise the
      check throws "size is not consistent". */
  function Consistent(Ai: nat, Aj: nat, bi: nat, bj: nat, xi: nat, xj: nat): (o: Outcome)
    ensures o == Pass || o == Fail(SizeNotConsistent)
  {
    if Ai != bi || Aj != xi || bj != xj then Fail(SizeNotConsistent) else Pass
  }

  /** The check accepts exactly the extents of `A (i x j) * x (j x k) = b (i x k)`. */
  lemma ConsistentShapes(Ai: nat, Aj: nat, bi: nat, bj: nat, xi: nat, xj: nat)
    ensures Consistent(Ai, Aj, bi, bj, xi, xj) == Pass <==>
              exists i: nat, j: nat, k: nat ::
                (Ai, Aj, bi, bj, xi, xj) == (i, j, i, k, j, k)
  {
    if Consistent(Ai, Aj, bi, bj, xi, xj) == Pass {
      assert (Ai, Aj, bi, bj, xi, xj) == (Ai, Aj, Ai, bj, Aj, bj);
      assert Consistent(Ai, Aj, Ai, bj, Aj, bj) == Pass;
    }
  }

  /** `size(d)` of the system: rows and columns of `A`, then the columns of `b`, else 0. */
  function SystemSize(Ai: nat, Aj: nat, bj: nat, d: nat): (n: nat)
    ensures d == 0 ==> n == Ai
    ensures d == 1 ==> n == Aj
    ensures d == 2 ==> n == bj
    ensures d > 2 ==> n == 0
  {
    if d < 2 then SizeOf(Ai, Aj, d) else if d == 2 then bj else 0
  }

  /** `empty()`: the product of the three sizes is zero exactly when one of them is. */
  lemma {:induction false} EmptyIffSomeSizeZero(Ai: nat, Aj: nat, bj: nat)
    ensures SystemSize(Ai, Aj, bj, 0) * SystemSize(Ai, Aj, bj, 1) * SystemSize(Ai, Aj, bj, 2) == 0 <==>
              Ai == 0 || Aj == 0 || bj == 0
  {
    if Ai > 0 && Aj > 0 && bj > 0 {
      assert Ai * Aj >= 1 by { MulPositive(Ai, Aj); }
      MulPositive(Ai * Aj, bj);
    }
  }

  lemma MulPositive(p: nat, q: nat)
    requires p > 0 && q > 0
    ensures p * q > 0
  {
  }

  /** A vector given to `initialize(vA, vb, vx)` is accepted by a component holding `n`
      values: an empty one is skipped, a nonempty one must have exactly `n` values. */
  predicate Accepts(v: seq<real>, n: nat) {
    |v| == 0 || |v| == n
  }

  /** `linearsystem<T>` with `A` held as LAPACK holds it. */
  class LinearSystem {
    const A: DenseV
    const b: DenseV
    const x: DenseV

    /** Three distinct, well-formed, column-oriented components. */
    ghost predicate Valid()
      reads this, A, b, x
    {
      && A != b && b != x && A != x
      && A.Valid() && b.Valid() && x.Valid()
      && !A.rowMajor && !b.rowMajor && !x.rowMajor
    }

    constructor()
      ensures Valid() && fresh(A) && fresh(b) && fresh(x)
      ensures A.rows == 0 && A.cols == 0 && b.rows == 0 && b.cols == 0 && x.rows == 0 && x.cols == 0
    {
      A := new DenseV(false);
      b := new DenseV(false);
      x := new DenseV(false);
    }

    /** `size(d)`. */
    function Size(d: nat): (n: nat)
      reads this, A, b
      ensures n == SystemSize(A.rows, A.cols, b.cols, d)
    {
      if d < 2 then A.Size(d) else if d == 2 then b.Size(1) else 0
    }

    /** `empty()`: the product of the three sizes is zero, that is, `A` has no rows or no
        columns or `b` has no columns. */
    function IsEmpty(): (e: bool)
      reads this, A, b
      ensures e <==> A.rows == 0 || A.cols == 0 || b.cols == 0
    {
      EmptyIffSomeSizeZero(A.rows, A.cols, b.cols);
      Size(0) * Size(1) * Size(2) == 0
    }

    /** The `consistent` check on the current components: it passes exactly when
        `A (i x j) * x (j x k) = b (i x k)` is well-shaped. */
    function Check(): (o: Outcome)
      reads this, A, b, x
      ensures o == Pass || o == Fail(SizeNotConsistent)
      ensures o == Pass <==> b.rows == A.rows && x.rows == A.cols && x.cols == b.cols
    {
      Consistent(A.rows, A.cols, b.rows, b.cols, x.rows, x.cols)
    }

    /** `initialize(i, j, k, value)`: `A` becomes i x j, `b` i x k and `x` j x k, all
        filled with `value`; a component whose extent is not valid (a zero) keeps what
        it held. With every extent positive the system is consistent. */
    method Initialize(i: nat, j: nat, k: nat, v: real)
      requires Valid()
      modifies A, b, x
      ensures Valid()
      ensures ValidSize(i, j) ==> A.rows == i && A.cols == j && A.Matrix() == Constant(i, j, v)
      ensures !ValidSize(i, j) ==> A.rows == old(A.rows) && A.cols == old(A.cols) && A.a == old(A.a)
      ensures ValidSize(i, k) ==> b.rows == i && b.cols == k && b.Matrix() == Constant(i, k, v)
      ensures !ValidSize(i, k) ==> b.rows == old(b.rows) && b.cols == old(b.cols) && b.a == old(b.a)
      ensures ValidSize(j, k) ==> x.rows == j && x.cols == k && x.Matrix() == Constant(j, k, v)
      ensures !ValidSize(j, k) ==> x.rows == old(x.rows) && x.cols == old(x.cols) && x.a == old(x.a)
      ensures i > 0 && j > 0 && k > 0 ==> Check() == Pass
    {
      A.Initialize(i, j, v);
      b.Initialize(i, k, v);
      x.Initialize(j, k, v);
    }

    /** `initialize(vA, vb, vx)`: a nonempty `vA` is loaded into `A`; a nonempty `vb`
        into `b`, an empty one makes `b` a zero `size(0) x 1`; a nonempty `vx` into
        `x`, an empty one makes `x` a zero `size(1) x size(2)`; then the sizes are
        checked. A vector whose length is not its component's stops the sequence. */
    method InitializeFromValues(vA: seq<real>, vb: seq<real>, vx: seq<real>) returns (o: Outcome)
      requires Valid()
      modifies A, b, x
      ensures Valid()
      ensures o == Pass || o == Fail(SizeMismatch) || o == Fail(SizeNotConsistent)
      ensures o == Fail(SizeMismatch) <==>
                (|vA| > 0 && |vA| != old(|A.a|)) || (|vb| > 0 && |vb| != old(|b.a|)) || (|vx| > 0 && |vx| != old(|x.a|))
      ensures o != Fail(SizeMismatch) ==> (o == Pass <==> Check() == Pass)
      ensures A.rows == old(A.rows) && A.cols == old(A.cols)
      ensures |vA| > 0 && |vA| != old(|A.a|) ==> A.a == old(A.a) && b.a == old(b.a) && x.a == old(x.a)
      ensures |vA| > 0 && |vA| == old(|A.a|) ==> A.Matrix() == Cells(true, A.rows, A.cols, vA)
      ensures |vA| == 0 ==> A.a == old(A.a)
      // `b`: untouched when loading `A` failed; else loaded from a nonempty `vb` of its
      // length, or made a zero `size(0) x 1` from an empty one.
      ensures !Accepts(vA, old(|A.a|)) ==> b.rows == old(b.rows) && b.cols == old(b.cols) && b.a == old(b.a)
      ensures Accepts(vA, old(|A.a|)) && |vb| > 0 ==> b.rows == old(b.rows) && b.cols == old(b.cols)
      ensures Accepts(vA, old(|A.a|)) && |vb| > 0 && |vb| == old(|b.a|) ==>
                b.Matrix() == Cells(true, b.rows, b.cols, vb)
      ensures Accepts(vA, old(|A.a|)) && |vb| > 0 && |vb| != old(|b.a|) ==> b.a == old(b.a)
      ensures Accepts(vA, old(|A.a|)) && |vb| == 0 && ValidSize(A.rows, 1) ==>
                b.rows == A.rows && b.cols == 1 && b.Matrix() == Constant(A.rows, 1, 0.0)
      ensures Accepts(vA, old(|A.a|)) && |vb| == 0 && !ValidSize(A.rows, 1) ==>
                b.rows == old(b.rows) && b.cols == old(b.cols) && b.a == old(b.a)
      // `x`: untouched when loading `A` or `b` failed; else loaded from a nonempty `vx`
      // of its length, or made a zero `size(1) x size(2)` from an empty one.
      ensures !(Accepts(vA, old(|A.a|)) && Accepts(vb, old(|b.a|))) ==>
                x.rows == old(x.rows) && x.cols == old(x.cols) && x.a == old(x.a)
      ensures Accepts(vA, old(|A.a|)) && Accepts(vb, old(|b.a|)) && |vx| > 0 ==>
                x.rows == old(x.rows) && x.cols == old(x.cols)
      ensures Accepts(vA, old(|A.a|)) && Accepts(vb, old(|b.a|)) && |vx| > 0 && |vx| == old(|x.a|) ==>
                x.Matrix() == Cells(true, x.rows, x.cols, vx)
      ensures Accepts(vA, old(|A.a|)) && Accepts(vb, old(|b.a|)) && |vx| > 0 && |vx| != old(|x.a|) ==>
                x.a == old(x.a)
      ensures Accepts(vA, old(|A.a|)) && Accepts(vb, old(|b.a|)) && |vx| == 0 && ValidSize(A.cols, b.cols) ==>
                x.rows == A.cols && x.cols == b.cols && x.Matrix() == Constant(A.cols, b.cols, 0.0)
      ensures Accepts(vA, old(|A.a|)) && Accepts(vb, old(|b.a|)) && |vx| == 0 && !ValidSize(A.cols, b.cols) ==>
                x.rows == old(x.rows) && x.cols == old(x.cols) && x.a == old(x.a)
      ensures |vA| == 0 || |vA| == old(|A.a|) ==>
                (|vb| == 0 && |vx| == 0 && A.rows > 0 && A.cols > 0 ==> o == Pass)
    {
      if |vA| > 0 {
        o := A.InitializeFromValues(vA);
        if o != Pass {
          return;
        }
      }
      if |vb| > 0 {
        o := b.InitializeFromValues(vb);
        if o != Pass {
          return;
        }
      } else {
        b.Initialize(A.Size(0), 1, 0.0);
      }
      if |vx| > 0 {
        o := x.InitializeFromValues(vx);
        if o != Pass {
          return;
        }
      } else {
        x.Initialize(A.Size(1), b.Size(1), 0.0);
      }
      o := Consistent(A.Size(0), A.Size(1), b.Size(0), b.Size(1), x.Size(0), x.Size(1));
    }

    /** `zerorow(i)`: row `i` of `A`, then of `b`, then of `x` is zeroed; the first
        component without a row `i` fails and stops the sequence, so the components
        before it stay zeroed. */
    method Zerorow(i: nat) returns (o: Outcome)
      requires Valid()
      modifies A, b, x
      ensures Valid()
      ensures A.rows == old(A.rows) && A.cols == old(A.cols) && b.rows == old(b.rows) && b.cols == old(b.cols)
      ensures x.rows == old(x.rows) && x.cols == old(x.cols)
      ensures o == (if i < A.rows && i < b.rows && i < x.rows then Pass else Fail(RowOutOfBounds))
      ensures i < A.rows ==> A.Matrix() == WithRowZeroed(old(A.Matrix()), i)
      ensures i >= A.rows ==> A.a == old(A.a)
      ensures i < A.rows && i < b.rows ==> b.Matrix() == WithRowZeroed(old(b.Matrix()), i)
      ensures !(i < A.rows && i < b.rows) ==> b.a == old(b.a)
      ensures o == Pass ==> x.Matrix() == WithRowZeroed(old(x.Matrix()), i)
      ensures o != Pass ==> x.a == old(x.a)
    {
      o := A.Zerorow(i);
      if o != Pass {
        return;
      }
      o := b.Zerorow(i);
      if o != Pass {
        return;
      }
      o := x.Zerorow(i);
    }

    /** `clear()`: every component is cleared; the system is then empty. */
    method Clear()
      requires Valid()
      modifies A, b, x
      ensures Valid() && IsEmpty()
      ensures A.rows == 0 && A.cols == 0 && A.a == [] && b.rows == 0 && b.cols == 0 && b.a == []
      ensures x.rows == 0 && x.cols == 0 && x.a == []
    {
      A.Clear();
      b.Clear();
      x.Clear();
    }
  }
}

/** `sparse_matrix<T, BASE, SORT>`: a coordinate set that can be compressed into the
    three arrays `ia/ja/a` and back, with indexing against either form, the symmetry
    pass run after loading a file, and the structural check that follows it. */
module Sparse {
  import opened MatrixCommon
  import opened Coordinates
  import opened Compression
  import PrintPolicy

  /** The transposed coordinate. */
  function Mirror(c: Coord): (m: Coord)
    ensures m.i == c.j && m.j == c.i
  {
    Coord(c.j, c.i)
  }

  /** The diagonal `(k+BASE, k+BASE)` for `k < rows`. */
  ghost function Diag(rows: nat, base: int): set<Coord> {
    if rows == 0 then {} else Diag(rows - 1, base) + {Coord(rows - 1 + base, rows - 1 + base)}
  }

  /** Exactly the coordinates `(x, x)` with `BASE <= x < BASE + rows`. */
  lemma {:induction false} DiagMembers(rows: nat, base: int, c: Coord)
    ensures c in Diag(rows, base) <==> c.i == c.j && base <= c.i < base + rows
  {
    if rows > 0 {
      DiagMembers(rows - 1, base, c);
    }
  }

  lemma DiagStep(k: nat, base: int)
    ensures Diag(k + 1, base) == Diag(k, base) + {Coord(k + base, k + base)}
  {
  }

  ghost function Mirrored(K: set<Coord>): set<Coord> {
    set c | c in K :: Mirror(c)
  }

  /** What the symmetry pass must reach: the keys it starts from, the diagonal and the
      transpose of the keys it starts from. */
  ghost function Closure(K: set<Coord>, rows: nat, base: int): set<Coord> {
    K + Diag(rows, base) + Mirrored(K)
  }

  ghost predicate SymmetricKeys(K: set<Coord>) {
    forall c :: c in K ==> Mirror(c) in K
  }

  /** The closure is closed under transposition, so the pass never leaves it. */
  lemma ClosureMirrored(K: set<Coord>, rows: nat, base: int, c: Coord)
    requires c in Closure(K, rows, base)
    ensures Mirror(c) in Closure(K, rows, base)
  {
    if c in Mirrored(K) {
      var d :| d in K && c == Mirror(d);
    } else if c in K {
      assert Mirror(c) in Mirrored(K);
    } else {
      DiagMembers(rows, base, c);
      assert Mirror(c) == c;
    }
  }

  lemma StrictGrowth(A: set<Coord>, B: set<Coord>, C: set<Coord>)
    requires A <= B <= C && A != B
    ensures |C - B| < |C - A|
  {
    var x :| x in B && x !in A;
    assert C - A == (C - B) + (B - A);
    assert (C - B) !! (B - A);
    assert x in B - A;
  }

  /** `R` keeps every value of `E` and holds zero at every coordinate it added. */
  ghost predicate Augments(E: seq<Entry>, R: seq<Entry>) {
    && Keys(E) <= Keys(R)
    && (forall c :: c in Keys(E) ==> Find(R, c) == Find(E, c))
    && (forall c :: c in Keys(R) && c !in Keys(E) ==> Find(R, c) == Some(0.0))
  }

  /** Inserting a zero-valued entry keeps an augmentation one. */
  lemma AugmentsInsert(s: Sort, E: seq<Entry>, R: seq<Entry>, t: Entry)
    requires Ordered(s, R) && Augments(E, R) && t.v == 0.0
    ensures Augments(E, Insert(s, R, t).0)
    ensures Keys(Insert(s, R, t).0) == Keys(R) + {t.at}
  {
    InsertKeys(s, R, t);
    InsertFinds(s, R, t);
  }

  /** One step of the diagonal loop keeps the loop's invariant. */
  lemma DiagonalStep(s: Sort, E: seq<Entry>, R: seq<Entry>, k: nat, base: int)
    requires Ordered(s, R) && Augments(E, R) && Keys(R) == Keys(E) + Diag(k, base)
    ensures Augments(E, Insert(s, R, Entry(Coord(k + base, k + base), 0.0)).0)
    ensures Keys(Insert(s, R, Entry(Coord(k + base, k + base), 0.0)).0) == Keys(E) + Diag(k + 1, base)
  {
    var d := Entry(Coord(k + base, k + base), 0.0);
    AugmentsInsert(s, E, R, d);
    DiagStep(k, base);
  }

  /** The diagonal loop of the symmetry pass: `(k+BASE, k+BASE)` is inserted with a
      zero value for `k < rows`, counting the insertions that succeed. */
  method InsertDiagonal(s: Sort, E: seq<Entry>, rows: nat, base: int) returns (R: seq<Entry>, nmodif: nat)
    requires Ordered(s, E)
    ensures Ordered(s, R) && Augments(E, R)
    ensures Keys(R) == Keys(E) + Diag(rows, base)
    ensures nmodif == |R| - |E|
  {
    R, nmodif := E, 0;
    var k := 0;
    while k < rows
      invariant 0 <= k <= rows && Ordered(s, R) && nmodif == |R| - |E|
      invariant Augments(E, R) && Keys(R) == Keys(E) + Diag(k, base)
    {
      R, nmodif := DiagonalOne(s, E, R, k, base, nmodif);
      k := k + 1;
    }
  }

  /** One turn of the diagonal loop: inserts `(k+BASE, k+BASE)` with a zero value and
      counts it when it was absent. */
  method DiagonalOne(s: Sort, E: seq<Entry>, R: seq<Entry>, k: nat, base: int, nmodif: nat) returns (R': seq<Entry>, nmodif': nat)
    requires Ordered(s, R) && nmodif == |R| - |E|
    requires Augments(E, R) && Keys(R) == Keys(E) + Diag(k, base)
    ensures Ordered(s, R') && nmodif' == |R'| - |E|
    ensures Augments(E, R') && Keys(R') == Keys(E) + Diag(k + 1, base)
  {
    DiagonalStep(s, E, R, k, base);
    var res := Insert(s, R, Entry(Coord(k + base, k + base), 0.0));
    R' := res.0;
    nmodif' := if res.1 then nmodif + 1 else nmodif;
  }

  /** Inserting the transpose of a present entry keeps the augmentation inside a
      transpose-closed `Cl`, and afterwards that transpose is present. */
  lemma MirrorStep(s: Sort, E: seq<Entry>, Cl: set<Coord>, R: seq<Entry>, p: nat)
    requires Ordered(s, R) && Augments(E, R) && Keys(R) <= Cl && p < |R|
    requires forall c :: c in Cl ==> Mirror(c) in Cl
    ensures Augments(E, Insert(s, R, Entry(Mirror(R[p].at), 0.0)).0)
    ensures Keys(R) <= Keys(Insert(s, R, Entry(Mirror(R[p].at), 0.0)).0) <= Cl
    ensures Mirror(R[p].at) in Keys(Insert(s, R, Entry(Mirror(R[p].at), 0.0)).0)
  {
    assert R[p] in R;
    AugmentsInsert(s, E, R, Entry(Mirror(R[p].at), 0.0));
  }

  /** One scan of the restart loop: entries are visited from the last backwards until
      one whose transpose is missing; that transpose is inserted with a zero value and
      the scan stops. A scan that inserts nothing has seen every transpose present. */
  method ScanForMissingMirror(s: Sort, ghost E: seq<Entry>, ghost Cl: set<Coord>, R0: seq<Entry>) returns (R: seq<Entry>, modif: bool)
    requires Ordered(s, R0) && Augments(E, R0) && Keys(R0) <= Cl
    requires forall c :: c in Cl ==> Mirror(c) in Cl
    ensures Ordered(s, R) && Augments(E, R) && Keys(R0) <= Keys(R) <= Cl
    ensures |R| == |R0| + (if modif then 1 else 0)
    ensures modif ==> Keys(R0) != Keys(R)
    ensures !modif ==> R == R0 && SymmetricKeys(Keys(R))
  {
    R, modif := R0, false;
    var p := |R|;
    while p > 0 && !modif
      invariant 0 <= p <= |R| && Ordered(s, R) && Augments(E, R)
      invariant Keys(R0) <= Keys(R) <= Cl
      invariant |R| == |R0| + (if modif then 1 else 0)
      invariant modif ==> Keys(R0) != Keys(R)
      invariant !modif ==> R == R0 && forall q :: p <= q < |R| ==> Mirror(R[q].at) in Keys(R)
    {
      p := p - 1;
      R, modif := MirrorOne(s, E, Cl, R0, p);
    }
    if !modif {
      SymmetricWhenAllMirrored(R);
    }
  }

  /** One visit of the scan: the transpose of entry `p` is inserted with a zero value
      when missing, which ends the scan; otherwise the set is unchanged and every entry
      from `p` on has its transpose present. */
  method MirrorOne(s: Sort, ghost E: seq<Entry>, ghost Cl: set<Coord>, R0: seq<Entry>, p: nat)
    returns (R: seq<Entry>, modif: bool)
    requires Ordered(s, R0) && Augments(E, R0) && Keys(R0) <= Cl && p < |R0|
    requires forall c :: c in Cl ==> Mirror(c) in Cl
    requires forall q :: p < q < |R0| ==> Mirror(R0[q].at) in Keys(R0)
    ensures Ordered(s, R) && Augments(E, R) && Keys(R0) <= Keys(R) <= Cl
    ensures |R| == |R0| + (if modif then 1 else 0)
    ensures modif ==> Keys(R0) != Keys(R)
    ensures !modif ==> R == R0 && forall q :: p <= q < |R| ==> Mirror(R[q].at) in Keys(R)
  {
    MirrorStep(s, E, Cl, R0, p);
    var res := Insert(s, R0, Entry(Mirror(R0[p].at), 0.0));
    R, modif := res.0, res.1;
  }

  lemma SymmetricWhenAllMirrored(R: seq<Entry>)
    requires forall q :: 0 <= q < |R| ==> Mirror(R[q].at) in Keys(R)
    ensures SymmetricKeys(Keys(R))
  {
    forall c | c in Keys(R) ensures Mirror(c) in Keys(R) {
      var x :| x in R && x.at == c;
      var q :| 0 <= q < |R| && R[q] == x;
    }
  }

  lemma ClosureIsMirrorClosed(K: set<Coord>, rows: nat, base: int)
    ensures forall c :: c in Closure(K, rows, base) ==> Mirror(c) in Closure(K, rows, base)
  {
    forall c | c in Closure(K, rows, base) ensures Mirror(c) in Closure(K, rows, base) {
      ClosureMirrored(K, rows, base, c);
    }
  }

  /** A transpose-closed key set between the start-and-diagonal and the closure is the
      closure. */
  lemma ClosureReached(K: set<Coord>, rows: nat, base: int, KR: set<Coord>)
    requires K + Diag(rows, base) <= KR <= Closure(K, rows, base) && SymmetricKeys(KR)
    ensures KR == Closure(K, rows, base)
  {
    forall c | c in Mirrored(K) ensures c in KR {
      var d :| d in K && c == Mirror(d);
    }
  }

  /** The symmetry pass of `initialize(fname)`: the diagonal is inserted with zero
      values, then the set is scanned from its last entry backwards; the first entry
      whose transpose is missing has it inserted with a zero value and the scan
      restarts; the pass ends after a full scan inserts nothing. `nmodif` counts the
      insertions. */
  method Symmetrize(s: Sort, E: seq<Entry>, rows: nat, base: int) returns (R: seq<Entry>, nmodif: nat)
    requires Ordered(s, E)
    ensures Ordered(s, R) && Augments(E, R)
    ensures Keys(R) == Closure(Keys(E), rows, base)
    ensures Diag(rows, base) <= Keys(R) && SymmetricKeys(Keys(R))
    ensures nmodif == |R| - |E|
  {
    ghost var Cl := Closure(Keys(E), rows, base);
    ClosureIsMirrorClosed(Keys(E), rows, base);
    R, nmodif := InsertDiagonal(s, E, rows, base);
    var modif := true;
    while modif
      invariant Ordered(s, R) && Augments(E, R) && nmodif == |R| - |E|
      invariant Keys(E) + Diag(rows, base) <= Keys(R) <= Cl
      invariant !modif ==> SymmetricKeys(Keys(R))
      decreases |Cl - Keys(R)|, if modif then 1 else 0
    {
      ghost var K0 := Keys(R);
      R, modif := ScanForMissingMirror(s, E, Cl, R);
      if modif {
        nmodif := nmodif + 1;
        StrictGrowth(K0, Keys(R), Cl);
      }
    }
    ClosureReached(Keys(E), rows, base, Keys(R));
  }

  /** `getindex(i, j)`: the first position of row `i`'s slice
      `[ia[i]-BASE, ia[i+1]-BASE)` whose stored column, less BASE, is `j`; -1 when
      there is none. */
  method GetIndex(ia: seq<int>, ja: seq<int>, base: int, i: nat, j: nat) returns (k: int)
    requires i + 1 < |ia| && 0 <= ia[i] - base && ia[i + 1] - base <= |ja|
    ensures k == -1 || (ia[i] - base <= k < ia[i + 1] - base && ja[k] - base == j)
    ensures k == -1 <==> forall q :: ia[i] - base <= q < ia[i + 1] - base ==> ja[q] - base != j
    ensures k != -1 ==> forall q :: ia[i] - base <= q < k ==> ja[q] - base != j
  {
    k := ia[i] - base;
    while k < ia[i + 1] - base
      invariant ia[i] - base <= k <= (if ia[i] <= ia[i + 1] then ia[i + 1] else ia[i]) - base
      invariant forall q :: ia[i] - base <= q < k ==> ja[q] - base != j
    {
      if ja[k] - base == j {
        return;
      }
      k := k + 1;
    }
    k := -1;
  }

  /** A coordinate at no position is not a key. */
  lemma AbsentKey(E: seq<Entry>, c: Coord)
    requires forall p :: 0 <= p < |E| ==> E[p].at != c
    ensures c !in Keys(E)
  {
  }

  /** In the CSR form whose offsets start at BASE, the slice of row `i` holds exactly
      the entries of row `i + BASE` and their stored columns; so `getindex` finds an
      entry exactly when the set holds it, and then finds its value. */
  lemma {:induction false} CompressedLookup(E: seq<Entry>, ia: seq<int>, ja: seq<int>, a: seq<real>, base: int, i: nat, j: nat, k: int)
    requires Ordered(ByRow, E) && Encodes(ByRow, E, ia, ja, a) && ia[0] == base && i + 1 < |ia|
    requires k == -1 || (ia[i] - base <= k < ia[i + 1] - base && ja[k] - base == j)
    requires k == -1 <==> forall q :: ia[i] - base <= q < ia[i + 1] - base ==> ja[q] - base != j
    ensures k != -1 ==> 0 <= k < |a| && E[k].at == Coord(i + base, j + base) && Find(E, Coord(i + base, j + base)) == Some(a[k])
    ensures k == -1 ==> Find(E, Coord(i + base, j + base)) == None
  {
    var c := Coord(i + base, j + base);
    assert ia[0] <= ia[i] && ia[i + 1] <= ia[|ia| - 1];
    if k != -1 {
      assert Major(ByRow, E[k].at) == ia[0] + i;
      assert E[k].at == c;
      FindAt(ByRow, E, k);
    } else {
      forall p | 0 <= p < |E| ensures E[p].at != c {
        assert Major(ByRow, E[p].at) == ia[0] + i ==> ia[i] - base <= p < ia[i + 1] - base;
        assert ja[p] == E[p].at.j;
      }
      AbsentKey(E, c);
      FindIsMembership(ByRow, E, c, 0.0);
    }
  }

  /** Replacing the values of the compressed form in place keeps it the compressed
      form of the same coordinates carrying the new values. */
  lemma EncodesWithValues(s: Sort, E: seq<Entry>, off: seq<int>, idx: seq<int>, vals: seq<real>, vals2: seq<real>)
    requires Ordered(s, E) && Encodes(s, E, off, idx, vals) && |vals2| == |E|
    ensures Ordered(s, WithValues(E, vals2)) && Encodes(s, WithValues(E, vals2), off, idx, vals2)
  {
    WithValuesLookup(s, E, vals2);
  }

  /** The values of `E` with those of row `row` replaced by zero. */
  function ZeroedValues(E: seq<Entry>, row: int): (vals: seq<real>)
    ensures |vals| == |E|
    ensures forall p :: 0 <= p < |E| ==> vals[p] == (if E[p].at.i == row then 0.0 else E[p].v)
  {
    seq(|E|, p requires 0 <= p < |E| => if E[p].at.i == row then 0.0 else E[p].v)
  }

  /** The set with every value of row `row` zero and its coordinates unchanged. */
  function ZeroedRow(E: seq<Entry>, row: int): (r: seq<Entry>)
    ensures |r| == |E|
  {
    WithValues(E, ZeroedValues(E, row))
  }

  /** Looking up after zeroing a row: an entry of that row reads zero, every other
      lookup is unchanged, and nothing is added. */
  lemma ZeroedRowLookup(s: Sort, E: seq<Entry>, row: int, c: Coord)
    requires Ordered(s, E)
    ensures Ordered(s, ZeroedRow(E, row)) && Keys(ZeroedRow(E, row)) == Keys(E)
    ensures Find(ZeroedRow(E, row), c) == (if c in Keys(E) && c.i == row then Some(0.0) else Find(E, c))
  {
    var vals := ZeroedValues(E, row);
    WithValuesLookup(s, E, vals);
    if c in Keys(E) {
      var p := KeyPosition(E, c);
      FindAt(s, E, p);
    } else {
      FindIsMembership(s, E, c, 0.0);
    }
  }

  /** Zeroing a row twice is zeroing it once. */
  lemma ZeroedRowIdempotent(E: seq<Entry>, row: int)
    ensures ZeroedRow(ZeroedRow(E, row), row) == ZeroedRow(E, row)
  {
  }

  /** `fill_n` over row `r`'s slice of the values zeroes exactly the entries of row
      `r + BASE`. */
  lemma ZeroSliceIsZeroedRow(E: seq<Entry>, ia: seq<int>, ja: seq<int>, a: seq<real>, base: int, r: nat)
    requires Ordered(ByRow, E) && Encodes(ByRow, E, ia, ja, a) && ia[0] == base && r + 1 < |ia|
    ensures WithValues(E, ZeroSlice(a, ia[r] - base, ia[r + 1] - base)) == ZeroedRow(E, base + r)
    ensures Ordered(ByRow, ZeroedRow(E, base + r))
    ensures Encodes(ByRow, ZeroedRow(E, base + r), ia, ja, ZeroSlice(a, ia[r] - base, ia[r + 1] - base))
  {
    var z := ZeroSlice(a, ia[r] - base, ia[r + 1] - base);
    var L, R := WithValues(E, z), ZeroedRow(E, base + r);
    forall p | 0 <= p < |E| ensures L[p] == R[p] {
      assert (ia[r] - ia[0] <= p < ia[r + 1] - ia[0]) <==> Major(ByRow, E[p].at) == ia[0] + r;
    }
    EncodesWithValues(ByRow, E, ia, ja, a, z);
  }

  /** Every value of the set replaced by `x`: present coordinates read `x`, absent
      ones stay absent. */
  lemma AllValuesLookup(s: Sort, E: seq<Entry>, x: real, c: Coord)
    requires Ordered(s, E)
    ensures Ordered(s, WithValues(E, Filled(|E|, x)))
    ensures Find(WithValues(E, Filled(|E|, x)), c) == (if c in Keys(E) then Some(x) else None)
  {
    WithValuesLookup(s, E, Filled(|E|, x));
    if c in Keys(E) {
      var p := KeyPosition(E, c);
    }
  }

  /** Assigning through the reference of a present position changes that entry's
      value and no other lookup. */
  lemma ReplaceOneLookup(s: Sort, E: seq<Entry>, vals: seq<real>, k: nat, v: real)
    requires Ordered(s, E) && |vals| == |E| && k < |E|
    requires forall p :: 0 <= p < |E| ==> vals[p] == E[p].v
    ensures Ordered(s, WithValues(E, vals[k := v]))
    ensures Assigned(E, WithValues(E, vals[k := v]), E[k].at, v, Pass)
  {
    var after := WithValues(E, vals[k := v]);
    assert E[k] in E;
    WithValuesLookup(s, E, vals[k := v]);
    assert Find(after, E[k].at) == Some(v);
    forall d | d != E[k].at ensures Find(after, d) == Find(E, d) {
      WithValuesKeepsOthers(s, E, vals[k := v], E[k].at, d);
    }
  }

  /** The post-load check on a symmetrized set with its diagonal, compressed by rows:
      when `rows == nnu` and every stored column is below `BASE + cols`, the offsets
      start at BASE and every entry lies inside the declared extent. The lower bounds
      come from the diagonal and the symmetry, not from the check itself. */
  lemma {:induction false} LoadCheckInRange(E: seq<Entry>, off: seq<int>, idx: seq<int>, vals: seq<real>, rows: nat, cols: nat, base: int)
    requires Ordered(ByRow, E) && Encodes(ByRow, E, off, idx, vals)
    requires SymmetricKeys(Keys(E)) && Diag(rows, base) <= Keys(E) && rows > 0
    requires rows == |off| - 1 && cols > MaxOf(idx) - base
    ensures off[0] == base
    ensures forall c :: c in Keys(E) ==> base <= c.i < base + rows && base <= c.j < base + cols
  {
    OrderedMajorMonotone(ByRow, E);
    DiagMembers(rows, base, Coord(base, base));
    DiagMembers(rows, base, Coord(base + rows - 1, base + rows - 1));
    var p0 := KeyPosition(E, Coord(base, base));
    var p1 := KeyPosition(E, Coord(base + rows - 1, base + rows - 1));
    assert Major(ByRow, E[p0].at) >= Major(ByRow, E[0].at);
    assert Major(ByRow, E[p1].at) <= Major(ByRow, E[|E| - 1].at);
    forall c | c in Keys(E) ensures base <= c.i < base + rows && base <= c.j < base + cols {
      var p := KeyPosition(E, c);
      var q := KeyPosition(E, Mirror(c));
      assert Major(ByRow, E[0].at) <= Major(ByRow, E[p].at) <= Major(ByRow, E[|E| - 1].at);
      assert Major(ByRow, E[0].at) <= Major(ByRow, E[q].at);
      assert idx[p] == c.j;
    }
  }

  /** The state of a sparse matrix: uncompressed, an ordered set and empty arrays;
      compressed, an empty set and arrays that encode the ordered set `view`. */
  ghost predicate Consistent(sort: Sort, entries: seq<Entry>, view: seq<Entry>, ia: seq<int>, ja: seq<int>,
                             a: seq<real>, nnu: int, nnz: int)
  {
    && Ordered(sort, entries)
    && (nnu != 0 ==>
          && entries == [] && Ordered(sort, view)
          && Encodes(sort, view, Offsets(sort, ia, ja), Indices(sort, ia, ja), a)
          && nnu == |Offsets(sort, ia, ja)| - 1 && nnz == |view|)
    && (nnu == 0 ==> ia == [] && ja == [] && a == [] && nnz == 0 && view == [])
  }

  /** The set a sparse matrix holds: the ordered set when uncompressed, the set its
      arrays encode when compressed. */
  ghost function Held(entries: seq<Entry>, view: seq<Entry>, nnu: int): seq<Entry> {
    if nnu != 0 then view else entries
  }

  /** The law of assigning `v` at `c`: on success `c` is present with value `v`, on
      failure the set is unchanged, and no other coordinate's lookup changes. */
  ghost predicate Assigned(before: seq<Entry>, after: seq<Entry>, c: Coord, v: real, o: Outcome) {
    && (o == Pass ==> Keys(after) == Keys(before) + {c} && Find(after, c) == Some(v))
    && (o != Pass ==> after == before)
    && forall d :: d != c ==> Find(after, d) == Find(before, d)
  }

  /** The law of referencing `c` without assigning: `c` becomes present, keeping its
      value or taking zero, and no other coordinate's lookup changes. */
  ghost predicate Touched(before: seq<Entry>, after: seq<Entry>, c: Coord) {
    && Keys(after) == Keys(before) + {c}
    && Find(after, c) == (if c in Keys(before) then Find(before, c) else Some(0.0))
    && forall d :: d != c ==> Find(after, d) == Find(before, d)
  }

  /** Referencing `c` in an uncompressed set inserts a zero entry when `c` is absent. */
  lemma TouchLaw(s: Sort, E: seq<Entry>, c: Coord)
    requires Ordered(s, E)
    ensures Touched(E, Insert(s, E, Entry(c, 0.0)).0, c)
  {
    var I := Insert(s, E, Entry(c, 0.0)).0;
    InsertKeys(s, E, Entry(c, 0.0));
    InsertFinds(s, E, Entry(c, 0.0));
    forall d | d != c ensures Find(I, d) == Find(E, d) {
      FindIsMembership(s, E, d, 0.0);
    }
  }

  /** Assigning through the non-const `operator()` of an uncompressed set is the
      insertion of a zero entry followed by the assignment. */
  lemma WriteAssigned(s: Sort, E: seq<Entry>, c: Coord, v: real)
    requires Ordered(s, E)
    ensures Ordered(s, SetValue(Insert(s, E, Entry(c, 0.0)).0, c, v))
    ensures Assigned(E, SetValue(Insert(s, E, Entry(c, 0.0)).0, c, v), c, v, Pass)
  {
    WriteLaw(s, E, c, v);
  }

  /** `compress` as written starts the row offsets at the smallest stored row, not at
      BASE; `getindex` and `zerorow` subtract BASE from the offsets. A single entry at
      row 1, column 0, with BASE 0: the offsets are `[1, 2]`, so the slice `getindex`
      searches for row 0 starts at position 1, past the one stored column, and row 1,
      the row that holds the entry, has no end offset `ia[2]` at all. */
  lemma {:induction false} RowOffsetsStartAtSmallestRow(ia: seq<int>, ja: seq<int>, a: seq<real>)
    requires Encodes(ByRow, [Entry(Coord(1, 0), 2.0)], ia, ja, a)
    ensures ia == [1, 2] && ja == [0] && a == [2.0]
    ensures ia[0] != 0 && ia[0] == |ja| && |ia| == 2
  {
    var E := [Entry(Coord(1, 0), 2.0)];
    assert Major(ByRow, E[0].at) == 1;
    assert |ia| == 2;
    assert ja[0] == Minor(ByRow, E[0].at) && a[0] == E[0].v;
  }

  /** The const `operator()(i, j)` on a sparse matrix's state: the value at
      `(i+BASE, j+BASE)`, `None` standing for the shared zero sentinel returned for an
      absent entry. Compressed, the row's slice of `ja` is searched, which presumes
      rows (CSR), offsets starting at BASE and a row inside the offsets. */
  method Lookup(sort: Sort, base: int, entries: seq<Entry>, ghost view: seq<Entry>, ia: seq<int>, ja: seq<int>,
                a: seq<real>, nnu: int, nnz: int, i: nat, j: nat) returns (r: Option<real>)
    requires Consistent(sort, entries, view, ia, ja, a, nnu, nnz)
    requires nnu != 0 ==> sort == ByRow && ia[0] == base && i < nnu
    ensures r == Find(Held(entries, view, nnu), Coord(i + base, j + base))
  {
    if nnu != 0 {
      assert ia[0] <= ia[i] && ia[i + 1] <= ia[|ia| - 1];
      var k := GetIndex(ia, ja, base, i, j);
      CompressedLookup(view, ia, ja, a, base, i, j, k);
      r := if k == -1 then None else Some(a[k]);
    } else {
      r := Find(entries, Coord(i + base, j + base));
    }
  }

  /** The non-const `operator()(i, j)` used without assigning through it: uncompressed,
      `(i+BASE, j+BASE)` is inserted with a zero value when absent and an existing value
      is kept; compressed nothing changes. Returns the referenced value and the new set. */
  method TouchAt(sort: Sort, base: int, entries: seq<Entry>, ghost view: seq<Entry>, ia: seq<int>, ja: seq<int>,
                 a: seq<real>, nnu: int, nnz: int, i: nat, j: nat) returns (r: Option<real>, entries': seq<Entry>)
    requires Consistent(sort, entries, view, ia, ja, a, nnu, nnz)
    requires nnu != 0 ==> sort == ByRow && ia[0] == base && i < nnu
    ensures Consistent(sort, entries', view, ia, ja, a, nnu, nnz)
    ensures r == Find(Held(entries', view, nnu), Coord(i + base, j + base))
    ensures nnu != 0 ==> entries' == entries
    ensures nnu == 0 ==> Touched(entries, entries', Coord(i + base, j + base))
  {
    if nnu != 0 {
      r := Lookup(sort, base, entries, view, ia, ja, a, nnu, nnz, i, j);
      entries' := entries;
    } else {
      var c := Coord(i + base, j + base);
      TouchLaw(sort, entries, c);
      entries' := Insert(sort, entries, Entry(c, 0.0)).0;
      r := Find(entries', c);
    }
  }

  /** `operator()(i, j) = v` on a sparse matrix's state. Uncompressed the entry is
      inserted if absent and then assigned. Compressed, the entry's slot in `a` is
      assigned; an absent entry would be assigned through the shared sentinel, which is
      a failure here that changes nothing. Returns the new set, view and values. */
  method WriteAt(sort: Sort, base: int, entries: seq<Entry>, ghost view: seq<Entry>, ia: seq<int>, ja: seq<int>,
                 a: seq<real>, nnu: int, nnz: int, i: nat, j: nat, v: real)
    returns (o: Outcome, entries': seq<Entry>, ghost view': seq<Entry>, a': seq<real>)
    requires Consistent(sort, entries, view, ia, ja, a, nnu, nnz)
    requires nnu != 0 ==> sort == ByRow && ia[0] == base && i < nnu
    ensures Consistent(sort, entries', view', ia, ja, a', nnu, nnz)
    ensures nnu == 0 ==> o == Pass
    ensures o == Pass <==> nnu == 0 || Coord(i + base, j + base) in Keys(view)
    ensures Assigned(Held(entries, view, nnu), Held(entries', view', nnu), Coord(i + base, j + base), v, o)
    ensures o != Pass ==> a' == a
  {
    var c := Coord(i + base, j + base);
    if nnu != 0 {
      assert ia[0] <= ia[i] && ia[i + 1] <= ia[|ia| - 1];
      var k := GetIndex(ia, ja, base, i, j);
      CompressedLookup(view, ia, ja, a, base, i, j, k);
      if k == -1 {
        FindIsMembership(sort, view, c, 0.0);
        return Fail(IndexNotAvailable), entries, view, a;
      }
      CompressedAssign(sort, view, ia, ja, a, nnu, nnz, k, v);
      a' := a[k := v];
      view' := WithValues(view, a');
      entries' := entries;
    } else {
      WriteAssigned(sort, entries, c, v);
      entries' := SetValue(Insert(sort, entries, Entry(c, 0.0)).0, c, v);
      view', a' := view, a;
    }
    o := Pass;
  }

  /** Assigning `v` to slot `k` of a compressed state's values assigns `v` at the
      coordinate stored at position `k` of the set it encodes. */
  lemma CompressedAssign(sort: Sort, view: seq<Entry>, ia: seq<int>, ja: seq<int>, a: seq<real>,
                         nnu: int, nnz: int, k: nat, v: real)
    requires Consistent(sort, [], view, ia, ja, a, nnu, nnz) && nnu != 0 && k < |view|
    ensures Consistent(sort, [], WithValues(view, a[k := v]), ia, ja, a[k := v], nnu, nnz)
    ensures view[k].at in Keys(view)
    ensures Assigned(view, WithValues(view, a[k := v]), view[k].at, v, Pass)
  {
    assert view[k] in view;
    ReplaceOneLookup(sort, view, a, k, v);
    EncodesWithValues(sort, view, Offsets(sort, ia, ja), Indices(sort, ia, ja), a, a[k := v]);
  }

  /** `zerorow(r)` on a compressed CSR state: the values of row `r`'s slice become
      zero, which zeroes the row of the set the arrays encode. */
  method ZeroRowAt(sort: Sort, entries: seq<Entry>, ghost view: seq<Entry>, ia: seq<int>, ja: seq<int>, a: seq<real>,
                   nnu: int, nnz: int, base: int, r: nat) returns (a': seq<real>, ghost view': seq<Entry>)
    requires Consistent(sort, entries, view, ia, ja, a, nnu, nnz)
    requires nnu != 0 && sort == ByRow && ia[0] == base && r < nnu
    ensures Consistent(sort, entries, view', ia, ja, a', nnu, nnz)
    ensures view' == ZeroedRow(view, base + r)
    ensures a' == ZeroSlice(a, ia[r] - base, ia[r + 1] - base)
  {
    ZeroSliceIsZeroedRow(view, ia, ja, a, base, r);
    a' := ZeroSlice(a, ia[r] - base, ia[r + 1] - base);
    view' := WithValues(view, a');
  }

  /** Every field of a sparse matrix, as one value. */
  datatype Snapshot = Snapshot(rows: nat, cols: nat, printLevel: int, entries: seq<Entry>, view: seq<Entry>,
                               ia: seq<int>, ja: seq<int>, a: seq<real>, nnu: int, nnz: int)

  /** A whole sparse-matrix state is consistent. */
  ghost predicate ValidState(sort: Sort, st: Snapshot) {
    Consistent(sort, st.entries, st.view, st.ia, st.ja, st.a, st.nnu, st.nnz)
  }

  /** `compress()` of an uncompressed, nonempty state: the arrays encode the set, which
      becomes the view. */
  method CompressAt(sort: Sort, entries: seq<Entry>)
    returns (ia: seq<int>, ja: seq<int>, a: seq<real>, nnu: int, nnz: int, ghost view: seq<Entry>)
    requires Ordered(sort, entries) && entries != []
    ensures Consistent(sort, [], view, ia, ja, a, nnu, nnz) && nnu != 0 && view == entries
  {
    ia, ja, a, nnu, nnz := Compression.Compress(sort, entries);
    view := entries;
  }

  /** How far `uncompress()` moves the secondary keys: the row functor takes them as
      stored, the column functor adds its base, the first column offset. */
  function UncompressShift(sort: Sort, ja: seq<int>): (shift: int)
    ensures sort == ByRow || ja == [] ==> shift == 0
    ensures sort == ByColumn && ja != [] ==> shift == ja[0]
  {
    if sort == ByColumn && |ja| > 0 then ja[0] else 0
  }

  /** `uncompress()` of a compressed state, with the functor the class is instantiated
      with: the row functor rebuilds the set the arrays encode; the column functor
      rebuilds it with every row index moved by the first column offset, so it is the
      encoded set exactly when that offset is 0. */
  method UncompressAt(sort: Sort, ghost view: seq<Entry>, ia: seq<int>, ja: seq<int>, a: seq<real>, nnu: int, nnz: int)
    returns (entries: seq<Entry>)
    requires Consistent(sort, [], view, ia, ja, a, nnu, nnz) && nnu != 0
    ensures Ordered(sort, entries)
    ensures entries == ShiftMinor(sort, view, UncompressShift(sort, ja))
    ensures entries == view <==> sort == ByRow || ja[0] == 0
  {
    if sort == ByRow {
      RoundTrip(sort, view, Offsets(sort, ia, ja), Indices(sort, ia, ja), a);
      ShiftMinorZero(sort, view);
      entries := Compression.Uncompress(sort, ia, ja, a, nnu, nnz);
    } else {
      ColumnAsWrittenShiftsRows(view, ja, ia, a);
      entries := Compression.UncompressByColumnAsWritten(ia, ja, a, nnu, nnz);
    }
  }

  /** What the end of `initialize(fname)` leaves, from the set `E0` the file produced:
      the view is the symmetrized set (the closure of `E0` under mirroring plus the
      diagonal, new coordinates holding zero), `nmodif` counts the added entries, and the
      check fails exactly when the row count differs from `nnu` or a stored column (less
      BASE) reaches `cols`; when it passes on a row-sorted matrix every entry lies inside
      the declared extent. */
  ghost predicate Loaded(sort: Sort, base: int, rows: nat, cols: nat, E0: seq<Entry>, view: seq<Entry>,
                         ia: seq<int>, ja: seq<int>, nnu: int, o: Outcome, nmodif: nat)
  {
    && Ordered(sort, view) && Augments(E0, view)
    && Keys(view) == Closure(Keys(E0), rows, base)
    && Diag(rows, base) <= Keys(view) && SymmetricKeys(Keys(view))
    && nmodif == |view| - |E0|
    && |ja| > 0
    && o == (if rows != nnu || cols <= MaxOf(ja) - base then Fail(IndexingNotCorrect) else Pass)
    && (o == Pass && sort == ByRow && rows > 0 ==>
          |ia| > 0 && ia[0] == base && forall c :: c in Keys(view) ==> base <= c.i < base + rows && base <= c.j < base + cols)
  }

  /** The end of `initialize(fname)` once the file's entries are in the set: the symmetry
      pass, `compress`, then the structural check. A failed check leaves the compressed
      result in place. The set must not end up empty, which holds when there is a row or
      an entry. */
  method FinishLoadAt(sort: Sort, base: int, rows: nat, cols: nat, E0: seq<Entry>)
    returns (o: Outcome, nmodif: nat, ia: seq<int>, ja: seq<int>, a: seq<real>, nnu: int, nnz: int, ghost view: seq<Entry>)
    requires Ordered(sort, E0) && (rows > 0 || E0 != [])
    ensures Consistent(sort, [], view, ia, ja, a, nnu, nnz) && nnu != 0
    ensures Loaded(sort, base, rows, cols, E0, view, ia, ja, nnu, o, nmodif)
  {
    var R, n := Symmetrize(sort, E0, rows, base);
    nmodif := n;
    if rows > 0 {
      DiagMembers(rows, base, Coord(base, base));
    } else {
      assert E0[0] in E0;
    }
    assert R != [];
    ia, ja, a, nnu, nnz, view := CompressAt(sort, R);
    assert |ja| > 0 by {
      assert Encodes(sort, view, Offsets(sort, ia, ja), Indices(sort, ia, ja), a);
    }
    o := if rows != nnu || cols <= MaxOf(ja) - base then Fail(IndexingNotCorrect) else Pass;
    if o == Pass && sort == ByRow && rows > 0 {
      LoadCheckInRange(view, ia, ja, a, rows, cols, base);
    }
  }

  /** `sparse_matrix<T, BASE, SORT>`. Uncompressed (`nnu == 0`) the matrix is the
      ordered set `entries`; compressed it is the set the arrays `ia/ja/a` encode,
      kept as the ghost `view`. */
  class SparseMatrix {
    const base: int
    const sort: Sort
    var rows: nat
    var cols: nat
    var entries: seq<Entry>
    var a: seq<real>
    var ia: seq<int>
    var ja: seq<int>
    var nnu: int
    var nnz: int
    var printLevel: int
    ghost var view: seq<Entry>

    ghost predicate Valid()
      reads this
    {
      ValidState(sort, State())
    }

    /** The coordinate set the matrix holds, in either state. */
    ghost function Contents(): seq<Entry>
      reads this
    {
      Held(entries, view, nnu)
    }

    /** The whole state, for stating what `swap` exchanges. */
    ghost function State(): Snapshot
      reads this
    {
      Snapshot(rows, cols, printLevel, entries, view, ia, ja, a, nnu, nnz)
    }

    /** `is_compressed()`: in a consistent state, compressed means the set has moved
        into the arrays, and uncompressed means the arrays are empty. */
    function IsCompressed(): (b: bool)
      reads this
      ensures Valid() && b ==> entries == [] && |a| == |Contents()| > 0
      ensures Valid() && !b ==> ia == [] && ja == [] && a == [] && Contents() == entries
    {
      nnu != 0
    }

    constructor(base: int, sort: Sort)
      ensures Valid() && this.base == base && this.sort == sort
      ensures !IsCompressed() && Contents() == [] && rows == 0 && cols == 0 && printLevel == 0
    {
      this.base, this.sort := base, sort;
      rows, cols, printLevel := 0, 0, 0;
      entries, a, ia, ja, nnu, nnz := [], [], [], [], 0, 0;
      view := [];
    }

    /** `clear()`: extent 0 x 0, no entries, uncompressed. */
    method Clear()
      modifies this
      ensures Valid() && !IsCompressed() && Contents() == [] && rows == 0 && cols == 0
      ensures printLevel == old(printLevel)
    {
      rows, cols := 0, 0;
      entries, a, ia, ja, nnu, nnz := [], [], [], [], 0, 0;
      view := [];
    }

    /** `initialize(index)`: only clears. */
    method InitializeFromIndex()
      modifies this
      ensures Valid() && !IsCompressed() && Contents() == [] && rows == 0 && cols == 0
      ensures printLevel == old(printLevel)
    {
      Clear();
    }

    /** Sets every field at once. */
    method SetFields(rows': nat, cols': nat, printLevel': int, entries': seq<Entry>, ghost view': seq<Entry>,
                     ia': seq<int>, ja': seq<int>, a': seq<real>, nnu': int, nnz': int)
      modifies this
      ensures State() == Snapshot(rows', cols', printLevel', entries', view', ia', ja', a', nnu', nnz')
    {
      rows, cols, printLevel, entries, view, ia, ja, a, nnu, nnz := rows', cols', printLevel', entries', view', ia', ja', a', nnu', nnz';
    }

    /** `compress()`: a no-op when compressed; otherwise the set is compressed and
        emptied. The set must not be empty (the functor reads its first entry). */
    method Compress()
      requires Valid() && (IsCompressed() || entries != [])
      modifies this
      ensures Valid() && IsCompressed() && entries == [] && Contents() == old(Contents())
      ensures rows == old(rows) && cols == old(cols) && printLevel == old(printLevel)
      ensures old(IsCompressed()) ==> ia == old(ia) && ja == old(ja) && a == old(a) && nnu == old(nnu)
    {
      if nnu == 0 {
        var ia', ja', a', nnu', nnz', view' := CompressAt(sort, entries);
        SetFields(rows, cols, printLevel, [], view', ia', ja', a', nnu', nnz');
      }
    }

    /** `uncompress()`: a no-op when uncompressed; otherwise the set is rebuilt from the
        arrays, which are emptied. The row functor rebuilds the set compressed; the column
        functor moves every row index by the first column offset. */
    method Uncompress()
      requires Valid()
      modifies this
      ensures Valid() && !IsCompressed()
      ensures Contents() == ShiftMinor(sort, old(Contents()), UncompressShift(sort, old(ja)))
      ensures sort == ByRow ==> Contents() == old(Contents())
      ensures ia == [] && ja == [] && a == [] && nnz == 0
      ensures rows == old(rows) && cols == old(cols) && printLevel == old(printLevel)
      ensures !old(IsCompressed()) ==> entries == old(entries)
    {
      if nnu != 0 {
        ShiftMinorZero(sort, view);
        var entries' := UncompressAt(sort, view, ia, ja, a, nnu, nnz);
        SetFields(rows, cols, printLevel, entries', [], [], [], [], 0, 0);
      } else {
        ShiftMinorZero(sort, entries);
      }
    }

    /** The const `operator()(i, j)`: the value at `(i+BASE, j+BASE)`, `None` for the
        sentinel. */
    method Read(i: nat, j: nat) returns (r: Option<real>)
      requires Valid()
      requires IsCompressed() ==> sort == ByRow && ia[0] == base && i < nnu
      ensures r == Find(Contents(), Coord(i + base, j + base))
    {
      r := Lookup(sort, base, entries, view, ia, ja, a, nnu, nnz, i, j);
    }

    /** The non-const `operator()(i, j)` used without assigning through it. */
    method Touch(i: nat, j: nat) returns (r: Option<real>)
      requires Valid()
      requires IsCompressed() ==> sort == ByRow && ia[0] == base && i < nnu
      modifies this
      ensures Valid() && IsCompressed() == old(IsCompressed())
      ensures r == Find(Contents(), Coord(i + base, j + base))
      ensures IsCompressed() ==> Contents() == old(Contents())
      ensures !IsCompressed() ==> Touched(old(Contents()), Contents(), Coord(i + base, j + base))
      ensures rows == old(rows) && cols == old(cols) && printLevel == old(printLevel)
    {
      var entries';
      r, entries' := TouchAt(sort, base, entries, view, ia, ja, a, nnu, nnz, i, j);
      SetFields(rows, cols, printLevel, entries', view, ia, ja, a, nnu, nnz);
    }

    /** `operator()(i, j) = v`. */
    method Write(i: nat, j: nat, v: real) returns (o: Outcome)
      requires Valid()
      requires IsCompressed() ==> sort == ByRow && ia[0] == base && i < nnu
      modifies this
      ensures Valid() && IsCompressed() == old(IsCompressed())
      ensures !IsCompressed() ==> o == Pass
      ensures o == Pass <==> !IsCompressed() || Coord(i + base, j + base) in old(Keys(Contents()))
      ensures Assigned(old(Contents()), Contents(), Coord(i + base, j + base), v, o)
      ensures o != Pass ==> a == old(a)
      ensures ia == old(ia) && ja == old(ja)
      ensures rows == old(rows) && cols == old(cols) && printLevel == old(printLevel)
    {
      var entries', a';
      ghost var view';
      o, entries', view', a' := WriteAt(sort, base, entries, view, ia, ja, a, nnu, nnz, i, j, v);
      SetFields(rows, cols, printLevel, entries', view', ia, ja, a', nnu, nnz);
    }

    /** `zerorow(r)`: zeroes the values of row `r`'s slice of the CSR arrays. It
        presumes the compressed row form with offsets starting at BASE and a row inside
        the offsets. */
    method Zerorow(r: nat)
      requires Valid() && IsCompressed() && sort == ByRow && ia[0] == base && r < nnu
      modifies this
      ensures Valid() && IsCompressed()
      ensures view == ZeroedRow(old(view), base + r)
      ensures a == ZeroSlice(old(a), ia[r] - base, ia[r + 1] - base)
      ensures ia == old(ia) && ja == old(ja) && nnu == old(nnu) && nnz == old(nnz)
      ensures rows == old(rows) && cols == old(cols) && printLevel == old(printLevel)
    {
      var a', view' := ZeroRowAt(sort, entries, view, ia, ja, a, nnu, nnz, base, r);
      SetFields(rows, cols, printLevel, entries, view', ia, ja, a', nnu, nnz);
    }

    /** `operator=(value)`: every stored value of the arrays becomes `value`. The
        uncompressed set is left as it is. */
    method AssignValue(x: real)
      requires Valid()
      modifies this
      ensures Valid() && IsCompressed() == old(IsCompressed())
      ensures IsCompressed() ==> Contents() == WithValues(old(Contents()), Filled(|old(Contents())|, x))
      ensures !IsCompressed() ==> Contents() == old(Contents())
      ensures ia == old(ia) && ja == old(ja) && |a| == |old(a)|
      ensures rows == old(rows) && cols == old(cols) && printLevel == old(printLevel)
    {
      if nnu != 0 {
        EncodesWithValues(sort, view, Offsets(sort, ia, ja), Indices(sort, ia, ja), a, Filled(|a|, x));
      }
      a := Filled(|a|, x);
      if nnu != 0 {
        view := WithValues(view, a);
      }
    }

    /** `initialize(i, j, value)`: at the current extent it is `operator=(value)`; any
        other extent fails, since resizing is not available. */
    method InitializeSized(i: nat, j: nat, x: real) returns (o: Outcome)
      requires Valid()
      modifies this
      ensures Valid() && IsCompressed() == old(IsCompressed())
      ensures o == (if i == old(rows) && j == old(cols) then Pass else Fail(ResizingNotAvailable))
      ensures o == Pass && IsCompressed() ==> Contents() == WithValues(old(Contents()), Filled(|old(Contents())|, x))
      ensures o != Pass || !IsCompressed() ==> Contents() == old(Contents())
      ensures rows == old(rows) && cols == old(cols) && printLevel == old(printLevel)
    {
      if i == rows && j == cols {
        AssignValue(x);
        o := Pass;
      } else {
        o := Fail(ResizingNotAvailable);
      }
    }

    /** `initialize(vector)`: always fails. */
    method InitializeFromValues(v: seq<real>) returns (o: Outcome)
      ensures o == Fail(InitializeFromVectorNotPossible)
    {
      o := Fail(InitializeFromVectorNotPossible);
    }

    /** `operator=(other)`: copies extent, set, arrays and counts (not the print level). */
    method Assign(other: SparseMatrix)
      requires Valid() && other.Valid() && other.sort == sort && other.base == base
      modifies this
      ensures Valid() && Contents() == old(other.Contents()) && IsCompressed() == old(other.IsCompressed())
      ensures State() == old(other.State()).(printLevel := old(printLevel))
    {
      if other == this {
        return;
      }
      SetFields(other.rows, other.cols, printLevel, other.entries, other.view, other.ia, other.ja, other.a,
                other.nnu, other.nnz);
    }

    /** `swap(other)`: exchanges everything, the print level included. */
    method Swap(other: SparseMatrix)
      requires Valid() && other.Valid() && other.sort == sort && other.base == base
      modifies this, other
      ensures Valid() && other.Valid()
      ensures State() == old(other.State()) && other.State() == old(State())
    {
      if other == this {
        return;
      }
      var r1, c1, p1, e1, a1, ia1, ja1, u1, z1 := rows, cols, printLevel, entries, a, ia, ja, nnu, nnz;
      var r2, c2, p2, e2, a2, ia2, ja2, u2, z2 :=
        other.rows, other.cols, other.printLevel, other.entries, other.a, other.ia, other.ja, other.nnu, other.nnz;
      ghost var w1, w2 := view, other.view;
      SetFields(r2, c2, p2, e2, w2, ia2, ja2, a2, u2, z2);
      other.SetFields(r1, c1, p1, e1, w1, ia1, ja1, a1, u1, z1);
    }

    /** The end of `initialize(fname)` once the file's entries are in the set: the
        symmetry pass, then `compress`, then the structural check, which fails when
        the row count differs from `nnu` or a stored column (less BASE) reaches
        `cols`. A failed check leaves the compressed result in place. The set must not
        end up empty, which holds when there is a row or an entry. */
    method FinishLoad() returns (o: Outcome, nmodif: nat)
      requires Valid() && !IsCompressed() && (rows > 0 || entries != [])
      modifies this
      ensures Valid() && IsCompressed()
      ensures Loaded(sort, base, old(rows), old(cols), old(entries), view, ia, ja, nnu, o, nmodif)
      ensures rows == old(rows) && cols == old(cols) && printLevel == old(printLevel)
    {
      var ia', ja', a', nnu', nnz';
      ghost var view';
      o, nmodif, ia', ja', a', nnu', nnz', view' := FinishLoadAt(sort, base, rows, cols, entries);
      SetFields(rows, cols, printLevel, [], view', ia', ja', a', nnu', nnz');
    }

    /** The level `print` renders at: chosen by the extent under `print_auto`, otherwise
        the clamped explicit level, whatever the extent. */
    function PrintLevel(): (l: PrintPolicy.Level)
      reads this
      ensures printLevel == 0 ==> l == PrintPolicy.AutoLevel(rows, cols)
      ensures printLevel != 0 ==> l == PrintPolicy.Resolve(printLevel, 0, 0)
    {
      PrintPolicy.Resolve(printLevel, rows, cols)
    }
  }
}

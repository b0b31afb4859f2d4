/** The coordinate entries of a sparse matrix and the ordered entry set
    (`std::set<coord_t<T>, SORT>`) that holds them before compression.
    The set is a sequence kept strictly increasing under the chosen comparator,
    so that iterating it visits the entries in the comparator's order, and
    `Insert` keeps an entry already present (std::set::insert does not overwrite). */
module Coordinates {
  import opened MatrixCommon

  /** An `idx_t` used as a sparse address: row `i`, column `j`. */
  datatype Coord = Coord(i: int, j: int)

  /** A `coord_t<T>`: a coordinate and the value stored at it. */
  datatype Entry = Entry(at: Coord, v: real)

  /** The SORT parameter: `sort_by_row_t` or `sort_by_column_t`. */
  datatype Sort = ByRow | ByColumn

  /** The comparators `sort_by_row_t::operator()` and `sort_by_column_t::operator()`. */
  predicate Less(s: Sort, a: Coord, b: Coord) {
    match s
    case ByRow => if a.i < b.i then true else if a.i > b.i then false else a.j < b.j
    case ByColumn => if a.j < b.j then true else if a.j > b.j then false else a.i < b.i
  }

  /** The primary key the compressed form groups by: the row for row-sorted sets,
      the column for column-sorted sets. */
  function Major(s: Sort, c: Coord): int {
    if s == ByRow then c.i else c.j
  }

  /** The secondary key stored in the index array of the compressed form. */
  function Minor(s: Sort, c: Coord): int {
    if s == ByRow then c.j else c.i
  }

  /** The coordinate with the given primary and secondary keys. */
  function MakeCoord(s: Sort, major: int, minor: int): (c: Coord)
    ensures Major(s, c) == major && Minor(s, c) == minor
  {
    if s == ByRow then Coord(major, minor) else Coord(minor, major)
  }

  /** Each comparator is the lexicographic order on (primary key, secondary key),
      hence a strict total order on coordinates. */
  lemma LessIsLexicographic(s: Sort, a: Coord, b: Coord)
    ensures Less(s, a, b) <==> Major(s, a) < Major(s, b) || (Major(s, a) == Major(s, b) && Minor(s, a) < Minor(s, b))
    ensures !Less(s, a, a)
    ensures a != b ==> Less(s, a, b) || Less(s, b, a)
    ensures MakeCoord(s, Major(s, a), Minor(s, a)) == a
  {
  }

  /** The sequence is strictly increasing under the comparator: the iteration order of the set. */
  predicate Ordered(s: Sort, E: seq<Entry>) {
    forall p, q :: 0 <= p < q < |E| ==> Less(s, E[p].at, E[q].at)
  }

  /** The coordinates present in the set. */
  function Keys(E: seq<Entry>): (K: set<Coord>)
    ensures forall x :: x in E ==> x.at in K
    ensures forall c :: c in K ==> exists x :: x in E && x.at == c
    decreases |E|
  {
    if E == [] then {} else {E[0].at} + Keys(E[1..])
  }

  /** Prepending an entry smaller than all the others keeps a sequence ordered. */
  lemma OrderedCons(s: Sort, x: Entry, R: seq<Entry>)
    requires Ordered(s, R)
    requires forall y :: y in R ==> Less(s, x.at, y.at)
    ensures Ordered(s, [x] + R)
  {
    forall p, q | 0 <= p < q < |[x] + R|
      ensures Less(s, ([x] + R)[p].at, ([x] + R)[q].at)
    {
      assert ([x] + R)[q] == R[q - 1];
      if p > 0 {
        assert ([x] + R)[p] == R[p - 1];
      } else {
        assert R[q - 1] in R;
      }
    }
  }

  /** A slice of an ordered sequence is ordered. */
  lemma OrderedSlice(s: Sort, E: seq<Entry>, lo: nat, hi: nat)
    requires Ordered(s, E) && lo <= hi <= |E|
    ensures Ordered(s, E[lo..hi])
  {
    forall p, q | 0 <= p < q < hi - lo
      ensures Less(s, E[lo..hi][p].at, E[lo..hi][q].at)
    {
      assert E[lo..hi][p] == E[lo + p] && E[lo..hi][q] == E[lo + q];
    }
  }

  /** Every later entry of an ordered sequence is larger than its first one. */
  lemma OrderedHead(s: Sort, E: seq<Entry>)
    requires Ordered(s, E) && E != []
    ensures Ordered(s, E[1..])
    ensures forall y :: y in E[1..] ==> Less(s, E[0].at, y.at)
  {
    OrderedSlice(s, E, 1, |E|);
    forall y | y in E[1..] ensures Less(s, E[0].at, y.at) {
      var q :| 0 <= q < |E[1..]| && E[1..][q] == y;
      assert E[q + 1] == y;
    }
  }

  /** `std::set::insert`: adds `e` unless an entry with the same coordinate is present;
      the boolean is `pair::second`, true when the entry was added. */
  function Insert(s: Sort, E: seq<Entry>, e: Entry): (r: (seq<Entry>, bool))
    requires Ordered(s, E)
    ensures Ordered(s, r.0)
    ensures r.1 <==> e.at !in Keys(E)
    ensures !r.1 ==> r.0 == E
    ensures forall x :: x in r.0 <==> x in E || (r.1 && x == e)
    ensures |r.0| == |E| + (if r.1 then 1 else 0)
    decreases |E|
  {
    if E == [] then ([e], true)
    else
      OrderedHead(s, E);
      assert forall x :: x in E <==> x == E[0] || x in E[1..];
      if E[0].at == e.at then (E, false)
      else if Less(s, e.at, E[0].at) then
        assert forall y :: y in E ==> Less(s, e.at, y.at);
        LessIsLexicographic(s, e.at, e.at);
        assert forall y :: y in E ==> y.at != e.at;
        OrderedCons(s, e, E);
        ([e] + E, true)
      else
        var (rest, added) := Insert(s, E[1..], e);
        LessIsLexicographic(s, e.at, E[0].at);
        assert forall x :: x in rest ==> Less(s, E[0].at, x.at);
        OrderedCons(s, E[0], rest);
        ([E[0]] + rest, added)
  }

  /** Inserting entries one after another, in the order given. */
  function InsertAll(s: Sort, acc: seq<Entry>, xs: seq<Entry>): (r: seq<Entry>)
    requires Ordered(s, acc)
    ensures Ordered(s, r)
    decreases |xs|
  {
    if xs == [] then acc else InsertAll(s, Insert(s, acc, xs[0]).0, xs[1..])
  }

  /** The value stored at a coordinate, `None` standing for the quiet-NaN sentinel
      `m_zero` returned for absent entries. */
  function Find(E: seq<Entry>, c: Coord): (r: Option<real>)
    ensures r == None <==> c !in Keys(E)
    ensures r.Some? ==> Entry(c, r.value) in E
    decreases |E|
  {
    if E == [] then None
    else if E[0].at == c then Some(E[0].v)
    else Find(E[1..], c)
  }

  /** In an ordered set, lookup is membership: `Find` answers `v` exactly when the
      entry `(c, v)` is present, and the sentinel exactly when `c` is absent. */
  lemma {:induction false} FindIsMembership(s: Sort, E: seq<Entry>, c: Coord, v: real)
    requires Ordered(s, E)
    ensures Find(E, c) == Some(v) <==> Entry(c, v) in E
    ensures Find(E, c) == None <==> c !in Keys(E)
    decreases |E|
  {
    if E != [] {
      FindIsMembership(s, E[1..], c, v);
      assert forall x :: x in E <==> x == E[0] || x in E[1..];
      if E[0].at == c {
        assert forall x :: x in E[1..] ==> Less(s, E[0].at, x.at);
        LessIsLexicographic(s, c, c);
      }
    }
  }

  /** Inserting entries that each come after everything already present appends them:
      rebuilding a set from its own ordered traversal gives back the same sequence. */
  lemma {:induction false} InsertAllOrderedAppends(s: Sort, acc: seq<Entry>, xs: seq<Entry>)
    requires Ordered(s, acc + xs)
    ensures Ordered(s, acc)
    ensures InsertAll(s, acc, xs) == acc + xs
    decreases |xs|
  {
    if xs == [] {
      assert acc + xs == acc;
    } else {
      var acc' := acc + [xs[0]];
      assert acc' + xs[1..] == acc + xs;
      assert (acc + xs)[..|acc| + 1] == acc';
      OrderedSlice(s, acc + xs, 0, |acc| + 1);
      InsertAppendsLargest(s, acc, xs[0]);
      InsertAllOrderedAppends(s, acc', xs[1..]);
    }
  }

  /** Inserting an entry larger than every present one appends it. */
  lemma {:induction false} InsertAppendsLargest(s: Sort, acc: seq<Entry>, e: Entry)
    requires Ordered(s, acc + [e])
    ensures Ordered(s, acc)
    ensures Insert(s, acc, e) == (acc + [e], true)
    decreases |acc|
  {
    OrderedSlice(s, acc + [e], 0, |acc|);
    assert (acc + [e])[..|acc|] == acc;
    if acc != [] {
      OrderedSlice(s, acc + [e], 1, |acc| + 1);
      assert Less(s, acc[0].at, e.at) by { assert (acc + [e])[0] == acc[0] && (acc + [e])[|acc|] == e; }
      LessIsLexicographic(s, acc[0].at, e.at);
      LessIsLexicographic(s, e.at, acc[0].at);
      assert acc[1..] + [e] == (acc + [e])[1..];
      InsertAppendsLargest(s, acc[1..], e);
      assert [acc[0]] + (acc[1..] + [e]) == acc + [e];
    }
  }

  /** Inserting adds the entry's coordinate to the key set and nothing else. */
  lemma InsertKeys(s: Sort, E: seq<Entry>, e: Entry)
    requires Ordered(s, E)
    ensures Keys(Insert(s, E, e).0) == Keys(E) + {e.at}
  {
    var r := Insert(s, E, e).0;
    forall c | c in Keys(r) ensures c in Keys(E) + {e.at} {
      var x :| x in r && x.at == c;
    }
  }

  /** After an insertion every present coordinate keeps its value, the inserted one is
      found with the inserted value when it was absent, and every other is absent. */
  lemma {:induction false} InsertFinds(s: Sort, E: seq<Entry>, e: Entry)
    requires Ordered(s, E)
    ensures forall c :: Find(Insert(s, E, e).0, c) ==
              (if c in Keys(E) then Find(E, c) else if c == e.at then Some(e.v) else None)
  {
    var r := Insert(s, E, e);
    InsertKeys(s, E, e);
    forall c ensures Find(r.0, c) == (if c in Keys(E) then Find(E, c) else if c == e.at then Some(e.v) else None) {
      if c in Keys(E) {
        var x :| x in E && x.at == c;
        FindIsMembership(s, E, c, x.v);
        FindIsMembership(s, r.0, c, x.v);
      } else if c == e.at {
        FindIsMembership(s, r.0, c, e.v);
      } else {
        FindIsMembership(s, r.0, c, 0.0);
      }
    }
  }

  /** In an ordered set the entry found for a present coordinate is the one stored at
      its position. */
  lemma {:induction false} FindAt(s: Sort, E: seq<Entry>, p: nat)
    requires Ordered(s, E) && p < |E|
    ensures Find(E, E[p].at) == Some(E[p].v)
  {
    FindIsMembership(s, E, E[p].at, E[p].v);
    assert E[p] in E;
  }

  /** The same coordinates carrying the values `vals`, position by position. */
  function WithValues(E: seq<Entry>, vals: seq<real>): (r: seq<Entry>)
    requires |vals| == |E|
    ensures |r| == |E|
    ensures forall p :: 0 <= p < |E| ==> r[p] == Entry(E[p].at, vals[p])
  {
    seq(|E|, p requires 0 <= p < |E| => Entry(E[p].at, vals[p]))
  }

  /** Replacing the values keeps the set ordered, keeps its coordinates, and makes every
      lookup answer the new value stored at the coordinate's position. */
  lemma {:induction false} WithValuesLookup(s: Sort, E: seq<Entry>, vals: seq<real>)
    requires Ordered(s, E) && |vals| == |E|
    ensures Ordered(s, WithValues(E, vals))
    ensures Keys(WithValues(E, vals)) == Keys(E)
    ensures forall p :: 0 <= p < |E| ==> Find(WithValues(E, vals), E[p].at) == Some(vals[p])
    ensures forall c :: c !in Keys(E) ==> Find(WithValues(E, vals), c) == None
  {
    var r := WithValues(E, vals);
    assert Ordered(s, r);
    forall c | c in Keys(r) ensures c in Keys(E) {
      var x :| x in r && x.at == c;
      var p :| 0 <= p < |r| && r[p] == x;
      assert E[p] in E;
    }
    forall c | c in Keys(E) ensures c in Keys(r) {
      var x :| x in E && x.at == c;
      var p :| 0 <= p < |E| && E[p] == x;
      assert r[p] in r;
    }
    forall p | 0 <= p < |E| ensures Find(r, E[p].at) == Some(vals[p]) {
      FindAt(s, r, p);
    }
    forall c | c !in Keys(E) ensures Find(r, c) == None {
      FindIsMembership(s, r, c, 0.0);
    }
  }

  /** The entry at coordinate `c`, if present, takes the value `v`. */
  function SetValue(E: seq<Entry>, c: Coord, v: real): (r: seq<Entry>)
    ensures |r| == |E|
  {
    WithValues(E, seq(|E|, p requires 0 <= p < |E| => if E[p].at == c then v else E[p].v))
  }

  /** A write through the reference `operator()` returns: insert `(c, 0)` unless `c` is
      present, then assign `v` to the entry at `c`. Afterwards `c` is present with value
      `v`, every other lookup answers as before, and no other coordinate appears. */
  lemma {:induction false} WriteLaw(s: Sort, E: seq<Entry>, c: Coord, v: real)
    requires Ordered(s, E)
    ensures Ordered(s, SetValue(Insert(s, E, Entry(c, 0.0)).0, c, v))
    ensures Keys(SetValue(Insert(s, E, Entry(c, 0.0)).0, c, v)) == Keys(E) + {c}
    ensures Find(SetValue(Insert(s, E, Entry(c, 0.0)).0, c, v), c) == Some(v)
    ensures forall d :: d != c ==> Find(SetValue(Insert(s, E, Entry(c, 0.0)).0, c, v), d) == Find(E, d)
  {
    var I := Insert(s, E, Entry(c, 0.0)).0;
    InsertKeys(s, E, Entry(c, 0.0));
    InsertFinds(s, E, Entry(c, 0.0));
    SetValueLaw(s, I, c, v);
    forall d | d != c ensures Find(I, d) == Find(E, d) {
      if d !in Keys(E) {
        FindIsMembership(s, E, d, 0.0);
      }
    }
  }

  /** Assigning `v` at a present coordinate `c` keeps the set ordered with the same
      coordinates, makes `c` answer `v`, and leaves every other lookup as it was. */
  lemma {:induction false} SetValueLaw(s: Sort, I: seq<Entry>, c: Coord, v: real)
    requires Ordered(s, I) && c in Keys(I)
    ensures Ordered(s, SetValue(I, c, v))
    ensures Keys(SetValue(I, c, v)) == Keys(I)
    ensures Find(SetValue(I, c, v), c) == Some(v)
    ensures forall d :: d != c ==> Find(SetValue(I, c, v), d) == Find(I, d)
  {
    var vals := seq(|I|, p requires 0 <= p < |I| => if I[p].at == c then v else I[p].v);
    assert SetValue(I, c, v) == WithValues(I, vals);
    WithValuesLookup(s, I, vals);
    var x :| x in I && x.at == c;
    var q :| 0 <= q < |I| && I[q] == x;
    assert vals[q] == v;
    forall d | d != c ensures Find(WithValues(I, vals), d) == Find(I, d) {
      WithValuesKeepsOthers(s, I, vals, c, d);
    }
  }

  /** Replacing only the values stored at `c` leaves the lookup of any other
      coordinate unchanged. */
  lemma WithValuesKeepsOthers(s: Sort, E: seq<Entry>, vals: seq<real>, c: Coord, d: Coord)
    requires Ordered(s, E) && |vals| == |E| && d != c
    requires forall p :: 0 <= p < |E| && E[p].at != c ==> vals[p] == E[p].v
    ensures Find(WithValues(E, vals), d) == Find(E, d)
  {
    WithValuesLookup(s, E, vals);
    if d in Keys(E) {
      var p := KeyPosition(E, d);
      FindAt(s, E, p);
    } else {
      FindIsMembership(s, E, d, 0.0);
    }
  }

  /** A present coordinate sits at some position of the set. */
  lemma KeyPosition(E: seq<Entry>, c: Coord) returns (p: nat)
    requires c in Keys(E)
    ensures p < |E| && E[p].at == c
  {
    var x :| x in E && x.at == c;
    p :| 0 <= p < |E| && E[p] == x;
  }

}

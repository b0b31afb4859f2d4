/** `sort_by_row_t::compress/uncompress` and `sort_by_column_t::compress/uncompress`:
    conversion between the ordered entry set and the three-array compressed form.

    Both functors group the entries by their primary key (the row for row sorting,
    the column for column sorting) into an offsets array, and store the secondary
    key of each entry in an index array: row sorting fills `ia` with offsets and `ja`
    with column indices (CSR), column sorting fills `ja` with offsets and `ia` with
    row indices (CSC). The offsets start at the smallest primary key, which
    `uncompress` then uses as the numbering base. */
module Compression {
  import opened MatrixCommon
  import opened Coordinates

  /** The offsets array of the compressed form: `ia` for row sorting, `ja` for column sorting. */
  function Offsets(s: Sort, ia: seq<int>, ja: seq<int>): seq<int> {
    if s == ByRow then ia else ja
  }

  /** The index array of the compressed form: `ja` for row sorting, `ia` for column sorting. */
  function Indices(s: Sort, ia: seq<int>, ja: seq<int>): seq<int> {
    if s == ByRow then ja else ia
  }

  predicate NonDecreasing(off: seq<int>) {
    forall k, l :: 0 <= k <= l < |off| ==> off[k] <= off[l]
  }

  /** `off`, `idx` and `vals` are the compressed form of the nonempty ordered set `E`:
      one offset per primary key from the smallest to the largest plus a trailing total,
      starting at the smallest primary key and never decreasing (empty groups repeat
      the offset), the group of key `off[0] + k` occupying the positions
      `[off[k] - off[0], off[k+1] - off[0])`, and `idx`/`vals` listing the secondary
      keys and values in the set's order. */
  predicate Encodes(s: Sort, E: seq<Entry>, off: seq<int>, idx: seq<int>, vals: seq<real>) {
    && |E| > 0 && |off| >= 2
    && |idx| == |E| && |vals| == |E|
    && off[0] == Major(s, E[0].at)
    && Major(s, E[|E| - 1].at) == off[0] + |off| - 2
    && off[|off| - 1] - off[0] == |E|
    && NonDecreasing(off)
    && (forall p :: 0 <= p < |E| ==> idx[p] == Minor(s, E[p].at) && vals[p] == E[p].v)
    && (forall k, p :: 0 <= k < |off| - 1 && 0 <= p < |E| ==>
          (off[k] - off[0] <= p < off[k + 1] - off[0] <==> Major(s, E[p].at) == off[0] + k))
  }

  /** In an ordered set the primary keys never decrease. */
  lemma OrderedMajorMonotone(s: Sort, E: seq<Entry>)
    requires Ordered(s, E)
    ensures forall p, q :: 0 <= p <= q < |E| ==> Major(s, E[p].at) <= Major(s, E[q].at)
  {
    forall p, q | 0 <= p < q < |E| ensures Major(s, E[p].at) <= Major(s, E[q].at) {
      LessIsLexicographic(s, E[p].at, E[q].at);
    }
  }

  /** `compress` of either functor on a nonempty set (the source dereferences `begin()`
      of the set, so an empty set is excluded). The end-of-set test is made before the
      entry is read. */
  method Compress(s: Sort, E: seq<Entry>) returns (ia: seq<int>, ja: seq<int>, a: seq<real>, nnu: int, nnz: int)
    requires E != [] && Ordered(s, E)
    ensures Encodes(s, E, Offsets(s, ia, ja), Indices(s, ia, ja), a)
    ensures Offsets(s, ia, ja)[0] == Major(s, E[0].at)
    ensures Offsets(s, ia, ja)[|Offsets(s, ia, ja)| - 1] - Offsets(s, ia, ja)[0] == |E|
    ensures nnu == |Offsets(s, ia, ja)| - 1 && nnz == |E|
  {
    OrderedMajorMonotone(s, E);
    var first := Major(s, E[0].at);
    var last := Major(s, E[|E| - 1].at);
    var off: seq<int> := [first];
    var idx: seq<int> := [];
    a := [];
    var it := 0;
    var r := first;
    while r <= last
      invariant first <= r <= last + 1
      invariant |off| == r - first + 1 && off[0] == first
      invariant 0 <= it <= |E| && off[|off| - 1] == first + it
      invariant NonDecreasing(off)
      invariant forall p :: 0 <= p < it ==> Major(s, E[p].at) < r
      invariant forall p :: it <= p < |E| ==> Major(s, E[p].at) >= r
      invariant |idx| == it && |a| == it
      invariant forall p :: 0 <= p < it ==> idx[p] == Minor(s, E[p].at) && a[p] == E[p].v
      invariant forall k, p :: 0 <= k < |off| - 1 && 0 <= p < |E| ==>
                  (off[k] - first <= p < off[k + 1] - first <==> Major(s, E[p].at) == first + k)
      decreases last + 1 - r
    {
      var start := it;
      it, idx, a := ScanGroup(s, E, r, it, idx, a);
      assert forall p :: it <= p < |E| ==> Major(s, E[p].at) > r;
      ghost var prev := off;
      off := off + [first + it];
      ExtendOffsets(s, E, prev, off, first, r, start, it);
      r := r + 1;
    }
    if s == ByRow {
      ia, ja := off, idx;
    } else {
      ia, ja := idx, off;
    }
    nnu := |off| - 1;
    nnz := |E|;
  }

  /** The inner loop of `compress`: copies the secondary keys and values of the entries
      whose primary key is `r`, from position `it` on, and stops at the first entry past
      them (or at the end of the set). */
  method ScanGroup(s: Sort, E: seq<Entry>, r: int, it: nat, idx: seq<int>, a: seq<real>)
    returns (it': nat, idx': seq<int>, a': seq<real>)
    requires it <= |E| && |idx| == it && |a| == it
    requires forall p :: 0 <= p < it ==> idx[p] == Minor(s, E[p].at) && a[p] == E[p].v
    ensures it <= it' <= |E| && |idx'| == it' && |a'| == it'
    ensures forall p :: 0 <= p < it' ==> idx'[p] == Minor(s, E[p].at) && a'[p] == E[p].v
    ensures forall p :: it <= p < it' ==> Major(s, E[p].at) == r
    ensures it' == |E| || Major(s, E[it'].at) != r
  {
    it', idx', a' := it, idx, a;
    while it' < |E| && Major(s, E[it'].at) == r
      invariant it <= it' <= |E| && |idx'| == it' && |a'| == it'
      invariant forall p :: 0 <= p < it' ==> idx'[p] == Minor(s, E[p].at) && a'[p] == E[p].v
      invariant forall p :: it <= p < it' ==> Major(s, E[p].at) == r
      decreases |E| - it'
    {
      idx' := idx' + [Minor(s, E[it'].at)];
      a' := a' + [E[it'].v];
      it' := it' + 1;
    }
  }

  /** Closing group `r` at position `it` extends the offsets so that every group,
      the new one included, spans exactly the positions of its primary key. */
  lemma ExtendOffsets(s: Sort, E: seq<Entry>, off: seq<int>, off': seq<int>, first: int, r: int, start: nat, it: nat)
    requires first <= r && |off| == r - first + 1 && off[0] == first && off[|off| - 1] == first + start
    requires start <= it <= |E| && off' == off + [first + it] && NonDecreasing(off)
    requires forall k, p :: 0 <= k < |off| - 1 && 0 <= p < |E| ==>
               (off[k] - first <= p < off[k + 1] - first <==> Major(s, E[p].at) == first + k)
    requires forall p :: 0 <= p < start ==> Major(s, E[p].at) < r
    requires forall p :: start <= p < it ==> Major(s, E[p].at) == r
    requires forall p :: it <= p < |E| ==> Major(s, E[p].at) > r
    ensures NonDecreasing(off')
    ensures forall k, p :: 0 <= k < |off'| - 1 && 0 <= p < |E| ==>
              (off'[k] - first <= p < off'[k + 1] - first <==> Major(s, E[p].at) == first + k)
  {
    forall k, p | 0 <= k < |off'| - 1 && 0 <= p < |E|
      ensures off'[k] - first <= p < off'[k + 1] - first <==> Major(s, E[p].at) == first + k
    {
      if k < |off| - 1 {
        assert off'[k] == off[k] && off'[k + 1] == off[k + 1];
      }
    }
  }

  /** Offsets and arrays that `uncompress` can walk: the offsets never decrease and the
      positions they span, counted from the first offset, exist in both arrays. */
  predicate WellFormed(off: seq<int>, idx: seq<int>, vals: seq<real>) {
    && |off| >= 1
    && NonDecreasing(off)
    && off[|off| - 1] - off[0] <= |idx|
    && off[|off| - 1] - off[0] <= |vals|
  }

  /** The entries the inner loop of `uncompress` inserts for group `k`, from position `p`
      on: primary key `off[0] + k`, secondary key `idx[p] + shift`, value `vals[p]`. */
  function Bucket(s: Sort, off: seq<int>, idx: seq<int>, vals: seq<real>, shift: int, k: nat, p: int): (b: seq<Entry>)
    requires WellFormed(off, idx, vals) && k < |off| - 1 && off[k] - off[0] <= p <= off[k + 1] - off[0]
    ensures |b| == off[k + 1] - off[0] - p
    decreases off[k + 1] - off[0] - p
  {
    if p == off[k + 1] - off[0] then []
    else [Entry(MakeCoord(s, off[0] + k, idx[p] + shift), vals[p])] + Bucket(s, off, idx, vals, shift, k, p + 1)
  }

  /** The entries both loops of `uncompress` insert, group `k` onwards, in insertion order. */
  function Stream(s: Sort, off: seq<int>, idx: seq<int>, vals: seq<real>, shift: int, k: nat): (r: seq<Entry>)
    requires WellFormed(off, idx, vals) && k <= |off| - 1
    ensures |r| == off[|off| - 1] - off[k]
    decreases |off| - 1 - k
  {
    if k == |off| - 1 then []
    else Bucket(s, off, idx, vals, shift, k, off[k] - off[0]) + Stream(s, off, idx, vals, shift, k + 1)
  }

  /** The set `uncompress` leaves: every streamed entry inserted, in order, into an empty set. */
  function Rebuilt(s: Sort, off: seq<int>, idx: seq<int>, vals: seq<real>, shift: int): (r: seq<Entry>)
    requires WellFormed(off, idx, vals)
    ensures Ordered(s, r)
  {
    InsertAll(s, [], Stream(s, off, idx, vals, shift, 0))
  }

  /** Position `p` of the stream from group `q` holds the entry built from `idx[p]` and
      `vals[p]` under group `k`, the group whose slice contains `p`. */
  lemma {:induction false} StreamAt(s: Sort, off: seq<int>, idx: seq<int>, vals: seq<real>, shift: int, q: nat, k: nat, p: int)
    requires WellFormed(off, idx, vals) && q <= k < |off| - 1
    requires off[k] - off[0] <= p < off[k + 1] - off[0]
    ensures 0 <= p - (off[q] - off[0]) < |Stream(s, off, idx, vals, shift, q)|
    ensures Stream(s, off, idx, vals, shift, q)[p - (off[q] - off[0])] == Entry(MakeCoord(s, off[0] + k, idx[p] + shift), vals[p])
    decreases k - q
  {
    var here := Bucket(s, off, idx, vals, shift, q, off[q] - off[0]);
    var rest := Stream(s, off, idx, vals, shift, q + 1);
    assert Stream(s, off, idx, vals, shift, q) == here + rest;
    assert off[0] <= off[q] <= off[k] && off[q + 1] <= off[k + 1];
    var at := p - (off[q] - off[0]);
    if q == k {
      BucketAt(s, off, idx, vals, shift, k, off[k] - off[0], p);
      assert (here + rest)[at] == here[at];
    } else {
      assert off[q + 1] <= off[k];
      StreamAt(s, off, idx, vals, shift, q + 1, k, p);
      assert (here + rest)[at] == rest[p - (off[q + 1] - off[0])];
    }
  }

  lemma {:induction false} BucketAt(s: Sort, off: seq<int>, idx: seq<int>, vals: seq<real>, shift: int, k: nat, from: int, p: int)
    requires WellFormed(off, idx, vals) && k < |off| - 1
    requires off[k] - off[0] <= from <= p < off[k + 1] - off[0]
    ensures Bucket(s, off, idx, vals, shift, k, from)[p - from] == Entry(MakeCoord(s, off[0] + k, idx[p] + shift), vals[p])
    decreases p - from
  {
    if from < p {
      BucketAt(s, off, idx, vals, shift, k, from + 1, p);
    }
  }

  /** Inserting one more entry after a run of insertions. */
  lemma {:induction false} InsertAllSnoc(s: Sort, acc: seq<Entry>, xs: seq<Entry>, x: Entry)
    requires Ordered(s, acc)
    ensures InsertAll(s, acc, xs + [x]) == Insert(s, InsertAll(s, acc, xs), x).0
    decreases |xs|
  {
    if xs != [] {
      assert (xs + [x])[0] == xs[0] && (xs + [x])[1..] == xs[1..] + [x];
      InsertAllSnoc(s, Insert(s, acc, xs[0]).0, xs[1..], x);
    } else {
      assert [x][1..] == [];
    }
  }

  /** The nested loops of `uncompress`: for every group `i`, for every position `k` of its
      slice, insert the entry with primary key `base + i`, secondary key `idx[k] + shift`
      and value `vals[k]`, where `base` is the first offset. */
  method Rebuild(s: Sort, off: seq<int>, idx: seq<int>, vals: seq<real>, shift: int) returns (entries: seq<Entry>)
    requires WellFormed(off, idx, vals)
    ensures Ordered(s, entries)
    ensures entries == Rebuilt(s, off, idx, vals, shift)
  {
    ghost var full := Stream(s, off, idx, vals, shift, 0);
    entries := [];
    assert full[..0] == [];
    var i := 0;
    while i < |off| - 1
      invariant 0 <= i <= |off| - 1
      invariant 0 <= off[i] - off[0] <= |full|
      invariant entries == InsertAll(s, [], full[..off[i] - off[0]])
    {
      entries := InsertGroup(s, off, idx, vals, shift, i, entries);
      i := i + 1;
    }
    assert full[..off[|off| - 1] - off[0]] == full;
  }

  /** The inner loop of `uncompress` for group `i`: inserts the entries of its slice. */
  method InsertGroup(s: Sort, off: seq<int>, idx: seq<int>, vals: seq<real>, shift: int, i: nat, entries: seq<Entry>)
    returns (r: seq<Entry>)
    requires WellFormed(off, idx, vals) && i < |off| - 1
    requires 0 <= off[i] - off[0] <= |Stream(s, off, idx, vals, shift, 0)|
    requires entries == InsertAll(s, [], Stream(s, off, idx, vals, shift, 0)[..off[i] - off[0]])
    ensures 0 <= off[i + 1] - off[0] <= |Stream(s, off, idx, vals, shift, 0)|
    ensures r == InsertAll(s, [], Stream(s, off, idx, vals, shift, 0)[..off[i + 1] - off[0]])
  {
    ghost var full := Stream(s, off, idx, vals, shift, 0);
    assert off[i] <= off[i + 1] <= off[|off| - 1];
    var base := off[0];
    r := entries;
    var k := off[i] - base;
    while k < off[i + 1] - base
      invariant off[i] - base <= k <= off[i + 1] - base <= |full|
      invariant r == InsertAll(s, [], full[..k])
    {
      r := InsertOne(s, off, idx, vals, shift, i, k, r);
      k := k + 1;
    }
  }

  /** One step of the inner loop: insert the entry at slice position `k` of group `i`. */
  method InsertOne(s: Sort, off: seq<int>, idx: seq<int>, vals: seq<real>, shift: int, i: nat, k: int, r: seq<Entry>)
    returns (r': seq<Entry>)
    requires WellFormed(off, idx, vals) && i < |off| - 1
    requires off[i] - off[0] <= k < off[i + 1] - off[0]
    requires 0 <= k < |Stream(s, off, idx, vals, shift, 0)|
    requires r == InsertAll(s, [], Stream(s, off, idx, vals, shift, 0)[..k])
    ensures r' == InsertAll(s, [], Stream(s, off, idx, vals, shift, 0)[..k + 1])
  {
    var e := Entry(MakeCoord(s, off[0] + i, idx[k] + shift), vals[k]);
    RebuildStep(s, off, idx, vals, shift, i, k, r, e);
    r' := Insert(s, r, e).0;
  }

  /** One insertion of the inner loop extends the rebuilt prefix of the stream by one entry. */
  lemma RebuildStep(s: Sort, off: seq<int>, idx: seq<int>, vals: seq<real>, shift: int, i: nat, k: int, r: seq<Entry>,
                    e: Entry)
    requires WellFormed(off, idx, vals) && i < |off| - 1
    requires off[i] - off[0] <= k < off[i + 1] - off[0]
    requires 0 <= k < |Stream(s, off, idx, vals, shift, 0)|
    requires r == InsertAll(s, [], Stream(s, off, idx, vals, shift, 0)[..k])
    requires e == Entry(MakeCoord(s, off[0] + i, idx[k] + shift), vals[k])
    ensures Ordered(s, r)
    ensures Insert(s, r, e).0 == InsertAll(s, [], Stream(s, off, idx, vals, shift, 0)[..k + 1])
  {
    var full := Stream(s, off, idx, vals, shift, 0);
    StreamAt(s, off, idx, vals, shift, 0, i, k);
    assert full[..k + 1] == full[..k] + [full[k]];
    InsertAllSnoc(s, [], full[..k], full[k]);
  }

  /** `uncompress` of either functor, with the column functor's row indices taken as stored
      (see `UncompressByColumnAsWritten` for the source's column variant). The numbering
      base is the first offset; `nnu` and `nnz` are passed but not used, as in the source. */
  method Uncompress(s: Sort, ia: seq<int>, ja: seq<int>, a: seq<real>, nnu: int, nnz: int) returns (entries: seq<Entry>)
    requires WellFormed(Offsets(s, ia, ja), Indices(s, ia, ja), a)
    ensures Ordered(s, entries)
    ensures entries == Rebuilt(s, Offsets(s, ia, ja), Indices(s, ia, ja), a, 0)
  {
    entries := Rebuild(s, Offsets(s, ia, ja), Indices(s, ia, ja), a, 0);
  }

  /** `sort_by_column_t::uncompress` as written: it adds the base (the first column
      offset) to the stored row indices, which `compress` stored unshifted. */
  method UncompressByColumnAsWritten(ia: seq<int>, ja: seq<int>, a: seq<real>, nnu: int, nnz: int) returns (entries: seq<Entry>)
    requires WellFormed(ja, ia, a)
    ensures Ordered(ByColumn, entries)
    ensures entries == Rebuilt(ByColumn, ja, ia, a, ja[0])
  {
    entries := Rebuild(ByColumn, ja, ia, a, ja[0]);
  }

  /** `E` with every secondary key moved by `shift`. */
  function ShiftMinor(s: Sort, E: seq<Entry>, shift: int): (r: seq<Entry>)
    ensures |r| == |E|
  {
    seq(|E|, p requires 0 <= p < |E| => Entry(MakeCoord(s, Major(s, E[p].at), Minor(s, E[p].at) + shift), E[p].v))
  }

  /** The arrays of an encoding are walkable by `uncompress`, and what it streams is the
      encoded set itself with the secondary keys moved by `shift`. */
  lemma StreamOfEncoding(s: Sort, E: seq<Entry>, off: seq<int>, idx: seq<int>, vals: seq<real>, shift: int)
    requires Encodes(s, E, off, idx, vals)
    ensures WellFormed(off, idx, vals)
    ensures Stream(s, off, idx, vals, shift, 0) == ShiftMinor(s, E, shift)
  {
    var st := Stream(s, off, idx, vals, shift, 0);
    var sh := ShiftMinor(s, E, shift);
    forall p | 0 <= p < |E| ensures st[p] == sh[p] {
      StreamOfEncodingAt(s, E, off, idx, vals, shift, p);
    }
  }

  /** Position `p` of what `uncompress` streams from an encoding is entry `p` of the
      encoded set with its secondary key moved by `shift`. */
  lemma StreamOfEncodingAt(s: Sort, E: seq<Entry>, off: seq<int>, idx: seq<int>, vals: seq<real>, shift: int, p: nat)
    requires Encodes(s, E, off, idx, vals) && p < |E|
    ensures WellFormed(off, idx, vals)
    ensures Stream(s, off, idx, vals, shift, 0)[p] == ShiftMinor(s, E, shift)[p]
  {
    var k := GroupOf(off, p);
    StreamAt(s, off, idx, vals, shift, 0, k, p);
  }

  /** Every position below the total lies in the slice of some group: `k` is that group. */
  lemma GroupOf(off: seq<int>, p: int) returns (k: nat)
    requires |off| >= 2 && NonDecreasing(off) && 0 <= p < off[|off| - 1] - off[0]
    ensures k < |off| - 1 && off[k] - off[0] <= p < off[k + 1] - off[0]
  {
    k := 0;
    while off[k + 1] - off[0] <= p
      invariant 0 <= k < |off| - 1 && off[k] - off[0] <= p
      decreases |off| - k
    {
      k := k + 1;
    }
  }

  /** Shifting the secondary keys by zero changes nothing. */
  lemma ShiftMinorZero(s: Sort, E: seq<Entry>)
    ensures ShiftMinor(s, E, 0) == E
  {
    forall p | 0 <= p < |E| ensures ShiftMinor(s, E, 0)[p] == E[p] {
      LessIsLexicographic(s, E[p].at, E[p].at);
    }
  }

  /** Shifting every secondary key by the same amount keeps the comparator's order. */
  lemma ShiftMinorOrdered(s: Sort, E: seq<Entry>, shift: int)
    requires Ordered(s, E)
    ensures Ordered(s, ShiftMinor(s, E, shift))
  {
    var F := ShiftMinor(s, E, shift);
    forall p, q | 0 <= p < q < |F| ensures Less(s, F[p].at, F[q].at) {
      LessIsLexicographic(s, E[p].at, E[q].at);
      LessIsLexicographic(s, F[p].at, F[q].at);
    }
  }

  /** Round trip: decompressing the arrays `compress` produced for an ordered set, with
      the stored secondary keys taken as they are, rebuilds exactly that set. */
  lemma {:induction false} RoundTrip(s: Sort, E: seq<Entry>, off: seq<int>, idx: seq<int>, vals: seq<real>)
    requires Ordered(s, E) && Encodes(s, E, off, idx, vals)
    ensures WellFormed(off, idx, vals)
    ensures Rebuilt(s, off, idx, vals, 0) == E
  {
    StreamOfEncoding(s, E, off, idx, vals, 0);
    ShiftMinorZero(s, E);
    assert [] + E == E;
    InsertAllOrderedAppends(s, [], E);
  }

  /** The column functor's `uncompress` as written, applied to what its `compress`
      produced: every row index comes back increased by the smallest column, so the
      round trip holds exactly when the smallest column is 0. */
  lemma {:induction false} ColumnAsWrittenShiftsRows(E: seq<Entry>, off: seq<int>, idx: seq<int>, vals: seq<real>)
    requires Ordered(ByColumn, E) && Encodes(ByColumn, E, off, idx, vals)
    ensures WellFormed(off, idx, vals)
    ensures Rebuilt(ByColumn, off, idx, vals, off[0]) == ShiftMinor(ByColumn, E, off[0])
    ensures Rebuilt(ByColumn, off, idx, vals, off[0]) == E <==> off[0] == 0
  {
    var F := ShiftMinor(ByColumn, E, off[0]);
    StreamOfEncoding(ByColumn, E, off, idx, vals, off[0]);
    ShiftMinorOrdered(ByColumn, E, off[0]);
    assert [] + F == F;
    InsertAllOrderedAppends(ByColumn, [], F);
    if off[0] == 0 {
      ShiftMinorZero(ByColumn, E);
    } else {
      assert F[0].at.i == E[0].at.i + off[0];
    }
  }

  /** A concrete instance: the single entry at row 0, column 1 compresses to column
      offsets starting at 1, and the column `uncompress` as written brings it back at
      row 1. */
  lemma {:induction false} ColumnRoundTripCounterexample(off: seq<int>, idx: seq<int>, vals: seq<real>)
    requires Encodes(ByColumn, [Entry(Coord(0, 1), 2.5)], off, idx, vals)
    ensures WellFormed(off, idx, vals)
    ensures off == [1, 2] && idx == [0] && vals == [2.5]
    ensures Rebuilt(ByColumn, off, idx, vals, off[0]) == [Entry(Coord(1, 1), 2.5)]
  {
    var E := [Entry(Coord(0, 1), 2.5)];
    ColumnAsWrittenShiftsRows(E, off, idx, vals);
    assert ShiftMinor(ByColumn, E, 1)[0] == Entry(Coord(1, 1), 2.5);
  }
}

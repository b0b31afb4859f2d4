# lss matrix storage, modelled in Dafny

`lss` keeps one abstract value, an m x n array of numbers, in several physical
layouts and converts between them:

- `dense_matrix_v` is a single flat vector, addressed row by row or column by column.
- `dense_matrix_vv` is a vector of row vectors or column vectors.
- `sparse_matrix` is an ordered set of `((i, j), v)` coordinate entries. It can be
  compressed into three arrays `ia/ja/a` (sorted by row or by column) and back. Reads
  of absent entries give a sentinel. A file load runs a symmetry pass that completes
  the diagonal and mirrors every entry, then a structural check.
- `detail::sparse_matrix_csr` (the earlier revision) is a fixed compressed-sparse-row
  store. It cannot be resized, it checks its arrays after a load, and it zeroes a row
  through its slice of `a`.
- `linearsystem` keeps `A`, `b` and `x` together. It checks that their sizes agree and
  initializes, zeroes and clears the three in sequence.

The model has one module per part:

- `MatrixCommon`: the failure values that stand for the exceptions thrown, `size(d)`,
  and the fill and slice helpers.
- `PrintPolicy`: the print-level rule.
- `DenseLayout`: the orientation formulas and the abstract value `Cells`.
- `Dense`: classes `DenseV` and `DenseVV`, with the loops of the source as methods.
- `Coordinates`: the ordered entry set, its insertion, lookup and value assignment.
- `Compression`: both `compress`/`uncompress` functors and their round trip.
- `Sparse`: class `SparseMatrix`, the symmetry pass and the post-load check.
- `DetailCsr`: class `SparseMatrixCsr`.
- `LinearSystems`: class `LinearSystem` over three column-oriented `DenseV`.

Numbers are `real`. A C++ exception is a `Fail(error)` outcome, and the method stops
where the source throws. The quiet-NaN sentinel of a read is `None`.

The two `sparse_matrix` defects under Findings are modelled as written where the source uses
them: `SparseMatrix.Uncompress` with column sorting moves the rows by the first
column offset, and `compress` may start `ia` at a row other than BASE. The corrected column
`uncompress` is proved to round-trip; the compressed reads require `ia[0] == BASE`.

Where the two revisions share a class (`matrix`, `dense_matrix_v`, `dense_matrix_vv`),
the rows below cite the current revision in `lss/cf3/lss/matrix.hpp`. The earlier one
in `lss/cf3/lss/detail/matrix.hpp` behaves the same in everything modelled, except for:

- its `size(d)` past the second dimension (`DetailSizeOf`);
- its print level, which has no clamp (`ResolveDetail`);
- its nested-to-flat file copy (`DenseV.LoadNested`).

## Model

| member | source | states |
|---|---|---|
| MatrixCommon.SizeOf | lss/cf3/lss/matrix.hpp:239-241 | `size(d)` is the row count for d = 0, the column count for d = 1 and 0 past that |
| MatrixCommon.DetailSizeOf | lss/cf3/lss/detail/matrix.hpp:98-101 | the earlier `size(d)` gives the largest `size_t` past the second dimension |
| MatrixCommon.Filled | lss/cf3/lss/matrix.hpp:812-815 | `a.assign(n, x)` gives n copies of x |
| MatrixCommon.ZeroSlice | lss/cf3/lss/matrix.hpp:828-832 | filling a slice with zero zeroes exactly the positions inside it and keeps every other one |
| MatrixCommon.ZeroSliceIdempotent | lss/cf3/lss/matrix.hpp:828-832 | zeroing the same slice twice equals zeroing it once |
| MatrixCommon.MaxOf | lss/cf3/lss/matrix.hpp:763 | `max_element` of a nonempty vector is one of its elements and bounds all of them |
| PrintPolicy.ResolveClamps | lss/cf3/lss/matrix.hpp:201-204 | an explicit level 1..4 is kept, one above `print_file` becomes `print_file`, a negative one becomes `print_auto`, and 0 resolves to size, signs or full |
| PrintPolicy.AutoThresholds | lss/cf3/lss/matrix.hpp:202-204 | automatic level: size-only iff rows > 100 or cols > 100, signs iff some extent is > 10 and neither is > 100, full iff both are <= 10 |
| PrintPolicy.AutoLevelMonotone | lss/cf3/lss/matrix.hpp:201-204 | a larger matrix never gets a more detailed automatic level |
| PrintPolicy.RevisionsAgreeInRange | lss/cf3/lss/detail/matrix.hpp:73-76 | the earlier rule (no clamp) agrees with the current one on levels 0..4 and keeps a level above 4 as is, where the current one clamps |
| PrintPolicy.AutoLevel | lss/cf3/lss/matrix.hpp:202-204 | the automatic level is size-only iff an extent is above 100, full iff both are at most 10, and signs otherwise; never auto or file |
| PrintPolicy.Resolve | lss/cf3/lss/matrix.hpp:201-204 | level 0 picks the automatic level; 1..4 is kept; above 4 becomes `print_file`; below 0 becomes `print_auto` |
| PrintPolicy.ResolveDetail | lss/cf3/lss/detail/matrix.hpp:73-76 | in the earlier revision a nonzero level is kept as is, and 0 gives the automatic level's ordinal, between 1 and 3 |
| DenseLayout.OffsetInRange | lss/cf3/lss/matrix.hpp:612-613 | every in-range (i, j) addresses a slot below rows*cols in either orientation |
| DenseLayout.OffsetInjective | lss/cf3/lss/matrix.hpp:612-613 | two in-range coordinates with the same address are the same coordinate |
| DenseLayout.OffsetOnto | lss/cf3/lss/matrix.hpp:612-613 | every slot below rows*cols is the address of some in-range coordinate |
| DenseLayout.CellsAt | lss/cf3/lss/matrix.hpp:612-613 | cell (i, j) of the abstract value is `a[i*cols+j]` row-oriented and `a[j*rows+i]` column-oriented |
| DenseLayout.CellsDetermineStorage | lss/cf3/lss/matrix.hpp:612-613 | two flat vectors with the same orientation and the same cells are equal, so the abstract value determines the storage |
| DenseLayout.WithRowZeroed | lss/cf3/lss/matrix.hpp:600-609 | row i becomes all zero and every other row is kept |
| DenseLayout.WithRowZeroedIdempotent | lss/cf3/lss/matrix.hpp:600-609 | zeroing a row twice equals zeroing it once |
| DenseLayout.CellsOfFilled | lss/cf3/lss/matrix.hpp:445-453 | a flat vector filled with x is the constant matrix x in either orientation |
| DenseLayout.CellsZeroRow | lss/cf3/lss/matrix.hpp:600-609 | clearing the slots of row i in the flat vector zeroes exactly row i of the abstract value |
| DenseLayout.Padded | lss/cf3/lss/matrix.hpp:499-511 | values the array-form reader does not reach keep the zero they were assigned |
| Dense.DenseV.At | lss/cf3/lss/matrix.hpp:612-613 | `operator()(i, j)` reads cell (i, j) of the abstract value |
| Dense.DenseV.Size | lss/cf3/lss/matrix.hpp:239-241 | the extent query of the flat dense matrix |
| Dense.DenseV.Clear | lss/cf3/lss/matrix.hpp:594-598 | storage and extent become empty |
| Dense.DenseV.constructor | lss/cf3/lss/matrix.hpp:171-175 | a new matrix has extent 0 x 0, no storage and `print_auto` |
| Dense.DenseV.PrintLevel | lss/cf3/lss/matrix.hpp:201-204 | under `print_auto` the level is chosen by the extent; otherwise the clamped level, whatever the extent |
| Dense.DenseV.Initialize | lss/cf3/lss/matrix.hpp:445-453 | a valid size gives that extent and the constant matrix; an invalid one changes nothing and raises nothing |
| Dense.DenseV.AssignValue | lss/cf3/lss/matrix.hpp:583-585 | assigning a value re-initializes at the current extent, so every cell holds it |
| Dense.DenseV.InitializeFromValues | lss/cf3/lss/matrix.hpp:455-473 | fails with a size mismatch iff the vector length differs from the storage length; otherwise cell (i, j) is `v[i*cols+j]` in both orientations |
| Dense.DenseV.Zerorow | lss/cf3/lss/matrix.hpp:600-609 | fails iff i >= rows, and then changes nothing; otherwise exactly row i becomes zero |
| Dense.DenseV.Assign | lss/cf3/lss/matrix.hpp:577-581 | storage and extent are copied and the print level is kept |
| Dense.DenseV.Swap | lss/cf3/lss/matrix.hpp:587-590 | storage, extent and print level are exchanged |
| Dense.DenseV.FileForm | lss/cf3/lss/matrix.hpp:229-235 | the file form is the header (rows, cols) followed by the cells column by column |
| Dense.DenseV.ReadArrayForm | lss/cf3/lss/matrix.hpp:499-511 | the array-form reader fills the cells column by column (row++ then wrap to the next column) and leaves the rest zero; in a row-oriented vector up to rows - 1 values past the last cell overwrite column 0 from row 1 down |
| Dense.DenseV.LoadNested | lss/cf3/lss/detail/matrix.hpp:246-257 | after the nested-to-flat copy, flat cell (i, j) equals the nested `aa[i][j]` row-oriented and `aa[j][i]` column-oriented |
| Dense.DenseVV.At | lss/cf3/lss/matrix.hpp:422-423 | `operator()(i, j)` is `a[i][j]` row-oriented and `a[j][i]` column-oriented |
| Dense.DenseVV.Clear | lss/cf3/lss/matrix.hpp:392-396 | storage and extent become empty |
| Dense.DenseVV.constructor | lss/cf3/lss/matrix.hpp:171-175 | a new matrix has extent 0 x 0, no storage and `print_auto` |
| Dense.DenseVV.PrintLevel | lss/cf3/lss/matrix.hpp:201-204 | under `print_auto` the level is chosen by the extent; otherwise the clamped level, whatever the extent |
| Dense.DenseVV.Initialize | lss/cf3/lss/matrix.hpp:269-278 | a valid size gives that extent and the constant matrix; an invalid one changes nothing |
| Dense.DenseVV.InitializeFromValues | lss/cf3/lss/matrix.hpp:280-288 | fails iff rows*cols differs from the vector length; otherwise cell (i, j) is `v[i*cols+j]` |
| Dense.DenseVV.Zerorow | lss/cf3/lss/matrix.hpp:404-413 | fails iff i >= rows; otherwise exactly row i becomes zero, whether it is one inner vector or a slot of every inner vector |
| Dense.DenseVV.Assign | lss/cf3/lss/matrix.hpp:398-402 | storage and extent are copied |
| Dense.DenseVV.Swap | lss/cf3/lss/matrix.hpp:415-419 | storage, extent and print level are exchanged |
| Dense.NestedSet | lss/cf3/lss/matrix.hpp:422-423 | writing through the nested `operator()` changes that one cell and no other |
| Dense.StoreRowWise | lss/cf3/lss/matrix.hpp:283-286 | the row-major write loop stores `v` so that cell (i, j) is `v[i*cols+j]` |
| Dense.ZeroEachColumn | lss/cf3/lss/matrix.hpp:408-411 | clearing slot i of every column vector zeroes exactly row i |
| Dense.ColumnsFromRows | lss/cf3/lss/matrix.hpp:466-471 | the column-oriented load loop gives the same cells as reading `v` row by row |
| Dense.ZeroSliceIsRow | lss/cf3/lss/matrix.hpp:603 | the `fill_n` slice of a row-oriented vector is exactly row i |
| Dense.ZeroStrided | lss/cf3/lss/matrix.hpp:604-607 | the strided loop zeroes row i of a column-oriented vector and keeps every other cell |
| Dense.ColumnOrder | lss/cf3/lss/matrix.hpp:232-234 | the file loop emits the cells column by column, whatever the storage orientation |
| Dense.PlaceByColumns | lss/cf3/lss/matrix.hpp:503-511 | the array-form reader's cursor places token k at row k mod rows of column k div rows |
| Dense.PlaceSurplus | lss/cf3/lss/matrix.hpp:505-510 | with the cursor in column `cols` of a row-oriented vector, surplus value t lands on cell (t+1, 0) and every other cell keeps its value |
| Dense.Flatten | lss/cf3/lss/detail/matrix.hpp:253-255 | copying inner vector k to offset k*(cols or rows) yields a flat vector with the nested cells |
| Dense.ConcatCells | lss/cf3/lss/detail/matrix.hpp:253-255 | the concatenation of the inner vectors, read with the same orientation, has the nested cells |
| Dense.FileFormRoundTrip | lss/cf3/lss/matrix.hpp:229-235 | reading back the file form with the array-form reader restores the storage exactly |
| Coordinates.LessIsLexicographic | lss/cf3/lss/matrix.hpp:49-53 | the comparator is lexicographic on (row, column), or (column, row) for column sorting, irreflexive and total on distinct coordinates |
| Coordinates.Insert | lss/cf3/lss/matrix.hpp:750-755 | `insert` keeps the set ordered, reports `second` iff the coordinate was absent, and never overwrites an existing entry |
| Coordinates.FindIsMembership | lss/cf3/lss/matrix.hpp:904-906 | `find` yields v iff the entry (c, v) is in the set, and nothing iff c is absent |
| Coordinates.InsertKeys | lss/cf3/lss/matrix.hpp:750-755 | after an insert the coordinates are the old ones plus the inserted one |
| Coordinates.InsertFinds | lss/cf3/lss/matrix.hpp:750-755 | after an insert, a present coordinate keeps its value and only the new one is added |
| Coordinates.InsertAllOrderedAppends | lss/cf3/lss/matrix.hpp:84-97 | inserting entries that arrive in order rebuilds exactly that sequence |
| Coordinates.InsertAppendsLargest | lss/cf3/lss/matrix.hpp:84-97 | inserting an entry larger than all present ones appends it |
| Coordinates.FindAt | lss/cf3/lss/matrix.hpp:904-906 | every stored entry is found with its own value |
| Coordinates.Find | lss/cf3/lss/matrix.hpp:904-906 | lookup gives nothing iff the coordinate is absent, and a found value is stored at that coordinate |
| Coordinates.WithValuesLookup | lss/cf3/lss/matrix.hpp:812-815 | replacing the values in place keeps the order and the coordinates and finds the new value at each position |
| Coordinates.WriteLaw | lss/cf3/lss/matrix.hpp:909-921 | an uncompressed write inserts the coordinate with zero when absent and then assigns: the coordinate holds v and no other lookup changes |
| Coordinates.SetValueLaw | lss/cf3/lss/matrix.hpp:919-921 | assigning through the reference to a present entry changes only its value |
| Compression.OrderedMajorMonotone | lss/cf3/lss/matrix.hpp:70-79 | iterating the ordered set visits the major index (row or column) in non-decreasing order |
| Compression.Compress | lss/cf3/lss/matrix.hpp:55-82 | for a nonempty set: the offsets start at the smallest major index, have one group per major index from min to max, are non-decreasing, and span exactly the entries; the indices and values list the entries in order; nnu is the group count and nnz the entry count |
| Compression.ScanGroup | lss/cf3/lss/matrix.hpp:74-77 | the inner loop consumes exactly the entries of the current major index and appends their minor indices and values |
| Compression.ExtendOffsets | lss/cf3/lss/matrix.hpp:78 | pushing `back() + count` keeps the offsets non-decreasing and each group delimiting exactly its entries, empty groups repeating the offset |
| Compression.Rebuilt | lss/cf3/lss/matrix.hpp:84-97 | what `uncompress` inserts is an ordered set |
| Compression.Rebuild | lss/cf3/lss/matrix.hpp:84-97 | the nested insertion loop yields the set of entries (major = base + group, minor, value) |
| Compression.Uncompress | lss/cf3/lss/matrix.hpp:84-97 | `uncompress` with the stored minor indices taken as they are (the row variant as written, and the corrected column variant) rebuilds an ordered set from the arrays |
| Compression.UncompressByColumnAsWritten | lss/cf3/lss/matrix.hpp:141-153 | the column variant as written adds the base to the stored row indices |
| Compression.StreamOfEncoding | lss/cf3/lss/matrix.hpp:84-97 | walking the groups of a compressed encoding visits the original entries in order |
| Compression.RoundTrip | lss/cf3/lss/matrix.hpp:55-97 | `uncompress(compress(S))` is exactly S |
| Compression.ColumnAsWrittenShiftsRows | lss/cf3/lss/matrix.hpp:141-153 | the column variant as written shifts every row by the smallest column, and its round trip holds iff that column is 0 |
| Compression.ColumnRoundTripCounterexample | lss/cf3/lss/matrix.hpp:112-153 | the single entry ((0, 1), 2.5) comes back as ((1, 1), 2.5) |
| Sparse.DiagMembers | lss/cf3/lss/matrix.hpp:749-750 | the diagonal pass adds exactly (k+BASE, k+BASE) for k < rows |
| Sparse.InsertDiagonal | lss/cf3/lss/matrix.hpp:749-750 | after the diagonal pass the coordinates are the old ones plus the diagonal, values already present are kept, new entries are zero, and the count is the number added |
| Sparse.ScanForMissingMirror | lss/cf3/lss/matrix.hpp:752-756 | one reverse scan inserts at most one missing mirror and stops there; a scan with no insertion leaves the set unchanged and proves it symmetric |
| Sparse.SymmetricWhenAllMirrored | lss/cf3/lss/matrix.hpp:751-757 | when every entry's mirror is present, the coordinate set is symmetric |
| Sparse.ClosureIsMirrorClosed | lss/cf3/lss/matrix.hpp:751-757 | the target of the pass (the entries, the diagonal and their mirrors) is closed under mirroring |
| Sparse.ClosureReached | lss/cf3/lss/matrix.hpp:751-757 | a symmetric set between the starting coordinates plus the diagonal and their closure is that closure |
| Sparse.Symmetrize | lss/cf3/lss/matrix.hpp:747-758 | at the fixed point the diagonal is present, every mirror is present, values already present are not overwritten, added entries are zero, and `nmodif` counts them |
| Sparse.GetIndex | lss/cf3/lss/matrix.hpp:923-930 | `getindex` returns the first position of row i's slice whose column is j, or -1 iff there is none |
| Sparse.CompressedLookup | lss/cf3/lss/matrix.hpp:899-903 | scanning row i's slice finds (i+BASE, j+BASE) exactly when the set holds it, at its own position and value |
| Sparse.RowOffsetsStartAtSmallestRow | lss/cf3/lss/matrix.hpp:67 | `compress` starts `ia` at the smallest stored row: with BASE 0 and one entry at row 1, `ia = [1, 2]`, so row 0's slice starts past `ja` and row 1 has no end offset |
| Sparse.ZeroedRowLookup | lss/cf3/lss/matrix.hpp:828-832 | zeroing row r sets every present entry of that row to zero and changes no other lookup and no coordinate |
| Sparse.ZeroedRowIdempotent | lss/cf3/lss/matrix.hpp:828-832 | zeroing a row twice equals zeroing it once |
| Sparse.ZeroSliceIsZeroedRow | lss/cf3/lss/matrix.hpp:828-832 | filling row r's slice of `a` with zero is zeroing row r of the encoded set, which stays encoded by the same `ia/ja` |
| Sparse.AllValuesLookup | lss/cf3/lss/matrix.hpp:812-815 | assigning a value gives every present coordinate that value and adds none |
| Sparse.ReplaceOneLookup | lss/cf3/lss/matrix.hpp:909-913 | assigning through the compressed reference changes that entry's value and no other lookup |
| Sparse.LoadCheckInRange | lss/cf3/lss/matrix.hpp:762-764 | after the symmetry pass, a passed check means `ia[0]` is BASE and every entry lies inside the declared extent |
| Sparse.TouchLaw | lss/cf3/lss/matrix.hpp:916-921 | referencing a coordinate of an uncompressed set inserts it with zero when absent, keeps its value otherwise, and changes no other lookup |
| Sparse.WriteAssigned | lss/cf3/lss/matrix.hpp:909-921 | an uncompressed write always succeeds and assigns v at the coordinate only |
| Sparse.Lookup | lss/cf3/lss/matrix.hpp:899-907 | a read returns the held value of (i+BASE, j+BASE), or the sentinel when it is absent, in both states, and inserts nothing |
| Sparse.TouchAt | lss/cf3/lss/matrix.hpp:909-921 | the non-const reference inserts when uncompressed and changes nothing when compressed |
| Sparse.WriteAt | lss/cf3/lss/matrix.hpp:909-921 | a write succeeds iff the matrix is uncompressed or the coordinate is stored, assigns v there, and otherwise changes nothing |
| Sparse.CompressedAssign | lss/cf3/lss/matrix.hpp:909-913 | writing `a[k]` keeps the compressed state consistent and assigns only that entry |
| Sparse.ZeroRowAt | lss/cf3/lss/matrix.hpp:828-832 | the `fill_n` over row r's slice zeroes row r of the held set and keeps the state consistent |
| Sparse.CompressAt | lss/cf3/lss/matrix.hpp:936-941 | compressing yields arrays that encode exactly the set, which is emptied |
| Sparse.UncompressAt | lss/cf3/lss/matrix.hpp:943-951 | uncompressing with the class's own functor: the row functor restores exactly the encoded set; the column functor restores it with every row moved by the first column offset, so it is the encoded set iff that offset is 0 |
| Sparse.FinishLoadAt | lss/cf3/lss/matrix.hpp:747-765 | symmetry pass, compress, then the check fails iff rows != nnu or the largest column minus BASE is >= cols |
| Sparse.SparseMatrix.constructor | lss/cf3/lss/matrix.hpp:635 | a new matrix is cleared |
| Sparse.SparseMatrix.Clear | lss/cf3/lss/matrix.hpp:802-810 | extent, set and arrays empty, uncompressed |
| Sparse.SparseMatrix.InitializeFromIndex | lss/cf3/lss/matrix.hpp:768-800 | the unimplemented overload only clears |
| Sparse.SparseMatrix.Compress | lss/cf3/lss/matrix.hpp:936-941 | afterwards compressed with an empty set and the same contents; a no-op when already compressed |
| Sparse.SparseMatrix.Uncompress | lss/cf3/lss/matrix.hpp:943-951 | afterwards uncompressed with empty arrays and nnu = nnz = 0; the contents are the old ones with every secondary key moved by `UncompressShift` (unchanged by rows, moved by the first column offset by columns); a no-op when already uncompressed |
| Sparse.SparseMatrix.IsCompressed | lss/cf3/lss/matrix.hpp:934 | in a consistent state, compressed means the set has moved into the arrays (none left in `entries`), uncompressed means the arrays are empty and `entries` holds the set |
| Sparse.SparseMatrix.PrintLevel | lss/cf3/lss/matrix.hpp:848-854 | under `print_auto` the level is chosen by the extent; otherwise the clamped level, whatever the extent |
| Sparse.SparseMatrix.Read | lss/cf3/lss/matrix.hpp:899-907 | reads the held value, or the sentinel when absent |
| Sparse.SparseMatrix.Touch | lss/cf3/lss/matrix.hpp:909-921 | the non-const reference: inserts a zero entry when uncompressed and absent, keeps the state otherwise |
| Sparse.SparseMatrix.Write | lss/cf3/lss/matrix.hpp:909-921 | a write succeeds iff uncompressed or the coordinate is stored; it assigns only there and never changes `ia/ja` |
| Sparse.SparseMatrix.Zerorow | lss/cf3/lss/matrix.hpp:828-832 | row r's slice of `a` becomes zero and the structure is kept |
| Sparse.SparseMatrix.AssignValue | lss/cf3/lss/matrix.hpp:812-815 | every stored value becomes x; an uncompressed set is untouched |
| Sparse.SparseMatrix.InitializeSized | lss/cf3/lss/matrix.hpp:640-645 | same extent: assigns the value; another extent: fails with "resizing not available" and changes nothing |
| Sparse.SparseMatrix.InitializeFromValues | lss/cf3/lss/matrix.hpp:647-650 | always fails |
| Sparse.SparseMatrix.Assign | lss/cf3/lss/matrix.hpp:817-826 | the whole state except the print level is copied |
| Sparse.SparseMatrix.Swap | lss/cf3/lss/matrix.hpp:834-843 | the two whole states are exchanged |
| Sparse.SparseMatrix.FinishLoad | lss/cf3/lss/matrix.hpp:747-765 | the end of a file load on the object: symmetry pass, compression and check |
| DetailCsr.AsSize | lss/cf3/lss/detail/matrix.hpp:344-346 | an `int` compared with a `size_t` wraps modulo 2^64 |
| DetailCsr.CheckMeaning | lss/cf3/lss/detail/matrix.hpp:341-347 | within `int` and `size_t` range the check passes iff `|ja| == |a|`, rows == `|ia|`-1, and 0 <= max column - BASE < cols; then every column is in range |
| DetailCsr.IndexingCheck | lss/cf3/lss/detail/matrix.hpp:343-346 | the post-load check fails with "indexing not correct" when `|ja| != |a|` or the row count is not `nnu`, and passes only with a nonempty `ja` whose largest column, less BASE, is below the column count |
| DetailCsr.ZeroSliceLoop | lss/cf3/lss/detail/matrix.hpp:370-374 | the loop zeroes exactly `a[ia[r]-BASE .. ia[r+1]-BASE)` |
| DetailCsr.ZeroSliceRows | lss/cf3/lss/detail/matrix.hpp:370-374 | zeroing row r's slice makes row r all zero and leaves the values of every other row unchanged |
| DetailCsr.SparseMatrixCsr.constructor | lss/cf3/lss/detail/matrix.hpp:318 | a new matrix is cleared |
| DetailCsr.SparseMatrixCsr.PrintLevel | lss/cf3/lss/detail/matrix.hpp:386-389 | a nonzero level is used as is, whatever the extent; `print_auto` gives the automatic level's ordinal |
| DetailCsr.SparseMatrixCsr.Size | lss/cf3/lss/detail/matrix.hpp:98-101 | rows, cols, then the largest `size_t` |
| DetailCsr.SparseMatrixCsr.Clear | lss/cf3/lss/detail/matrix.hpp:350-355 | extent and arrays empty |
| DetailCsr.SparseMatrixCsr.AssignValue | lss/cf3/lss/detail/matrix.hpp:357-360 | every stored value becomes x, structure kept |
| DetailCsr.SparseMatrixCsr.InitializeSized | lss/cf3/lss/detail/matrix.hpp:323-328 | same extent: assigns the value; otherwise fails with "resizing not available" and changes nothing |
| DetailCsr.SparseMatrixCsr.InitializeFromValues | lss/cf3/lss/detail/matrix.hpp:330-333 | always fails |
| DetailCsr.SparseMatrixCsr.Load | lss/cf3/lss/detail/matrix.hpp:335-348 | the arrays are installed, nnu = `|ia|`-1 and nnz = `|ja|`, and the outcome is the post-load check |
| DetailCsr.SparseMatrixCsr.Zerorow | lss/cf3/lss/detail/matrix.hpp:370-374 | row r's slice of `a` becomes zero; `ia`, `ja` and every other value are kept |
| DetailCsr.SparseMatrixCsr.Assign | lss/cf3/lss/detail/matrix.hpp:362-368 | as written: copies another matrix, but self-assignment empties the matrix |
| DetailCsr.SparseMatrixCsr.AssignChecked | lss/cf3/lss/detail/matrix.hpp:362-368 | corrected: copies the other matrix in every case, including self-assignment |
| DetailCsr.SparseMatrixCsr.Swap | lss/cf3/lss/detail/matrix.hpp:376-381 | values, index arrays, extent and print level are exchanged |
| LinearSystems.Consistent | lss/cf3/lss/linearsystem.hpp:303-316 | the check passes or fails with "size is not consistent" |
| LinearSystems.ConsistentShapes | lss/cf3/lss/linearsystem.hpp:303-316 | the check passes iff the sizes are A i x j, b i x k and x j x k for some i, j, k |
| LinearSystems.SystemSize | lss/cf3/lss/linearsystem.hpp:290-292 | A's rows for d = 0, A's columns for d = 1, b's columns for d = 2, else 0 |
| LinearSystems.EmptyIffSomeSizeZero | lss/cf3/lss/linearsystem.hpp:295 | `empty()` holds iff one of the three sizes is zero |
| LinearSystems.LinearSystem.Size | lss/cf3/lss/linearsystem.hpp:290-292 | `size(d)` of the object is the system size of its components |
| LinearSystems.LinearSystem.Initialize | lss/cf3/lss/linearsystem.hpp:229-239 | A becomes i x j, b i x k and x j x k, filled with v (a component with an invalid size is kept); with every size positive the system is consistent |
| LinearSystems.LinearSystem.InitializeFromValues | lss/cf3/lss/linearsystem.hpp:254-263 | a length mismatch in any given vector fails and stops the sequence, leaving the later components untouched; a nonempty vector of the right length is loaded row by row; an empty b becomes zero `size(0)` x 1, an empty x zero `size(1)` x `size(2)` (kept when that size is invalid); otherwise the outcome is the consistency check |
| LinearSystems.LinearSystem.IsEmpty | lss/cf3/lss/linearsystem.hpp:295 | `empty()` holds iff A has no rows or no columns or b has no columns |
| LinearSystems.LinearSystem.Check | lss/cf3/lss/linearsystem.hpp:303-316 | the check on the components passes iff b has A's rows, x has A's columns as rows and b's columns, and otherwise fails with "size is not consistent" |
| LinearSystems.LinearSystem.constructor | lss/cf3/lss/linearsystem.hpp:47-49 | a new system holds three distinct, column-oriented, empty components |
| LinearSystems.LinearSystem.Zerorow | lss/cf3/lss/linearsystem.hpp:282-287 | row i is zeroed in A, then b, then x; the first component without that row fails and stops the sequence |
| LinearSystems.LinearSystem.Clear | lss/cf3/lss/linearsystem.hpp:274-279 | all three components are cleared and the system is empty |

## Left out

- File reading (`initialize(fname)` with `ifstream`, MatrixMarket headers, `read_dense`, `read_sparse`, `base_conversion_t`) is I/O, and most of it lives in files that are not part of this model. The model starts from what the readers produce: the token sequence of the array form (`ReadArrayForm`), the nested vectors (`LoadNested`), the entry set (`FinishLoad`), and the three arrays (`Load`).
- The `.csr` bucket-to-entries step of `sparse_matrix::initialize(fname)` is part of the file reading above. It is not modelled separately.
- Text rendering in `print` (signs with the `1e3*epsilon` tolerance, full output, stream formatting) is not modelled. Only the choice of print level is (`PrintPolicy`).
- Floating point is not modelled. Values are `real`, so `static_cast`/`type_conversion_t` narrowing and NaN comparisons are absent. The NaN sentinel of a read is `None`.
- `LAPACK.hpp` (the `dgesv_`/`sgesv_` solve) and the framework glue of `linearsystem` (signals, options, output) are foreign calls and glue. `linearsystem::initialize(fname...)` and `initialize(index_t)` depend on file reading and on `index_t`, which are not part of this model.
- `initialize(index_t)` of the dense classes only clears. It is modelled for `sparse_matrix` only (`InitializeFromIndex`).
- `sparse_matrix_csr::operator()` is not modelled: it goes through `index_compressed_sparse_row_t::dereference`, which is not part of this model. `index_compressed_sparse_row_t::clear` is taken to empty `ia` and `ja` and to zero `nnu` and `nnz`.
- `sparse_matrix`'s compressed `getindex`, `zerorow` and reads are CSR-specific in the source, which marks them as such. The model requires row sorting there. It also requires `ia[0] == BASE`, which `compress` does not guarantee (see Findings). `zerorow` on the compressed form also requires `r < nnu`, where the source has no bounds check.
- Sparse.SparseMatrix.Write: a compressed write to an absent coordinate returns a reference to the shared `m_zero` in the source. The model reports `Fail(IndexNotAvailable)` and changes nothing, so writes through that shared reference are not modelled.
- Compression.Compress: the source reads `begin()` of an empty set and tests the row before `it != end()`. The model requires a nonempty set and tests the guard in the safe order.
- Sparse.FinishLoad: the source reads `max_element` of `ja` without a check. The model requires a nonempty result (a row or an entry), and then `ja` is nonempty. A failed check leaves the compressed result in place, as in the source.
- DetailCsr.CheckMeaning: its iff holds only with 32-bit column indices and extents below 2^63. Outside those bounds, `IndexingCheck` models the wrap-around of the `size_t` comparison (`AsSize`), and the `int` subtraction is taken as unbounded.
- DetailCsr.SparseMatrixCsr.Load: the source's `max_element` of an empty `ja` is undefined. The model requires a nonempty `ja` whenever the first two tests pass.
- DetailCsr.SparseMatrixCsr.Zerorow: the source has no bounds check. The model requires that row r exists and that its slice lies inside `a`.
- Integers in `ia`/`ja` and `nnu`/`nnz` of `sparse_matrix` are unbounded. Their 32-bit range and signedness never change the outcome within the sizes the model covers.
- The shared `m_zero` is not part of the state, so `swap` does not exchange it.
- LinearSystems.LinearSystem.InitializeFromValues: the outcome of the final consistency check is stated in terms of the sizes. The component values after a failed check are those the successful loads left.

## Findings

| source | as written | input that shows it | evidently intended | confidence | as-written member | corrected member |
|---|---|---|---|---|---|---|
| lss/cf3/lss/matrix.hpp:141-153 | `sort_by_column_t::uncompress` inserts `idx_t(_ia[i]+base, j+base)`, adding the smallest column `base = _ja.front()` to the stored row index, which `compress` stored without a shift | the set {((0, 1), 2.5)} compresses to `ja = [1, 2]`, `ia = [0]`, and uncompresses to {((1, 1), 2.5)} | `idx_t(_ia[i], j+base)`, so that `uncompress(compress(S)) == S` as in the row variant | not executed | Compression.ColumnAsWrittenShiftsRows, Compression.ColumnRoundTripCounterexample | Compression.Uncompress, Compression.RoundTrip |
| lss/cf3/lss/matrix.hpp:67 | `compress` starts `ia` at the smallest stored row (`_ia.push_back(it->first.i)`), while `getindex` and `zerorow` read row i's slice as `[ia[i]-BASE, ia[i+1]-BASE)` | BASE 0 and a single entry at (1, 0) = 2.0: compress gives `ia = [1, 2]`, `ja = [0]`; reading row 0 scans `ja[1]`, past its end, and row 1 has no `ia[2]` | `ia[0] == BASE`, with the rows below the smallest stored one given empty slices | not executed | Sparse.RowOffsetsStartAtSmallestRow | Sparse.CompressedLookup, Sparse.SparseMatrix.Read |
| lss/cf3/lss/detail/matrix.hpp:362-368 | `sparse_matrix_csr::operator=` calls `clear()` on itself before copying from `_other` | `m = m` with a nonempty m leaves it with extent 0 x 0 and empty arrays | a self-assignment leaves the matrix as it was (check `&_other == this`, or copy before clearing) | not executed | DetailCsr.SparseMatrixCsr.Assign | DetailCsr.SparseMatrixCsr.AssignChecked |

# Compressed-row sparse long matrix and hashed selection view

This project models two classes of a parallel Colt port, and proves
properties of the model.

- `SparseRCLongMatrix2D` is a two-dimensional matrix of `long`s in
  compressed-row (CSR) form. Row `r`'s nonzeros occupy the storage slots
  `[rowPointers[r], rowPointers[r+1])` of two parallel lists, `columnIndexes`
  and `values`. Column indices inside a row are strictly increasing, so a
  binary search finds any cell.
- `SelectedSparseLongMatrix1D` is a selection view over a hashed sparse
  vector. Logical element `i` lives under the key
  `offset + offsets[zero + i*stride]` of a key-to-value map. The view shares
  that map, by reference, with its source vector and with every other view
  of the same source.

Modules:

- `Failures`: the IllegalArgumentExceptions the operations raise, as values
  (`Outcome`, `Result`), and `Option` for a nullable argument.
- `Lists`: the `IntArrayList`/`LongArrayList` operations the matrix uses
  (`beforeInsert`, `remove`, `binarySearchFromTo`), over sequences.
- `JavaInt`: Java's 32-bit `int` narrowing. The non-transposed
  matrix-vector kernels accumulate in an `int sum` and multiply `alpha * sum`
  in `int`.
- `CsrFormat`: the pure layer. It has the `Csr` value, the format invariant
  `Valid`, the abstraction `Cell(m, r, c)`, the structural edits
  insert/remove/overwrite, and the row and column sums the kernels compute,
  with a cell-by-cell reference definition for each.
- `Dense`: the dense operands the kernels index directly. A dense vector is a
  buffer with a zero offset and a stride; a dense matrix is an `array2`.
- `SparseRC`: the class `SparseRCLongMatrix2D`. It keeps `rowPointers` as an
  `int` array updated in place and the two lists as sequences. Every method is
  specified through `Cell` and the `Csr` snapshot `State()`.
- `SelectedSparse`: the shared map (`LongLongMap`), the plain hashed vector
  `SparseLongMatrix1D` (only its map and size), and the class
  `SelectedSparseLongMatrix1D`.

`long` is modelled as an unbounded integer. The `int` accumulators are
narrowed explicitly with `Int32`. A matrix operand of another class (the `y`
of `assign(y, f)`, or the source of `assign(source)`) is modelled as the
list of cells its `forEachNonZero` visits (`NonZeros`). A
SparseRCLongMatrix2D `y` is handled by `AssignPlusMultSparse`, which copies
it for `assign(y)` and otherwise replays the cells its own serial traversal
delivers (`Traversal`).

## Model

| member | source | states |
|---|---|---|
| Lists.BinarySearchFromTo | src/cern/colt/matrix/tlong/impl/SparseRCLongMatrix2D.java:572 | on a sorted inclusive range, returns the key's index, or -(insertion point)-1 where every element below is smaller and every element from it on is larger |
| CsrFormat.SlotIn | src/cern/colt/matrix/tlong/impl/SparseRCLongMatrix2D.java:572-576 | the slot of column c in a row's slice, or -1 exactly when no slot holds c |
| CsrFormat.SlotInUnique | src/cern/colt/matrix/tlong/impl/SparseRCLongMatrix2D.java:572-576 | on a strictly increasing slice, the slot a search finds is the only slot holding that column |
| CsrFormat.CellBySlot | src/cern/colt/matrix/tlong/impl/SparseRCLongMatrix2D.java:571-577 | getQuick's value: the stored value when the column is in the row's slice, 0 otherwise |
| CsrFormat.StoredIffNonzero | src/cern/colt/matrix/tlong/impl/SparseRCLongMatrix2D.java:654-668 | without stored zeros, a cell is stored exactly when it is nonzero |
| CsrFormat.ShiftTail | src/cern/colt/matrix/tlong/impl/SparseRCLongMatrix2D.java:582-583 | the row-pointer loop of insert/remove adds d to every pointer above `row` and leaves the others |
| CsrFormat.InsertEntryValid | src/cern/colt/matrix/tlong/impl/SparseRCLongMatrix2D.java:579-584 | inserting a column at its insertion point keeps the compressed-row format valid |
| CsrFormat.InsertEntryCell | src/cern/colt/matrix/tlong/impl/SparseRCLongMatrix2D.java:579-584 | after insert, the inserted cell is stored with its value; every other cell keeps its value and whether it is stored |
| CsrFormat.RemoveEntryValid | src/cern/colt/matrix/tlong/impl/SparseRCLongMatrix2D.java:623-628 | removing a slot of row `row` keeps the format valid |
| CsrFormat.RemoveEntryCell | src/cern/colt/matrix/tlong/impl/SparseRCLongMatrix2D.java:623-628 | after remove, the removed cell is unstored and reads 0; every other cell is unchanged |
| CsrFormat.OverwriteEntryCell | src/cern/colt/matrix/tlong/impl/SparseRCLongMatrix2D.java:659-660 | overwriting a found slot changes only that cell's value, and the set of stored cells stays the same |
| CsrFormat.OverwriteSetsCell | src/cern/colt/matrix/tlong/impl/SparseRCLongMatrix2D.java:657-661 | overwriting a found slot with a nonzero value is a setQuick of that cell: it reads the value, stays stored, every other cell and the entry count are unchanged |
| CsrFormat.RemoveSetsCell | src/cern/colt/matrix/tlong/impl/SparseRCLongMatrix2D.java:656-658 | removing a found slot is a setQuick of 0: the cell reads 0 and is unstored, the entry count drops by one, every other cell is unchanged |
| CsrFormat.InsertSetsCell | src/cern/colt/matrix/tlong/impl/SparseRCLongMatrix2D.java:664-667 | inserting an absent cell at its insertion point with a nonzero value is a setQuick: the cell reads the value, the count rises by one, nothing else changes |
| CsrFormat.AbsentSetsZero | src/cern/colt/matrix/tlong/impl/SparseRCLongMatrix2D.java:664 | setting an unstored cell to 0 changes nothing, which is already a setQuick of 0 |
| CsrFormat.RemoveUndoesInsert | src/cern/colt/matrix/tlong/impl/SparseRCLongMatrix2D.java:623-628 | remove(row, index) right after insert(row, column, index, value) (lines 579-584) restores the representation exactly |
| CsrFormat.InsertUndoesRemove | src/cern/colt/matrix/tlong/impl/SparseRCLongMatrix2D.java:579-584 | re-inserting the removed column and value at their slot, after remove (lines 623-628), restores the representation exactly |
| CsrFormat.WithValuesCell | src/cern/colt/matrix/tlong/impl/SparseRCLongMatrix2D.java:519-528 | replacing only the values keeps the format and the stored set; each stored cell reads its slot's new value, and unstored cells read 0 |
| CsrFormat.SliceDotFront | src/cern/colt/matrix/tlong/impl/SparseRCLongMatrix2D.java:921-928 | a row's sum can be taken from its bottom slot up, the order the matrix kernels walk a row |
| CsrFormat.RowProductIsCellRowDot | src/cern/colt/matrix/tlong/impl/SparseRCLongMatrix2D.java:746-755 | the storage-order sum over a row's slots equals the row times y taken cell by cell over all columns |
| CsrFormat.ScaledColumnDotStep | src/cern/colt/matrix/tlong/impl/SparseRCLongMatrix2D.java:878-885 | adding row n's term to an alpha-scaled column sum |
| JavaInt.Int32 | src/cern/colt/matrix/tlong/impl/SparseRCLongMatrix2D.java:748-751 | the narrowing is a 32-bit value congruent to its argument modulo 2^32 |
| JavaInt.Int32Add | src/cern/colt/matrix/tlong/impl/SparseRCLongMatrix2D.java:748-751 | narrowing after every `sum +=` gives the same int as narrowing the exact total once |
| JavaInt.Int32Mul | src/cern/colt/matrix/tlong/impl/SparseRCLongMatrix2D.java:862 | `alpha * sum` on the narrowed sum narrows to the same int as alpha times the exact sum |
| JavaInt.Int32OfInt32 | src/cern/colt/matrix/tlong/impl/SparseRCLongMatrix2D.java:748 | a sum that fits in 32 bits is not changed by the narrowing |
| Dense.ScaleVector | src/cern/colt/matrix/tlong/impl/SparseRCLongMatrix2D.java:793-794 | `z.assign(mult(beta))` multiplies every logical element by beta and leaves every other buffer position alone |
| Dense.SetElement | src/cern/colt/matrix/tlong/impl/SparseRCLongMatrix2D.java:753 | the store `z[zidx] = ...` changes only element i's home: earlier elements and positions outside the first i+1 homes keep their values |
| Dense.AddToElement | src/cern/colt/matrix/tlong/impl/SparseRCLongMatrix2D.java:883 | `z[zidx] += ...` adds delta to element j only; other elements and positions outside every home are unchanged |
| Dense.AddRowMultiple | src/cern/colt/matrix/tlong/impl/SparseRCLongMatrix2D.java:926 | `Crows[i].assign(Brows[j], plusMult(v))` adds v times row j of op(B) to row i of C; the other rows are untouched |
| Dense.ScaleMatrix | src/cern/colt/matrix/tlong/impl/SparseRCLongMatrix2D.java:957-958 | `C.assign(mult(beta))` multiplies every cell by beta |
| Dense.NewVector | src/cern/colt/matrix/tlong/impl/SparseRCLongMatrix2D.java:692-693 | `new DenseLongMatrix1D(m)`: a fresh zero vector of size m, offset 0 and stride 1 |
| SparseRC.SparseRCLongMatrix2D.constructor | src/cern/colt/matrix/tlong/impl/SparseRCLongMatrix2D.java:204-215 | an empty valid matrix with rows+1 zero row pointers; every cell reads 0 |
| SparseRC.SparseRCLongMatrix2D.WithCapacity | src/cern/colt/matrix/tlong/impl/SparseRCLongMatrix2D.java:230-241 | the same empty matrix; the capacity has no logical effect |
| SparseRC.SparseRCLongMatrix2D.Cardinality | src/cern/colt/matrix/tlong/impl/SparseRCLongMatrix2D.java:631-633 | the number of stored entries, equal to the last row pointer |
| SparseRC.SparseRCLongMatrix2D.SearchRow | src/cern/colt/matrix/tlong/impl/SparseRCLongMatrix2D.java:655 | the binary search over the row's slice: a found slot is the cell's slot; otherwise the cell is unstored and -k-1 is its insertion point |
| SparseRC.SparseRCLongMatrix2D.GetQuick | src/cern/colt/matrix/tlong/impl/SparseRCLongMatrix2D.java:571-577 | returns Cell(row, column): the stored value, or 0 |
| SparseRC.SparseRCLongMatrix2D.Insert | src/cern/colt/matrix/tlong/impl/SparseRCLongMatrix2D.java:579-584 | shifts the pair in at `index` and raises only the pointers of rows above `row` (in place); the new cell is stored with its value and nothing else changes |
| SparseRC.SparseRCLongMatrix2D.ShiftPointers | src/cern/colt/matrix/tlong/impl/SparseRCLongMatrix2D.java:582-583 | the in-place pointer loop leaves the row-pointer array equal to ShiftTail of the old one |
| SparseRC.SparseRCLongMatrix2D.Remove | src/cern/colt/matrix/tlong/impl/SparseRCLongMatrix2D.java:623-628 | deletes slot `index` and lowers only the pointers of rows above `row`; that cell reads 0 and nothing else changes |
| SparseRC.SparseRCLongMatrix2D.SetQuick | src/cern/colt/matrix/tlong/impl/SparseRCLongMatrix2D.java:654-668 | CellSet: afterwards the cell reads value, and no other cell changes its value or whether it is stored; cardinality goes up by 1 for a new nonzero, down by 1 for a stored cell set to 0, otherwise stays; the cell is stored exactly when value != 0; no stored zeros is preserved |
| SparseRC.SparseRCLongMatrix2D.SetStored | src/cern/colt/matrix/tlong/impl/SparseRCLongMatrix2D.java:656-661 | on a found slot: remove for 0, overwrite otherwise; either way the new state is a setQuick of that cell (CellSet) |
| SparseRC.SparseRCLongMatrix2D.SetAbsent | src/cern/colt/matrix/tlong/impl/SparseRCLongMatrix2D.java:664-667 | on an unstored cell: insert at the insertion point unless the value is 0; the new state is a setQuick of that cell (CellSet) |
| SparseRC.SparseRCLongMatrix2D.ForEachNonZero | src/cern/colt/matrix/tlong/impl/SparseRCLongMatrix2D.java:491-531 | serial branch: the structure is unchanged, every stored slot holds f(row, column, old value), so a visitor may leave stored zeros |
| SparseRC.SparseRCLongMatrix2D.VisitRows | src/cern/colt/matrix/tlong/impl/SparseRCLongMatrix2D.java:519-528 | the serial row loop: the structure is unchanged and every slot of every row holds f(row, column, old value) |
| SparseRC.SparseRCLongMatrix2D.VisitRow | src/cern/colt/matrix/tlong/impl/SparseRCLongMatrix2D.java:520-527 | one row: its slots hold f(row, column, old value) and every slot outside the row keeps its value |
| SparseRC.VisitedCells | src/cern/colt/matrix/tlong/impl/SparseRCLongMatrix2D.java:519-528 | read cell by cell, the visited values keep the stored set, and each stored cell reads f on its old value while unstored cells read 0 |
| SparseRC.SparseRCLongMatrix2D.Traversal | src/cern/colt/matrix/tlong/impl/SparseRCLongMatrix2D.java:519-528 | the (row, column, value) triples the serial loop hands its visitor: each stored cell exactly once, stored zeros included, so the operand they describe reads every cell of the matrix |
| SparseRC.SparseRCLongMatrix2D.TraverseRow | src/cern/colt/matrix/tlong/impl/SparseRCLongMatrix2D.java:520-527 | one row of that loop, slots from the top down, extends the delivered entries from row i+1's first slot down to row i's |
| SparseRC.TraversedStep | src/cern/colt/matrix/tlong/impl/SparseRCLongMatrix2D.java:521-526 | delivering one more slot keeps the entries distinct and in range, and they stay exactly the stored cells from that slot up, each with its value |
| SparseRC.TraversedAll | src/cern/colt/matrix/tlong/impl/SparseRCLongMatrix2D.java:519-528 | the finished walk visits exactly the stored cells and its values read every cell of the matrix |
| SparseRC.SparseRCLongMatrix2D.AssignScalar | src/cern/colt/matrix/tlong/impl/SparseRCLongMatrix2D.java:251-268 | 0 empties the matrix with a fresh row-pointer array; any other value overwrites every stored value and leaves the unstored cells at 0 |
| SparseRC.SparseRCLongMatrix2D.FillValues | src/cern/colt/matrix/tlong/impl/SparseRCLongMatrix2D.java:261-264 | the loop sets every stored value to value and leaves the structure alone |
| SparseRC.FilledCells | src/cern/colt/matrix/tlong/impl/SparseRCLongMatrix2D.java:259-264 | after the fill every stored cell reads value, the stored set is unchanged, unstored cells read 0, and a nonzero value leaves no stored zero |
| SparseRC.SparseRCLongMatrix2D.AssignFunction | src/cern/colt/matrix/tlong/impl/SparseRCLongMatrix2D.java:278-321 | LongMult(a) makes every cell a times its old value (1 changes nothing, 0 empties the matrix, others scale the values in place); any other function replaces each stored cell by f(old) and keeps the structure |
| SparseRC.SparseRCLongMatrix2D.ScaleValues | src/cern/colt/matrix/tlong/impl/SparseRCLongMatrix2D.java:307-309 | the serial loop multiplies every stored value by alpha and leaves the structure alone |
| SparseRC.ScaledCells | src/cern/colt/matrix/tlong/impl/SparseRCLongMatrix2D.java:307-309 | scaling the stored values scales every cell by alpha, and a nonzero alpha keeps the matrix free of stored zeros |
| SparseRC.SparseRCLongMatrix2D.AssignMatrix | src/cern/colt/matrix/tlong/impl/SparseRCLongMatrix2D.java:338-371 | assigning the receiver to itself does nothing; a shape mismatch fails with nothing written; otherwise the representation becomes the source's and every cell equals the source's cell |
| SparseRC.SparseRCLongMatrix2D.AssignCells | src/cern/colt/matrix/tlong/impl/SparseRCLongMatrix2D.java:338-356 | a non-CSR source: after the shape check the matrix is cleared and refilled by setQuick, so every cell equals the source's and no zero is stored |
| SparseRC.CopyReplayStep | src/cern/colt/matrix/tlong/impl/SparseRCLongMatrix2D.java:338-356 | each setQuick of a source entry into the cleared matrix extends the set of cells that read their source value |
| SparseRC.SparseRCLongMatrix2D.AssignPlusMult | src/cern/colt/matrix/tlong/impl/SparseRCLongMatrix2D.java:375-402 | y of another class, seen through its visited cells: shape check first; PlusMultSecond(a): every cell becomes old + a*y; PlusMultFirst(0) is assign(y), a replay that stores no zero; PlusMultFirst(a) combines a*old + y only on the cells y visits |
| SparseRC.SparseRCLongMatrix2D.AssignPlusMultSparse | src/cern/colt/matrix/tlong/impl/SparseRCLongMatrix2D.java:375-402 | y a SparseRCLongMatrix2D: the same shape check; PlusMultFirst(0) makes the representation y's, stored zeros included; PlusMultSecond(a) gives old + a*y on every cell; PlusMultFirst(a) gives a*old + y on y's stored cells and keeps the others |
| SparseRC.SparseRCLongMatrix2D.AddScaled | src/cern/colt/matrix/tlong/impl/SparseRCLongMatrix2D.java:382-387 | the replay of y's cells through getQuick/setQuick gives old + alpha*y on every cell |
| SparseRC.SecondReplayStep | src/cern/colt/matrix/tlong/impl/SparseRCLongMatrix2D.java:382-387 | one visited entry written by setQuick(i, j, getQuick(i, j) + alpha*value) extends the prefix on which every cell is old + alpha*y |
| SparseRC.SparseRCLongMatrix2D.ScaleVisited | src/cern/colt/matrix/tlong/impl/SparseRCLongMatrix2D.java:395-400 | the replay gives alpha*old + y on the cells y visits; every other cell keeps its old value |
| SparseRC.SparseRCLongMatrix2D.ReplayFirstEntry | src/cern/colt/matrix/tlong/impl/SparseRCLongMatrix2D.java:395-399 | one visit of the traversal: the matrix stays valid and the replayed prefix grows by that entry |
| SparseRC.FirstReplayStep | src/cern/colt/matrix/tlong/impl/SparseRCLongMatrix2D.java:395-399 | setQuick(i, j, alpha*getQuick(i, j) + value) extends the prefix: visited cells read alpha*old + y, the others keep their old value |
| SparseRC.FirstVisit | src/cern/colt/matrix/tlong/impl/SparseRCLongMatrix2D.java:395-399 | in a well-formed traversal no cell is visited twice, so the cell an entry visits still has its old value |
| SparseRC.FirstCombinedMissesUnvisited | src/cern/colt/matrix/tlong/impl/SparseRCLongMatrix2D.java:391-400 | a nonzero cell y does not visit misses the documented alpha*x + y whenever alpha != 1 |
| SparseRC.FirstCombinedExample | src/cern/colt/matrix/tlong/impl/SparseRCLongMatrix2D.java:391-400 | x = [[1]], y = [[0]], alpha = 2 leaves 1 where alpha*x + y is 2 |
| SparseRC.SparseRCLongMatrix2D.AssignPlusMultFirstAll | src/cern/colt/matrix/tlong/impl/SparseRCLongMatrix2D.java:391 | the documented x = alpha*x + y on every cell, with the same shape check |
| SparseRC.SparseRCLongMatrix2D.GetFull | src/cern/colt/matrix/tlong/impl/SparseRCLongMatrix2D.java:670-679 | a rows x columns dense matrix whose every entry equals the cell |
| SparseRC.SparseRCLongMatrix2D.RowLine | src/cern/colt/matrix/tlong/impl/SparseRCLongMatrix2D.java:672-676 | row i read back through getQuick: a line of `columns` values, each equal to the cell |
| SparseRC.SparseRCLongMatrix2D.RowSum | src/cern/colt/matrix/tlong/impl/SparseRCLongMatrix2D.java:747-752 | the inner loop's `int sum` equals row i times y, narrowed to 32 bits |
| SparseRC.NarrowedSliceStep | src/cern/colt/matrix/tlong/impl/SparseRCLongMatrix2D.java:748-751 | one more `sum +=` in int arithmetic gives the narrowed sum of the longer slice |
| SparseRC.SparseRCLongMatrix2D.PlainRows | src/cern/colt/matrix/tlong/impl/SparseRCLongMatrix2D.java:744-755 | serial zMult loop: z[i] is the narrowed row product for every row; other buffer positions are untouched |
| SparseRC.SparseRCLongMatrix2D.StoreRowSum | src/cern/colt/matrix/tlong/impl/SparseRCLongMatrix2D.java:747-753 | one iteration stores row i's narrowed product in z[i] and leaves the earlier rows and every position outside the first i+1 homes alone |
| SparseRC.SparseRCLongMatrix2D.ZMult | src/cern/colt/matrix/tlong/impl/SparseRCLongMatrix2D.java:688-758 | fails with IncompatibleArgs exactly when y.size != columns or rows > z.size, and then z is untouched; a missing z is a fresh zero vector; z[i] = (int)(row i times y); z's other positions keep their values |
| SparseRC.SparseRCLongMatrix2D.ScaledRows | src/cern/colt/matrix/tlong/impl/SparseRCLongMatrix2D.java:853-876 | z[i] = (int)(alpha * (int) sum), plus beta*z[i] when beta != 0 |
| SparseRC.SparseRCLongMatrix2D.AccumulateRow | src/cern/colt/matrix/tlong/impl/SparseRCLongMatrix2D.java:880-884 | one row of the transposed kernel adds Cell(i, c) * yElem to z[c] for every c |
| SparseRC.SparseRCLongMatrix2D.TransposedRows | src/cern/colt/matrix/tlong/impl/SparseRCLongMatrix2D.java:877-886 | z[c] gains column c of A times alpha*y for every c |
| SparseRC.SparseRCLongMatrix2D.TransposedProduct | src/cern/colt/matrix/tlong/impl/SparseRCLongMatrix2D.java:792-886 | z is scaled by beta only when asked to and beta != 1, then gains alpha * A^T y |
| SparseRC.SparseRCLongMatrix2D.ZMultScaled | src/cern/colt/matrix/tlong/impl/SparseRCLongMatrix2D.java:761-890 | size check on the effective shape, with z untouched on failure; non-transposed z[i] = (int)(alpha*sum) + (beta == 0 or z missing ? 0 : beta*z[i]) and z's other elements and positions kept; transposed: a supplied z is scaled by beta unless beta == 1, a missing one starts at 0, then gains alpha * A^T y |
| SparseRC.SparseRCLongMatrix2D.ZMultScaledInto | src/cern/colt/matrix/tlong/impl/SparseRCLongMatrix2D.java:777-890 | on the chosen z: the same size check with z untouched on failure; on success the same scaled results, and without transposeA every position outside the first `rows` homes keeps its value |
| SparseRC.SparseRCLongMatrix2D.AddRowProducts | src/cern/colt/matrix/tlong/impl/SparseRCLongMatrix2D.java:922-927 | row i of C gains alpha times row i of A times op(B); the other rows are untouched |
| SparseRC.ScaledFrontStep | src/cern/colt/matrix/tlong/impl/SparseRCLongMatrix2D.java:922-927 | one slot of row i, added as (value*alpha) times a row of op(B), keeps C equal to alpha times the partial row product |
| SparseRC.SparseRCLongMatrix2D.ScatterRowProducts | src/cern/colt/matrix/tlong/impl/SparseRCLongMatrix2D.java:973-981 | transposed case: each row j of C gains alpha * A[i, j] times row i of op(B) |
| SparseRC.SparseRCLongMatrix2D.RowsTimes | src/cern/colt/matrix/tlong/impl/SparseRCLongMatrix2D.java:921-928 | C gains alpha * A * op(B) |
| SparseRC.SparseRCLongMatrix2D.ColumnsTimes | src/cern/colt/matrix/tlong/impl/SparseRCLongMatrix2D.java:972-982 | C gains alpha * A^T * op(B) |
| SparseRC.SparseRCLongMatrix2D.ZMultMatrix | src/cern/colt/matrix/tlong/impl/SparseRCLongMatrix2D.java:893-930 | errors in order: inner dimensions, result shape, C identical to B, with C untouched; otherwise C (or a fresh zero matrix) gains A * B, without being cleared first |
| SparseRC.SparseRCLongMatrix2D.ZMultMatrixScaled | src/cern/colt/matrix/tlong/impl/SparseRCLongMatrix2D.java:933-984 | the same errors on the effective shapes, the identity check only without transposeB; result = beta*C + alpha*op(A)*op(B), or alpha*op(A)*op(B) for a missing C |
| SelectedSparse.WrittenReadBack | src/cern/colt/matrix/tlong/impl/SelectedSparseLongMatrix1D.java:219-223 | reading the key just written gives the value written, 0 included |
| SelectedSparse.WrittenElsewhere | src/cern/colt/matrix/tlong/impl/SelectedSparseLongMatrix1D.java:219-223 | a write changes the reading of no other key |
| SelectedSparse.WrittenNoZeros | src/cern/colt/matrix/tlong/impl/SelectedSparseLongMatrix1D.java:220-223 | the written key is present exactly when the value is nonzero, and a zero-free map stays zero-free |
| SelectedSparse.LookupDetermines | src/cern/colt/matrix/tlong/impl/SelectedSparseLongMatrix1D.java:135 | zero-free maps with the same readings are equal |
| SelectedSparse.WrittenUndo | src/cern/colt/matrix/tlong/impl/SelectedSparseLongMatrix1D.java:219-223 | writing back the value read before undoes a write exactly, on a zero-free map |
| SelectedSparse.WrittenOverwrite | src/cern/colt/matrix/tlong/impl/SelectedSparseLongMatrix1D.java:219-223 | of two writes to one key only the second remains |
| SelectedSparse.SparseLongMatrix1D.constructor | src/cern/colt/matrix/tlong/impl/SelectedSparseLongMatrix1D.java:62 | a plain hashed vector with a fresh, empty map |
| SelectedSparse.SelectedSparseLongMatrix1D.Select | src/cern/colt/matrix/tlong/impl/SelectedSparseLongMatrix1D.java:82-84 | size = offsets.length, zero 0, stride 1, offset 0, the given map and offsets, not a no-view |
| SelectedSparse.SelectedSparseLongMatrix1D.constructor | src/cern/colt/matrix/tlong/impl/SelectedSparseLongMatrix1D.java:102-110 | the given size, zero, stride, map, offsets and offset, not a no-view |
| SelectedSparse.SelectedSparseLongMatrix1D.Elements | src/cern/colt/matrix/tlong/impl/SelectedSparseLongMatrix1D.java:112-115 | always fails with NotSupported |
| SelectedSparse.SelectedSparseLongMatrix1D.Reshape | src/cern/colt/matrix/tlong/impl/SelectedSparseLongMatrix1D.java:190-193 | always fails with NotSupported |
| SelectedSparse.SelectedSparseLongMatrix1D.Reshape3D | src/cern/colt/matrix/tlong/impl/SelectedSparseLongMatrix1D.java:195-198 | always fails with NotSupported |
| SelectedSparse.SelectedSparseLongMatrix1D.Offset | src/cern/colt/matrix/tlong/impl/SelectedSparseLongMatrix1D.java:235-238 | `_offset(absRank)` is the offset stored in slot absRank |
| SelectedSparse.SelectedSparseLongMatrix1D.Index | src/cern/colt/matrix/tlong/impl/SelectedSparseLongMatrix1D.java:146-151 | the manually inlined key equals the inherited `_offset(_rank(rank))` plus this view's offset |
| SelectedSparse.SelectedSparseLongMatrix1D.GetQuick | src/cern/colt/matrix/tlong/impl/SelectedSparseLongMatrix1D.java:130-136 | the value stored under the element's key, or 0 when the key is absent |
| SelectedSparse.SelectedSparseLongMatrix1D.SetQuick | src/cern/colt/matrix/tlong/impl/SelectedSparseLongMatrix1D.java:214-224 | 0 removes the translated key and any other value is put under it; afterwards the element reads value, no other key changes, and no zero is stored |
| SelectedSparse.SelectedSparseLongMatrix1D.HaveSharedCellsRaw | src/cern/colt/matrix/tlong/impl/SelectedSparseLongMatrix1D.java:243-253 | true exactly for a selection view or a plain hashed vector holding the identical map object; false for any other kind |
| SelectedSparse.SelectedSparseLongMatrix1D.SetUp | src/cern/colt/matrix/tlong/impl/SelectedSparseLongMatrix1D.java:261-266 | the new size, zero 0, stride 1, offset 0 |
| SelectedSparse.SelectedSparseLongMatrix1D.ViewSelectionLike | src/cern/colt/matrix/tlong/impl/SelectedSparseLongMatrix1D.java:275-278 | a fresh view over the same map object with the given offsets, offset 0 and stride 1, which shares cells with the receiver |
| SelectedSparse.WriteThrough | src/cern/colt/matrix/tlong/impl/SelectedSparseLongMatrix1D.java:214-224 | a write through one view (sharing as decided by haveSharedCellsRaw, lines 243-253): another view that shares cells reads the new value at the same key and old values elsewhere; a view that does not share cells reads nothing new |
| SelectedSparse.WriteThroughToSource | src/cern/colt/matrix/tlong/impl/SelectedSparseLongMatrix1D.java:214-224 | the same for the plain hashed vector the view was selected from |
| SelectedSparse.SelectionExample | src/cern/colt/matrix/tlong/impl/SelectedSparseLongMatrix1D.java:130-278 | a map {0: 10, 5: 20, 9: 30} seen through offsets [9, 0, 5] reads 30, 10, 20; writing 0 at position 1 removes key 0, and a second view over the same map reads 0 there |

## Findings

| source | as written | input that shows it | evidently intended | confidence | as-written member | corrected member |
|---|---|---|---|---|---|---|
| src/cern/colt/matrix/tlong/impl/SparseRCLongMatrix2D.java:391-400 | `assign(y, plusMultFirst(alpha))` with alpha != 0 combines alpha*x + y only on the cells y's forEachNonZero visits, so cells where y is 0 keep x unscaled | x = [[1]], y = [[0]], alpha = 2 gives [[1]] | x = alpha*x + y on every cell, as the comment at line 391 says: [[2]] | not executed; high | SparseRC.SparseRCLongMatrix2D.ScaleVisited; SparseRC.FirstCombinedMissesUnvisited | SparseRC.SparseRCLongMatrix2D.AssignPlusMultFirstAll |

`AssignPlusMult` keeps the behaviour as written. `AssignPlusMultFirstAll`
scales the whole matrix first and then adds y's visited cells. Its contract
states the intended result on every cell.

## Left out

- Threaded branches: only the serial branch of each operation is modelled. This covers the `nthreads > 1` paths, the futures and the thread pool. The `synchronized` on setQuick/insert is not modelled, and neither is the race of the partitioned transposed product.
- The `mult` and `div` fast paths of `assign(y, function)` (lines 404-485) are not modelled. They call `remove(i, j)` with a column where a storage index is expected. No structural property holds for them.
- The generic fallbacks in the superclass are not part of this model. These are `super.zMult` for non-dense operands and `super.assign(y, function)` for other functions.
- Foreign operands are abstracted. A non-CSR matrix operand appears as the cells its `forEachNonZero` visits: in range, each cell at most once. Dense operands are a buffer with offset and stride, or an `array2`. DenseLongMatrix1D/2D and their `viewRow`/`viewDice` views are not part of this model.
- The `alpha != alpha` branch of `assign(function)` is not modelled: it cannot be taken for a `long`.
- The trusted raw-triple constructor, `like`/`like1D`/`like2D`, the getters and `trimToSize` are left out. trimToSize changes only capacity. The "matrix too large" swallowing in AbstractMatrix2D.setUp is left out too.
- Java's 64-bit `long` wrap-around is not modelled: `long` values are unbounded integers. The `int` accumulators of the non-transposed kernels do wrap, explicitly.
- SparseRC.SparseRCLongMatrix2D.PlainRows, ScaledRows, TransposedRows, TransposedProduct, ZMult and ZMultScaled require that the output buffer differ from y's buffer and from the row-pointer array. They also require a nonzero output stride. In Java the `long[]` and `int[]` buffers cannot alias. An aliasing y/z pair or a zero stride is not modelled.
- SparseRC.SparseRCLongMatrix2D.ZMultMatrixScaled requires that a supplied C not be B itself when transposeB is set. Java compares C with B's transposed view there, so the identity check cannot fire. The model does not describe the aliased computation that follows. The `this == C` half of the identity checks is not modelled: C is always dense here.
- SparseRC.SparseRCLongMatrix2D.AssignPlusMult does not model `y == this`. There the replay would read cells it has already written. AssignPlusMultSparse allows `y == this` only where the function is a no-op or `assign(this)`.
- SparseRC.SparseRCLongMatrix2D.AssignCells and AssignPlusMult take the operand's visited cells as a value fixed before the call. An operand that reads the receiver's own storage, such as a view or a wrapper over it, is not modelled; Java's assign(source) clears the receiver first, so such a source would then enumerate the cleared cells.
- SparseRC.SparseRCLongMatrix2D.ForEachNonZero takes the visitor as a pure function of (row, column, value). A visitor with side effects, such as the one in getFull, is modelled by the method that uses it.
- The internals of AbstractLongLongMap, IntArrayList and LongArrayList are outside this model. They are maps and sequences here, with the standard contracts of get/put/removeKey, beforeInsert/remove and binarySearchFromTo.
- SelectedSparse.SelectedSparseLongMatrix1D.SetUp takes the inherited `setUp(size)` to be AbstractMatrix1D's `setUp(size, 0, 1)`, which also sets the no-view flag. AbstractMatrix1D is not part of this model. Its negative-size exception is replaced by a `nat` size.
- SelectedSparse.SelectedSparseLongMatrix1D.GetQuick, SetQuick and Index require the translated slot `zero + index*stride` to lie inside the offsets array. Java leaves this unchecked and would throw an ArrayIndexOutOfBoundsException. The `int` overflow of the key computation is not modelled.
- `like(size)` and `like2D(rows, columns)` of the selection view are left out. They only construct new empty vectors and matrices of other classes.

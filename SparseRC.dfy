/** SparseRCLongMatrix2D: a rows x columns matrix of longs in compressed-row
    form. Row r's nonzeros sit in the storage slots
    [rowPointers[r], rowPointers[r+1]) of the two parallel lists
    columnIndexes and values, with strictly increasing column indices inside a
    row, so that a cell is found by binary search. */
module SparseRC {
  import opened Failures
  import opened Lists
  import opened JavaInt
  import opened CsrFormat
  import opened Dense

  /** A unary long function handed to `assign(function)`: the scaling
      function object LongMult is recognised; anything else is applied as a
      black box. */
  datatype LongFunction = LongMult(multiplicator: int) | Apply(f: int -> int)

  /** One cell delivered by a matrix's nonzero traversal. */
  datatype Entry = Entry(row: int, column: int, value: int)

  /** A matrix operand of another class, seen only through its shape and the
      cells its forEachNonZero visits. A SparseRCLongMatrix2D operand is
      described the same way by its own Traversal. */
  datatype NonZeros = NonZeros(rows: nat, columns: nat, entries: seq<Entry>) {
    /** Every visited cell lies inside the shape and no cell is visited twice. */
    ghost predicate WellFormed() {
      && (forall k :: 0 <= k < |entries| ==>
            0 <= entries[k].row < rows && 0 <= entries[k].column < columns)
      && (forall k, l :: 0 <= k < l < |entries| ==>
            (entries[k].row, entries[k].column) != (entries[l].row, entries[l].column))
    }

    /** The operand's value at (r, c): the visited value, or 0 if the
        traversal does not visit (r, c). */
    ghost function At(r: int, c: int): int {
      ValueIn(entries, r, c)
    }
  }

  /** The value the last entry at (r, c) carries, or 0; with distinct
      coordinates this is the value of the only such entry. */
  ghost function ValueIn(es: seq<Entry>, r: int, c: int): int {
    if es == [] then 0
    else if es[|es| - 1].row == r && es[|es| - 1].column == c then es[|es| - 1].value
    else ValueIn(es[..|es| - 1], r, c)
  }

  /** Whether some entry sits at (r, c). */
  ghost predicate Visits(es: seq<Entry>, r: int, c: int) {
    exists k :: 0 <= k < |es| && es[k].row == r && es[k].column == c
  }

  /** The two combining functions of `assign(y, function)` modelled here:
      LongPlusMultSecond, x := x + alpha*y, and LongPlusMultFirst,
      x := alpha*x + y. */
  datatype PlusMult = PlusMultSecond(multiplicator: int) | PlusMultFirst(multiplicator: int)

  /** Extending a traversal prefix by one entry. */
  lemma ValueInPush(es: seq<Entry>, n: nat, r: int, c: int)
    requires n < |es|
    ensures ValueIn(es[..n + 1], r, c) == if es[n].row == r && es[n].column == c then es[n].value else ValueIn(es[..n], r, c)
    ensures Visits(es[..n + 1], r, c) <==> Visits(es[..n], r, c) || (es[n].row == r && es[n].column == c)
  {
    assert es[..n + 1][..n] == es[..n];
    if Visits(es[..n + 1], r, c) && !(es[n].row == r && es[n].column == c) {
      var k :| 0 <= k < n + 1 && es[..n + 1][k].row == r && es[..n + 1][k].column == c;
      assert es[..n][k] == es[k];
    }
  }

  /** A cell no entry visits reads 0. */
  lemma {:induction false} ValueInUnvisited(es: seq<Entry>, r: int, c: int)
    requires !Visits(es, r, c)
    ensures ValueIn(es, r, c) == 0
  {
    if es != [] {
      var es' := es[..|es| - 1];
      forall k | 0 <= k < |es'|
        ensures !(es'[k].row == r && es'[k].column == c)
      {
        assert es'[k] == es[k];
      }
      ValueInUnvisited(es', r, c);
    }
  }

  /** In a well-formed traversal, entry n's cell has not been visited before. */
  lemma FirstVisit(y: NonZeros, n: nat)
    requires y.WellFormed() && n < |y.entries|
    ensures !Visits(y.entries[..n], y.entries[n].row, y.entries[n].column)
    ensures ValueIn(y.entries[..n], y.entries[n].row, y.entries[n].column) == 0
  {
    var es := y.entries;
    forall k | 0 <= k < n
      ensures !(es[..n][k].row == es[n].row && es[..n][k].column == es[n].column)
    {
      assert es[..n][k] == es[k];
      assert (es[k].row, es[k].column) != (es[n].row, es[n].column);
    }
    ValueInUnvisited(es[..n], es[n].row, es[n].column);
  }

  /** Appending one entry to a traversal. */
  lemma ValueInAppend(es: seq<Entry>, e: Entry, r: int, c: int)
    ensures ValueIn(es + [e], r, c) == if e.row == r && e.column == c then e.value else ValueIn(es, r, c)
    ensures Visits(es + [e], r, c) <==> Visits(es, r, c) || (e.row == r && e.column == c)
  {
    var es' := es + [e];
    assert es'[..|es|] == es && es'[..|es| + 1] == es';
    ValueInPush(es', |es|, r, c);
  }

  /** The entries the serial forEachNonZero of a CSR matrix m has delivered
      once it has walked the storage slots from the last one down to slot k:
      in range, each cell once, exactly the stored cells whose slot is k or
      above, each with its stored value. */
  ghost predicate Traversed(m: Csr, es: seq<Entry>, k: int)
    requires CsrFormat.Valid(m)
  {
    && (forall n :: 0 <= n < |es| ==> 0 <= es[n].row < m.rows && 0 <= es[n].column < m.columns)
    && (forall n, l :: 0 <= n < l < |es| ==> (es[n].row, es[n].column) != (es[l].row, es[l].column))
    && (forall r, c :: 0 <= r < m.rows ==>
          (Visits(es, r, c) <==> CsrFormat.Stored(m, r, c) && CsrFormat.Slot(m, r, c) >= k))
    && (forall r, c :: 0 <= r < m.rows && Visits(es, r, c) ==> ValueIn(es, r, c) == CsrFormat.Cell(m, r, c))
  }

  /** Before the traversal nothing is delivered and no slot lies at or above
      the last row pointer. */
  lemma TraversedStart(m: Csr)
    requires CsrFormat.Valid(m)
    ensures Traversed(m, [], m.rowPointers[m.rows])
  {
    forall r, c | 0 <= r < m.rows
      ensures !(CsrFormat.Stored(m, r, c) && CsrFormat.Slot(m, r, c) >= m.rowPointers[m.rows])
    {
      assert m.rowPointers[r + 1] <= m.rowPointers[m.rows];
    }
  }

  /** Delivering slot k - 1 of row i, (i, columnIndexes[k-1], values[k-1]),
      extends the traversal down to that slot. */
  lemma TraversedStep(m: Csr, es: seq<Entry>, i: int, k: int)
    requires CsrFormat.Valid(m) && 0 <= i < m.rows && m.rowPointers[i] < k <= m.rowPointers[i + 1]
    requires Traversed(m, es, k)
    ensures Traversed(m, es + [Entry(i, m.columnIndexes[k - 1], m.values[k - 1])], k - 1)
  {
    var rp := m.rowPointers;
    var j := m.columnIndexes[k - 1];
    var e := Entry(i, j, m.values[k - 1]);
    var es' := es + [e];
    assert rp[i + 1] <= rp[m.rows];
    SlotInUnique(m.columnIndexes, rp[i], rp[i + 1], j, k - 1);
    CellBySlot(m, i, j);
    ValueInAppend(es, e, i, j);
    assert !Visits(es, i, j);
    forall n, l | 0 <= n < l < |es'|
      ensures (es'[n].row, es'[n].column) != (es'[l].row, es'[l].column)
    {
      assert es'[n] == es[n];
      if l < |es| {
        assert es'[l] == es[l];
      } else {
        assert Visits(es, es[n].row, es[n].column);
      }
    }
    forall r, c | 0 <= r < m.rows
      ensures Visits(es', r, c) <==> CsrFormat.Stored(m, r, c) && CsrFormat.Slot(m, r, c) >= k - 1
      ensures Visits(es', r, c) ==> ValueIn(es', r, c) == CsrFormat.Cell(m, r, c)
    {
      ValueInAppend(es, e, r, c);
    }
  }

  /** The whole traversal of m visits exactly its stored cells, each once,
      and reads every cell's value. */
  lemma TraversedAll(m: Csr, es: seq<Entry>)
    requires CsrFormat.Valid(m) && Traversed(m, es, 0)
    ensures NonZeros(m.rows, m.columns, es).WellFormed()
    ensures forall r, c :: 0 <= r < m.rows ==>
              (Visits(es, r, c) <==> CsrFormat.Stored(m, r, c)) && NonZeros(m.rows, m.columns, es).At(r, c) == CsrFormat.Cell(m, r, c)
  {
    forall r, c | 0 <= r < m.rows
      ensures NonZeros(m.rows, m.columns, es).At(r, c) == CsrFormat.Cell(m, r, c)
    {
      if !Visits(es, r, c) {
        ValueInUnvisited(es, r, c);
        CellBySlot(m, r, c);
      }
    }
  }

  /** Cell (r, c) after the traversal of `assign(y, LongPlusMultFirst(alpha))`
      as the code performs it, from its old value x: only the cells y visits
      are combined; every other cell keeps x, unscaled. */
  ghost function FirstCombined(x: int, y: NonZeros, r: int, c: int, alpha: int): int {
    if Visits(y.entries, r, c) then alpha * x + y.At(r, c) else x
  }

  /** The documented x := alpha*x + y does not hold for a nonzero cell that y
      does not visit, whenever alpha != 1. */
  lemma FirstCombinedMissesUnvisited(x: int, y: NonZeros, r: int, c: int, alpha: int)
    requires !Visits(y.entries, r, c) && x != 0 && alpha != 1
    ensures FirstCombined(x, y, r, c, alpha) != alpha * x + y.At(r, c)
  {
    ValueInUnvisited(y.entries, r, c);
  }

  /** The smallest instance: x = [[1]], y = [[0]] (nothing visited), alpha = 2
      leaves 1 where alpha*x + y is 2. */
  lemma FirstCombinedExample()
    ensures FirstCombined(1, NonZeros(1, 1, []), 0, 0, 2) == 1
    ensures 2 * 1 + NonZeros(1, 1, []).At(0, 0) == 2
  {
  }

  /** Values a visitor produced slot by slot, read cell by cell: the stored
      cells stay the same and each reads the visitor's result on its old value. */
  lemma VisitedCells(m: Csr, vals: seq<int>, f: (int, int, int) -> int)
    requires CsrFormat.Valid(m) && |vals| == |m.values|
    requires forall r, k :: 0 <= r < m.rows && m.rowPointers[r] <= k < m.rowPointers[r + 1] ==>
               vals[k] == f(r, m.columnIndexes[k], m.values[k])
    ensures CsrFormat.Valid(m.(values := vals))
    ensures forall r, c :: 0 <= r < m.rows ==>
              (CsrFormat.Stored(m.(values := vals), r, c) <==> CsrFormat.Stored(m, r, c))
              && CsrFormat.Cell(m.(values := vals), r, c)
                 == if CsrFormat.Stored(m, r, c) then f(r, c, CsrFormat.Cell(m, r, c)) else 0
  {
    CsrFormat.WithValuesValid(m, vals);
    forall r, c | 0 <= r < m.rows
      ensures CsrFormat.Stored(m.(values := vals), r, c) <==> CsrFormat.Stored(m, r, c)
      ensures CsrFormat.Cell(m.(values := vals), r, c)
              == if CsrFormat.Stored(m, r, c) then f(r, c, CsrFormat.Cell(m, r, c)) else 0
    {
      CsrFormat.WithValuesCell(m, vals, r, c);
      CsrFormat.CellBySlot(m, r, c);
    }
  }

  /** Giving every stored slot the value v keeps the stored cells, which
      then read v; a nonzero v leaves no stored zero. */
  lemma FilledCells(m: Csr, vals: seq<int>, v: int)
    requires CsrFormat.Valid(m) && vals == seq(|m.values|, _ => v)
    ensures CsrFormat.Valid(m.(values := vals))
    ensures forall r, c :: 0 <= r < m.rows ==>
              (CsrFormat.Stored(m.(values := vals), r, c) <==> CsrFormat.Stored(m, r, c))
              && CsrFormat.Cell(m.(values := vals), r, c) == if CsrFormat.Stored(m, r, c) then v else 0
    ensures v != 0 ==> CsrFormat.NoStoredZeros(m.(values := vals))
  {
    CsrFormat.WithValuesValid(m, vals);
    forall r, c | 0 <= r < m.rows
      ensures CsrFormat.Stored(m.(values := vals), r, c) <==> CsrFormat.Stored(m, r, c)
      ensures CsrFormat.Cell(m.(values := vals), r, c) == if CsrFormat.Stored(m, r, c) then v else 0
    {
      CsrFormat.WithValuesCell(m, vals, r, c);
    }
  }

  /** Multiplying every stored value by alpha multiplies every cell by
      alpha; a nonzero alpha keeps a matrix free of stored zeros. */
  lemma ScaledCells(m: Csr, vals: seq<int>, alpha: int)
    requires CsrFormat.Valid(m) && |vals| == |m.values|
    requires forall k :: 0 <= k < |vals| ==> vals[k] == m.values[k] * alpha
    ensures CsrFormat.Valid(m.(values := vals))
    ensures forall r, c :: 0 <= r < m.rows ==> CsrFormat.Cell(m.(values := vals), r, c) == alpha * CsrFormat.Cell(m, r, c)
    ensures CsrFormat.NoStoredZeros(m) && alpha != 0 ==> CsrFormat.NoStoredZeros(m.(values := vals))
  {
    CsrFormat.WithValuesValid(m, vals);
    forall r, c | 0 <= r < m.rows
      ensures CsrFormat.Cell(m.(values := vals), r, c) == alpha * CsrFormat.Cell(m, r, c)
    {
      CsrFormat.WithValuesCell(m, vals, r, c);
      CsrFormat.CellBySlot(m, r, c);
    }
    if CsrFormat.NoStoredZeros(m) && alpha != 0 {
      forall k | 0 <= k < |vals|
        ensures vals[k] != 0
      {
        assert m.values[k] != 0;
      }
    }
  }

  /** After the entries `es` of `assign(source)` have been written into a
      cleared matrix, every cell reads the source's visited value. */
  ghost predicate CopyReplayed(cur: Csr, es: seq<Entry>)
    requires CsrFormat.Valid(cur)
  {
    forall r, c :: 0 <= r < cur.rows ==> CsrFormat.Cell(cur, r, c) == ValueIn(es, r, c)
  }

  /** Writing entry n, `setQuick(i, j, value)`, extends the copied prefix. */
  lemma CopyReplayStep(prev: Csr, cur: Csr, es: seq<Entry>, n: nat)
    requires CsrFormat.Valid(prev) && n < |es| && CopyReplayed(prev, es[..n])
    requires CellSet(prev, cur, es[n].row, es[n].column, es[n].value)
    ensures CopyReplayed(cur, es[..n + 1])
  {
    forall r, c | 0 <= r < cur.rows
      ensures CsrFormat.Cell(cur, r, c) == ValueIn(es[..n + 1], r, c)
    {
      ValueInPush(es, n, r, c);
    }
  }

  /** After the entries `es` of a PlusMultSecond traversal have been replayed
      on m0, every cell is its m0 value plus alpha times the visited value. */
  ghost predicate SecondReplayed(m0: Csr, cur: Csr, es: seq<Entry>, alpha: int)
    requires CsrFormat.Valid(m0) && CsrFormat.Valid(cur) && cur.rows == m0.rows
  {
    forall r, c :: 0 <= r < m0.rows ==>
      CsrFormat.Cell(cur, r, c) == CsrFormat.Cell(m0, r, c) + alpha * ValueIn(es, r, c)
  }

  /** Replaying entry n, `setQuick(i, j, getQuick(i, j) + alpha * value)`,
      extends the replayed prefix by one entry. */
  lemma SecondReplayStep(m0: Csr, prev: Csr, cur: Csr, y: NonZeros, n: nat, alpha: int)
    requires CsrFormat.Valid(m0) && CsrFormat.Valid(prev) && prev.rows == m0.rows
    requires y.WellFormed() && n < |y.entries| && y.rows == m0.rows
    requires CellSet(prev, cur, y.entries[n].row, y.entries[n].column,
                     CsrFormat.Cell(prev, y.entries[n].row, y.entries[n].column) + alpha * y.entries[n].value)
    requires SecondReplayed(m0, prev, y.entries[..n], alpha)
    ensures SecondReplayed(m0, cur, y.entries[..n + 1], alpha)
  {
    FirstVisit(y, n);
    forall r, c | 0 <= r < m0.rows
      ensures CsrFormat.Cell(cur, r, c) == CsrFormat.Cell(m0, r, c) + alpha * ValueIn(y.entries[..n + 1], r, c)
    {
      ValueInPush(y.entries, n, r, c);
    }
  }

  /** The cells after the first entries `es` of a PlusMultFirst traversal
      have been replayed on m0: each visited cell is alpha times its m0 value
      plus the visited value, every other cell still has its m0 value. */
  ghost predicate FirstReplayed(m0: Csr, cur: Csr, es: seq<Entry>, alpha: int)
    requires CsrFormat.Valid(m0) && CsrFormat.Valid(cur) && cur.rows == m0.rows
  {
    forall r, c :: 0 <= r < m0.rows ==>
      CsrFormat.Cell(cur, r, c)
      == if Visits(es, r, c) then alpha * CsrFormat.Cell(m0, r, c) + ValueIn(es, r, c) else CsrFormat.Cell(m0, r, c)
  }

  /** Replaying entry n, `setQuick(i, j, alpha * getQuick(i, j) + value)`,
      extends the replayed prefix by one entry. */
  lemma FirstReplayStep(m0: Csr, prev: Csr, cur: Csr, y: NonZeros, n: nat, alpha: int)
    requires CsrFormat.Valid(m0) && CsrFormat.Valid(prev) && prev.rows == m0.rows
    requires y.WellFormed() && n < |y.entries| && y.rows == m0.rows
    requires CellSet(prev, cur, y.entries[n].row, y.entries[n].column,
                     alpha * CsrFormat.Cell(prev, y.entries[n].row, y.entries[n].column) + y.entries[n].value)
    requires FirstReplayed(m0, prev, y.entries[..n], alpha)
    ensures FirstReplayed(m0, cur, y.entries[..n + 1], alpha)
  {
    FirstVisit(y, n);
    forall r, c | 0 <= r < m0.rows
      ensures CsrFormat.Cell(cur, r, c)
              == if Visits(y.entries[..n + 1], r, c) then alpha * CsrFormat.Cell(m0, r, c) + ValueIn(y.entries[..n + 1], r, c)
                 else CsrFormat.Cell(m0, r, c)
    {
      ValueInPush(y.entries, n, r, c);
    }
  }

  /** One more slot in an `int` row sum: adding the slot's term and
      narrowing again gives the narrowed longer sum. */
  lemma NarrowedSliceStep(cols: seq<int>, vals: seq<int>, lo: int, k: int, y: seq<int>, sum: int, term: int)
    requires 0 <= lo <= k < |cols| && k < |vals|
    requires forall j :: lo <= j <= k ==> 0 <= cols[j] < |y|
    requires sum == Int32(SliceDot(cols, vals, lo, k, y)) && term == vals[k] * y[cols[k]]
    ensures Int32(sum + term) == Int32(SliceDot(cols, vals, lo, k + 1, y))
  {
    Int32Add(SliceDot(cols, vals, lo, k, y), term);
  }

  /** alpha * v elementwise: the `yElem` values of the transposed kernel. */
  function Scaled(alpha: int, v: seq<int>): (r: seq<int>)
    ensures |r| == |v| && forall i :: 0 <= i < |v| ==> r[i] == alpha * v[i]
  {
    seq(|v|, i requires 0 <= i < |v| => alpha * v[i])
  }

  /** Folding one more kernel term `(value * alpha) * b` into a scaled sum. */
  /** The bottom slot of a slice, scaled: what one step of the matrix
      kernels adds, (v * alpha) * y[j], joins alpha times the rest. */
  lemma ScaledFrontStep(cols: seq<int>, vals: seq<int>, k: int, high: int, y: seq<int>, alpha: int)
    requires 0 <= k < high <= |cols| && high <= |vals|
    requires forall j :: k <= j < high ==> 0 <= cols[j] < |y|
    ensures alpha * SliceDot(cols, vals, k + 1, high, y) + (vals[k] * alpha) * y[cols[k]]
            == alpha * SliceDot(cols, vals, k, high, y)
  {
    SliceDotFront(cols, vals, k, high, y);
    MulStep(alpha, vals[k], y[cols[k]], SliceDot(cols, vals, k + 1, high, y));
  }

  lemma MulSwap(v: int, alpha: int, b: int)
    ensures (v * alpha) * b == alpha * (v * b)
  {
  }

  lemma MulStep(alpha: int, v: int, b: int, s: int)
    ensures alpha * s + (v * alpha) * b == alpha * (v * b + s)
  {
    calc {
      alpha * s + (v * alpha) * b;
      alpha * s + alpha * (v * b);
      alpha * (v * b + s);
    }
  }

  class SparseRCLongMatrix2D {
    const rows: nat
    const columns: nat
    var rowPointers: array<int>
    var columnIndexes: seq<int>
    var values: seq<int>

    /** The representation as a value. */
    ghost function State(): Csr
      reads this, rowPointers
    {
      Csr(rows, columns, rowPointers[..], columnIndexes, values)
    }

    ghost predicate Valid()
      reads this, rowPointers
    {
      CsrFormat.Valid(State())
    }

    /** The abstract matrix: cell (r, c). */
    ghost function Cell(r: int, c: int): int
      reads this, rowPointers
      requires Valid() && 0 <= r < rows
    {
      CsrFormat.Cell(State(), r, c)
    }

    ghost predicate Stored(r: int, c: int)
      reads this, rowPointers
      requires Valid() && 0 <= r < rows
    {
      CsrFormat.Stored(State(), r, c)
    }

    ghost predicate NoStoredZeros()
      reads this, rowPointers
    {
      CsrFormat.NoStoredZeros(State())
    }

    /** `SparseRCLongMatrix2D(rows, columns)`: an empty matrix. */
    constructor (rows: nat, columns: nat)
      ensures Valid() && NoStoredZeros() && fresh(rowPointers)
      ensures this.rows == rows && this.columns == columns
      ensures columnIndexes == [] && values == [] && rowPointers[..] == seq(rows + 1, _ => 0)
      ensures forall r, c :: 0 <= r < rows ==> !Stored(r, c) && Cell(r, c) == 0
    {
      this.rows := rows;
      this.columns := columns;
      columnIndexes := [];
      values := [];
      rowPointers := new int[rows + 1](_ => 0);
    }

    /** `SparseRCLongMatrix2D(rows, columns, nzmax)`: the same, with an
        initial list capacity that has no logical effect. */
    constructor WithCapacity(rows: nat, columns: nat, nzmax: nat)
      ensures Valid() && NoStoredZeros() && fresh(rowPointers)
      ensures this.rows == rows && this.columns == columns
      ensures columnIndexes == [] && values == [] && rowPointers[..] == seq(rows + 1, _ => 0)
      ensures forall r, c :: 0 <= r < rows ==> !Stored(r, c) && Cell(r, c) == 0
    {
      this.rows := rows;
      this.columns := columns;
      columnIndexes := [];
      values := [];
      rowPointers := new int[rows + 1](_ => 0);
    }

    /** `cardinality()`: the number of stored entries. */
    function Cardinality(): (n: nat)
      reads this, rowPointers
      requires Valid()
      ensures n == rowPointers[rows] && n == |values|
    {
      |columnIndexes|
    }

    /** The binary search of getQuick/setQuick over row `row`'s slice. */
    method SearchRow(row: int, column: int) returns (k: int)
      requires Valid() && 0 <= row < rows
      ensures k >= 0 ==> k == Slot(State(), row, column)
      ensures k < 0 ==> Slot(State(), row, column) == -1
      ensures k < 0 ==> InsertionPoint(State(), row, column, -k - 1)
    {
      var lo, hi := rowPointers[row], rowPointers[row + 1];
      assert lo <= hi <= rowPointers[rows];
      assert Increasing(columnIndexes, lo, hi);
      k := BinarySearchFromTo(columnIndexes, column, lo, hi - 1);
      if k >= 0 {
        SlotInUnique(columnIndexes, lo, hi, column, k);
      }
    }

    /** `getQuick(row, column)`. */
    method GetQuick(row: int, column: int) returns (v: int)
      requires Valid() && 0 <= row < rows
      ensures v == Cell(row, column)
    {
      var k := SearchRow(row, column);
      v := 0;
      if k >= 0 {
        v := values[k];
      }
    }

    /** `insert(row, column, index, value)`: shift-insert the pair at storage
        slot `index` and move every later row's pointer up by one. */
    method Insert(row: int, column: int, index: int, value: int)
      requires Valid() && 0 <= row < rows && 0 <= column < columns
      requires InsertionPoint(State(), row, column, index)
      modifies this, rowPointers
      ensures rowPointers == old(rowPointers)
      ensures State() == InsertEntry(old(State()), row, column, index, value)
      ensures Valid() && Stored(row, column) && Cell(row, column) == value
      ensures forall r, c :: 0 <= r < rows && (r != row || c != column) ==>
                (Stored(r, c) <==> old(Stored(r, c))) && Cell(r, c) == old(Cell(r, c))
    {
      ghost var m := State();
      assert rowPointers[row + 1] <= rowPointers[rows];
      columnIndexes := InsertAt(columnIndexes, index, column);
      values := InsertAt(values, index, value);
      ShiftPointers(row, 1);
      assert State() == InsertEntry(m, row, column, index, value);
      InsertEntryCells(m, row, column, index, value);
    }

    /** The pointer loop of insert and remove: every pointer after row `row`
        moves by d. */
    method ShiftPointers(row: int, d: int)
      requires 0 <= row < rowPointers.Length
      modifies rowPointers
      ensures rowPointers[..] == ShiftTail(old(rowPointers[..]), row, d)
    {
      var i := rowPointers.Length - 1;
      while i > row
        invariant row <= i < rowPointers.Length
        invariant forall j :: 0 <= j < rowPointers.Length ==>
                    rowPointers[j] == if j > i then old(rowPointers[j]) + d else old(rowPointers[j])
      {
        rowPointers[i] := rowPointers[i] + d;
        i := i - 1;
      }
    }

    /** `remove(row, index)`: delete storage slot `index` of row `row` and move
        every later row's pointer down by one. */
    method Remove(row: int, index: int)
      requires Valid() && 0 <= row < rows
      requires rowPointers[row] <= index < rowPointers[row + 1]
      modifies this, rowPointers
      ensures rowPointers == old(rowPointers)
      ensures State() == RemoveEntry(old(State()), row, index)
      ensures Valid()
      ensures !Stored(row, old(columnIndexes[index])) && Cell(row, old(columnIndexes[index])) == 0
      ensures forall r, c :: 0 <= r < rows && (r != row || c != old(columnIndexes[index])) ==>
                (Stored(r, c) <==> old(Stored(r, c))) && Cell(r, c) == old(Cell(r, c))
    {
      ghost var m := State();
      assert rowPointers[row + 1] <= rowPointers[rows];
      columnIndexes := RemoveAt(columnIndexes, index);
      values := RemoveAt(values, index);
      ShiftPointers(row, -1);
      assert State() == RemoveEntry(m, row, index);
      RemoveEntryCells(m, row, index);
    }

    /** `setQuick(row, column, value)`: overwrite a stored cell, remove it when
        the new value is 0, or insert it at the slot the search reported. */
    method SetQuick(row: int, column: int, value: int)
      requires Valid() && 0 <= row < rows && 0 <= column < columns
      modifies this, rowPointers
      ensures rowPointers == old(rowPointers)
      ensures CellSet(old(State()), State(), row, column, value)
    {
      var k := SearchRow(row, column);
      if k >= 0 {
        SetStored(row, column, k, value);
      } else {
        SetAbsent(row, column, -k - 1, value);
      }
    }

    /** setQuick on a stored cell at slot k: remove it for 0, overwrite it
        otherwise. */
    method SetStored(row: int, column: int, k: int, value: int)
      requires Valid() && 0 <= row < rows && k >= 0 && k == Slot(State(), row, column)
      modifies this, rowPointers
      ensures rowPointers == old(rowPointers)
      ensures CellSet(old(State()), State(), row, column, value)
    {
      ghost var m := State();
      if value == 0 {
        Remove(row, k);
        RemoveSetsCell(m, row, column);
      } else {
        assert rowPointers[row + 1] <= rowPointers[rows];
        values := values[k := value];
        assert State() == OverwriteEntry(m, k, value);
        OverwriteSetsCell(m, row, column, value);
      }
    }

    /** setQuick on a cell with no slot: insert it at its insertion point
        unless the value is 0. */
    method SetAbsent(row: int, column: int, index: int, value: int)
      requires Valid() && 0 <= row < rows && 0 <= column < columns
      requires Slot(State(), row, column) == -1 && InsertionPoint(State(), row, column, index)
      modifies this, rowPointers
      ensures rowPointers == old(rowPointers)
      ensures CellSet(old(State()), State(), row, column, value)
    {
      ghost var m := State();
      if value != 0 {
        Insert(row, column, index, value);
        InsertSetsCell(m, row, column, index, value);
      } else {
        AbsentSetsZero(m, row, column);
      }
    }

    /** `forEachNonZero(function)`, serial branch: visit the rows from the
        last to the first and each row's slots from the top down, and write
        the visitor's result back into the visited slot. The structure is not
        touched, so a visitor that returns 0 leaves a stored zero behind. */
    method ForEachNonZero(f: (int, int, int) -> int)
      requires Valid()
      modifies this
      ensures Valid()
      ensures rowPointers == old(rowPointers) && columnIndexes == old(columnIndexes)
      ensures |values| == |old(values)|
      ensures forall r, k :: 0 <= r < rows && rowPointers[r] <= k < rowPointers[r + 1] ==>
                values[k] == f(r, columnIndexes[k], old(values[k]))
      ensures forall r, c :: 0 <= r < rows ==>
                (Stored(r, c) <==> old(Stored(r, c)))
                && Cell(r, c) == if Stored(r, c) then f(r, c, old(Cell(r, c))) else 0
    {
      ghost var m := State();
      VisitRows(f, m);
      VisitedCells(m, values, f);
      assert State() == m.(values := values);
    }

    /** The serial loop of forEachNonZero: rows from the last to the first,
        each row's slots then hold the visitor's results. */
    method VisitRows(f: (int, int, int) -> int, ghost m: Csr)
      requires CsrFormat.Valid(m) && m.rows == rows
      requires rowPointers.Length == rows + 1 && rowPointers[..] == m.rowPointers
      requires columnIndexes == m.columnIndexes && values == m.values
      modifies this
      ensures rowPointers == old(rowPointers) && columnIndexes == m.columnIndexes && |values| == |m.values|
      ensures forall r, k :: 0 <= r < rows && m.rowPointers[r] <= k < m.rowPointers[r + 1] ==>
                values[k] == f(r, m.columnIndexes[k], m.values[k])
    {
      var i := rowPointers.Length - 1;
      while i > 0
        invariant 0 <= i <= rows
        invariant rowPointers == old(rowPointers) && columnIndexes == m.columnIndexes && |values| == |m.values|
        invariant forall k :: 0 <= k < m.rowPointers[i] ==> values[k] == m.values[k]
        invariant forall r, k :: i <= r < rows && m.rowPointers[r] <= k < m.rowPointers[r + 1] ==>
                    values[k] == f(r, m.columnIndexes[k], m.values[k])
      {
        i := i - 1;
        assert m.rowPointers[i] <= m.rowPointers[i + 1] <= m.rowPointers[rows];
        ghost var before := values;
        VisitRow(i, f);
        forall k | 0 <= k < m.rowPointers[i]
          ensures values[k] == m.values[k]
        {
          assert values[k] == before[k];
        }
        forall r, k | i <= r < rows && m.rowPointers[r] <= k < m.rowPointers[r + 1]
          ensures values[k] == f(r, m.columnIndexes[k], m.values[k])
        {
          if r == i {
            assert before[k] == m.values[k];
          } else {
            assert m.rowPointers[i + 1] <= m.rowPointers[r];
            assert values[k] == before[k];
          }
        }
      }
    }

    /** The entries the serial forEachNonZero delivers to its visitor: rows
        from the last to the first, each row's slots from the top down, each
        as (row, column, stored value). They visit exactly the stored cells,
        each once, stored zeros included, and the operand they describe reads
        every cell of this matrix. */
    method Traversal() returns (t: NonZeros)
      requires Valid()
      ensures t.rows == rows && t.columns == columns && t.WellFormed()
      ensures forall r, c :: 0 <= r < rows ==> (Visits(t.entries, r, c) <==> Stored(r, c)) && t.At(r, c) == Cell(r, c)
    {
      ghost var m := State();
      var es: seq<Entry> := [];
      TraversedStart(m);
      var i := rowPointers.Length - 1;
      while i > 0
        invariant 0 <= i <= rows && Traversed(m, es, m.rowPointers[i])
      {
        i := i - 1;
        es := TraverseRow(i, es, m);
      }
      TraversedAll(m, es);
      t := NonZeros(rows, columns, es);
    }

    /** Row i of that traversal: its slots from the top down, appended to the
        entries delivered so far. */
    method TraverseRow(i: int, es: seq<Entry>, ghost m: Csr) returns (es': seq<Entry>)
      requires Valid() && m == State() && 0 <= i < rows && Traversed(m, es, m.rowPointers[i + 1])
      ensures Traversed(m, es', m.rowPointers[i])
    {
      es' := es;
      var low := rowPointers[i];
      var k := rowPointers[i + 1];
      while k > low
        invariant low <= k <= m.rowPointers[i + 1] && Traversed(m, es', k)
      {
        TraversedStep(m, es', i, k);
        k := k - 1;
        es' := es' + [Entry(i, columnIndexes[k], values[k])];
      }
    }

    /** One row of the serial traversal, its slots from the top down: each
        slot whose visitor result differs from its value is overwritten. */
    method VisitRow(i: int, f: (int, int, int) -> int)
      requires 0 <= i < rowPointers.Length - 1
      requires 0 <= rowPointers[i] <= rowPointers[i + 1] <= |values| == |columnIndexes|
      modifies this
      ensures rowPointers == old(rowPointers) && columnIndexes == old(columnIndexes) && |values| == |old(values)|
      ensures forall k :: 0 <= k < |values| ==>
                values[k] == if rowPointers[i] <= k < rowPointers[i + 1] then f(i, columnIndexes[k], old(values[k]))
                             else old(values[k])
    {
      var low := rowPointers[i];
      var high := rowPointers[i + 1];
      var k := high;
      while k > low
        invariant low <= k <= high
        invariant rowPointers == old(rowPointers) && columnIndexes == old(columnIndexes) && |values| == |old(values)|
        invariant forall k' :: 0 <= k' < |values| ==>
                    values[k'] == if k <= k' < high then f(i, columnIndexes[k'], old(values[k']))
                                  else old(values[k'])
      {
        k := k - 1;
        var j := columnIndexes[k];
        var value := values[k];
        var r := f(i, j, value);
        if r != value {
          values := values[k := r];
        }
      }
    }

    /** `assign(value)`: 0 drops the whole structure; any other value
        overwrites every stored value and leaves unstored cells at 0. */
    method AssignScalar(value: int)
      requires Valid()
      modifies this
      ensures Valid() && NoStoredZeros()
      ensures value == 0 ==> fresh(rowPointers) && rowPointers[..] == seq(rows + 1, _ => 0)
                             && columnIndexes == [] && values == [] && Cardinality() == 0
      ensures value == 0 ==> forall r, c :: 0 <= r < rows ==> !Stored(r, c) && Cell(r, c) == 0
      ensures value != 0 ==> rowPointers == old(rowPointers) && columnIndexes == old(columnIndexes)
                             && values == seq(|old(values)|, _ => value)
      ensures value != 0 ==> forall r, c :: 0 <= r < rows ==>
                (Stored(r, c) <==> old(Stored(r, c))) && Cell(r, c) == if Stored(r, c) then value else 0
    {
      if value == 0 {
        columnIndexes := [];
        values := [];
        rowPointers := new int[rows + 1](_ => 0);
      } else {
        ghost var m := State();
        FillValues(value);
        assert State() == m.(values := values);
        FilledCells(m, values, value);
      }
    }

    /** The loop of `assign(value)` for a nonzero value: every stored value
        becomes value, the structure untouched. */
    method FillValues(value: int)
      modifies this
      ensures rowPointers == old(rowPointers) && columnIndexes == old(columnIndexes)
      ensures values == seq(|old(values)|, _ => value)
    {
      var nnz := |values|;
      var i := 0;
      while i < nnz
        invariant 0 <= i <= nnz == |values|
        invariant rowPointers == old(rowPointers) && columnIndexes == old(columnIndexes)
        invariant forall k :: 0 <= k < i ==> values[k] == value
      {
        values := values[i := value];
        i := i + 1;
      }
    }

    /** `assign(function)`: LongMult(1) is a no-op, LongMult(0) is
        `assign(0)`, any other LongMult scales the stored values in place;
        any other function is applied by forEachNonZero. */
    method AssignFunction(fun: LongFunction)
      requires Valid()
      modifies this
      ensures Valid() && (rowPointers == old(rowPointers) || fresh(rowPointers))
      ensures fun.LongMult? ==> forall r, c :: 0 <= r < rows ==> Cell(r, c) == fun.multiplicator * old(Cell(r, c))
      ensures fun.LongMult? ==> (old(NoStoredZeros()) ==> NoStoredZeros())
      ensures fun.LongMult? && fun.multiplicator == 1 ==>
                rowPointers == old(rowPointers) && columnIndexes == old(columnIndexes) && values == old(values)
      ensures fun.LongMult? && fun.multiplicator == 0 ==> Cardinality() == 0
      ensures (fun.LongMult? && fun.multiplicator != 0) || fun.Apply? ==>
                rowPointers == old(rowPointers) && columnIndexes == old(columnIndexes) && |values| == |old(values)|
      ensures fun.LongMult? && fun.multiplicator != 0 ==>
                forall k :: 0 <= k < |values| ==> values[k] == old(values[k]) * fun.multiplicator
      ensures fun.Apply? ==> forall r, c :: 0 <= r < rows ==>
                (Stored(r, c) <==> old(Stored(r, c)))
                && Cell(r, c) == if Stored(r, c) then fun.f(old(Cell(r, c))) else 0
    {
      match fun
      case LongMult(alpha) =>
        if alpha == 1 {
          return;
        }
        if alpha == 0 {
          AssignScalar(0);
          return;
        }
        ghost var m := State();
        ScaleValues(alpha);
        assert State() == m.(values := values);
        ScaledCells(m, values, alpha);
      case Apply(f) =>
        ForEachNonZero((i, j, value) => f(value));
    }

    /** The in-place loop of `assign(LongMult(alpha))`: every stored value
        times alpha, the structure untouched. */
    method ScaleValues(alpha: int)
      modifies this
      ensures rowPointers == old(rowPointers) && columnIndexes == old(columnIndexes)
      ensures |values| == |old(values)|
      ensures forall k :: 0 <= k < |values| ==> values[k] == old(values[k]) * alpha
    {
      var j := |values|;
      while j > 0
        invariant 0 <= j <= |values| == |old(values)|
        invariant rowPointers == old(rowPointers) && columnIndexes == old(columnIndexes)
        invariant forall k :: 0 <= k < j ==> values[k] == old(values[k])
        invariant forall k :: j <= k < |values| ==> values[k] == old(values[k]) * alpha
      {
        j := j - 1;
        values := values[j := values[j] * alpha];
      }
    }

    /** `assign(source)` for another SparseRCLongMatrix2D: the receiver itself
        is a no-op; a shape mismatch is an error before anything is written;
        otherwise the three parts are copied. */
    method AssignMatrix(source: SparseRCLongMatrix2D) returns (o: Outcome)
      requires Valid() && source.Valid()
      modifies this, rowPointers
      ensures o.Fail? <==> source != this && (source.rows != rows || source.columns != columns)
      ensures o.Fail? ==> o.error == IncompatibleShape && State() == old(State())
      ensures rowPointers == old(rowPointers) && Valid()
      ensures o.Pass? ==> State() == old(source.State())
      ensures o.Pass? ==> forall r, c :: 0 <= r < rows ==> Cell(r, c) == old(source.Cell(r, c))
      ensures o.Pass? && old(source.NoStoredZeros()) ==> NoStoredZeros()
    {
      if source == this {
        return Pass;
      }
      if source.rows != rows || source.columns != columns {
        return Fail(IncompatibleShape);
      }
      ghost var s := source.State();
      forall i | 0 <= i < rowPointers.Length {
        rowPointers[i] := source.rowPointers[i];
      }
      columnIndexes := source.columnIndexes;
      values := source.values;
      assert rowPointers[..] == s.rowPointers;
      return Pass;
    }

    /** `assign(source)` for a source of another kind: check the shape, clear
        the receiver, then setQuick every cell the source's traversal visits. */
    method AssignCells(source: NonZeros) returns (o: Outcome)
      requires Valid() && source.WellFormed()
      modifies this, rowPointers
      ensures Valid()
      ensures o.Fail? <==> source.rows != rows || source.columns != columns
      ensures o.Fail? ==> o.error == IncompatibleShape && rowPointers == old(rowPointers) && State() == old(State())
      ensures o.Pass? ==> NoStoredZeros() && forall r, c :: 0 <= r < rows ==> Cell(r, c) == source.At(r, c)
    {
      if source.rows != rows || source.columns != columns {
        return Fail(IncompatibleShape);
      }
      AssignScalar(0);
      var es := source.entries;
      var n := 0;
      while n < |es|
        invariant 0 <= n <= |es|
        invariant Valid() && NoStoredZeros() && fresh(rowPointers)
        invariant CopyReplayed(State(), es[..n])
      {
        var e := es[n];
        ghost var prev := State();
        SetQuick(e.row, e.column, e.value);
        CopyReplayStep(prev, State(), es, n);
        n := n + 1;
      }
      assert es[..n] == es;
      return Pass;
    }

    /** `assign(y, function)` for LongPlusMultSecond and LongPlusMultFirst:
        check the shape, then for every cell y's traversal visits, setQuick
        the combination of the current cell and y's value. PlusMultSecond(0)
        is a no-op and PlusMultFirst(0) is `assign(y)`. Cells y does not
        visit are left as they are, in both cases. */
    method AssignPlusMult(y: NonZeros, fun: PlusMult) returns (o: Outcome)
      requires Valid() && y.WellFormed()
      modifies this, rowPointers
      ensures Valid()
      ensures o.Fail? <==> y.rows != rows || y.columns != columns
      ensures o.Fail? ==> o.error == IncompatibleShape && rowPointers == old(rowPointers) && State() == old(State())
      ensures o.Pass? && fun.PlusMultSecond? ==>
                forall r, c :: 0 <= r < rows ==> Cell(r, c) == old(Cell(r, c)) + fun.multiplicator * y.At(r, c)
      ensures o.Pass? && fun.PlusMultFirst? ==>
                forall r, c :: 0 <= r < rows ==>
                  Cell(r, c) == if fun.multiplicator == 0 then y.At(r, c)
                                else FirstCombined(old(Cell(r, c)), y, r, c, fun.multiplicator)
      ensures o.Pass? && old(NoStoredZeros()) ==> NoStoredZeros()
    {
      if y.rows != rows || y.columns != columns {
        return Fail(IncompatibleShape);
      }
      var alpha := fun.multiplicator;
      if alpha == 0 {
        if fun.PlusMultFirst? {
          o := AssignCells(y);
        }
        return Pass;
      }
      if fun.PlusMultSecond? {
        AddScaled(y, alpha);
      } else {
        ScaleVisited(y, alpha);
      }
      return Pass;
    }

    /** `assign(y, function)` for a y that is itself a SparseRCLongMatrix2D:
        the same shape check; PlusMultFirst(0) is `assign(y)`, which copies
        y's representation, stored zeros included; every other case replays
        the entries y's own serial forEachNonZero delivers. */
    method AssignPlusMultSparse(y: SparseRCLongMatrix2D, fun: PlusMult) returns (o: Outcome)
      requires Valid() && y.Valid() && (y != this || fun.multiplicator == 0)
      modifies this, rowPointers
      ensures Valid()
      ensures o.Fail? <==> y.rows != rows || y.columns != columns
      ensures o.Fail? ==> o.error == IncompatibleShape && rowPointers == old(rowPointers) && State() == old(State())
      ensures o.Pass? && fun.PlusMultSecond? ==>
                forall r, c :: 0 <= r < rows ==> Cell(r, c) == old(Cell(r, c)) + fun.multiplicator * old(y.Cell(r, c))
      ensures o.Pass? && fun == PlusMultFirst(0) ==> State() == old(y.State())
      ensures o.Pass? && fun.PlusMultFirst? && fun.multiplicator != 0 ==>
                forall r, c :: 0 <= r < rows ==>
                  Cell(r, c) == if old(y.Stored(r, c)) then fun.multiplicator * old(Cell(r, c)) + old(y.Cell(r, c))
                                else old(Cell(r, c))
      ensures o.Pass? && fun != PlusMultFirst(0) && old(NoStoredZeros()) ==> NoStoredZeros()
    {
      if y.rows != rows || y.columns != columns {
        return Fail(IncompatibleShape);
      }
      if fun == PlusMultFirst(0) {
        o := AssignMatrix(y);
        return Pass;
      }
      var t := y.Traversal();
      o := AssignPlusMult(t, fun);
    }

    /** The traversal of `assign(y, LongPlusMultSecond(alpha))`: every cell
        y visits becomes getQuick + alpha * y's value. */
    method AddScaled(y: NonZeros, alpha: int)
      requires Valid() && y.WellFormed() && y.rows == rows && y.columns == columns
      modifies this, rowPointers
      ensures Valid() && rowPointers == old(rowPointers)
      ensures forall r, c :: 0 <= r < rows ==> Cell(r, c) == old(Cell(r, c)) + alpha * y.At(r, c)
      ensures old(NoStoredZeros()) ==> NoStoredZeros()
    {
      ghost var m0 := State();
      var es := y.entries;
      var n := 0;
      while n < |es|
        invariant 0 <= n <= |es|
        invariant Valid() && (CsrFormat.NoStoredZeros(m0) ==> NoStoredZeros())
        invariant rowPointers == old(rowPointers)
        invariant SecondReplayed(m0, State(), es[..n], alpha)
      {
        var e := es[n];
        var current := GetQuick(e.row, e.column);
        ghost var prev := State();
        SetQuick(e.row, e.column, current + alpha * e.value);
        SecondReplayStep(m0, prev, State(), y, n, alpha);
        n := n + 1;
      }
      assert es[..n] == es;
    }

    /** The traversal of `assign(y, LongPlusMultFirst(alpha))`: every cell y
        visits becomes alpha * getQuick + y's value; the others keep their
        value. */
    method ScaleVisited(y: NonZeros, alpha: int)
      requires Valid() && y.WellFormed() && y.rows == rows && y.columns == columns
      modifies this, rowPointers
      ensures Valid() && rowPointers == old(rowPointers)
      ensures forall r, c :: 0 <= r < rows ==>
                Cell(r, c) == FirstCombined(old(Cell(r, c)), y, r, c, alpha)
      ensures old(NoStoredZeros()) ==> NoStoredZeros()
    {
      ghost var m0 := State();
      var es := y.entries;
      var n := 0;
      assert FirstReplayed(m0, State(), es[..0], alpha);
      while n < |es|
        invariant 0 <= n <= |es|
        invariant Valid() && (CsrFormat.NoStoredZeros(m0) ==> NoStoredZeros())
        invariant rowPointers == old(rowPointers)
        invariant FirstReplayed(m0, State(), es[..n], alpha)
      {
        ReplayFirstEntry(m0, y, n, alpha);
        n := n + 1;
      }
      assert es[..n] == es;
    }

    /** One step of that traversal: entry n of y, (i, j, value), runs
        `setQuick(i, j, alpha * getQuick(i, j) + value)`. */
    method ReplayFirstEntry(ghost m0: Csr, y: NonZeros, n: nat, alpha: int)
      requires Valid() && y.WellFormed() && y.rows == rows && y.columns == columns && n < |y.entries|
      requires CsrFormat.Valid(m0) && m0.rows == rows && FirstReplayed(m0, State(), y.entries[..n], alpha)
      modifies this, rowPointers
      ensures Valid() && rowPointers == old(rowPointers)
      ensures FirstReplayed(m0, State(), y.entries[..n + 1], alpha)
      ensures old(NoStoredZeros()) ==> NoStoredZeros()
    {
      var e := y.entries[n];
      var current := GetQuick(e.row, e.column);
      ghost var prev := State();
      SetQuick(e.row, e.column, alpha * current + e.value);
      FirstReplayStep(m0, prev, State(), y, n, alpha);
    }

    /** `assign(y, LongPlusMultFirst(alpha))` as documented, x := alpha*x + y
        on every cell: the whole matrix is scaled first, then y's visited
        cells are added. */
    method AssignPlusMultFirstAll(y: NonZeros, alpha: int) returns (o: Outcome)
      requires Valid() && y.WellFormed()
      modifies this, rowPointers
      ensures Valid()
      ensures o.Fail? <==> y.rows != rows || y.columns != columns
      ensures o.Fail? ==> o.error == IncompatibleShape && rowPointers == old(rowPointers) && State() == old(State())
      ensures o.Pass? ==> forall r, c :: 0 <= r < rows ==> Cell(r, c) == alpha * old(Cell(r, c)) + y.At(r, c)
      ensures o.Pass? && old(NoStoredZeros()) ==> NoStoredZeros()
    {
      if y.rows != rows || y.columns != columns {
        return Fail(IncompatibleShape);
      }
      AssignFunction(LongMult(alpha));
      label scaled:
      AddScaled(y, 1);
      forall r, c | 0 <= r < rows
        ensures Cell(r, c) == alpha * old(Cell(r, c)) + y.At(r, c)
      {
        assert Cell(r, c) == old@scaled(Cell(r, c)) + y.At(r, c);
      }
      return Pass;
    }

    /** `getFull()`: the dense matrix holding every cell. */
    method GetFull() returns (full: seq<seq<int>>)
      requires Valid()
      ensures |full| == rows && forall r :: 0 <= r < rows ==> |full[r]| == columns
      ensures forall r, c :: 0 <= r < rows && 0 <= c < columns ==> full[r][c] == Cell(r, c)
    {
      ghost var m := State();
      full := seq(rows, _ => seq(columns, _ => 0));
      var i := rows;
      while i > 0
        invariant 0 <= i <= rows
        invariant |full| == rows && forall r :: 0 <= r < rows ==> |full[r]| == columns
        invariant forall r, c :: i <= r < rows && 0 <= c < columns ==> full[r][c] == CsrFormat.Cell(m, r, c)
      {
        i := i - 1;
        var line := RowLine(i);
        full := full[i := line];
      }
    }

    /** One row of getFull: row i's slots from the top down, each stored
        cell read back with getQuick. */
    method RowLine(i: int) returns (line: seq<int>)
      requires Valid() && 0 <= i < rows
      ensures |line| == columns && forall c :: 0 <= c < columns ==> line[c] == Cell(i, c)
    {
      ghost var m := State();
      var low := rowPointers[i];
      var k := rowPointers[i + 1];
      assert low <= k <= rowPointers[rows];
      assert Increasing(columnIndexes, low, k);
      line := seq(columns, _ => 0);
      while k > low
        invariant low <= k <= m.rowPointers[i + 1]
        invariant |line| == columns
        invariant forall c :: 0 <= c < columns ==>
                    line[c] == if Slot(m, i, c) >= k then CsrFormat.Cell(m, i, c) else 0
      {
        k := k - 1;
        var j := columnIndexes[k];
        SlotInUnique(m.columnIndexes, low, m.rowPointers[i + 1], j, k);
        var v := GetQuick(i, j);
        line := line[j := v];
        forall c | 0 <= c < columns && c != j
          ensures Slot(m, i, c) != k
        {
        }
      }
      forall c | 0 <= c < columns {
        CellBySlot(m, i, c);
      }
    }

    // ----- matrix-vector products ------------------------------------------

    /** The inner loop of the non-transposed kernels: row i's stored entries
        times y, accumulated in a Java `int sum`. The result is row i of the
        matrix times y, narrowed to 32 bits. */
    method RowSum(i: int, y: DenseVector) returns (sum: int)
      requires Valid() && 0 <= i < rows && y.InBounds() && y.size == columns
      ensures sum == Int32(CellRowDot(State(), i, y.Logical(), columns))
    {
      ghost var m := State();
      ghost var ylog := y.Logical();
      var low := rowPointers[i];
      var high := rowPointers[i + 1];
      assert low <= high <= rowPointers[rows];
      var k := low;
      sum := 0;
      Int32OfInt32(0);
      while k < high
        invariant low <= k <= high
        invariant sum == Int32(SliceDot(m.columnIndexes, m.values, low, k, ylog))
      {
        var j := columnIndexes[k];
        var term := values[k] * y.elements[y.Pos(j)];
        NarrowedSliceStep(m.columnIndexes, m.values, low, k, ylog, sum, term);
        sum := Int32(sum + term);
        k := k + 1;
      }
      RowProductIsCellRowDot(m, i, ylog);
    }

    /** The serial loop of `zMult(y, z)`: z[i] = sum for every row. */
    method PlainRows(y: DenseVector, w: DenseVector)
      requires Valid() && y.InBounds() && y.size == columns
      requires w.InBounds() && w.stride != 0 && w.elements != rowPointers && w.elements != y.elements && rows <= w.size
      modifies w.elements
      ensures forall i :: 0 <= i < rows ==> w.elements[w.Pos(i)] == Int32(CellRowDot(State(), i, y.Logical(), columns))
      ensures forall p :: 0 <= p < w.elements.Length && w.Outside(rows, p) ==> w.elements[p] == old(w.elements[p])
    {
      ghost var ylog := y.Logical();
      ghost var m := State();
      var s := rowPointers.Length - 1;
      var zidx := w.zero;
      var i := 0;
      while i < s
        invariant 0 <= i <= rows && zidx == w.Pos(i)
        invariant State() == m && y.Logical() == ylog
        invariant forall i' :: 0 <= i' < i ==> w.elements[w.Pos(i')] == Int32(CellRowDot(m, i', ylog, columns))
        invariant forall p :: 0 <= p < w.elements.Length && w.Outside(i, p) ==> w.elements[p] == old(w.elements[p])
      {
        StoreRowSum(i, y, w, m, ylog);
        PosNext(w, i);
        zidx := zidx + w.stride;
        i := i + 1;
      }
    }

    /** One iteration of that loop: `zElements[zidx] = sum` for row i, which
        extends the rows already stored by one. */
    method StoreRowSum(i: int, y: DenseVector, w: DenseVector, ghost m: Csr, ghost ylog: seq<int>)
      requires Valid() && State() == m && 0 <= i < rows
      requires y.InBounds() && y.size == columns && y.Logical() == ylog
      requires w.InBounds() && w.stride != 0 && w.elements != rowPointers && w.elements != y.elements && rows <= w.size
      modifies w.elements
      ensures State() == m && y.Logical() == ylog
      ensures w.elements[w.Pos(i)] == Int32(CellRowDot(m, i, ylog, columns))
      ensures forall i' :: 0 <= i' < i ==> w.elements[w.Pos(i')] == old(w.elements[w.Pos(i')])
      ensures forall p :: 0 <= p < w.elements.Length && w.Outside(i + 1, p) ==> w.elements[p] == old(w.elements[p])
    {
      var sum := RowSum(i, y);
      SetElement(w, i, sum);
    }

    /** `zMult(y, z)`, serial branch: z[i] = (int) (row i times y) for every
        row; a missing z is a new zero vector of `rows` elements. */
    method ZMult(y: DenseVector, z: Option<DenseVector>) returns (result: Result<DenseVector>)
      requires Valid() && y.InBounds()
      requires z.Some? ==> z.value.InBounds() && z.value.stride != 0 && z.value.elements != y.elements
                           && z.value.elements != rowPointers
      modifies if z.Some? then {z.value.elements} else {}
      ensures result.Success? <==> y.size == columns && (z.None? || rows <= z.value.size)
      ensures result.Failure? ==> result.error == IncompatibleArgs
      ensures result.Success? ==> result.value.InBounds() && result.value.size >= rows
      ensures result.Success? && z.Some? ==> result.value == z.value
      ensures result.Success? && z.None? ==>
                fresh(result.value.elements) && result.value == DenseVector(result.value.elements, 0, 1, rows)
      ensures result.Success? ==> forall i :: 0 <= i < rows ==>
                result.value.elements[result.value.Pos(i)] == Int32(CellRowDot(State(), i, y.Logical(), columns))
      ensures result.Success? && z.Some? ==> forall p :: 0 <= p < z.value.elements.Length && z.value.Outside(rows, p) ==>
                z.value.elements[p] == old(z.value.elements[p])
      ensures result.Failure? && z.Some? ==> z.value.elements[..] == old(z.value.elements[..])
    {
      var w: DenseVector;
      if z.None? {
        w := NewVector(rows);
      } else {
        w := z.value;
      }
      if y.size != columns || rows > w.size {
        return Failure(IncompatibleArgs);
      }
      PlainRows(y, w);
      return Success(w);
    }

    /** The non-transposed serial loops of `zMult(y, z, alpha, beta, false)`:
        z[i] = alpha * sum, or alpha * sum + beta * z[i] when beta != 0, with
        `alpha * sum` an int product. */
    method ScaledRows(y: DenseVector, w: DenseVector, alpha: int, beta: int)
      requires Valid() && y.InBounds() && y.size == columns
      requires w.InBounds() && w.stride != 0 && w.elements != rowPointers && w.elements != y.elements && rows <= w.size
      modifies w.elements
      ensures forall i :: 0 <= i < rows ==>
                w.elements[w.Pos(i)] == Int32(alpha * CellRowDot(State(), i, y.Logical(), columns))
                                        + (if beta == 0 then 0 else beta * old(w.elements[w.Pos(i)]))
      ensures forall p :: 0 <= p < w.elements.Length && w.Outside(rows, p) ==> w.elements[p] == old(w.elements[p])
    {
      ghost var ylog := y.Logical();
      ghost var m := State();
      var s := rowPointers.Length - 1;
      var zidx := w.zero;
      var i := 0;
      while i < s
        invariant 0 <= i <= rows && zidx == w.Pos(i)
        invariant State() == m && y.Logical() == ylog
        invariant forall i' :: 0 <= i' < i ==>
                    w.elements[w.Pos(i')] == Int32(alpha * CellRowDot(m, i', ylog, columns))
                                             + (if beta == 0 then 0 else beta * old(w.elements[w.Pos(i')]))
        invariant forall p :: 0 <= p < w.elements.Length && w.Outside(i, p) ==> w.elements[p] == old(w.elements[p])
      {
        var sum := RowSum(i, y);
        Int32Mul(alpha, CellRowDot(m, i, ylog, columns));
        OutsideOwnHome(w, i);
        if beta == 0 {
          SetElement(w, i, Int32(alpha * sum));
        } else {
          SetElement(w, i, Int32(alpha * sum) + beta * w.elements[zidx]);
        }
        PosNext(w, i);
        zidx := zidx + w.stride;
        i := i + 1;
      }
    }

    /** One row of the transposed serial loop: with yElem = alpha * y[i],
        z[column] += value * yElem for every stored entry of row i. */
    method AccumulateRow(i: int, yElem: int, w: DenseVector)
      requires Valid() && 0 <= i < rows
      requires w.InBounds() && w.stride != 0 && w.elements != rowPointers && columns <= w.size
      modifies w.elements
      ensures forall c :: 0 <= c < w.size ==> w.elements[w.Pos(c)] == old(w.elements[w.Pos(c)]) + Cell(i, c) * yElem
      ensures forall p :: 0 <= p < w.elements.Length && w.Outside(w.size, p) ==> w.elements[p] == old(w.elements[p])
    {
      ghost var m := State();
      var high := rowPointers[i + 1];
      var k := rowPointers[i];
      assert k <= high <= rowPointers[rows];
      assert Increasing(columnIndexes, k, high);
      while k < high
        invariant m.rowPointers[i] <= k <= high && State() == m
        invariant forall c :: 0 <= c < w.size ==>
                    w.elements[w.Pos(c)] == old(w.elements[w.Pos(c)]) + (if 0 <= Slot(m, i, c) < k then m.values[Slot(m, i, c)] * yElem else 0)
        invariant forall p :: 0 <= p < w.elements.Length && w.Outside(w.size, p) ==> w.elements[p] == old(w.elements[p])
      {
        var j := columnIndexes[k];
        SlotInUnique(m.columnIndexes, m.rowPointers[i], high, j, k);
        AddToElement(w, j, values[k] * yElem);
        forall c | 0 <= c < w.size && c != j
          ensures Slot(m, i, c) != k
        {
        }
        k := k + 1;
      }
      forall c | 0 <= c < w.size {
        CellBySlot(m, i, c);
      }
    }

    /** The transposed serial loop of `zMult(y, z, alpha, beta, true)`: z
        gains alpha * (A^T y), i.e. z[c] += sum over rows i of
        Cell(i, c) * (alpha * y[i]). */
    method TransposedRows(y: DenseVector, w: DenseVector, alpha: int)
      requires Valid() && y.InBounds() && y.size == rows
      requires w.InBounds() && w.stride != 0 && w.elements != rowPointers && w.elements != y.elements && columns <= w.size
      modifies w.elements
      ensures forall c :: 0 <= c < w.size ==>
                w.elements[w.Pos(c)] == old(w.elements[w.Pos(c)]) + CellColumnDot(State(), c, Scaled(alpha, y.Logical()), rows)
      ensures forall p :: 0 <= p < w.elements.Length && w.Outside(w.size, p) ==> w.elements[p] == old(w.elements[p])
    {
      ghost var m := State();
      ghost var ay := Scaled(alpha, y.Logical());
      ghost var w0 := w.elements[..];
      var s := rowPointers.Length - 1;
      var i := 0;
      while i < s
        invariant 0 <= i <= rows
        invariant forall c :: 0 <= c < w.size ==> w.elements[w.Pos(c)] == w0[w.Pos(c)] + CellColumnDot(m, c, ay, i)
        invariant forall p :: 0 <= p < w.elements.Length && w.Outside(w.size, p) ==> w.elements[p] == w0[p]
      {
        var yElem := alpha * y.elements[y.Pos(i)];
        assert yElem == ay[i];
        ghost var before := w.elements[..];
        AccumulateRow(i, yElem, w);
        forall c | 0 <= c < w.size
          ensures w.elements[w.Pos(c)] == w0[w.Pos(c)] + CellColumnDot(m, c, ay, i + 1)
        {
          assert w.elements[w.Pos(c)] == before[w.Pos(c)] + CsrFormat.Cell(m, i, c) * ay[i];
        }
        i := i + 1;
      }
    }

    /** The transposed branch of `zMult(y, z, alpha, beta, true)`: a
        supplied z (`scale`) is first scaled by beta unless beta == 1, then
        gains alpha * (A^T y). */
    method TransposedProduct(y: DenseVector, w: DenseVector, alpha: int, beta: int, scale: bool)
      requires Valid() && y.InBounds() && y.size == rows
      requires w.InBounds() && w.stride != 0 && w.elements != rowPointers && w.elements != y.elements && columns <= w.size
      modifies w.elements
      ensures forall c :: 0 <= c < w.size ==>
                w.elements[w.Pos(c)] == (if scale && beta != 1 then beta * old(w.elements[w.Pos(c)]) else old(w.elements[w.Pos(c)]))
                                        + CellColumnDot(State(), c, Scaled(alpha, y.Logical()), rows)
      ensures forall p :: 0 <= p < w.elements.Length && w.Outside(w.size, p) ==> w.elements[p] == old(w.elements[p])
    {
      if scale && beta != 1 {
        ScaleVector(w, beta);
      }
      TransposedRows(y, w, alpha);
    }

    /** `zMult(y, z, alpha, beta, transposeA)`, serial branches. Without
        transposition z[i] = (int) (alpha * (int) (row i times y)), plus
        beta * z[i] when beta != 0. With it, a supplied z is first scaled by
        beta unless beta == 1, then gains alpha * (A^T y); a missing z starts
        from zero and beta is ignored. */
    method ZMultScaled(y: DenseVector, z: Option<DenseVector>, alpha: int, beta: int, transposeA: bool)
      returns (result: Result<DenseVector>)
      requires Valid() && y.InBounds()
      requires z.Some? ==> z.value.InBounds() && z.value.stride != 0 && z.value.elements != y.elements
                           && z.value.elements != rowPointers
      modifies if z.Some? then {z.value.elements} else {}
      ensures result.Success? <==>
                if transposeA then y.size == rows && (z.None? || columns <= z.value.size)
                else y.size == columns && (z.None? || rows <= z.value.size)
      ensures result.Failure? ==> result.error == IncompatibleArgs
      ensures result.Success? ==> result.value.InBounds()
      ensures result.Success? && z.Some? ==> result.value == z.value
      ensures result.Success? && z.None? ==>
                fresh(result.value.elements)
                && result.value == DenseVector(result.value.elements, 0, 1, if transposeA then columns else rows)
      ensures result.Success? && !transposeA ==> forall i :: 0 <= i < rows ==>
                result.value.elements[result.value.Pos(i)]
                == Int32(alpha * CellRowDot(State(), i, y.Logical(), columns))
                   + (if beta == 0 || z.None? then 0 else beta * old(z.value.elements[z.value.Pos(i)]))
      ensures result.Success? && transposeA ==> forall c :: 0 <= c < result.value.size ==>
                result.value.elements[result.value.Pos(c)]
                == (if z.None? then 0
                    else if beta != 1 then beta * old(z.value.elements[z.value.Pos(c)])
                    else old(z.value.elements[z.value.Pos(c)]))
                   + CellColumnDot(State(), c, Scaled(alpha, y.Logical()), rows)
      ensures result.Success? && z.Some? ==> forall p :: 0 <= p < z.value.elements.Length && z.value.Outside(z.value.size, p) ==>
                z.value.elements[p] == old(z.value.elements[p])
      ensures result.Success? && z.Some? && !transposeA ==>
                forall p :: 0 <= p < z.value.elements.Length && z.value.Outside(rows, p) ==> z.value.elements[p] == old(z.value.elements[p])
      ensures result.Failure? && z.Some? ==> z.value.elements[..] == old(z.value.elements[..])
    {
      if z.None? {
        var w := NewVector(if transposeA then columns else rows);
        forall i | 0 <= i < w.size
          ensures w.elements[w.Pos(i)] == 0 && beta * w.elements[w.Pos(i)] == 0
        {
        }
        result := ZMultScaledInto(y, w, alpha, beta, transposeA, false);
      } else {
        result := ZMultScaledInto(y, z.value, alpha, beta, transposeA, transposeA);
      }
    }

    /** The shape check and the serial kernels of `zMult(y, z, alpha, beta,
        transposeA)` once z is known: w is the supplied z, or the new zero
        vector when z was missing (`ignore`, which also turns off the scaling
        of the transposed branch: scale is false then). */
    method ZMultScaledInto(y: DenseVector, w: DenseVector, alpha: int, beta: int, transposeA: bool, scale: bool)
      returns (result: Result<DenseVector>)
      requires Valid() && y.InBounds()
      requires w.InBounds() && w.stride != 0 && w.elements != y.elements && w.elements != rowPointers
      modifies w.elements
      ensures result.Success? <==>
                if transposeA then y.size == rows && columns <= w.size
                else y.size == columns && rows <= w.size
      ensures result.Failure? ==> result.error == IncompatibleArgs
      ensures result.Success? ==> result.value == w
      ensures result.Success? && !transposeA ==> forall i :: 0 <= i < rows ==>
                w.elements[w.Pos(i)] == Int32(alpha * CellRowDot(State(), i, y.Logical(), columns))
                                        + (if beta == 0 then 0 else beta * old(w.elements[w.Pos(i)]))
      ensures result.Success? && transposeA ==> forall c :: 0 <= c < w.size ==>
                w.elements[w.Pos(c)] == (if scale && beta != 1 then beta * old(w.elements[w.Pos(c)]) else old(w.elements[w.Pos(c)]))
                                        + CellColumnDot(State(), c, Scaled(alpha, y.Logical()), rows)
      ensures result.Success? && !transposeA ==>
                forall p :: 0 <= p < w.elements.Length && w.Outside(rows, p) ==> w.elements[p] == old(w.elements[p])
      ensures forall p :: 0 <= p < w.elements.Length && w.Outside(w.size, p) ==> w.elements[p] == old(w.elements[p])
      ensures result.Failure? ==> w.elements[..] == old(w.elements[..])
    {
      var m, n := rows, columns;
      if transposeA {
        m, n := columns, rows;
      }
      if n != y.size || m > w.size {
        return Failure(IncompatibleArgs);
      }
      if transposeA {
        TransposedProduct(y, w, alpha, beta, scale);
      } else {
        ScaledRows(y, w, alpha, beta);
        forall p | 0 <= p < w.elements.Length && w.Outside(w.size, p)
          ensures w.Outside(rows, p)
        {
        }
      }
      return Success(w);
    }

    // ----- matrix-matrix products ------------------------------------------

    /** Row i of the non-transposed matrix kernels: for each stored entry
        (i, j, v), from the top slot down, C row i += (v * alpha) * op(B) row j.
        Afterwards C row i has gained alpha * (row i of A times op(B)). */
    method AddRowProducts(i: int, B: array2<int>, transposeB: bool, C: array2<int>, alpha: int)
      requires Valid() && 0 <= i < rows && C != B
      requires OpRows(B, transposeB) == columns && C.Length1 == OpColumns(B, transposeB) && i < C.Length0
      modifies C
      ensures forall a, c :: 0 <= a < C.Length0 && 0 <= c < C.Length1 ==>
                C[a, c] == if a == i then old(C[a, c]) + alpha * CellRowDot(State(), i, OpColumn(B, transposeB, c), columns)
                           else old(C[a, c])
    {
      ghost var m := State();
      var low := rowPointers[i];
      var k := rowPointers[i + 1];
      ghost var high := k;
      assert low <= high <= rowPointers[rows];
      while k > low
        invariant low <= k <= high
        invariant forall a, c :: 0 <= a < C.Length0 && 0 <= c < C.Length1 ==>
                    C[a, c] == if a == i then old(C[a, c]) + alpha * SliceDot(m.columnIndexes, m.values, k, high, OpColumn(B, transposeB, c))
                               else old(C[a, c])
      {
        k := k - 1;
        var j := columnIndexes[k];
        AddRowMultiple(C, i, B, transposeB, j, values[k] * alpha);
        forall c | 0 <= c < C.Length1
          ensures C[i, c] == old(C[i, c]) + alpha * SliceDot(m.columnIndexes, m.values, k, high, OpColumn(B, transposeB, c))
        {
          ScaledFrontStep(m.columnIndexes, m.values, k, high, OpColumn(B, transposeB, c), alpha);
        }
      }
      forall c | 0 <= c < C.Length1 {
        RowProductIsCellRowDot(m, i, OpColumn(B, transposeB, c));
      }
    }

    /** Row i of the transposed matrix kernel: for each stored entry
        (i, j, v), from the top slot down, C row j += (v * alpha) * op(B) row i.
        Afterwards every C[a, c] has gained alpha * (Cell(i, a) * op(B)[i, c]). */
    method ScatterRowProducts(i: int, B: array2<int>, transposeB: bool, C: array2<int>, alpha: int)
      requires Valid() && 0 <= i < rows && C != B
      requires OpRows(B, transposeB) == rows && C.Length1 == OpColumns(B, transposeB) && C.Length0 == columns
      modifies C
      ensures forall a, c :: 0 <= a < C.Length0 && 0 <= c < C.Length1 ==>
                C[a, c] == old(C[a, c]) + alpha * (Cell(i, a) * OpAt(B, transposeB, i, c))
    {
      ghost var m := State();
      var low := rowPointers[i];
      var k := rowPointers[i + 1];
      ghost var high := k;
      assert low <= high <= rowPointers[rows];
      assert Increasing(columnIndexes, low, high);
      while k > low
        invariant low <= k <= high
        invariant forall a, c :: 0 <= a < C.Length0 && 0 <= c < C.Length1 ==>
                    C[a, c] == old(C[a, c]) + (if Slot(m, i, a) >= k then alpha * (values[Slot(m, i, a)] * OpAt(B, transposeB, i, c)) else 0)
      {
        k := k - 1;
        var j := columnIndexes[k];
        SlotInUnique(columnIndexes, low, high, j, k);
        AddRowMultiple(C, j, B, transposeB, i, values[k] * alpha);
        forall a, c | 0 <= a < C.Length0 && 0 <= c < C.Length1
          ensures C[a, c] == old(C[a, c]) + (if Slot(m, i, a) >= k then alpha * (values[Slot(m, i, a)] * OpAt(B, transposeB, i, c)) else 0)
        {
          if a == j {
            MulSwap(values[k], alpha, OpAt(B, transposeB, i, c));
          } else {
            assert Slot(m, i, a) != k;
          }
        }
      }
      forall a | 0 <= a < C.Length0 {
        CellBySlot(m, i, a);
      }
    }

    /** The non-transposed loops of both matrix zMults: rows from the last to
        the first, C row i gaining alpha * (row i of A times op(B)). */
    method RowsTimes(B: array2<int>, transposeB: bool, C: array2<int>, alpha: int)
      requires Valid() && C != B
      requires OpRows(B, transposeB) == columns && C.Length1 == OpColumns(B, transposeB) && C.Length0 == rows
      modifies C
      ensures forall a, c :: 0 <= a < rows && 0 <= c < C.Length1 ==>
                C[a, c] == old(C[a, c]) + alpha * CellRowDot(State(), a, OpColumn(B, transposeB, c), columns)
    {
      var i := rowPointers.Length - 1;
      while i > 0
        invariant 0 <= i <= rows
        invariant forall a, c :: 0 <= a < rows && 0 <= c < C.Length1 ==>
                    C[a, c] == old(C[a, c]) + (if a >= i then alpha * CellRowDot(State(), a, OpColumn(B, transposeB, c), columns) else 0)
      {
        i := i - 1;
        AddRowProducts(i, B, transposeB, C, alpha);
      }
    }

    /** The transposed loop of the scaled matrix zMult: rows from the last to
        the first, C gaining alpha * (A^T op(B)). */
    method ColumnsTimes(B: array2<int>, transposeB: bool, C: array2<int>, alpha: int)
      requires Valid() && C != B
      requires OpRows(B, transposeB) == rows && C.Length1 == OpColumns(B, transposeB) && C.Length0 == columns
      modifies C
      ensures forall a, c :: 0 <= a < columns && 0 <= c < C.Length1 ==>
                C[a, c] == old(C[a, c]) + alpha * CellColumnDot(State(), a, OpColumn(B, transposeB, c), rows)
    {
      ghost var m := State();
      var i := rowPointers.Length - 1;
      while i > 0
        invariant 0 <= i <= rows
        invariant forall a, c :: 0 <= a < columns && 0 <= c < C.Length1 ==>
                    C[a, c] == old(C[a, c]) + alpha * CellColumnDot(m, a, OpColumn(B, transposeB, c), rows)
                                            - alpha * CellColumnDot(m, a, OpColumn(B, transposeB, c), i)
      {
        i := i - 1;
        ScatterRowProducts(i, B, transposeB, C, alpha);
        forall a, c | 0 <= a < columns && 0 <= c < C.Length1
          ensures C[a, c] == old(C[a, c]) + alpha * CellColumnDot(m, a, OpColumn(B, transposeB, c), rows)
                                          - alpha * CellColumnDot(m, a, OpColumn(B, transposeB, c), i)
        {
          ScaledColumnDotStep(m, a, OpColumn(B, transposeB, c), i, alpha);
        }
      }
    }

    /** `zMult(B, C)`: C += A * B, accumulating into C without clearing it; a
        missing C is a new zero matrix. The shape checks and the identity
        check run before anything is written. */
    method ZMultMatrix(B: array2<int>, C: Option<array2<int>>) returns (result: Result<array2<int>>)
      requires Valid()
      modifies if C.Some? then {C.value} else {}
      ensures result.Failure? <==>
                B.Length0 != columns || (C.Some? && (C.value.Length0 != rows || C.value.Length1 != B.Length1 || C.value == B))
      ensures result.Failure? ==>
                result.error == if B.Length0 != columns then InnerDimensionsMustAgree
                                else if C.value.Length0 != rows || C.value.Length1 != B.Length1 then IncompatibleResultMatrix
                                else MatricesMustNotBeIdentical
      ensures result.Failure? && C.Some? ==> forall a, c :: 0 <= a < C.value.Length0 && 0 <= c < C.value.Length1 ==>
                C.value[a, c] == old(C.value[a, c])
      ensures result.Success? ==> result.value.Length0 == rows && result.value.Length1 == B.Length1
      ensures result.Success? && C.Some? ==> result.value == C.value
      ensures result.Success? && C.None? ==> fresh(result.value)
      ensures result.Success? ==> forall a, c :: 0 <= a < rows && 0 <= c < B.Length1 ==>
                result.value[a, c] == (if C.None? then 0 else old(C.value[a, c]))
                                      + CellRowDot(State(), a, OpColumn(B, false, c), columns)
    {
      var R: array2<int>;
      if C.None? {
        R := new int[rows, B.Length1]((_, _) => 0);
      } else {
        R := C.value;
      }
      if B.Length0 != columns {
        return Failure(InnerDimensionsMustAgree);
      }
      if R.Length0 != rows || R.Length1 != B.Length1 {
        return Failure(IncompatibleResultMatrix);
      }
      if B == R {
        return Failure(MatricesMustNotBeIdentical);
      }
      RowsTimes(B, false, R, 1);
      return Success(R);
    }

    /** `zMult(B, C, alpha, beta, transposeA, transposeB)`: C = alpha *
        op(A) * op(B) + beta * C, with a missing C a new zero matrix and beta
        then ignored. op(B) is B's transposed view when transposeB, and the
        identity check compares C with that view, so it only fires when
        transposeB is false. */
    method ZMultMatrixScaled(B: array2<int>, C: Option<array2<int>>, alpha: int, beta: int, transposeA: bool, transposeB: bool)
      returns (result: Result<array2<int>>)
      requires Valid()
      requires C.Some? && transposeB ==> C.value != B
      modifies if C.Some? then {C.value} else {}
      ensures var m, n, p := (if transposeA then columns else rows), (if transposeA then rows else columns), OpColumns(B, transposeB);
              && (result.Failure? <==>
                    OpRows(B, transposeB) != n || (C.Some? && (C.value.Length0 != m || C.value.Length1 != p || (!transposeB && C.value == B))))
              && (result.Failure? ==>
                    result.error == if OpRows(B, transposeB) != n then InnerDimensionsMustAgree
                                    else if C.value.Length0 != m || C.value.Length1 != p then IncompatibleResultMatrix
                                    else MatricesMustNotBeIdentical)
              && (result.Success? ==> result.value.Length0 == m && result.value.Length1 == p)
      ensures result.Failure? && C.Some? ==> forall a, c :: 0 <= a < C.value.Length0 && 0 <= c < C.value.Length1 ==>
                C.value[a, c] == old(C.value[a, c])
      ensures result.Success? && C.Some? ==> result.value == C.value
      ensures result.Success? && C.None? ==> fresh(result.value)
      ensures result.Success? ==> forall a, c :: 0 <= a < result.value.Length0 && 0 <= c < result.value.Length1 ==>
                result.value[a, c] == (if C.None? then 0 else beta * old(C.value[a, c]))
                                      + alpha * (if transposeA then CellColumnDot(State(), a, OpColumn(B, transposeB, c), rows)
                                                 else CellRowDot(State(), a, OpColumn(B, transposeB, c), columns))
    {
      var m, n := rows, columns;
      if transposeA {
        m, n := columns, rows;
      }
      var p := OpColumns(B, transposeB);
      var ignore := C.None?;
      var R: array2<int>;
      if C.None? {
        R := new int[m, p]((_, _) => 0);
      } else {
        R := C.value;
      }
      if OpRows(B, transposeB) != n {
        return Failure(InnerDimensionsMustAgree);
      }
      if R.Length0 != m || R.Length1 != p {
        return Failure(IncompatibleResultMatrix);
      }
      if !transposeB && B == R {
        return Failure(MatricesMustNotBeIdentical);
      }
      if !ignore {
        ScaleMatrix(R, beta);
      }
      if !transposeA {
        RowsTimes(B, transposeB, R, alpha);
      } else {
        ColumnsTimes(B, transposeB, R, alpha);
      }
      return Success(R);
    }
}
}

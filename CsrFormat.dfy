/** The compressed-row (CSR) storage format of SparseRCLongMatrix2D as a value:
    the three parts of the representation, the format invariant, the cell value
    each representation stands for, the structural edits `insert`, `remove` and
    an in-place overwrite, and the row/column sums the product kernels compute.
    Everything here is pure; the class in SparseRC snapshots its state into a
    `Csr` and proves its methods through the lemmas below. */
module CsrFormat {
  import opened Lists

  /** rowPointers has rows+1 entries; row r owns the storage slots
      [rowPointers[r], rowPointers[r+1]) of columnIndexes and values. */
  datatype Csr = Csr(rows: nat, columns: nat, rowPointers: seq<int>, columnIndexes: seq<int>, values: seq<int>)

  /** The format invariant. Stored zeros are allowed here (forEachNonZero can
      write them); NoStoredZeros below is the separate, stronger property. */
  ghost predicate Valid(m: Csr) {
    && |m.rowPointers| == m.rows + 1
    && m.rowPointers[0] == 0
    && m.rowPointers[m.rows] == |m.columnIndexes| == |m.values|
    && (forall i, j :: 0 <= i <= j <= m.rows ==> m.rowPointers[i] <= m.rowPointers[j])
    && (forall r :: 0 <= r < m.rows ==> Increasing(m.columnIndexes, m.rowPointers[r], m.rowPointers[r + 1]))
    && (forall k :: 0 <= k < |m.columnIndexes| ==> 0 <= m.columnIndexes[k] < m.columns)
  }

  /** No stored slot holds the value 0. */
  ghost predicate NoStoredZeros(m: Csr) {
    forall k :: 0 <= k < |m.values| ==> m.values[k] != 0
  }

  /** The slot in [lo, hi) holding column c, or -1 when there is none. */
  function SlotIn(cols: seq<int>, lo: int, hi: int, c: int): (k: int)
    requires 0 <= lo <= hi <= |cols|
    ensures k == -1 || (lo <= k < hi && cols[k] == c)
    ensures k == -1 <==> forall j :: lo <= j < hi ==> cols[j] != c
    decreases hi - lo
  {
    if lo == hi then -1
    else if cols[hi - 1] == c then hi - 1
    else SlotIn(cols, lo, hi - 1, c)
  }

  /** On a strictly increasing range a column occupies at most one slot. */
  lemma SlotInUnique(cols: seq<int>, lo: int, hi: int, c: int, k: int)
    requires 0 <= lo <= k < hi <= |cols| && Increasing(cols, lo, hi) && cols[k] == c
    ensures SlotIn(cols, lo, hi, c) == k
  {
  }

  /** The value paired with column c in [lo, hi), or 0 when c is absent. */
  function ValIn(cols: seq<int>, vals: seq<int>, lo: int, hi: int, c: int): int
    requires 0 <= lo <= hi <= |cols| && hi <= |vals|
  {
    var k := SlotIn(cols, lo, hi, c);
    if k < 0 then 0 else vals[k]
  }

  /** Where cell (r, c) is stored, or -1. */
  ghost function Slot(m: Csr, r: int, c: int): (k: int)
    requires Valid(m) && 0 <= r < m.rows
    ensures k == -1 || (m.rowPointers[r] <= k < m.rowPointers[r + 1] && m.columnIndexes[k] == c)
  {
    SlotIn(m.columnIndexes, m.rowPointers[r], m.rowPointers[r + 1], c)
  }

  ghost predicate Stored(m: Csr, r: int, c: int)
    requires Valid(m) && 0 <= r < m.rows
  {
    Slot(m, r, c) >= 0
  }

  /** The value of cell (r, c): the stored value when column c occurs in row
      r's slice, otherwise 0. */
  ghost function Cell(m: Csr, r: int, c: int): int
    requires Valid(m) && 0 <= r < m.rows
  {
    ValIn(m.columnIndexes, m.values, m.rowPointers[r], m.rowPointers[r + 1], c)
  }

  /** A cell reads the value in its slot, or 0 when it has none. */
  lemma CellBySlot(m: Csr, r: int, c: int)
    requires Valid(m) && 0 <= r < m.rows
    ensures Slot(m, r, c) < |m.values|
    ensures Cell(m, r, c) == if Slot(m, r, c) >= 0 then m.values[Slot(m, r, c)] else 0
  {
    assert m.rowPointers[r + 1] <= m.rowPointers[m.rows];
  }

  /** Without stored zeros, a cell is stored exactly when it is nonzero. */
  lemma StoredIffNonzero(m: Csr, r: int, c: int)
    requires Valid(m) && NoStoredZeros(m) && 0 <= r < m.rows
    ensures Stored(m, r, c) <==> Cell(m, r, c) != 0
  {
    var k := Slot(m, r, c);
    if k >= 0 {
      assert m.rowPointers[r + 1] <= m.rowPointers[m.rows];
    }
  }

  // ----- structural edits --------------------------------------------------

  /** Adds d to every row pointer above `row` (the loops of insert and remove). */
  function ShiftTail(rp: seq<int>, row: int, d: int): (r: seq<int>)
    ensures |r| == |rp|
    ensures forall i :: 0 <= i < |rp| ==> r[i] == if i > row then rp[i] + d else rp[i]
  {
    seq(|rp|, i requires 0 <= i < |rp| => if i > row then rp[i] + d else rp[i])
  }

  /** `index` is where column `column` belongs in row `row`: between the
      row's smaller and larger column indices. This is what a failed binary
      search reports. */
  ghost predicate InsertionPoint(m: Csr, row: int, column: int, index: int)
    requires Valid(m) && 0 <= row < m.rows
  {
    && m.rowPointers[row] <= index <= m.rowPointers[row + 1]
    && (forall k :: m.rowPointers[row] <= k < index ==> m.columnIndexes[k] < column)
    && (forall k :: index <= k < m.rowPointers[row + 1] ==> column < m.columnIndexes[k])
  }

  /** `insert(row, column, index, value)`. */
  function InsertEntry(m: Csr, row: int, column: int, index: int, value: int): Csr
    requires 0 <= index <= |m.columnIndexes| && index <= |m.values|
  {
    m.(rowPointers := ShiftTail(m.rowPointers, row, 1),
       columnIndexes := InsertAt(m.columnIndexes, index, column),
       values := InsertAt(m.values, index, value))
  }

  /** `remove(row, index)`. */
  function RemoveEntry(m: Csr, row: int, index: int): Csr
    requires 0 <= index < |m.columnIndexes| && index < |m.values|
  {
    m.(rowPointers := ShiftTail(m.rowPointers, row, -1),
       columnIndexes := RemoveAt(m.columnIndexes, index),
       values := RemoveAt(m.values, index))
  }

  /** `values.setQuick(index, value)`. */
  function OverwriteEntry(m: Csr, index: int, value: int): Csr
    requires 0 <= index < |m.values|
  {
    m.(values := m.values[index := value])
  }

  /** `remove` undoes `insert`: taking out the entry just inserted at `index`
      gives back the representation it went into. */
  lemma RemoveUndoesInsert(m: Csr, row: int, column: int, index: int, value: int)
    requires 0 <= index <= |m.columnIndexes| && index <= |m.values|
    ensures RemoveEntry(InsertEntry(m, row, column, index, value), row, index) == m
  {
    var m' := RemoveEntry(InsertEntry(m, row, column, index, value), row, index);
    assert m'.rowPointers == m.rowPointers;
    assert m'.columnIndexes == m.columnIndexes;
    assert m'.values == m.values;
  }

  /** `insert` undoes `remove`: putting the removed column and value back at
      their slot restores the representation. */
  lemma InsertUndoesRemove(m: Csr, row: int, index: int)
    requires 0 <= index < |m.columnIndexes| && index < |m.values|
    ensures InsertEntry(RemoveEntry(m, row, index), row, m.columnIndexes[index], index, m.values[index]) == m
  {
    var m' := InsertEntry(RemoveEntry(m, row, index), row, m.columnIndexes[index], index, m.values[index]);
    assert m'.rowPointers == m.rowPointers;
    assert m'.columnIndexes == m.columnIndexes;
    assert m'.values == m.values;
  }

  lemma InsertEntryValid(m: Csr, row: int, column: int, index: int, value: int)
    requires Valid(m) && 0 <= row < m.rows && 0 <= column < m.columns
    requires InsertionPoint(m, row, column, index)
    ensures Valid(InsertEntry(m, row, column, index, value))
  {
    var m' := InsertEntry(m, row, column, index, value);
    var rp, rp' := m.rowPointers, m'.rowPointers;
    var cols := m.columnIndexes;
    assert rp[row + 1] <= rp[m.rows];
    forall i, j | 0 <= i <= j <= m.rows
      ensures rp'[i] <= rp'[j]
    {
      assert rp[i] <= rp[j];
    }
    forall r | 0 <= r < m.rows
      ensures Increasing(m'.columnIndexes, rp'[r], rp'[r + 1])
    {
      assert rp[r] <= rp[r + 1] <= rp[m.rows];
      if r == row {
        InsertKeepsRowIncreasing(cols, rp[r], rp[r + 1], index, column);
      } else if r < row {
        assert rp[r + 1] <= rp[row];
        InsertKeepsOtherIncreasing(cols, rp[r], rp[r + 1], index, column, rp'[r], rp'[r + 1]);
      } else {
        assert rp[row + 1] <= rp[r];
        InsertKeepsOtherIncreasing(cols, rp[r], rp[r + 1], index, column, rp'[r], rp'[r + 1]);
      }
    }
  }

  /** The receiving row: a column placed between the smaller and the larger
      ones keeps the slice strictly increasing. */
  lemma InsertKeepsRowIncreasing(cols: seq<int>, lo: int, hi: int, index: int, column: int)
    requires 0 <= lo <= index <= hi <= |cols| && Increasing(cols, lo, hi)
    requires forall k :: lo <= k < index ==> cols[k] < column
    requires forall k :: index <= k < hi ==> column < cols[k]
    ensures Increasing(InsertAt(cols, index, column), lo, hi + 1)
  {
    var cols' := InsertAt(cols, index, column);
    forall i, j | lo <= i < j < hi + 1
      ensures cols'[i] < cols'[j]
    {
      if j < index {
      } else if j == index {
      } else if i < index {
        assert cols'[i] == cols[i] && cols'[j] == cols[j - 1];
      } else if i == index {
      } else {
      }
    }
  }

  /** Any other row lies wholly below or wholly above the insertion index and
      only moves. */
  lemma InsertKeepsOtherIncreasing(cols: seq<int>, lo: int, hi: int, index: int, column: int, lo2: int, hi2: int)
    requires 0 <= lo <= hi <= |cols| && 0 <= index <= |cols| && Increasing(cols, lo, hi)
    requires (hi <= index && lo2 == lo && hi2 == hi) || (index <= lo && lo2 == lo + 1 && hi2 == hi + 1)
    ensures Increasing(InsertAt(cols, index, column), lo2, hi2)
  {
  }

  /** Insert on one row's slice, without the rest of the matrix: the slice
      [lo, hi) becomes [lo2, hi2) in the new lists. `inside` says the slice is
      the row receiving the new entry; other slices lie wholly below or wholly
      above the insertion index and only move. */
  lemma InsertSliceCell(cols: seq<int>, vals: seq<int>, lo: int, hi: int, lo2: int, hi2: int,
                        index: int, column: int, value: int, inside: bool, c: int)
    requires 0 <= lo <= hi <= |cols| == |vals| && 0 <= index <= |cols|
    requires inside ==> lo2 == lo && hi2 == hi + 1 && lo <= index <= hi
    requires !inside ==> (hi <= index && lo2 == lo && hi2 == hi) || (index <= lo && lo2 == lo + 1 && hi2 == hi + 1)
    requires Increasing(InsertAt(cols, index, column), lo2, hi2)
    ensures var cols2, vals2 := InsertAt(cols, index, column), InsertAt(vals, index, value);
      if inside && c == column then SlotIn(cols2, lo2, hi2, c) == index && ValIn(cols2, vals2, lo2, hi2, c) == value
      else ((SlotIn(cols2, lo2, hi2, c) >= 0 <==> SlotIn(cols, lo, hi, c) >= 0)
            && ValIn(cols2, vals2, lo2, hi2, c) == ValIn(cols, vals, lo, hi, c))
  {
    var cols2, vals2 := InsertAt(cols, index, column), InsertAt(vals, index, value);
    if inside && c == column {
      SlotInUnique(cols2, lo2, hi2, c, index);
    } else {
      var s := SlotIn(cols, lo, hi, c);
      if s >= 0 {
        var s2 := if s < index then s else s + 1;
        assert cols2[s2] == c && vals2[s2] == vals[s];
        SlotInUnique(cols2, lo2, hi2, c, s2);
      } else {
        forall j | lo2 <= j < hi2
          ensures cols2[j] != c
        {
          if j < index {
            assert cols2[j] == cols[j];
          } else if j > index {
            assert cols2[j] == cols[j - 1];
          }
        }
      }
    }
  }

  /** What insert does to one cell: (row, column) becomes stored with value,
      every other cell keeps its value and its stored-ness. */
  lemma InsertEntryCell(m: Csr, row: int, column: int, index: int, value: int, r: int, c: int)
    requires Valid(m) && 0 <= row < m.rows && 0 <= column < m.columns
    requires InsertionPoint(m, row, column, index)
    requires 0 <= r < m.rows
    ensures Valid(InsertEntry(m, row, column, index, value))
    ensures var m' := InsertEntry(m, row, column, index, value);
      if r == row && c == column then Stored(m', r, c) && Cell(m', r, c) == value
      else (Stored(m', r, c) <==> Stored(m, r, c)) && Cell(m', r, c) == Cell(m, r, c)
  {
    InsertEntryValid(m, row, column, index, value);
    var m' := InsertEntry(m, row, column, index, value);
    var rp, rp' := m.rowPointers, m'.rowPointers;
    assert rp[row + 1] <= rp[m.rows];
    assert rp[r] <= rp[r + 1] <= rp[m.rows];
    assert r < row ==> rp[r + 1] <= rp[row];
    assert r > row ==> rp[row + 1] <= rp[r];
    assert Increasing(m'.columnIndexes, rp'[r], rp'[r + 1]);
    InsertSliceCell(m.columnIndexes, m.values, rp[r], rp[r + 1], rp'[r], rp'[r + 1], index, column, value, r == row, c);
  }

  lemma RemoveEntryValid(m: Csr, row: int, index: int)
    requires Valid(m) && 0 <= row < m.rows
    requires m.rowPointers[row] <= index < m.rowPointers[row + 1]
    ensures Valid(RemoveEntry(m, row, index))
  {
    var m' := RemoveEntry(m, row, index);
    var rp, rp' := m.rowPointers, m'.rowPointers;
    var cols := m.columnIndexes;
    assert rp[row + 1] <= rp[m.rows];
    forall i, j | 0 <= i <= j <= m.rows
      ensures rp'[i] <= rp'[j]
    {
      if i <= row < j {
        assert rp[row] < rp[row + 1] <= rp[j];
      } else {
        assert rp[i] <= rp[j];
      }
    }
    forall r | 0 <= r < m.rows
      ensures Increasing(m'.columnIndexes, rp'[r], rp'[r + 1])
    {
      assert rp[r] <= rp[r + 1] <= rp[m.rows];
      if r == row {
        RemoveKeepsRowIncreasing(cols, rp[r], rp[r + 1], index);
      } else if r < row {
        assert rp[r + 1] <= rp[row];
        RemoveKeepsOtherIncreasing(cols, rp[r], rp[r + 1], index, rp'[r], rp'[r + 1]);
      } else {
        assert rp[row + 1] <= rp[r];
        RemoveKeepsOtherIncreasing(cols, rp[r], rp[r + 1], index, rp'[r], rp'[r + 1]);
      }
    }
  }

  /** The row losing a slot stays strictly increasing. */
  lemma RemoveKeepsRowIncreasing(cols: seq<int>, lo: int, hi: int, index: int)
    requires 0 <= lo <= index < hi <= |cols| && Increasing(cols, lo, hi)
    ensures Increasing(RemoveAt(cols, index), lo, hi - 1)
  {
    var cols' := RemoveAt(cols, index);
    forall i, j | lo <= i < j < hi - 1
      ensures cols'[i] < cols'[j]
    {
      if j < index {
      } else if i < index {
        assert cols'[i] == cols[i] && cols'[j] == cols[j + 1];
      } else {
      }
    }
  }

  /** Any other row lies wholly below or wholly above the removed slot and
      only moves. */
  lemma RemoveKeepsOtherIncreasing(cols: seq<int>, lo: int, hi: int, index: int, lo2: int, hi2: int)
    requires 0 <= lo <= hi <= |cols| && 0 <= index < |cols| && Increasing(cols, lo, hi)
    requires (hi <= index && lo2 == lo && hi2 == hi) || (index < lo && lo2 == lo - 1 && hi2 == hi - 1)
    ensures Increasing(RemoveAt(cols, index), lo2, hi2)
  {
  }

  /** Remove on one row's slice: the slice [lo, hi) becomes [lo2, hi2).
      `inside` says the slice is the row losing slot `index`. */
  lemma RemoveSliceCell(cols: seq<int>, vals: seq<int>, lo: int, hi: int, lo2: int, hi2: int,
                        index: int, inside: bool, c: int)
    requires 0 <= lo <= hi <= |cols| == |vals| && 0 <= index < |cols|
    requires inside ==> lo2 == lo && hi2 == hi - 1 && lo <= index < hi
    requires !inside ==> (hi <= index && lo2 == lo && hi2 == hi) || (index < lo && lo2 == lo - 1 && hi2 == hi - 1)
    requires Increasing(cols, lo, hi)
    ensures 0 <= lo2 <= hi2 <= |cols| - 1
    ensures var cols2, vals2 := RemoveAt(cols, index), RemoveAt(vals, index);
      if inside && c == cols[index] then SlotIn(cols2, lo2, hi2, c) == -1
      else ((SlotIn(cols2, lo2, hi2, c) >= 0 <==> SlotIn(cols, lo, hi, c) >= 0)
            && ValIn(cols2, vals2, lo2, hi2, c) == ValIn(cols, vals, lo, hi, c))
  {
    var cols2, vals2 := RemoveAt(cols, index), RemoveAt(vals, index);
    var s := SlotIn(cols, lo, hi, c);
    if inside && c == cols[index] {
      SlotInUnique(cols, lo, hi, c, index);
      forall j | lo2 <= j < hi2
        ensures cols2[j] != c
      {
        if j < index {
          assert cols2[j] == cols[j];
        } else {
          assert cols2[j] == cols[j + 1];
        }
      }
    } else if s >= 0 {
      var s2 := if s < index then s else s - 1;
      assert cols2[s2] == c && vals2[s2] == vals[s];
      assert Increasing(cols2, lo2, hi2) by {
        forall i, j | lo2 <= i < j < hi2
          ensures cols2[i] < cols2[j]
        {
          var i0 := if i < index then i else i + 1;
          var j0 := if j < index then j else j + 1;
          assert cols2[i] == cols[i0] && cols2[j] == cols[j0];
        }
      }
      SlotInUnique(cols2, lo2, hi2, c, s2);
    } else {
      forall j | lo2 <= j < hi2
        ensures cols2[j] != c
      {
        if j < index {
          assert cols2[j] == cols[j];
        } else {
          assert cols2[j] == cols[j + 1];
        }
      }
    }
  }

  /** What remove does to one cell: the removed cell reads 0 and is no longer
      stored, every other cell keeps its value and its stored-ness. */
  lemma RemoveEntryCell(m: Csr, row: int, index: int, r: int, c: int)
    requires Valid(m) && 0 <= row < m.rows
    requires m.rowPointers[row] <= index < m.rowPointers[row + 1]
    requires 0 <= r < m.rows
    ensures Valid(RemoveEntry(m, row, index))
    ensures var m' := RemoveEntry(m, row, index);
      if r == row && c == m.columnIndexes[index] then !Stored(m', r, c) && Cell(m', r, c) == 0
      else (Stored(m', r, c) <==> Stored(m, r, c)) && Cell(m', r, c) == Cell(m, r, c)
  {
    RemoveEntryValid(m, row, index);
    var m' := RemoveEntry(m, row, index);
    var rp, rp' := m.rowPointers, m'.rowPointers;
    assert rp[row + 1] <= rp[m.rows];
    assert rp[r] <= rp[r + 1] <= rp[m.rows];
    assert r < row ==> rp[r + 1] <= rp[row];
    assert r > row ==> rp[row + 1] <= rp[r];
    assert Increasing(m.columnIndexes, rp[r], rp[r + 1]);
    RemoveSliceCell(m.columnIndexes, m.values, rp[r], rp[r + 1], rp'[r], rp'[r + 1], index, r == row, c);
  }

  /** What an in-place overwrite of a stored slot does to one cell. */
  lemma OverwriteEntryCell(m: Csr, row: int, index: int, value: int, r: int, c: int)
    requires Valid(m) && 0 <= row < m.rows
    requires m.rowPointers[row] <= index < m.rowPointers[row + 1]
    requires 0 <= r < m.rows
    ensures Valid(OverwriteEntry(m, index, value))
    ensures var m' := OverwriteEntry(m, index, value);
      && (Stored(m', r, c) <==> Stored(m, r, c))
      && Cell(m', r, c) == if r == row && c == m.columnIndexes[index] then value else Cell(m, r, c)
  {
    var m' := OverwriteEntry(m, index, value);
    var rp := m.rowPointers;
    assert rp[row + 1] <= rp[m.rows];
    assert rp[r] <= rp[r + 1] <= rp[m.rows];
    if r == row && c == m.columnIndexes[index] {
      assert Increasing(m.columnIndexes, rp[r], rp[r + 1]);
      SlotInUnique(m.columnIndexes, rp[r], rp[r + 1], c, index);
    } else if r < row {
      assert rp[r + 1] <= rp[row];
    } else if r > row {
      assert rp[row + 1] <= rp[r];
    }
  }

  /** InsertEntryCell for every cell at once. */
  lemma InsertEntryCells(m: Csr, row: int, column: int, index: int, value: int)
    requires Valid(m) && 0 <= row < m.rows && 0 <= column < m.columns
    requires InsertionPoint(m, row, column, index)
    ensures Valid(InsertEntry(m, row, column, index, value))
    ensures var m' := InsertEntry(m, row, column, index, value);
      Stored(m', row, column) && Cell(m', row, column) == value
    ensures var m' := InsertEntry(m, row, column, index, value);
      forall r, c :: 0 <= r < m.rows && (r != row || c != column) ==>
        (Stored(m', r, c) <==> Stored(m, r, c)) && Cell(m', r, c) == Cell(m, r, c)
  {
    InsertEntryCell(m, row, column, index, value, row, column);
    var m' := InsertEntry(m, row, column, index, value);
    forall r, c | 0 <= r < m.rows && (r != row || c != column)
      ensures (Stored(m', r, c) <==> Stored(m, r, c)) && Cell(m', r, c) == Cell(m, r, c)
    {
      InsertEntryCell(m, row, column, index, value, r, c);
    }
  }

  /** RemoveEntryCell for every cell at once. */
  lemma RemoveEntryCells(m: Csr, row: int, index: int)
    requires Valid(m) && 0 <= row < m.rows
    requires m.rowPointers[row] <= index < m.rowPointers[row + 1]
    ensures Valid(RemoveEntry(m, row, index))
    ensures var m' := RemoveEntry(m, row, index);
      !Stored(m', row, m.columnIndexes[index]) && Cell(m', row, m.columnIndexes[index]) == 0
    ensures var m' := RemoveEntry(m, row, index);
      forall r, c :: 0 <= r < m.rows && (r != row || c != m.columnIndexes[index]) ==>
        (Stored(m', r, c) <==> Stored(m, r, c)) && Cell(m', r, c) == Cell(m, r, c)
  {
    RemoveEntryCell(m, row, index, row, m.columnIndexes[index]);
    var m' := RemoveEntry(m, row, index);
    forall r, c | 0 <= r < m.rows && (r != row || c != m.columnIndexes[index])
      ensures (Stored(m', r, c) <==> Stored(m, r, c)) && Cell(m', r, c) == Cell(m, r, c)
    {
      RemoveEntryCell(m, row, index, r, c);
    }
  }

  /** OverwriteEntryCell for every cell at once. */
  lemma OverwriteEntryCells(m: Csr, row: int, index: int, value: int)
    requires Valid(m) && 0 <= row < m.rows
    requires m.rowPointers[row] <= index < m.rowPointers[row + 1]
    ensures Valid(OverwriteEntry(m, index, value))
    ensures var m' := OverwriteEntry(m, index, value);
      forall r, c :: 0 <= r < m.rows ==>
        (Stored(m', r, c) <==> Stored(m, r, c))
        && Cell(m', r, c) == if r == row && c == m.columnIndexes[index] then value else Cell(m, r, c)
  {
    OverwriteEntryCell(m, row, index, value, row, 0);
    var m' := OverwriteEntry(m, index, value);
    forall r, c | 0 <= r < m.rows
      ensures (Stored(m', r, c) <==> Stored(m, r, c))
      ensures Cell(m', r, c) == if r == row && c == m.columnIndexes[index] then value else Cell(m, r, c)
    {
      OverwriteEntryCell(m, row, index, value, r, c);
    }
  }

  /** m' is m with cell (row, column) set to value, as `setQuick` promises:
      that cell reads value and is stored exactly when value is nonzero,
      every other cell reads as before and is stored exactly when it was
      before, the number of stored entries moves
      by one when the cell becomes or stops being stored, and a
      representation without stored zeros keeps none. */
  ghost predicate CellSet(m: Csr, m': Csr, row: int, column: int, value: int) {
    && Valid(m) && Valid(m') && m'.rows == m.rows && m'.columns == m.columns && 0 <= row < m.rows
    && Cell(m', row, column) == value
    && (Stored(m', row, column) <==> value != 0)
    && (forall r, c :: 0 <= r < m.rows && (r != row || c != column) ==>
          (Stored(m', r, c) <==> Stored(m, r, c)) && Cell(m', r, c) == Cell(m, r, c))
    && |m'.values| == |m.values| + (if value != 0 && !Stored(m, row, column) then 1
                                    else if value == 0 && Stored(m, row, column) then -1
                                    else 0)
    && (NoStoredZeros(m) ==> NoStoredZeros(m'))
  }

  /** Overwriting the slot of a stored cell with a nonzero value sets it. */
  lemma OverwriteSetsCell(m: Csr, row: int, column: int, value: int)
    requires Valid(m) && 0 <= row < m.rows && Slot(m, row, column) >= 0 && value != 0
    ensures CellSet(m, OverwriteEntry(m, Slot(m, row, column), value), row, column, value)
  {
    var k := Slot(m, row, column);
    OverwriteEntryCells(m, row, k, value);
    var m' := OverwriteEntry(m, k, value);
    if NoStoredZeros(m) {
      forall j | 0 <= j < |m'.values|
        ensures m'.values[j] != 0
      {
        assert j != k ==> m'.values[j] == m.values[j];
      }
    }
  }

  /** Removing the slot of a stored cell sets it to 0. */
  lemma RemoveSetsCell(m: Csr, row: int, column: int)
    requires Valid(m) && 0 <= row < m.rows && Slot(m, row, column) >= 0
    ensures CellSet(m, RemoveEntry(m, row, Slot(m, row, column)), row, column, 0)
  {
    var k := Slot(m, row, column);
    RemoveEntryCells(m, row, k);
    var m' := RemoveEntry(m, row, k);
    if NoStoredZeros(m) {
      forall j | 0 <= j < |m'.values|
        ensures m'.values[j] != 0
      {
        assert m'.values[j] == if j < k then m.values[j] else m.values[j + 1];
      }
    }
  }

  /** Inserting an absent cell at its insertion point with a nonzero value
      sets it. */
  lemma InsertSetsCell(m: Csr, row: int, column: int, index: int, value: int)
    requires Valid(m) && 0 <= row < m.rows && 0 <= column < m.columns
    requires Slot(m, row, column) == -1 && InsertionPoint(m, row, column, index) && value != 0
    ensures CellSet(m, InsertEntry(m, row, column, index, value), row, column, value)
  {
    InsertEntryCells(m, row, column, index, value);
    var m' := InsertEntry(m, row, column, index, value);
    if NoStoredZeros(m) {
      forall j | 0 <= j < |m'.values|
        ensures m'.values[j] != 0
      {
        assert j != index ==> m'.values[j] == if j < index then m.values[j] else m.values[j - 1];
      }
    }
  }

  /** Setting an absent cell to 0 changes nothing. */
  lemma AbsentSetsZero(m: Csr, row: int, column: int)
    requires Valid(m) && 0 <= row < m.rows && Slot(m, row, column) == -1
    ensures CellSet(m, m, row, column, 0)
  {
    CellBySlot(m, row, column);
  }

  /** Replacing the stored values and nothing else keeps the format valid and
      the set of stored cells; each stored cell then reads its slot's new value. */
  lemma WithValuesValid(m: Csr, vals: seq<int>)
    requires Valid(m) && |vals| == |m.values|
    ensures Valid(m.(values := vals))
  {
  }

  lemma WithValuesCell(m: Csr, vals: seq<int>, r: int, c: int)
    requires Valid(m) && |vals| == |m.values| && 0 <= r < m.rows
    ensures Valid(m.(values := vals))
    ensures Stored(m.(values := vals), r, c) <==> Stored(m, r, c)
    ensures Cell(m.(values := vals), r, c) == if Stored(m, r, c) then vals[Slot(m, r, c)] else 0
  {
    assert m.rowPointers[r] <= m.rowPointers[r + 1] <= m.rowPointers[m.rows];
  }

  // ----- the sums the product kernels compute ------------------------------

  /** The sum of vals[k] * y[cols[k]] over the slots k in [lo, hi): what the
      inner loop of a matrix-vector kernel accumulates for one row. */
  function SliceDot(cols: seq<int>, vals: seq<int>, lo: int, hi: int, y: seq<int>): int
    requires 0 <= lo <= hi <= |cols| && hi <= |vals|
    requires forall k :: lo <= k < hi ==> 0 <= cols[k] < |y|
    decreases hi - lo
  {
    if lo == hi then 0 else SliceDot(cols, vals, lo, hi - 1, y) + vals[hi - 1] * y[cols[hi - 1]]
  }

  /** SliceDot peeled from the bottom slot: the order the matrix-matrix
      kernels walk a row in. */
  lemma {:induction false} SliceDotFront(cols: seq<int>, vals: seq<int>, lo: int, hi: int, y: seq<int>)
    requires 0 <= lo < hi <= |cols| && hi <= |vals|
    requires forall k :: lo <= k < hi ==> 0 <= cols[k] < |y|
    ensures SliceDot(cols, vals, lo, hi, y) == vals[lo] * y[cols[lo]] + SliceDot(cols, vals, lo + 1, hi, y)
  {
    if hi > lo + 1 {
      SliceDotFront(cols, vals, lo, hi - 1, y);
    }
  }

  /** Row r's stored entries times y. */
  ghost function RowProduct(m: Csr, r: int, y: seq<int>): int
    requires Valid(m) && 0 <= r < m.rows && |y| == m.columns
  {
    assert m.rowPointers[r] <= m.rowPointers[r + 1] <= m.rowPointers[m.rows];
    SliceDot(m.columnIndexes, m.values, m.rowPointers[r], m.rowPointers[r + 1], y)
  }

  /** The reference definition: the sum over the first n columns c of
      Cell(m, r, c) * y[c], i.e. row r of the matrix times y, cell by cell. */
  ghost function CellRowDot(m: Csr, r: int, y: seq<int>, n: int): int
    requires Valid(m) && 0 <= r < m.rows && 0 <= n <= |y|
  {
    if n == 0 then 0 else CellRowDot(m, r, y, n - 1) + Cell(m, r, n - 1) * y[n - 1]
  }

  /** The sum over the first n rows i of Cell(m, i, c) * w[i]: column c of the
      matrix times w, i.e. entry c of the transposed product. */
  ghost function CellColumnDot(m: Csr, c: int, w: seq<int>, n: int): int
    requires Valid(m) && 0 <= n <= m.rows && n <= |w|
  {
    if n == 0 then 0 else CellColumnDot(m, c, w, n - 1) + Cell(m, n - 1, c) * w[n - 1]
  }

  /** One more row in a scaled column sum. */
  lemma ScaledColumnDotStep(m: Csr, c: int, w: seq<int>, n: int, alpha: int)
    requires Valid(m) && 0 <= n < m.rows && n < |w|
    ensures alpha * CellColumnDot(m, c, w, n + 1) == alpha * CellColumnDot(m, c, w, n) + alpha * (Cell(m, n, c) * w[n])
  {
    var a, b := CellColumnDot(m, c, w, n), Cell(m, n, c) * w[n];
    assert CellColumnDot(m, c, w, n + 1) == a + b;
    MulAdd(alpha, a, b);
  }

  lemma MulAdd(alpha: int, a: int, b: int)
    ensures alpha * (a + b) == alpha * a + alpha * b
  {
  }

  /** CellRowDot for a bare slice (the induction runs over slices). */
  function DenseDot(cols: seq<int>, vals: seq<int>, lo: int, hi: int, y: seq<int>, n: int): int
    requires 0 <= lo <= hi <= |cols| && hi <= |vals| && 0 <= n <= |y|
  {
    if n == 0 then 0 else DenseDot(cols, vals, lo, hi, y, n - 1) + ValIn(cols, vals, lo, hi, n - 1) * y[n - 1]
  }

  lemma {:induction false} DenseDotEmpty(cols: seq<int>, vals: seq<int>, lo: int, y: seq<int>, n: int)
    requires 0 <= lo <= |cols| && lo <= |vals| && 0 <= n <= |y|
    ensures DenseDot(cols, vals, lo, lo, y, n) == 0
  {
    if n > 0 {
      DenseDotEmpty(cols, vals, lo, y, n - 1);
    }
  }

  /** Taking the top slot off a strictly increasing slice takes exactly its
      term off the cell-by-cell sum. */
  lemma {:induction false} DenseDotPeel(cols: seq<int>, vals: seq<int>, lo: int, hi: int, y: seq<int>, n: int)
    requires 0 <= lo < hi <= |cols| && hi <= |vals| && 0 <= n <= |y|
    requires Increasing(cols, lo, hi) && cols[hi - 1] >= 0
    ensures DenseDot(cols, vals, lo, hi, y, n)
         == DenseDot(cols, vals, lo, hi - 1, y, n) + (if cols[hi - 1] < n then vals[hi - 1] * y[cols[hi - 1]] else 0)
  {
    if n > 0 {
      DenseDotPeel(cols, vals, lo, hi, y, n - 1);
      if n - 1 == cols[hi - 1] {
        assert forall j :: lo <= j < hi - 1 ==> cols[j] < cols[hi - 1];
        assert SlotIn(cols, lo, hi - 1, n - 1) == -1;
      }
    }
  }

  lemma {:induction false} SliceDotIsDenseDot(cols: seq<int>, vals: seq<int>, lo: int, hi: int, y: seq<int>)
    requires 0 <= lo <= hi <= |cols| && hi <= |vals|
    requires forall k :: lo <= k < hi ==> 0 <= cols[k] < |y|
    requires Increasing(cols, lo, hi)
    ensures SliceDot(cols, vals, lo, hi, y) == DenseDot(cols, vals, lo, hi, y, |y|)
  {
    if lo == hi {
      DenseDotEmpty(cols, vals, lo, y, |y|);
    } else {
      SliceDotIsDenseDot(cols, vals, lo, hi - 1, y);
      DenseDotPeel(cols, vals, lo, hi, y, |y|);
    }
  }

  lemma {:induction false} DenseDotIsCellRowDot(m: Csr, r: int, y: seq<int>, n: int)
    requires Valid(m) && 0 <= r < m.rows && 0 <= n <= |y|
    ensures m.rowPointers[r] <= m.rowPointers[r + 1] <= |m.columnIndexes|
    ensures DenseDot(m.columnIndexes, m.values, m.rowPointers[r], m.rowPointers[r + 1], y, n) == CellRowDot(m, r, y, n)
  {
    assert m.rowPointers[r] <= m.rowPointers[r + 1] <= m.rowPointers[m.rows];
    if n > 0 {
      DenseDotIsCellRowDot(m, r, y, n - 1);
    }
  }

  /** The storage-order sum a kernel computes for row r equals row r of the
      matrix times y taken cell by cell over all columns. */
  lemma RowProductIsCellRowDot(m: Csr, r: int, y: seq<int>)
    requires Valid(m) && 0 <= r < m.rows && |y| == m.columns
    ensures RowProduct(m, r, y) == CellRowDot(m, r, y, m.columns)
  {
    assert m.rowPointers[r] <= m.rowPointers[r + 1] <= m.rowPointers[m.rows];
    SliceDotIsDenseDot(m.columnIndexes, m.values, m.rowPointers[r], m.rowPointers[r + 1], y);
    DenseDotIsCellRowDot(m, r, y, m.columns);
  }
}

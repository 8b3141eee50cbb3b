/** The selection view over a hashed sparse vector: a vector whose logical
    element i lives under the key offset + offsets[zero + i * stride] of a
    key -> value map that the view shares, by reference, with the vector it
    was selected from and with every other view selected from that vector. */
module SelectedSparse {
  import opened Failures

  /** What `AbstractLongLongMap.get` answers: the stored value, or 0 for an
      absent key. */
  function Lookup(m: map<int, int>, key: int): int {
    if key in m then m[key] else 0
  }

  /** The map never holds an explicit zero (absent means zero). */
  ghost predicate NoZeros(m: map<int, int>) {
    forall k :: k in m ==> m[k] != 0
  }

  /** What `setQuick` does to the map: a zero removes the key, any other
      value is put under it. */
  function Written(m: map<int, int>, key: int, value: int): map<int, int> {
    if value == 0 then m - {key} else m[key := value]
  }

  /** Reading the key just written gives the value written. */
  lemma WrittenReadBack(m: map<int, int>, key: int, value: int)
    ensures Lookup(Written(m, key, value), key) == value
  {
  }

  /** A write changes the reading of no other key. */
  lemma WrittenElsewhere(m: map<int, int>, key: int, value: int, other: int)
    requires other != key
    ensures Lookup(Written(m, key, value), other) == Lookup(m, other)
  {
  }

  /** A write leaves no zero behind: the key is present exactly when the value
      is nonzero, and a zero-free map stays zero-free. */
  lemma WrittenNoZeros(m: map<int, int>, key: int, value: int)
    ensures key in Written(m, key, value) <==> value != 0
    ensures NoZeros(m) ==> NoZeros(Written(m, key, value))
  {
  }

  /** The map is determined by its readings once it holds no zeros. */
  lemma {:induction false} LookupDetermines(m: map<int, int>, n: map<int, int>)
    requires NoZeros(m) && NoZeros(n)
    requires forall k :: Lookup(m, k) == Lookup(n, k)
    ensures m == n
  {
    forall k | k in m
      ensures k in n && n[k] == m[k]
    {
      assert Lookup(m, k) == m[k];
      assert Lookup(n, k) == m[k];
    }
    forall k | k in n
      ensures k in m
    {
      assert Lookup(m, k) == n[k];
    }
  }

  /** Writing back the value a key read before undoes a write completely. */
  lemma WrittenUndo(m: map<int, int>, key: int, value: int)
    requires NoZeros(m)
    ensures Written(Written(m, key, value), key, Lookup(m, key)) == m
  {
    var w := Written(Written(m, key, value), key, Lookup(m, key));
    WrittenNoZeros(m, key, value);
    WrittenNoZeros(Written(m, key, value), key, Lookup(m, key));
    forall k
      ensures Lookup(w, k) == Lookup(m, k)
    {
      if k == key {
        WrittenReadBack(Written(m, key, value), key, Lookup(m, key));
      } else {
        WrittenElsewhere(Written(m, key, value), key, Lookup(m, key), k);
        WrittenElsewhere(m, key, value, k);
      }
    }
    LookupDetermines(w, m);
  }

  /** Two writes to one key leave only the second. */
  lemma WrittenOverwrite(m: map<int, int>, key: int, first: int, second: int)
    ensures Written(Written(m, key, first), key, second) == Written(m, key, second)
  {
  }

  /** The hashed storage (`AbstractLongLongMap`) as a heap object, so that
      several vectors can hold the identical map. */
  class LongLongMap {
    var contents: map<int, int>

    constructor()
      ensures contents == map[]
    {
      contents := map[];
    }

    /** `put(key, value)`. */
    method Put(key: int, value: int)
      modifies this
      ensures contents == old(contents)[key := value]
    {
      contents := contents[key := value];
    }

    /** `removeKey(key)`; removing an absent key changes nothing. */
    method RemoveKey(key: int)
      modifies this
      ensures contents == old(contents) - {key}
    {
      contents := contents - {key};
    }
  }

  /** The plain hashed vector a selection is taken from
      (`SparseLongMatrix1D`): only its size and its map matter here. */
  class SparseLongMatrix1D {
    const size: nat
    const elements: LongLongMap

    /** `new SparseLongMatrix1D(size)`: an empty map of its own. */
    constructor(size: nat)
      ensures this.size == size && fresh(elements) && elements.contents == map[]
    {
      this.size := size;
      elements := new LongLongMap();
    }

    /** `getQuick(index)` of the plain vector. */
    function GetQuick(index: int): (v: int)
      reads elements
      ensures v == Lookup(elements.contents, index)
    {
      Lookup(elements.contents, index)
    }
  }

  /** The run-time type of the other vector `haveSharedCellsRaw` is asked
      about. */
  datatype Vector1D =
    | SelectedVector(selected: SelectedSparseLongMatrix1D)
    | SparseVector(sparse: SparseLongMatrix1D)
    | OtherVector

  class SelectedSparseLongMatrix1D {
    /** The shape fields inherited from AbstractMatrix1D. */
    var size: nat
    var zero: int
    var stride: int
    var isNoView: bool

    const elements: LongLongMap
    const offsets: array<int>
    var offset: int

    /** `new SelectedSparseLongMatrix1D(elements, offsets)`: every offset
        visible, in order, with no extra offset. */
    constructor Select(elements: LongLongMap, offsets: array<int>)
      ensures this.elements == elements && this.offsets == offsets
      ensures size == offsets.Length && zero == 0 && stride == 1 && offset == 0
      ensures !isNoView
    {
      size := offsets.Length;
      zero := 0;
      stride := 1;
      this.elements := elements;
      this.offsets := offsets;
      offset := 0;
      isNoView := false;
    }

    /** The six-argument constructor: `setUp(size, zero, stride)`, then the
        storage, the offsets and the offset, and the view flag cleared. */
    constructor (size: nat, elements: LongLongMap, zero: int, stride: int, offsets: array<int>, offset: int)
      ensures this.size == size && this.zero == zero && this.stride == stride
      ensures this.elements == elements && this.offsets == offsets && this.offset == offset
      ensures !isNoView
    {
      this.size := size;
      this.zero := zero;
      this.stride := stride;
      this.elements := elements;
      this.offsets := offsets;
      this.offset := offset;
      isNoView := false;
    }

    /** `elements()` is not supported by a selection view. */
    function Elements(): (r: Result<LongLongMap>)
      ensures r == Failure(NotSupported)
    {
      Failure(NotSupported)
    }

    /** `reshape(rows, cols)` is not supported by a selection view. */
    function Reshape(rows: int, cols: int): (r: Outcome)
      ensures r == Fail(NotSupported)
    {
      Fail(NotSupported)
    }

    /** `reshape(slices, rows, cols)` is not supported either. */
    function Reshape3D(slices: int, rows: int, cols: int): (r: Outcome)
      ensures r == Fail(NotSupported)
    {
      Fail(NotSupported)
    }

    /** The slot of the offsets array that logical element `rank` reads:
        `_rank(rank)` of AbstractMatrix1D. */
    function Rank(rank: int): int
      reads this
    {
      zero + rank * stride
    }

    /** Element `rank` has a slot inside the offsets array. */
    predicate ValidRank(rank: int)
      reads this
    {
      0 <= Rank(rank) < offsets.Length
    }

    /** `_offset(absRank)`: the offset stored in slot absRank. */
    function Offset(absRank: int): (p: int)
      reads offsets
      requires 0 <= absRank < offsets.Length
      ensures p == offsets[absRank]
    {
      offsets[absRank]
    }

    /** `index(rank)`, the key logical element `rank` lives under: the
        inherited `_offset(_rank(rank))` shifted by this view's offset. */
    function Index(rank: int): (key: int)
      reads this, offsets
      requires ValidRank(rank)
      ensures key == offset + Offset(Rank(rank))
    {
      offset + offsets[zero + rank * stride]
    }

    /** `getQuick(index)`: the value stored under the element's key, or 0
        when the key is absent. */
    function GetQuick(index: int): (v: int)
      reads this, offsets, elements
      requires ValidRank(index)
      ensures Index(index) in elements.contents ==> v == elements.contents[Index(index)]
      ensures Index(index) !in elements.contents ==> v == 0
    {
      Lookup(elements.contents, offset + offsets[zero + index * stride])
    }

    /** `setQuick(index, value)`: a zero removes the element's key from the
        shared map, any other value is put under it; no other key changes
        and no zero is ever stored. */
    method SetQuick(index: int, value: int)
      requires ValidRank(index)
      modifies elements
      ensures elements.contents == Written(old(elements.contents), Index(index), value)
      ensures GetQuick(index) == value
      ensures forall k :: k != Index(index) ==> Lookup(elements.contents, k) == Lookup(old(elements.contents), k)
      ensures Index(index) in elements.contents <==> value != 0
      ensures NoZeros(old(elements.contents)) ==> NoZeros(elements.contents)
    {
      var i := offset + offsets[zero + index * stride];
      WrittenReadBack(elements.contents, i, value);
      WrittenNoZeros(elements.contents, i, value);
      if value == 0 {
        elements.RemoveKey(i);
      } else {
        elements.Put(i, value);
      }
    }

    /** `haveSharedCellsRaw(other)`: true exactly for a selection view or a
        plain hashed vector holding the identical map object. */
    predicate HaveSharedCellsRaw(other: Vector1D)
      ensures HaveSharedCellsRaw(other) <==>
                (other.SelectedVector? || other.SparseVector?) &&
                elements == (if other.SelectedVector? then other.selected.elements else other.sparse.elements)
    {
      match other
      case SelectedVector(s) => elements == s.elements
      case SparseVector(s) => elements == s.elements
      case OtherVector => false
    }

    /** `setUp(size)`: the inherited `setUp(size, 0, 1)` (which also marks
        the vector as no view), then stride 1 and offset 0 once more. */
    method SetUp(size: nat)
      modifies this
      ensures this.size == size && zero == 0 && stride == 1 && offset == 0 && isNoView
    {
      this.size := size;
      zero := 0;
      stride := 1;
      isNoView := true;
      stride := 1;
      offset := 0;
    }

    /** `viewSelectionLike(offsets)`: a fresh view on the same map object
        showing the given offsets. */
    method ViewSelectionLike(offsets: array<int>) returns (v: SelectedSparseLongMatrix1D)
      ensures fresh(v) && v.elements == elements && v.offsets == offsets
      ensures v.size == offsets.Length && v.zero == 0 && v.stride == 1 && v.offset == 0
      ensures HaveSharedCellsRaw(SelectedVector(v))
    {
      v := new SelectedSparseLongMatrix1D.Select(elements, offsets);
    }
  }

  /** A write through one view, seen through any other vector: when the two
      share cells, the other element under the same key reads the new value
      and all others read what they read before; when they do not, nothing
      the other shows changes. */
  method WriteThrough(v: SelectedSparseLongMatrix1D, w: SelectedSparseLongMatrix1D, i: int, value: int)
    requires v.ValidRank(i)
    modifies v.elements
    ensures forall j :: w.ValidRank(j) && v.HaveSharedCellsRaw(SelectedVector(w)) ==>
              w.GetQuick(j) == if w.Index(j) == v.Index(i) then value else old(w.GetQuick(j))
    ensures forall j :: w.ValidRank(j) && !v.HaveSharedCellsRaw(SelectedVector(w)) ==>
              w.GetQuick(j) == old(w.GetQuick(j))
  {
    v.SetQuick(i, value);
  }

  /** The same for the plain hashed vector the view was selected from. */
  method WriteThroughToSource(v: SelectedSparseLongMatrix1D, s: SparseLongMatrix1D, i: int, value: int)
    requires v.ValidRank(i)
    modifies v.elements
    ensures v.HaveSharedCellsRaw(SparseVector(s)) ==>
              forall k :: s.GetQuick(k) == if k == v.Index(i) then value else old(s.GetQuick(k))
    ensures !v.HaveSharedCellsRaw(SparseVector(s)) ==>
              forall k :: s.GetQuick(k) == old(s.GetQuick(k))
  {
    v.SetQuick(i, value);
  }

  /** The selection walk-through: a vector holding {0: 10, 5: 20, 9: 30}
      seen through offsets [9, 0, 5] reads 30, 10, 20; writing 0 at position
      1 removes key 0, which a second view over the same map observes. */
  method SelectionExample() returns (first: int, second: int, third: int, seen: int, keyZero: bool)
    ensures first == 30 && second == 10 && third == 20
    ensures seen == 0 && !keyZero
  {
    var source := new SparseLongMatrix1D(10);
    source.elements.Put(0, 10);
    source.elements.Put(5, 20);
    source.elements.Put(9, 30);
    var offs := new int[] [9, 0, 5];
    var view := new SelectedSparseLongMatrix1D.Select(source.elements, offs);
    first := view.GetQuick(0);
    second := view.GetQuick(1);
    third := view.GetQuick(2);
    var again := new int[] [0];
    var other := view.ViewSelectionLike(again);
    view.SetQuick(1, 0);
    seen := other.GetQuick(0);
    keyZero := 0 in source.elements.contents;
  }
}

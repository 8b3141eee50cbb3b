/** The dense operands of the product kernels: a DenseLongMatrix1D seen as the
    flat buffer, offset and stride the kernels index directly, and a
    DenseLongMatrix2D as a two-dimensional array. */
module Dense {

  /** `size` logical elements; element i lives at elements[zero + stride * i]
      (`index(i)` of a dense vector view). */
  datatype DenseVector = DenseVector(elements: array<int>, zero: int, stride: int, size: nat) {

    function Pos(i: int): int {
      zero + stride * i
    }

    /** Every logical element lies inside the buffer. */
    ghost predicate InBounds() {
      forall i :: 0 <= i < size ==> 0 <= Pos(i) < elements.Length
    }

    /** The logical elements, in order. */
    ghost function Logical(): (v: seq<int>)
      reads elements
      requires InBounds()
      ensures |v| == size
      ensures forall i :: 0 <= i < size ==> v[i] == elements[Pos(i)]
    {
      var e := elements[..];
      seq(size, i requires 0 <= i < size => e[Pos(i)])
    }

    /** Buffer position p is not the home of any of the first n elements. */
    ghost predicate Outside(n: int, p: int) {
      forall i :: 0 <= i < n ==> p != Pos(i)
    }
  }

  /** A nonzero stride sends distinct elements to distinct positions. */
  lemma PosInjective(d: DenseVector, i: int, j: int)
    requires d.stride != 0 && i != j
    ensures d.Pos(i) != d.Pos(j)
  {
    assert d.Pos(i) - d.Pos(j) == d.stride * (i - j);
    assert d.stride * (i - j) != 0;
  }

  /** The home of element i is not the home of any earlier element. */
  lemma OutsideOwnHome(d: DenseVector, i: int)
    requires d.stride != 0
    ensures d.Outside(i, d.Pos(i))
  {
    forall i' | 0 <= i' < i
      ensures d.Pos(i) != d.Pos(i')
    {
      PosInjective(d, i, i');
    }
  }

  /** Stepping a position by the stride reaches the next element's home. */
  lemma PosNext(d: DenseVector, i: int)
    ensures d.Pos(i) + d.stride == d.Pos(i + 1)
  {
  }

  /** Outside the first n + 1 homes means outside the first n and not home n. */
  lemma OutsideStep(d: DenseVector, n: int, p: int)
    requires 0 <= n && d.Outside(n + 1, p)
    ensures d.Outside(n, p) && p != d.Pos(n)
  {
  }

  /** The store `elements[zidx] = v` with zidx the home of logical element
      i: element i becomes v, and every position outside the homes of the
      first i elements and of element i keeps its value. */
  method SetElement(d: DenseVector, i: nat, v: int)
    requires d.InBounds() && d.stride != 0 && i < d.size
    modifies d.elements
    ensures d.elements[d.Pos(i)] == v
    ensures forall i' :: 0 <= i' < i ==> d.elements[d.Pos(i')] == old(d.elements[d.Pos(i')])
    ensures forall p :: 0 <= p < d.elements.Length && d.Outside(i + 1, p) ==> d.elements[p] == old(d.elements[p])
  {
    OutsideOwnHome(d, i);
    d.elements[d.Pos(i)] := v;
    forall p | 0 <= p < d.elements.Length && d.Outside(i + 1, p)
      ensures d.elements[p] == old(d.elements[p])
    {
      OutsideStep(d, i, p);
    }
  }

  /** The update `elements[zero + stride * j] += delta`: element j gains
      delta, every other element and every position outside the homes of the
      elements keeps its value. */
  method AddToElement(d: DenseVector, j: nat, delta: int)
    requires d.InBounds() && d.stride != 0 && j < d.size
    modifies d.elements
    ensures d.elements[d.Pos(j)] == old(d.elements[d.Pos(j)]) + delta
    ensures forall c :: 0 <= c < d.size && c != j ==> d.elements[d.Pos(c)] == old(d.elements[d.Pos(c)])
    ensures forall p :: 0 <= p < d.elements.Length && d.Outside(d.size, p) ==> d.elements[p] == old(d.elements[p])
  {
    forall c | 0 <= c < d.size && c != j {
      PosInjective(d, j, c);
    }
    d.elements[d.Pos(j)] := d.elements[d.Pos(j)] + delta;
  }

  /** `new DenseLongMatrix1D(size)`: a zero vector with offset 0, stride 1. */
  method NewVector(size: nat) returns (d: DenseVector)
    ensures fresh(d.elements) && d.zero == 0 && d.stride == 1 && d.size == size
    ensures d.InBounds() && d.elements.Length == size
    ensures forall p :: 0 <= p < d.elements.Length ==> d.elements[p] == 0
  {
    var a := new int[size](_ => 0);
    d := DenseVector(a, 0, 1, size);
  }

  /** The dense `z.assign(LongFunctions.mult(beta))` the transposed kernel
      calls: every logical element times beta, nothing else touched. */
  method ScaleVector(d: DenseVector, beta: int)
    requires d.InBounds() && d.stride != 0
    modifies d.elements
    ensures forall i :: 0 <= i < d.size ==> d.elements[d.Pos(i)] == beta * old(d.elements[d.Pos(i)])
    ensures forall p :: 0 <= p < d.elements.Length && d.Outside(d.size, p) ==> d.elements[p] == old(d.elements[p])
  {
    var i := 0;
    while i < d.size
      invariant 0 <= i <= d.size
      invariant forall i' :: 0 <= i' < i ==> d.elements[d.Pos(i')] == beta * old(d.elements[d.Pos(i')])
      invariant forall i' :: i <= i' < d.size ==> d.elements[d.Pos(i')] == old(d.elements[d.Pos(i')])
      invariant forall p :: 0 <= p < d.elements.Length && d.Outside(d.size, p) ==> d.elements[p] == old(d.elements[p])
    {
      forall i' | 0 <= i' < d.size && i' != i {
        PosInjective(d, i, i');
      }
      d.elements[d.Pos(i)] := beta * d.elements[d.Pos(i)];
      i := i + 1;
    }
  }

  /** Element (r, c) of op(B): B itself, or its transpose (`viewDice()`). */
  function OpAt(b: array2<int>, transposed: bool, r: int, c: int): int
    reads b
    requires transposed ==> 0 <= c < b.Length0 && 0 <= r < b.Length1
    requires !transposed ==> 0 <= r < b.Length0 && 0 <= c < b.Length1
  {
    if transposed then b[c, r] else b[r, c]
  }

  /** Rows and columns of op(B). */
  function OpRows(b: array2<int>, transposed: bool): nat {
    if transposed then b.Length1 else b.Length0
  }

  function OpColumns(b: array2<int>, transposed: bool): nat {
    if transposed then b.Length0 else b.Length1
  }

  /** Column c of op(B) as a sequence: the vector a product row meets. */
  ghost function OpColumn(b: array2<int>, transposed: bool, c: int): (v: seq<int>)
    reads b
    requires 0 <= c < OpColumns(b, transposed)
    ensures |v| == OpRows(b, transposed)
    ensures forall j :: 0 <= j < |v| ==> v[j] == OpAt(b, transposed, j, c)
  {
    seq(OpRows(b, transposed), j requires 0 <= j < OpRows(b, transposed) reads b => OpAt(b, transposed, j, c))
  }

  /** The dense row update `Crows[i].assign(Brows[j], plusMult(mult))`:
      C[i, c] += mult * op(B)[j, c] for every column c, the rest of C
      untouched. */
  method AddRowMultiple(C: array2<int>, i: int, b: array2<int>, transposed: bool, j: int, mult: int)
    requires C != b && 0 <= i < C.Length0 && 0 <= j < OpRows(b, transposed)
    requires C.Length1 == OpColumns(b, transposed)
    modifies C
    ensures forall r, c :: 0 <= r < C.Length0 && 0 <= c < C.Length1 ==>
              C[r, c] == if r == i then old(C[r, c]) + mult * OpAt(b, transposed, j, c) else old(C[r, c])
  {
    var c := 0;
    while c < C.Length1
      invariant 0 <= c <= C.Length1
      invariant forall r, c' :: 0 <= r < C.Length0 && 0 <= c' < C.Length1 ==>
                  C[r, c'] == if r == i && c' < c then old(C[r, c']) + mult * OpAt(b, transposed, j, c') else old(C[r, c'])
    {
      C[i, c] := C[i, c] + mult * OpAt(b, transposed, j, c);
      c := c + 1;
    }
  }

  /** The dense `C.assign(LongFunctions.mult(beta))`: every cell times beta. */
  method ScaleMatrix(C: array2<int>, beta: int)
    modifies C
    ensures forall r, c :: 0 <= r < C.Length0 && 0 <= c < C.Length1 ==> C[r, c] == beta * old(C[r, c])
  {
    var r := 0;
    while r < C.Length0
      invariant 0 <= r <= C.Length0
      invariant forall r', c :: 0 <= r' < C.Length0 && 0 <= c < C.Length1 ==>
                  C[r', c] == if r' < r then beta * old(C[r', c]) else old(C[r', c])
    {
      var c := 0;
      while c < C.Length1
        invariant 0 <= c <= C.Length1
        invariant forall r', c' :: 0 <= r' < C.Length0 && 0 <= c' < C.Length1 ==>
                    C[r', c'] == if r' < r || (r' == r && c' < c) then beta * old(C[r', c']) else old(C[r', c'])
      {
        C[r, c] := beta * C[r, c];
        c := c + 1;
      }
      r := r + 1;
    }
  }
}

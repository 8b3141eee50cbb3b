/** Java's 32-bit `int` arithmetic. The non-transposed matrix-vector kernels
    accumulate into an `int sum` (a compound `sum += long` narrows back to 32
    bits on every step), and `alpha * sum` multiplies two ints; both wrap. */
module JavaInt {

  const TWO32: int := 0x1_0000_0000
  const MIN_INT: int := -0x8000_0000
  const MAX_INT: int := 0x7fff_ffff

  predicate IsInt32(x: int) {
    MIN_INT <= x <= MAX_INT
  }

  /** The narrowing conversion `(int) x`: the 32-bit value congruent to x. */
  function Int32(x: int): (r: int)
    ensures IsInt32(r)
    ensures (x - r) % TWO32 == 0
  {
    (x - MIN_INT) % TWO32 + MIN_INT
  }

  /** Values that already fit are unchanged by the narrowing. */
  lemma Int32OfInt32(x: int)
    requires IsInt32(x)
    ensures Int32(x) == x
  {
  }

  /** Two values that agree modulo 2^32 narrow to the same int. */
  lemma Int32Congruent(x: int, y: int)
    requires (x - y) % TWO32 == 0
    ensures Int32(x) == Int32(y)
  {
    var q := (x - y) / TWO32;
    assert x - MIN_INT == (y - MIN_INT) + q * TWO32;
    ModShift(y - MIN_INT, q);
  }

  lemma ModShift(a: int, q: int)
    ensures (a + q * TWO32) % TWO32 == a % TWO32
  {
  }

  /** Narrowing an intermediate sum does not change the final narrowed sum:
      `sum = (int)(sum + t)` repeated equals `(int)` of the exact total. */
  lemma Int32Add(a: int, t: int)
    ensures Int32(Int32(a) + t) == Int32(a + t)
  {
    Int32Congruent(Int32(a) + t, a + t);
  }

  /** The same for `alpha * sum` with a narrowed sum. */
  lemma Int32Mul(alpha: int, a: int)
    ensures Int32(alpha * Int32(a)) == Int32(alpha * a)
  {
    var q := (a - Int32(a)) / TWO32;
    assert a == Int32(a) + q * TWO32;
    assert alpha * a == alpha * Int32(a) + (alpha * q) * TWO32;
    Int32Congruent(alpha * Int32(a), alpha * a);
  }
}

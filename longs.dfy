/** Java `long` arithmetic: the 64-bit two's-complement range and the wrap-around of addition. */
module Longs {

  const LONG_MIN: int := -0x8000_0000_0000_0000
  const LONG_MAX: int := 0x7fff_ffff_ffff_ffff
  const TWO_64: int := 0x1_0000_0000_0000_0000

  /** A value of Java's primitive `long`. */
  type Long = x: int | -0x8000_0000_0000_0000 <= x <= 0x7fff_ffff_ffff_ffff

  /** `a` and `b` agree modulo 2^64, i.e. they denote the same 64-bit pattern. */
  predicate Congruent(a: int, b: int) {
    (a - b) % TWO_64 == 0
  }

  /**
   * Reduces a mathematical integer to the `long` with the same low 64 bits, by adding or
   * subtracting 2^64 until it is in range.
   */
  function Wrap(x: int): Long
    decreases if x < LONG_MIN then LONG_MIN - x else if x > LONG_MAX then x - LONG_MAX else 0
  {
    if x < LONG_MIN then Wrap(x + TWO_64)
    else if x > LONG_MAX then Wrap(x - TWO_64)
    else x
  }

  /** `Wrap` keeps the bit pattern and leaves values that already fit unchanged. */
  lemma {:induction false} WrapIsCongruent(x: int)
    ensures Congruent(x, Wrap(x))
    ensures LONG_MIN <= x <= LONG_MAX ==> Wrap(x) == x
    decreases if x < LONG_MIN then LONG_MIN - x else if x > LONG_MAX then x - LONG_MAX else 0
  {
    if x < LONG_MIN {
      WrapIsCongruent(x + TWO_64);
      CongruentTransitive(x, x + TWO_64, Wrap(x + TWO_64));
    } else if x > LONG_MAX {
      WrapIsCongruent(x - TWO_64);
      CongruentTransitive(x, x - TWO_64, Wrap(x - TWO_64));
    }
  }

  /** Java's `a + b` on `long` (what `AtomicLong.addAndGet` computes). */
  function AddLong(a: Long, b: Long): Long
  {
    Wrap(a + b)
  }

  /** `AddLong` is addition modulo 2^64, and exact whenever the sum fits. */
  lemma {:induction false} AddLongIsModularSum(a: Long, b: Long)
    ensures Congruent(a + b, AddLong(a, b))
    ensures LONG_MIN <= a + b <= LONG_MAX ==> AddLong(a, b) == a + b
    ensures a >= 0 && b >= 0 && a + b > LONG_MAX ==> AddLong(a, b) == a + b - TWO_64
  {
    WrapIsCongruent(a + b);
  }

  /** Two longs with the same bit pattern are equal. */
  lemma {:induction false} CongruentLongsEqual(a: Long, b: Long)
    requires Congruent(a, b)
    ensures a == b
  {
    var d := a - b;
    assert -TWO_64 < d < TWO_64;
    assert d % TWO_64 == 0;
  }

  /** Wrapping depends only on the residue modulo 2^64. */
  lemma {:induction false} WrapCongruent(a: int, b: int)
    requires Congruent(a, b)
    ensures Wrap(a) == Wrap(b)
  {
    WrapIsCongruent(a);
    WrapIsCongruent(b);
    CongruentSymmetric(a, Wrap(a));
    CongruentTransitive(Wrap(a), a, b);
    CongruentTransitive(Wrap(a), b, Wrap(b));
    CongruentLongsEqual(Wrap(a), Wrap(b));
  }

  lemma {:induction false} CongruentSymmetric(a: int, b: int)
    requires Congruent(a, b)
    ensures Congruent(b, a)
  {
    var p := (a - b) / TWO_64;
    assert a - b == TWO_64 * p;
    assert b - a == TWO_64 * -p;
  }

  lemma {:induction false} CongruentTransitive(a: int, b: int, c: int)
    requires Congruent(a, b) && Congruent(b, c)
    ensures Congruent(a, c)
  {
    var p := (a - b) / TWO_64;
    var q := (b - c) / TWO_64;
    assert a - b == TWO_64 * p;
    assert b - c == TWO_64 * q;
    assert a - c == TWO_64 * (p + q);
  }

  /** Congruence is preserved by addition. */
  lemma {:induction false} CongruentAdd(a: int, b: int, c: int, d: int)
    requires Congruent(a, b) && Congruent(c, d)
    ensures Congruent(a + c, b + d)
  {
    var p := (a - b) / TWO_64;
    var q := (c - d) / TWO_64;
    assert a - b == TWO_64 * p;
    assert c - d == TWO_64 * q;
    assert (a + c) - (b + d) == TWO_64 * (p + q);
  }

  /** Adding step by step with wrap-around gives the wrapped total. */
  lemma {:induction false} WrapAddLeft(x: int, y: int)
    ensures Wrap(Wrap(x) + y) == Wrap(x + y)
  {
    WrapIsCongruent(x);
    CongruentSymmetric(x, Wrap(x));
    CongruentAdd(Wrap(x), x, y, y);
    WrapCongruent(Wrap(x) + y, x + y);
  }
}

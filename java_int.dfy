/** Java's 32-bit `int`: its range and the two's-complement wrap-around of its arithmetic. */
module JavaInt {

  const TWO_31: int := 0x8000_0000
  const TWO_32: int := 0x1_0000_0000

  /** The values of a Java `int`. */
  type Int32 = x: int | -TWO_31 <= x < TWO_31

  /** The `int` that Java's arithmetic leaves when the exact result is `x`: `x` reduced modulo 2^32
      into the signed range. */
  function Wrap32(x: int): (r: Int32)
    ensures (r - x) % TWO_32 == 0
    ensures -TWO_31 <= x < TWO_31 ==> r == x
  {
    var r := (x + TWO_31) % TWO_32 - TWO_31;
    assert (x + TWO_31) == ((x + TWO_31) / TWO_32) * TWO_32 + (x + TWO_31) % TWO_32;
    r
  }

  /** Two exact results wrap to the same `int` exactly when they are congruent modulo 2^32. */
  lemma Wrap32Congruent(x: int, y: int)
    ensures Wrap32(x) == Wrap32(y) <==> (x - y) % TWO_32 == 0
  {
  }

  /** Every multiple of 2^32 is congruent to zero. */
  lemma MultipleModulo(k: int)
    ensures (k * TWO_32) % TWO_32 == 0
  {
  }

  /** Congruence modulo 2^32 is kept by multiplying both sides by the same factor. */
  lemma ScaleCongruent(a: int, b: int, c: int)
    requires (a - b) % TWO_32 == 0
    ensures (a * c - b * c) % TWO_32 == 0
  {
    var k := (a - b) / TWO_32;
    assert a - b == k * TWO_32;
    assert a * c - b * c == (a - b) * c;
    assert (a - b) * c == (k * c) * TWO_32;
    MultipleModulo(k * c);
  }
}

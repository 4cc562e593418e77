/** C# `int`: 32-bit two's complement, with unchecked (wrapping) arithmetic. */
module Int32 {

  const MinInt32: int := -0x8000_0000
  const MaxInt32: int := 0x7FFF_FFFF
  const Modulus: int := 0x1_0000_0000

  type Int32 = x: int | MinInt32 <= x <= MaxInt32

  /** The value an unchecked `int` operation stores when its exact result is `x`. */
  function Wrap(x: int): (r: Int32)
    ensures (r - x) % Modulus == 0
    ensures MinInt32 <= x <= MaxInt32 ==> r == x
  {
    (x - MinInt32) % Modulus + MinInt32
  }

  /** An exact result just below the range wraps up by 2^32. */
  lemma WrapBelow(x: int)
    requires MinInt32 - Modulus <= x < MinInt32
    ensures Wrap(x) == x + Modulus
  {
    assert x - MinInt32 == (x - MinInt32 + Modulus) - Modulus;
  }

  /** An exact result just above the range wraps down by 2^32. */
  lemma WrapAbove(x: int)
    requires MaxInt32 < x <= MaxInt32 + Modulus
    ensures Wrap(x) == x - Modulus
  {
    assert x - MinInt32 == (x - MinInt32 - Modulus) + Modulus;
  }

  /** Values that differ by a multiple of 2^32 wrap to the same `int`. */
  lemma WrapCongruent(x: int, y: int)
    requires (x - y) % Modulus == 0
    ensures Wrap(x) == Wrap(y)
  {
    var k := (x - y) / Modulus;
    assert x - MinInt32 == (y - MinInt32) + k * Modulus;
  }

  /** Adding and then subtracting the same amount restores any `int`, overflow or not. */
  lemma AddThenSubtractWraps(c: Int32, a: Int32)
    ensures Wrap(Wrap(c + a) - a) == c
  {
    var w := Wrap(c + a);
    assert ((w - a) - c) % Modulus == 0;
    WrapCongruent(w - a, c);
  }
}

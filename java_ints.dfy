/** Java `int` arithmetic on Dafny's unbounded integers. */
module JavaInts {
  const MinInt: int := -0x8000_0000
  const MaxInt: int := 0x7fff_ffff

  type Int32 = x: int | MinInt <= x <= MaxInt

  const Modulus: int := 0x1_0000_0000

  /** Two's-complement wrap-around of a Java `int` addition or multiplication: `x` moved into
      the `int` range by a whole multiple of 2^32. */
  function Wrap32(x: int): (r: Int32)
    ensures MinInt <= x <= MaxInt ==> r == x
  {
    (x - MinInt) % Modulus + MinInt
  }

  /** Adding the modulus does not change a remainder. */
  lemma ModShift(y: int)
    ensures (y + Modulus) % Modulus == y % Modulus
  {
    var q := y / Modulus;
    assert y + Modulus == (q + 1) * Modulus + y % Modulus;
  }

  /** Wrapping is compatible with further additions: only the final wrap matters. */
  lemma Wrap32Add(a: int, b: int)
    ensures Wrap32(Wrap32(a) + b) == Wrap32(a + b)
  {
    var k := (Wrap32(a) - a) / Modulus;
    assert Wrap32(a) + b == (a + b) + k * Modulus;
  }

  function Abs(a: int): nat {
    if a < 0 then -a else a
  }

  /** Java's `/` on `int`: the quotient is truncated toward zero, where Dafny's `/` rounds
      toward negative infinity (for a positive divisor). The result is not wrapped: only
      `MinInt / -1` leaves the `int` range. */
  function JavaDiv(a: int, b: int): int
    requires b != 0
  {
    if (a < 0) == (b < 0) then Abs(a) / Abs(b) else -(Abs(a) / Abs(b))
  }

  /** Truncating division agrees with Dafny's on a non-negative dividend and a positive
      divisor, and it is symmetric under negation of the dividend, which Dafny's is not. */
  lemma JavaDivProperties(a: int, b: int)
    requires b != 0
    ensures a >= 0 && b > 0 ==> JavaDiv(a, b) == a / b
    ensures JavaDiv(-a, b) == -JavaDiv(a, b)
  {
    var q := Abs(a) / Abs(b);
    assert Abs(-a) == Abs(a);
    if a == 0 {
      assert q == 0;
    }
  }
}

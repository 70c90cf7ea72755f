/**
 * The few pieces of C++ arithmetic the tutorials rely on: the 32-bit `int`,
 * `%` (which truncates toward zero, unlike Dafny's), and the conversion of an
 * `int` to the 64-bit unsigned `size_t` in a mixed comparison.
 */
module Cpp {

  newtype int32 = x: int | -0x8000_0000 <= x < 0x8000_0000

  /** 2^64: `size_t` is taken to be 64 bits wide. */
  const SizeTModulus: nat := 0x1_0000_0000_0000_0000

  /**
   * The value an `int` takes when it is converted to `size_t` because it is
   * compared with one (`container.size() > n`): negative values wrap around.
   */
  function ToSizeT(n: int32): (r: nat)
    ensures r < SizeTModulus
    ensures n >= 0 ==> r == n as int
    ensures n < 0 ==> r >= SizeTModulus - 0x8000_0000
    ensures r == (n as int) % SizeTModulus
  {
    if n < 0 then n as int + SizeTModulus else n as int
  }

  /** C++ `a / d` for a positive divisor: the quotient truncated toward zero. */
  function Quot(a: int, d: int): int
    requires d > 0
  {
    if a >= 0 then a / d else -((-a) / d)
  }

  /**
   * C++ `a % d` for a positive divisor: what `a / d` leaves over. It has the
   * sign of `a`, whereas Dafny's `%` is never negative.
   */
  function Rem(a: int, d: int): (r: int)
    requires d > 0
    ensures a == d * Quot(a, d) + r
    ensures -d < r < d
    ensures a >= 0 ==> r >= 0
    ensures a < 0 ==> r <= 0
  {
    if a >= 0 then a % d
    else
      var q := (-a) / d;
      assert -a == d * q + (-a) % d;
      assert d * Quot(a, d) == -(d * q);
      -((-a) % d)
  }

  /** `x % 3 == 0` in C++ holds exactly for the multiples of three. */
  lemma RemThree(x: int)
    ensures Rem(x, 3) == 0 <==> x % 3 == 0
  {
  }
}

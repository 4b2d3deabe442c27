/** Fixed-width machine words shared by the I2C layer and the ELF reader. */
module Words {
  type Byte = b: int | 0 <= b < 0x100
  type U16 = x: int | 0 <= x < 0x1_0000
  type U32 = x: int | 0 <= x < 0x1_0000_0000
  type U64 = x: int | 0 <= x < 0x1_0000_0000_0000_0000

  /** INT_MAX of the 32-bit `int` the I2C layer counts in. */
  const IntMax: int := 0x7fff_ffff

  /** A non-negative `x` reduced as a `uint64_t` result is: 2^64 taken away
      until it fits. */
  function Wrap64(x: nat): U64
  {
    if x < 0x1_0000_0000_0000_0000 then x else Wrap64(x - 0x1_0000_0000_0000_0000)
  }

  /** The reduction is the remainder modulo 2^64. */
  lemma {:induction false} Wrap64IsMod(x: nat)
    ensures Wrap64(x) == x % 0x1_0000_0000_0000_0000
  {
    var m := 0x1_0000_0000_0000_0000;
    if x >= m {
      Wrap64IsMod(x - m);
      DivModUnique(x, m, (x - m) / m + 1, (x - m) % m);
    }
  }

  /** Floor division is the Galois adjoint of multiplication: `c * d <= x` exactly
      when `c <= x / d`. Every clamp of the transaction layer rests on this. */
  lemma DivFloor(x: int, d: int, c: int)
    requires 0 < d
    ensures c * d <= x <==> c <= x / d
  {
    var q, r := x / d, x % d;
    assert x == q * d + r && 0 <= r < d;
    if c <= q {
      MulLeMono(c, q, d);
    } else {
      MulLeMono(q + 1, c, d);
    }
  }

  /** A non-negative quotient is zero exactly when the dividend is below the divisor. */
  lemma DivZero(x: int, d: int)
    requires 0 <= x && 0 < d
    ensures 0 <= x / d
    ensures x / d == 0 <==> x < d
  {
    DivFloor(x, d, 0);
    DivFloor(x, d, 1);
  }

  lemma MulLeMono(a: int, b: int, d: int)
    requires a <= b && 0 <= d
    ensures a * d <= b * d
  {
    assert (b - a) * d >= 0;
  }

  /** The quotient and remainder of Euclidean division are unique. */
  lemma DivModUnique(v: int, m: int, q: int, r: int)
    requires 0 < m && 0 <= r < m && v == q * m + r
    ensures v / m == q && v % m == r
  {
    DivFloor(v, m, q);
    DivFloor(v, m, q + 1);
    assert (q + 1) * m == q * m + m;
  }
}

/** Fixed-width unsigned integers of the firmware, as explicit truncations of `int`. */
module Words {

  const TWO16: nat := 0x1_0000
  const TWO32: nat := 0x1_0000_0000
  const TWO64: nat := 0x1_0000_0000_0000_0000

  /** Conversion to `uint8_t`. */
  function U8(x: int): nat { x % 0x100 }

  /** Conversion to `uint16_t`. */
  function U16(x: int): nat { x % TWO16 }

  /** Conversion to a 32-bit `unsigned long` or `unsigned int`. */
  function U32(x: int): nat { x % TWO32 }

  function Min(a: nat, b: nat): nat { if a < b then a else b }

  /** Truncation after every step gives the same 32-bit value as truncation at the end. */
  lemma U32Absorbs(x: int, y: int)
    ensures U32(U32(x) + y) == U32(x + y)
  {
    ShiftByMultiple(U32(x) + y, x / TWO32);
  }

  lemma ShiftByMultiple(x: int, q: int)
    ensures U32(x + TWO32 * q) == U32(x)
  {
    Quotient(x + TWO32 * q, x / TWO32 + q, TWO32, U32(x));
  }

  lemma MulGrows(m: nat, d: int)
    ensures d >= 1 ==> m * d >= m
    ensures d <= -1 ==> m * d + m <= 0
  {
  }

  lemma Quotient(x: int, q: int, m: nat, r: nat)
    requires r < m && x == q * m + r
    ensures x / m == q && x % m == r
  {
    var d := x / m - q;
    assert m * d == r - x % m;
    MulGrows(m, d);
  }

  function Pow2(k: nat): (p: nat)
    ensures p > 0
  {
    if k == 0 then 1 else 2 * Pow2(k - 1)
  }

  lemma DoubleFactor(x: nat, y: nat)
    ensures 2 * (x * y) == (2 * x) * y
  {
  }

  lemma {:induction false} PowAdd(a: nat, b: nat)
    ensures Pow2(a + b) == Pow2(a) * Pow2(b)
  {
    if a > 0 {
      PowAdd(a - 1, b);
      DoubleFactor(Pow2(a - 1), Pow2(b));
      assert a + b - 1 == a - 1 + b;
      assert Pow2(a) == 2 * Pow2(a - 1) && Pow2(a + b) == 2 * Pow2(a + b - 1);
    } else {
      assert Pow2(a) == 1;
    }
  }
}

/** Machine parameters of the multiple-precision integers: the width of a digit, of the C type that
    holds a digit and of the C type that holds a product of two digits.  All three are left arbitrary
    within the bounds the library asks for, so every result holds for each of its configurations. */
module Radix {

  /** b raised to the power e. */
  function Pow(b: nat, e: nat): nat {
    if e == 0 then 1 else b * Pow(b, e - 1)
  }

  lemma {:induction false} PowPositive(b: nat, e: nat)
    requires b > 0
    ensures Pow(b, e) > 0
  {
    if e > 0 {
      PowPositive(b, e - 1);
    }
  }

  lemma {:induction false} PowAdd(b: nat, e: nat, f: nat)
    ensures Pow(b, e + f) == Pow(b, e) * Pow(b, f)
  {
    if e > 0 {
      PowAdd(b, e - 1, f);
      assert Pow(b, e + f) == b * (Pow(b, e - 1) * Pow(b, f));
    }
  }

  lemma {:induction false} PowMul(b: nat, e: nat, f: nat)
    ensures Pow(Pow(b, e), f) == Pow(b, e * f)
  {
    if f > 0 {
      PowMul(b, e, f - 1);
      assert e + e * (f - 1) == e * f;
      PowAdd(b, e, e * (f - 1));
    }
  }

  lemma {:induction false} PowMonotone(b: nat, e: nat, f: nat)
    requires b > 0 && e <= f
    ensures Pow(b, e) <= Pow(b, f)
  {
    PowAdd(b, e, f - e);
    PowPositive(b, f - e);
    PowPositive(b, e);
    MulAtLeast(Pow(b, e), Pow(b, f - e));
  }

  lemma MulMonotone(x: int, y: int, p: int)
    requires x <= y && p >= 0
    ensures x * p <= y * p
  {}

  lemma MulDistribute(x: int, y: int, p: int)
    ensures (x + y) * p == x * p + y * p
    ensures (x - y) * p == x * p - y * p
  {}

  lemma MulSwap(x: int, y: int, z: int)
    ensures (x * y) * z == (x * z) * y
    ensures (x * y) * z == x * (y * z)
  {}

  lemma MulAtLeast(x: nat, y: nat)
    requires y > 0
    ensures x * y >= x
  {}

  lemma Pow2AtLeast(e: nat)
    requires e >= 7
    ensures Pow(2, e) >= 128
  {
    PowMonotone(2, 7, e);
    assert Pow(2, 3) == 8;
    PowAdd(2, 3, 3);
    PowAdd(2, 6, 1);
    assert Pow(2, 7) == 128;
  }

  // The library documents 7 bits as the smallest workable digit.
  type DigitBits = n: nat | 7 <= n witness 28
  const DIGIT_BIT: DigitBits

  // mp_digit holds at least DIGIT_BIT + 1 bits, mp_word at least 2 * DIGIT_BIT + 1.
  type DigitSize = n: nat | DIGIT_BIT < n witness DIGIT_BIT + 1
  const DIGIT_SIZE: DigitSize
  type WordSize = n: nat | 2 * DIGIT_BIT < n witness 2 * DIGIT_BIT + 1
  const WORD_SIZE: WordSize

  type RadixValue = b: nat | 128 <= b witness 128

  /** The radix. */
  const B: RadixValue := (Pow2AtLeast(DIGIT_BIT); Pow(2, DIGIT_BIT))

  /** A digit of a number: what is left of an mp_digit after masking. */
  type MpDigit = d: nat | d < B witness 0

  const DIGIT_MODULUS: nat := Pow(2, DIGIT_SIZE)
  const WORD_MODULUS: nat := Pow(2, WORD_SIZE)

  // Room for carries in a column accumulator, and the length of the comba work arrays.
  const COLUMNS: nat := Pow(2, WORD_SIZE - 2 * DIGIT_BIT)
  const MP_WARRAY: nat := 2 * COLUMNS

  /** Conversion to mp_digit: wraps around. */
  function Digit(x: int): (r: nat)
    ensures r < DIGIT_MODULUS
  {
    PowPositive(2, DIGIT_SIZE);
    x % DIGIT_MODULUS
  }

  /** Conversion to mp_word: wraps around. */
  function Word(x: int): (r: nat)
    ensures r < WORD_MODULUS
  {
    PowPositive(2, WORD_SIZE);
    x % WORD_MODULUS
  }

  /** x & MP_MASK */
  function Low(x: nat): MpDigit {
    x % B
  }

  /** x >> DIGIT_BIT */
  function High(x: nat): nat {
    x / B
  }

  lemma LowIs(x: nat)
    requires x < B
    ensures Low(x) == x
  {
    ModSmall(x, B);
  }

  lemma LowHigh(x: nat)
    ensures Low(x) + High(x) * B == x
  {}

  lemma HighBound(x: nat, k: nat)
    requires x < k * B
    ensures High(x) < k
  {
    LowHigh(x);
    if High(x) >= k {
      MulMonotone(k, High(x), B);
    }
  }

  lemma DigitModulus()
    ensures DIGIT_MODULUS >= 2 * B
    ensures DIGIT_MODULUS == Pow(2, DIGIT_SIZE - DIGIT_BIT) * B
    ensures DIGIT_MODULUS == 2 * Pow(2, DIGIT_SIZE - 1)
    ensures Pow(2, DIGIT_SIZE - 1) >= B
  {
    PowAdd(2, DIGIT_SIZE - DIGIT_BIT, DIGIT_BIT);
    PowMonotone(2, DIGIT_BIT, DIGIT_SIZE - 1);
  }

  lemma WordModulus()
    ensures WORD_MODULUS == COLUMNS * (B * B)
    ensures COLUMNS >= 2
    ensures WORD_MODULUS >= 2 * (B * B)
  {
    PowAdd(2, DIGIT_BIT, DIGIT_BIT);
    PowAdd(2, WORD_SIZE - 2 * DIGIT_BIT, 2 * DIGIT_BIT);
    PowMonotone(2, 1, WORD_SIZE - 2 * DIGIT_BIT);
    assert Pow(2, 1) == 2;
    hide Pow;
    MulMonotone(2, COLUMNS, B * B);
  }

  lemma DigitExact(x: int)
    requires 0 <= x < 2 * B
    ensures Digit(x) == x
  {
    DigitModulus();
    ModSmall(x, DIGIT_MODULUS);
  }

  lemma WordExact(x: int)
    requires 0 <= x < 2 * (B * B)
    ensures Word(x) == x
  {
    WordModulus();
    ModSmall(x, WORD_MODULUS);
  }

  lemma ModSmall(x: int, m: int)
    requires 0 <= x < m
    ensures x % m == x && x / m == 0
  {}

  /** Quotient and remainder, as functions whose definitions proofs can leave alone. */
  function Quot(x: nat, m: nat): nat
    requires m > 0
  {
    x / m
  }

  lemma QuotMod(x: nat, m: nat)
    requires m > 0
    ensures x == Quot(x, m) * m + Mod(x, m)
  {}

  function Mod(x: int, m: nat): (r: nat)
    requires m > 0
    ensures r < m
  {
    x % m
  }

  lemma ModIs(x: int, m: nat, q: int, r: int)
    requires m > 0 && x == q * m + r && 0 <= r < m
    ensures Mod(x, m) == r
    ensures x >= 0 && q >= 0 ==> Quot(x, m) == q
  {
    DivModUnique(x, m, q, r);
  }

  /** Quotient and remainder are determined by their defining property. */
  lemma DivModUnique(x: int, m: int, q: int, r: int)
    requires m > 0 && x == q * m + r && 0 <= r < m
    ensures x / m == q && x % m == r
  {
    var d := x / m - q;
    assert d * m == r - x % m by {
      assert x == (x / m) * m + x % m;
    }
    MulAtLeast(m, if d > 0 then d else if d < 0 then -d else 1);
  }

  lemma ModAddMultiple(x: int, k: int, m: int)
    requires m > 0
    ensures (x + k * m) % m == x % m
  {
    DivModUnique(x + k * m, m, x / m + k, x % m);
  }

  /** x and y leave the same remainder exactly when they differ by a multiple. */
  lemma ModEqual(x: int, y: int, k: int, m: int)
    requires m > 0 && x == y + k * m
    ensures x % m == y % m
  {
    ModAddMultiple(y, k, m);
  }
}

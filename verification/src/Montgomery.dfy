/** Montgomery reduction (HAC 14.32): the digit inverse, the normalisation factor and the two forms of
    the reduction. */
module MpMontgomery {
  import opened Radix
  import opened Digits
  import opened MpCore
  import opened MpAdd
  import opened MpShift
  import opened MpMultiply

  // ----- the inverse of the lowest digit

  /** b * x is one more than a multiple of m. */
  ghost predicate Inverse(b: int, x: int, m: nat) {
    m > 0 && Mod(b * x, m) == Mod(1, m)
  }

  /** (((b + 2) & 4) << 1) + b inverts an odd b modulo 16. */
  function FourBits(b: nat): nat {
    (b + 2) / 4 % 2 * 8 + b
  }

  lemma FourBitsInverse(b: nat)
    requires b % 2 == 1
    ensures Inverse(b, FourBits(b), 16)
  {
    var q, r := b / 16, b % 16;
    var c := (r + 2) / 4 % 2;
    FourBitsCorrection(b, q, r);
    FourBitsPoly(q, r, c);
    FourBitsSmall(r, c);
    hide FourBits;
    ModEqual(b * FourBits(b), r * (8 * c + r), q * (16 * q + 2 * r + 8 * c), 16);
  }

  lemma FourBitsCorrection(b: nat, q: nat, r: nat)
    requires b == 16 * q + r && r < 16
    ensures FourBits(b) == (r + 2) / 4 % 2 * 8 + b
  {
    var k := (r + 2) / 4;
    DivModUnique(b + 2, 4, 4 * q + k, (r + 2) % 4);
    DivModUnique(4 * q + k, 2, 2 * q + k / 2, k % 2);
  }

  lemma FourBitsSmall(r: nat, c: nat)
    requires r < 16 && r % 2 == 1 && c == (r + 2) / 4 % 2
    ensures r * (8 * c + r) % 16 == 1
  {
    assert r in {1, 3, 5, 7, 9, 11, 13, 15};
    if r in {1, 7, 9, 15} {
      assert c == 0;
      assert r * r in {1, 49, 81, 225};
    } else {
      assert c == 1;
      assert r * (8 + r) in {33, 65, 209, 273};
    }
  }

  lemma FourBitsPoly(q: int, r: int, c: int)
    ensures (16 * q + r) * (c * 8 + (16 * q + r)) == r * (8 * c + r) + q * (16 * q + 2 * r + 8 * c) * 16
  {}

  /** An inverse modulo m is lifted to one modulo m^2. */
  lemma NewtonLift(b: int, x: int, m: nat)
    requires Inverse(b, x, m)
    ensures m * m > 0 && Inverse(b, x * (2 - b * x), m * m)
  {
    MulMonotone(1, m, m);
    var t := Multiple(b * x, m);
    NewtonPoly(b, x, m, t);
    ModEqual(b * (x * (2 - b * x)), 1, 0 - t * t, m * m);
  }

  lemma Multiple(y: int, m: nat) returns (t: int)
    requires m > 0 && Mod(y, m) == Mod(1, m)
    ensures y == 1 + t * m
  {
    t := y / m - 1 / m;
    MulDistribute(y / m, 1 / m, m);
  }

  lemma NewtonPoly(b: int, x: int, m: int, t: int)
    requires b * x == 1 + t * m
    ensures b * (x * (2 - b * x)) == 1 + (0 - t * t) * (m * m)
  {
    var y := b * x;
    assert b * (x * (2 - y)) == y * (2 - y) by {
      MulSwap(b, x, 2 - y);
    }
    assert (1 + t * m) * (2 - (1 + t * m)) == 1 + (0 - t * t) * (m * m);
  }

  /** Reducing modulo a multiple of m, or to a divisor of m, keeps an inverse modulo m. */
  lemma InverseWrap(b: int, x: int, m: nat, w: nat, k: nat)
    requires Inverse(b, x, m) && w > 0 && w == k * m
    ensures Inverse(b, Mod(x, w), m)
  {
    var q := x / w;
    assert x == q * w + Mod(x, w);
    MulSwap(q, k, m);
    assert b * x == b * Mod(x, w) + (b * (q * k)) * m by {
      MulSwap(b, q * k, m);
      assert b * (q * w + Mod(x, w)) == b * (q * w) + b * Mod(x, w);
    }
    ModEqual(b * x, b * Mod(x, w), b * (q * k), m);
  }

  lemma InverseCoarsen(b: int, x: int, m: nat, d: nat, k: nat)
    requires Inverse(b, x, m) && d > 0 && m == k * d
    ensures Inverse(b, x, d)
  {
    var t := Multiple(b * x, m);
    MulSwap(t, k, d);
    ModEqual(b * x, 1, t * k, d);
  }

  function Narrow(k: nat): nat {
    if k < DIGIT_SIZE then k else DIGIT_SIZE
  }

  /** x *= 2 - b * x, in mp_digit arithmetic */
  function NewtonNext(b: nat, x: nat): nat {
    Digit(x * (2 - b * x))
  }

  lemma NewtonStep(b: nat, x: nat, k: nat)
    requires k < DIGIT_SIZE && Inverse(b, x, Pow(2, k))
    ensures Inverse(b, NewtonNext(b, x), Pow(2, Narrow(2 * k)))
  {
    hide Pow, Mod, Inverse, Digit;
    var s := Narrow(2 * k);
    PowAdd(2, k, k);
    assert k + k == 2 * k;
    PowPositive(2, s);
    PowPositive(2, DIGIT_SIZE);
    PowAdd(2, 2 * k - s, s);
    PowAdd(2, DIGIT_SIZE - s, s);
    DigitIsMod(x * (2 - b * x));
    LiftAndWrap(b, x, Pow(2, k), Pow(2, s), Pow(2, 2 * k - s), DIGIT_MODULUS, Pow(2, DIGIT_SIZE - s));
  }

  lemma LiftAndWrap(b: int, x: int, m: nat, d: nat, c: nat, w: nat, e: nat)
    requires Inverse(b, x, m) && d > 0 && w > 0 && m * m == c * d && w == e * d
    ensures Inverse(b, Mod(x * (2 - b * x), w), d)
  {
    hide Mod, Inverse;
    NewtonLift(b, x, m);
    InverseCoarsen(b, x * (2 - b * x), m * m, d, c);
    InverseWrap(b, x * (2 - b * x), d, w, e);
  }

  lemma DigitIsMod(y: int)
    ensures DIGIT_MODULUS > 0 && Digit(y) == Mod(y, DIGIT_MODULUS)
  {
    PowPositive(2, DIGIT_SIZE);
  }

  /** mp_montgomery_setup: rho with n0 * rho = -1 modulo the radix; an even modulus is refused. */
  method Setup(n: MpInt) returns (ok: bool, rho: MpDigit)
    requires n.Wf()
    ensures ok <==> n.dp[0] % 2 == 1
    ensures ok ==> Mod(n.dp[0] * rho + 1, B) == 0
  {
    var b: nat := n.dp[0];
    if b % 2 == 0 {
      return false, 0;
    }
    hide Pow, Mod, Inverse, Digit, FourBits, NewtonNext, Negated, Narrow;
    var x := Digit(FourBits(b));
    var k: nat := 4;
    SixteenStart(b);
    while k < DIGIT_BIT
      invariant k >= 4 && Inverse(b, x, Pow(2, Narrow(k)))
      decreases 2 * DIGIT_BIT - k
    {
      NarrowSmall(k);
      NewtonStep(b, x, k);
      x := NewtonNext(b, x);
      k := 2 * k;
    }
    EnoughBits(b, x, k);
    NegatedInverse(b, x);
    return true, Negated(x);
  }

  lemma NarrowSmall(k: nat)
    ensures k < DIGIT_BIT ==> Narrow(k) == k
    ensures Narrow(4) == 4
    ensures DIGIT_BIT <= k ==> DIGIT_BIT <= Narrow(k)
  {}

  lemma EnoughBits(b: nat, x: nat, k: nat)
    requires DIGIT_BIT <= k && Inverse(b, x, Pow(2, Narrow(k)))
    ensures Inverse(b, x, B)
  {
    NarrowSmall(k);
    hide Narrow, Mod, Inverse;
    PowAdd(2, Narrow(k) - DIGIT_BIT, DIGIT_BIT);
    InverseCoarsen(b, x, Pow(2, Narrow(k)), B, Pow(2, Narrow(k) - DIGIT_BIT));
  }

  /** ((1 << DIGIT_BIT) - x) & MP_MASK */
  function Negated(x: nat): MpDigit {
    Low(Word(B - x))
  }

  lemma SixteenStart(b: nat)
    requires b % 2 == 1
    ensures Inverse(b, Digit(FourBits(b)), Pow(2, Narrow(4)))
  {
    FourBitsInverse(b);
    assert Pow(2, 2) == 4;
    PowAdd(2, 2, 2);
    PowAdd(2, DIGIT_SIZE - 4, 4);
    PowPositive(2, DIGIT_SIZE);
    hide Pow, Mod, Inverse, FourBits;
    DigitIsMod(FourBits(b));
    InverseWrap(b, FourBits(b), 16, DIGIT_MODULUS, Pow(2, DIGIT_SIZE - 4));
  }

  lemma NegatedInverse(b: nat, x: nat)
    requires Inverse(b, x, B)
    ensures Mod(b * Negated(x) + 1, B) == 0
  {
    WordModulus();
    var y, m := Word(B - x), COLUMNS * B;
    MulSwap(COLUMNS, B, B);
    var q := (B - x) / WORD_MODULUS;
    assert B - x == q * WORD_MODULUS + y;
    hide Word, Mod;
    MulSwap(q, m, B);
    LowHigh(y);
    hide Low, High;
    var t := Multiple(b * x, B);
    NegateAlgebra(b, x, t, y, Low(y), High(y), q * m);
    var k := b * (1 - q * m - High(y)) - t;
    ModIs(b * Low(y) + 1, B, k, 0);
  }

  lemma NegateAlgebra(b: int, x: int, t: int, y: int, lo: int, hi: int, w: int)
    requires b * x == 1 + t * B && B - x == w * B + y && y == lo + hi * B
    ensures b * lo + 1 == (b * (1 - w - hi) - t) * B
  {
    var c := 1 - w - hi;
    assert lo == c * B - x;
    assert b * (c * B - x) == (b * c) * B - b * x;
  }

  // ----- the normalisation factor

  /** One doubling modulo m. */
  lemma DoubleMod(a: nat, e: nat, m: nat)
    requires m > 0 && a < m && a == Mod(Pow(2, e), m)
    ensures (if 2 * a >= m then 2 * a - m else 2 * a) == Mod(Pow(2, e + 1), m)
  {
    var p, q := Pow(2, e), Pow(2, e) / m;
    assert Pow(2, e + 1) == 2 * p;
    hide Pow;
    assert p == q * m + a;
    MulSwap(2, q, m);
    MulDistribute(2 * q, 1, m);
    if 2 * a >= m {
      ModIs(2 * p, m, 2 * q + 1, 2 * a - m);
    } else {
      ModIs(2 * p, m, 2 * q, 2 * a);
    }
  }

  ghost predicate IsPowerOfTwo(m: nat) {
    exists k: nat :: Pow(2, k) == m
  }

  lemma OddIsNoPower(m: nat)
    requires m > 1 && m % 2 == 1
    ensures !IsPowerOfTwo(m)
  {
    forall k: nat ensures Pow(2, k) != m {
      if k > 0 {
        assert Pow(2, k) == 2 * Pow(2, k - 1);
      }
    }
  }

  /** When the top digit is full the doubling starts just below its weight. */
  lemma FullTop(d: seq<MpDigit>, u: nat, e: nat)
    requires 1 < u <= |d| && d[u - 1] > 0 && e + 1 == DIGIT_BIT * (u - 1)
    ensures Pow(2, e) < V(d, u)
  {
    assert Pow(2, e + 1) == 2 * Pow(2, e);
    PowPositive(2, e);
    WeightIs(u - 1);
    hide P, Pow;
    VTop(d, u);
  }

  lemma SpareOf(bits: nat, u: nat, top: nat)
    requires u > 1 && 0 < top <= DIGIT_BIT && bits == (u - 1) * DIGIT_BIT + top
    ensures Spare(bits) == if top == DIGIT_BIT then 0 else top
    ensures (u - 1) * DIGIT_BIT >= 1 && (u - 1) * DIGIT_BIT + DIGIT_BIT == u * DIGIT_BIT
  {
    MulMonotone(1, u - 1, DIGIT_BIT);
    MulDistribute(u, 1, DIGIT_BIT);
    if top == DIGIT_BIT {
      DivModUnique(bits, DIGIT_BIT, u, 0);
    } else {
      DivModUnique(bits, DIGIT_BIT, u - 1, top);
    }
  }

  /** The exponent the doubling starts from, and the number of doublings to reach P(u). */
  lemma StartExponent(d: seq<MpDigit>, u: nat, bits: nat) returns (e: nat)
    requires 1 < u <= |d| && d[u - 1] > 0 && BitLength(d, u, bits)
    ensures e == (u - 1) * DIGIT_BIT + Spare(bits) - 1
    ensures e + (DIGIT_BIT - (Spare(bits) - 1)) == u * DIGIT_BIT
    ensures !IsPowerOfTwo(V(d, u)) ==> Pow(2, e) < V(d, u)
  {
    hide Spare, V, Pow, IsPowerOfTwo;
    var top := bits - (u - 1) * DIGIT_BIT;
    SpareOf(bits, u, top);
    e := (u - 1) * DIGIT_BIT + Spare(bits) - 1;
    if top == DIGIT_BIT {
      FullTop(d, u, e);
    } else {
      HighestBit(d, u, bits);
      PowerWitness(V(d, u), e);
    }
  }

  lemma PowerWitness(m: nat, e: nat)
    ensures Pow(2, e) == m ==> IsPowerOfTwo(m)
  {}

  /** The doubling starts from a power of two below b, a known number of bits short of P(b.used). */
  method NormalStart(a: MpInt, b: MpInt) returns (bits: int, ghost e: nat, ghost total: nat)
    requires a != b && a.Wf() && b.Valid()
    modifies a
    ensures a.Valid() && a.Zeroed() && !a.neg && 0 <= bits <= DIGIT_BIT && Pow(2, total) == P(b.used)
    ensures b.used > 0 && !IsPowerOfTwo(b.Mag()) ==>
              && b.Mag() > 0
              && a.Mag() == Mod(Pow(2, e), b.Mag())
              && e + (DIGIT_BIT - (bits - 1)) == total
  {
    hide P, V, Mod, Pow, Spare, IsPowerOfTwo, BitLength;
    total := DIGIT_BIT * b.used;
    WeightIs(b.used);
    MagZero(b);
    var count := CountBits(b);
    bits := Spare(count);
    if b.used > 1 {
      e := StartExponent(b.dp, b.used, count);
      PowPositive(2, e);
      TwoExpt(a, (b.used - 1) * DIGIT_BIT + bits - 1);
    } else {
      Set(a, 1);
      bits, e := 1, 0;
      OneStart(b);
      MulOne(b.used);
    }
    if b.used > 0 && !IsPowerOfTwo(b.Mag()) {
      ModIs(Pow(2, e), b.Mag(), 0, Pow(2, e));
    }
  }

  /** mp_montgomery_calc_normalization: a := P(b.used) mod b, for every b that is not a power of two. */
  method Normalization(a: MpInt, b: MpInt)
    requires a != b && a.Wf() && b.Valid()
    modifies a
    ensures a.Valid() && a.Zeroed() && !a.neg
    ensures b.used > 0 && !IsPowerOfTwo(b.Mag()) ==> b.Mag() > 0 && a.Val() == Mod(P(b.used), b.Mag())
  {
    hide P, V, Mod, Pow, IsPowerOfTwo;
    var bits, e, total := NormalStart(a, b);
    ghost var good := b.used > 0 && !IsPowerOfTwo(b.Mag());
    var x: int := bits - 1;
    while x < DIGIT_BIT
      invariant bits - 1 <= x <= DIGIT_BIT && e >= 0 && a.Valid() && a.Zeroed() && !a.neg
      invariant good ==> b.Mag() > 0 && a.Mag() == Mod(Pow(2, e), b.Mag())
      invariant good ==> e + (DIGIT_BIT - x) == total
      decreases DIGIT_BIT - x
    {
      if good {
        DoubleMod(a.Mag(), e, b.Mag());
      }
      Double(a, b);
      e := e + 1;
      x := x + 1;
    }
  }

  lemma MulOne(u: nat)
    ensures u == 1 ==> DIGIT_BIT == u * DIGIT_BIT
  {}

  lemma OneStart(b: MpInt)
    requires b.Valid() && b.used <= 1
    ensures Pow(2, 0) == 1
    ensures b.used > 0 && !IsPowerOfTwo(b.Mag()) ==> b.Mag() > 1
  {
    MagZero(b);
    assert Pow(2, 0) == 1;
  }

  /** a := 2a, less b when that leaves something. */
  method Double(a: MpInt, b: MpInt)
    requires a != b && a.Valid() && b.Valid() && !a.neg
    modifies a
    ensures a.Valid() && !a.neg && (old(a.Zeroed()) ==> a.Zeroed())
    ensures a.Mag() == if 2 * old(a.Mag()) >= b.Mag() then 2 * old(a.Mag()) - b.Mag() else 2 * old(a.Mag())
  {
    hide P, V;
    Mul2(a, a);
    MagZero(a);
    var r := CmpMag(a, b);
    UsedOrder(a, b);
    if r != LT {
      SSub(a, b, a);
    }
  }
}

/** Greatest common divisor by the binary method. */
module MpGcd {
  import opened Radix
  import opened Digits
  import opened MpCore
  import opened MpAdd
  import opened MpShift
  import opened MpMontgomery

  ghost predicate Divides(d: nat, a: int) {
    d > 0 && a % d == 0
  }

  ghost predicate Common(d: nat, a: int, b: int) {
    Divides(d, a) && Divides(d, b)
  }

  ghost predicate IsGcd(g: nat, a: int, b: int) {
    Common(g, a, b) && forall d: nat | Common(d, a, b) :: Divides(d, g)
  }

  /** So it is the greatest, and the only one. */
  lemma GreatestIs(g: nat, a: int, b: int, d: nat)
    requires IsGcd(g, a, b) && g > 0
    ensures Common(d, a, b) ==> d <= g
    ensures IsGcd(d, a, b) ==> d == g
  {
    if Common(d, a, b) {
      AtMost(d, g);
    }
    if IsGcd(d, a, b) {
      assert Common(g, a, b);
      AtMost(g, d);
    }
  }

  lemma AtMost(d: nat, g: nat)
    requires Divides(d, g) && g > 0
    ensures d <= g
  {
    var k := Factor(d, g);
    if k <= 0 {
      MulMonotone(k, 0, d);
    } else {
      MulMonotone(1, k, d);
    }
  }

  lemma Factor(d: nat, a: int) returns (k: int)
    requires Divides(d, a)
    ensures a == k * d
  {
    k := a / d;
  }

  lemma FromFactor(d: nat, a: int, k: int)
    requires d > 0 && a == k * d
    ensures Divides(d, a)
  {
    DivModUnique(a, d, k, 0);
  }

  lemma DividesCombination(d: nat, a: int, b: int, x: int, y: int)
    requires Common(d, a, b)
    ensures Divides(d, x * a + y * b)
  {
    hide Divides;
    assert d > 0 by { Positive(d, a); }
    var k := Factor(d, a);
    var l := Factor(d, b);
    MulSwap(x, k, d);
    MulSwap(y, l, d);
    MulDistribute(x * k, y * l, d);
    FromFactor(d, x * a + y * b, x * k + y * l);
  }

  lemma Positive(d: nat, a: int)
    requires Divides(d, a)
    ensures d > 0
  {}

  ghost predicate SameCommon(a: int, b: int, a': int, b': int) {
    forall d: nat :: Common(d, a, b) <==> Common(d, a', b')
  }

  /** Subtracting one number from the other keeps the common divisors. */
  lemma SubtractCommon(u: int, v: int)
    ensures SameCommon(u, v - u, u, v)
  {
    hide Divides;
    forall d: nat ensures Common(d, u, v - u) <==> Common(d, u, v) {
      if Common(d, u, v) {
        DividesCombination(d, u, v, -1, 1);
        assert -1 * u + 1 * v == v - u;
      }
      if Common(d, u, v - u) {
        DividesCombination(d, u, v - u, 1, 1);
        assert 1 * u + 1 * (v - u) == v;
      }
    }
  }

  /** A divisor of an odd number is odd, so halving an even partner keeps the common divisors. */
  lemma HalveCommon(u: int, v: int)
    requires u % 2 == 1
    ensures SameCommon(u, v, u, 2 * v)
  {
    forall d: nat ensures Common(d, u, v) <==> Common(d, u, 2 * v) {
      if Common(d, u, v) {
        DividesCombination(d, u, v, 0, 2);
      }
      if Common(d, u, 2 * v) {
        var k := Factor(d, u);
        OddFactor(d, k);
        var m := d / 2;
        var l := Factor(d, 2 * v);
        OddHalf(d, m, v, l);
        FromFactor(d, v, v - m * l);
      }
    }
  }

  lemma OddFactor(d: int, k: int)
    requires k * d % 2 == 1
    ensures d % 2 == 1
  {
    if d % 2 == 0 {
      EvenProduct(k, d / 2);
    }
  }

  lemma EvenProduct(k: int, h: int)
    ensures k * (2 * h) % 2 == 0
  {
    MulSwap(k, 2, h);
    MulSwap(2, k, h);
    assert k * (2 * h) == 2 * (k * h);
  }

  lemma OddHalf(d: int, m: int, v: int, l: int)
    requires d == 2 * m + 1 && 2 * v == l * d
    ensures v == (v - m * l) * d
  {
    MulDistribute(v, m * l, d);
    MulSwap(m, l, d);
    MulDistribute(2 * m, 1, v);
    MulSwap(m, 2, v);
  }

  lemma {:induction false} TwosCommon(u: int, v: int, k: nat)
    requires u % 2 == 1
    ensures SameCommon(u, v, u, v * Pow(2, k))
  {
    if k > 0 {
      TwosCommon(u, v, k - 1);
      HalveCommon(u, v * Pow(2, k - 1));
      assert v * Pow(2, k) == 2 * (v * Pow(2, k - 1));
    }
  }

  lemma SwapCommon(a: int, b: int)
    ensures SameCommon(a, b, b, a)
  {}

  lemma ChainCommon(a: int, b: int, c: int, d: int, e: int, f: int)
    requires SameCommon(a, b, c, d) && SameCommon(c, d, e, f)
    ensures SameCommon(a, b, e, f)
  {
    hide Common;
  }

  lemma SameGcd(g: nat, a: int, b: int, a': int, b': int)
    requires SameCommon(a, b, a', b') && IsGcd(g, a, b)
    ensures IsGcd(g, a', b')
  {
    hide Common;
  }

  lemma GcdWithZero(u: nat)
    requires u > 0
    ensures IsGcd(u, u, 0) && IsGcd(u, 0, u)
  {
    FromFactor(u, u, 1);
    FromFactor(u, 0, 0);
    forall d: nat | Divides(d, u) ensures d <= u {
      var k := Factor(d, u);
      if d > u {
        if k <= 0 {
          MulMonotone(k, 0, d);
        } else {
          MulMonotone(1, k, d);
        }
      }
    }
  }

  /** A common factor of two comes out. */
  lemma DoubleGcd(g: nat, a: int, b: int)
    requires IsGcd(g, a, b)
    ensures IsGcd(2 * g, 2 * a, 2 * b)
  {
    DoubleDivides(g, a);
    DoubleDivides(g, b);
    forall d: nat | Common(d, 2 * a, 2 * b) ensures Divides(d, 2 * g) {
      if d % 2 == 0 {
        HalfDivides(d / 2, a);
        HalfDivides(d / 2, b);
        assert Common(d / 2, a, b);
        DoubleDivides(d / 2, g);
      } else {
        OddDivides(d, a);
        OddDivides(d, b);
        assert Common(d, a, b);
        TwiceDivides(d, g);
      }
    }
  }

  lemma DoubleDivides(d: nat, a: int)
    requires Divides(d, a)
    ensures Divides(2 * d, 2 * a)
  {
    var k := Factor(d, a);
    MulSwap(k, 2, d);
    FromFactor(2 * d, 2 * a, k);
  }

  lemma TwiceDivides(d: nat, a: int)
    requires Divides(d, a)
    ensures Divides(d, 2 * a)
  {
    var k := Factor(d, a);
    MulSwap(2, k, d);
    FromFactor(d, 2 * a, 2 * k);
  }

  lemma HalfDivides(d: nat, a: int)
    requires Divides(2 * d, 2 * a)
    ensures Divides(d, a)
  {
    var k := Factor(2 * d, 2 * a);
    MulSwap(k, 2, d);
    FromFactor(d, a, k);
  }

  lemma OddDivides(d: nat, a: int)
    requires d % 2 == 1 && Divides(d, 2 * a)
    ensures Divides(d, a)
  {
    var l := Factor(d, 2 * a);
    OddHalf(d, d / 2, a, l);
    FromFactor(d, a, a - d / 2 * l);
  }

  lemma {:induction false} PowerGcd(g: nat, a: nat, b: nat, k: nat)
    requires IsGcd(g, a, b)
    ensures IsGcd(g * Pow(2, k), a * Pow(2, k), b * Pow(2, k))
  {
    if k > 0 {
      PowerGcd(g, a, b, k - 1);
      var p := Pow(2, k - 1);
      DoubleGcd(g * p, a * p, b * p);
      assert g * Pow(2, k) == 2 * (g * p) && a * Pow(2, k) == 2 * (a * p) && b * Pow(2, k) == 2 * (b * p);
    }
  }

  // ----- counting trailing zeros

  const LNZ: seq<nat> := [4, 0, 1, 0, 2, 0, 1, 0, 3, 0, 1, 0, 2, 0, 1, 0]

  /** The lowest one bit of four, as a number. */
  function LowestBit(r: nat): nat {
    if r == 8 then 8
    else if r == 4 || r == 12 then 4
    else if r == 2 || r == 6 || r == 10 || r == 14 then 2
    else 1
  }

  lemma LnzIs(r: nat)
    requires 0 < r < 16
    ensures Pow(2, LNZ[r]) == LowestBit(r)
  {
    SmallPowers();
    hide Pow;
  }

  /** The table gives the zeros below the lowest one of four bits. */
  lemma LowestOne(q: nat) returns (m: nat)
    requires q % 16 != 0
    ensures m % 2 == 1 && q == m * Pow(2, LNZ[q % 16])
  {
    var r := q % 16;
    LnzIs(r);
    var h := LowestPart(r);
    m := Widen(q, q / 16, r, h, LowestBit(r));
  }

  lemma Widen(q: int, k: nat, r: int, h: nat, j: int) returns (m: nat)
    requires q == 16 * k + r && r == (2 * h + 1) * j && (j == 1 || j == 2 || j == 4 || j == 8)
    ensures m % 2 == 1 && q == m * j
  {
    var n := EighthPart(k, j);
    m := 2 * n + (2 * h + 1);
    MulDistribute(2 * n, 2 * h + 1, j);
  }

  lemma EighthPart(k: nat, j: int) returns (n: nat)
    requires j == 1 || j == 2 || j == 4 || j == 8
    ensures (2 * n) * j == 16 * k
  {
    if j == 1 {
      n := 8 * k;
    } else if j == 2 {
      n := 4 * k;
    } else if j == 4 {
      n := 2 * k;
    } else {
      n := k;
    }
  }

  lemma LowestPart(r: nat) returns (h: nat)
    requires 0 < r < 16
    ensures r == (2 * h + 1) * LowestBit(r)
  {
    h := if r == 8 || r == 4 || r == 2 || r == 1 then 0
    else if r == 12 || r == 6 || r == 3 then 1
    else if r == 10 || r == 5 then 2
    else if r == 14 || r == 7 then 3
    else if r == 9 then 4
    else if r == 11 then 5
    else if r == 13 then 6
    else 7;
  }

  lemma SmallPowers()
    ensures Pow(2, 0) == 1 && Pow(2, 1) == 2 && Pow(2, 2) == 4 && Pow(2, 3) == 8
  {
    assert Pow(2, 0) == 1;
    assert Pow(2, 2) == 4;
  }

  /** The trailing zeros of a nonzero digit. */
  method DigitLsb(q0: nat) returns (x: nat, ghost m: nat)
    requires q0 > 0
    ensures m % 2 == 1 && q0 == m * Pow(2, x)
  {
    x, m := 0, q0;
    assert Pow(2, 0) == 1;
    if q0 % 2 == 0 {
      var q := q0;
      var qq: nat := 0;
      while qq == 0
        invariant if qq == 0 then q > 0 && q0 == q * Pow(2, x) else m % 2 == 1 && q0 == m * Pow(2, x)
        decreases if qq == 0 then q + 1 else 0
      {
        qq := q % 16;
        if qq != 0 {
          m := LowestOne(q);
          PowAdd(2, x, LNZ[qq]);
          Regroup(m, Pow(2, LNZ[qq]), Pow(2, x));
        } else {
          PowAdd(2, x, 4);
          assert Pow(2, 4) == 16;
          Regroup(q / 16, 16, Pow(2, x));
        }
        x := x + LNZ[qq];
        q := q / 16;
      }
    }
  }

  lemma Regroup(m: int, a: int, b: int)
    ensures (m * a) * b == m * (b * a)
  {
    MulSwap(m, a, b);
  }

  lemma OddAbove(q: nat, m: nat, t: nat, rest: nat)
    requires q < B && q == m * Pow(2, t) && m % 2 == 1
    ensures t < DIGIT_BIT
    ensures (m + Pow(2, DIGIT_BIT - t) * rest) % 2 == 1
    ensures (m + Pow(2, DIGIT_BIT - t) * rest) * Pow(2, t) == q + B * rest
  {
    hide Pow;
    if t >= DIGIT_BIT {
      PowMonotone(2, DIGIT_BIT, t);
      MulMonotone(1, m, Pow(2, t));
    }
    PowAdd(2, DIGIT_BIT - t, t);
    EvenPower(DIGIT_BIT - t);
    OddAlgebra(m, Pow(2, DIGIT_BIT - t - 1), rest, Pow(2, t));
  }

  lemma EvenPower(e: nat)
    requires e > 0
    ensures Pow(2, e) == 2 * Pow(2, e - 1)
  {}

  lemma OddAlgebra(m: int, h: int, rest: int, p: int)
    requires m % 2 == 1
    ensures (m + (2 * h) * rest) % 2 == 1
    ensures (m + (2 * h) * rest) * p == m * p + ((2 * h) * p) * rest
  {
    MulSwap(2, h, rest);
    MulDistribute(m, (2 * h) * rest, p);
    MulSwap(2 * h, rest, p);
  }

  /** mp_cnt_lsb: the trailing zeros of a */
  method CntLsb(a: MpInt) returns (r: nat, ghost m: nat)
    requires a.Valid()
    ensures a.used == 0 ==> r == 0 && m == 0
    ensures a.used > 0 ==> m % 2 == 1
    ensures a.Mag() == m * Pow(2, r)
  {
    r, m := 0, 0;
    MagZero(a);
    if a.used == 0 {
      return;
    }
    hide V, Pow, P, H;
    var x := 0;
    while x < a.used && a.dp[x] == 0
      invariant 0 <= x < a.used && forall k | 0 <= k < x :: a.dp[k] == 0
      decreases a.used - x
    {
      x := x + 1;
    }
    ghost var h;
    r, h := DigitLsb(a.dp[x]);
    m := LsbOf(a.dp, a.used, x, r, h);
    r := x * DIGIT_BIT + r;
  }

  lemma LsbOf(d: seq<MpDigit>, u: nat, x: nat, t: nat, h: nat) returns (m: nat)
    requires x < u <= |d| && (forall k | 0 <= k < x :: d[k] == 0) && h % 2 == 1 && d[x] == h * Pow(2, t)
    ensures m % 2 == 1 && V(d, u) == m * Pow(2, x * DIGIT_BIT + t)
  {
    hide V, P, H, Pow;
    VEmpty(d);
    VZeros(d, 0, x);
    VSplitH(d, x, u);
    HStep(d, x, u);
    OddAbove(d[x], h, t, H(d, x + 1, u));
    m := h + Pow(2, DIGIT_BIT - t) * H(d, x + 1, u);
    WeightIs(x);
    PowAdd(2, DIGIT_BIT * x, t);
    Regroup(m, Pow(2, t), P(x));
  }

  lemma VSplitH(d: seq<nat>, x: nat, u: nat)
    requires x <= u <= |d|
    ensures V(d, u) == V(d, x) + P(x) * H(d, x, u)
  {
    VSplit(d, x, u);
  }

  // ----- the gcd

  /** mp_abs */
  method Abs(a: MpInt, b: MpInt)
    requires a.Valid() && b.Wf()
    modifies b
    ensures b.Valid() && !b.neg && b.Mag() == old(a.Mag())
  {
    hide V;
    Copy(a, b);
    b.neg := false;
  }

  lemma QuotExact(m: nat, p: nat)
    requires p > 0
    ensures Quot(m * p, p) == m
  {
    ModIs(m * p, p, m, 0);
  }

  /** v := v less its trailing zeros */
  method Strip(v: MpInt, ghost u: int)
    requires v.Valid() && !v.neg && u % 2 == 1
    modifies v
    ensures v.Valid() && !v.neg && (v.Mag() == 0 <==> old(v.Mag()) == 0) && v.Mag() <= old(v.Mag())
    ensures v.Mag() > 0 ==> v.Mag() % 2 == 1
    ensures SameCommon(u, v.Mag(), u, old(v.Mag()))
  {
    hide V, Quot, Pow, SameCommon;
    MagZero(v);
    var k, m := CntLsb(v);
    PowPositive(2, k);
    QuotExact(m, Pow(2, k));
    MulMonotone(if m > 0 then 1 else 0, m, Pow(2, k));
    MulMonotone(1, Pow(2, k), m);
    TwosCommon(u, m, k);
    Div2d(v, k, v, null);
  }

  /** The main loop: u and v, both odd, become their gcd and zero. */
  method OddGcd(u: MpInt, v: MpInt)
    requires u != v && u.Valid() && !u.neg && v.Valid() && !v.neg && u.Mag() % 2 == 1 && v.Mag() % 2 == 1
    modifies u, v
    ensures u.Valid() && !u.neg && IsGcd(u.Mag(), old(u.Mag()), old(v.Mag()))
  {
    hide V, SameCommon, IsGcd;
    MagZero(v);
    Reflexive(u.Mag(), v.Mag());
    while v.used != 0
      invariant u.Valid() && !u.neg && v.Valid() && !v.neg && u.Mag() % 2 == 1
      invariant v.Mag() > 0 ==> v.Mag() % 2 == 1
      invariant SameCommon(u.Mag(), v.Mag(), old(u.Mag()), old(v.Mag()))
      decreases u.Mag() + v.Mag()
    {
      MagZero(v);
      OddStep(u, v, old(u.Mag()), old(v.Mag()));
    }
    MagZero(v);
    GcdWithZero(u.Mag());
    SameGcd(u.Mag(), u.Mag(), 0, old(u.Mag()), old(v.Mag()));
  }

  lemma Reflexive(a: int, b: int)
    ensures SameCommon(a, b, a, b)
  {}

  method OddStep(u: MpInt, v: MpInt, ghost a: nat, ghost b: nat)
    requires u != v && u.Valid() && !u.neg && v.Valid() && !v.neg && u.Mag() % 2 == 1 && v.Mag() % 2 == 1
    requires SameCommon(u.Mag(), v.Mag(), a, b)
    modifies u, v
    ensures u.Valid() && !u.neg && v.Valid() && !v.neg && u.Mag() % 2 == 1
    ensures v.Mag() > 0 ==> v.Mag() % 2 == 1
    ensures SameCommon(u.Mag(), v.Mag(), a, b) && u.Mag() + v.Mag() < old(u.Mag() + v.Mag())
  {
    hide V, SameCommon;
    SwapCommon(v.Mag(), u.Mag());
    var c := CmpMag(u, v);
    if c == GT {
      ChainCommon(v.Mag(), u.Mag(), u.Mag(), v.Mag(), a, b);
      Exch(u, v);
    }
    ghost var x, y := u.Mag(), v.Mag();
    SubtractCommon(x, y);
    ChainCommon(x, y - x, x, y, a, b);
    UsedOrder(u, v);
    SSub(v, u, v);
    Strip(v, x);
    ChainCommon(x, v.Mag(), x, y - x, a, b);
  }

  /** mp_gcd */
  method Gcd(a: MpInt, b: MpInt, c: MpInt)
    requires a.Valid() && b.Valid() && c.Wf()
    modifies c
    ensures c.Valid() && !c.neg
    ensures old(a.Mag()) == 0 && old(b.Mag()) == 0 ==> c.Mag() == 0
    ensures old(a.Mag()) > 0 || old(b.Mag()) > 0 ==> IsGcd(c.Mag(), old(a.Mag()), old(b.Mag()))
  {
    hide V, IsGcd, Pow, Quot, Divides;
    MagZero(a);
    MagZero(b);
    if a.used == 0 {
      if b.used > 0 {
        GcdWithZero(b.Mag());
      }
      Abs(b, c);
      return;
    }
    if b.used == 0 {
      GcdWithZero(a.Mag());
      Abs(a, c);
      return;
    }
    var u := InitCopy(a);
    var v := InitCopy(b);
    u.neg, v.neg := false, false;
    Combine(u, v, c);
  }

  method Combine(u: MpInt, v: MpInt, c: MpInt)
    requires u != v && u != c && v != c && u.Valid() && !u.neg && v.Valid() && !v.neg && c.Wf()
    requires u.used > 0 && v.used > 0
    modifies u, v, c
    ensures c.Valid() && !c.neg && IsGcd(c.Mag(), old(u.Mag()), old(v.Mag()))
  {
    hide V, IsGcd, Pow, Quot;
    var ul, mu := CntLsb(u);
    var vl, mv := CntLsb(v);
    var k := if ul < vl then ul else vl;
    DropTwos(u, k, ul, mu);
    DropTwos(v, k, vl, mv);
    OddGcd(u, v);
    TwosBack(u.Mag(), mu, mv, k, ul, vl);
    Mul2d(u, k, c);
    c.neg := false;
  }

  lemma TwosBack(g: nat, mu: nat, mv: nat, k: nat, ul: nat, vl: nat)
    requires mu % 2 == 1 && mv % 2 == 1 && IsGcd(g, mu, mv) && (k == ul <= vl || k == vl <= ul)
    ensures IsGcd(g * Pow(2, k), mu * Pow(2, ul), mv * Pow(2, vl))
  {
    hide IsGcd, SameCommon, Pow;
    TwosCommon(mu, mv, vl - k);
    TwosCommon(mv, mu, ul - k);
    assert Pow(2, 0) == 1 by { PowNone(); }
    var x, y := mu * Pow(2, ul - k), mv * Pow(2, vl - k);
    if k == ul {
      SameGcd(g, mu, mv, mu, y);
    } else {
      SwapCommon(mu, mv);
      SwapCommon(mv, x);
      ChainCommon(mu, mv, mv, mu, mv, x);
      ChainCommon(mu, mv, mv, x, x, mv);
      SameGcd(g, mu, mv, x, mv);
    }
    PowerGcd(g, x, y, k);
    PowAdd(2, ul - k, k);
    PowAdd(2, vl - k, k);
    MulSwap(mu, Pow(2, ul - k), Pow(2, k));
    MulSwap(mv, Pow(2, vl - k), Pow(2, k));
  }

  lemma PowNone()
    ensures Pow(2, 0) == 1
  {}

  /** Divide out the common twos and then the rest. */
  method DropTwos(u: MpInt, k: nat, lsb: nat, ghost m: nat)
    requires u.Valid() && !u.neg && k <= lsb && u.Mag() == m * Pow(2, lsb)
    modifies u
    ensures u.Valid() && !u.neg && u.Mag() == m
  {
    hide V, Quot, Pow;
    PowAdd(2, lsb - k, k);
    PowPositive(2, k);
    PowPositive(2, lsb - k);
    MulSwap(m, Pow(2, lsb - k), Pow(2, k));
    QuotExact(m * Pow(2, lsb - k), Pow(2, k));
    QuotExact(m, Pow(2, lsb - k));
    PowNone();
    if k > 0 {
      Div2d(u, k, u, null);
    }
    if lsb != k {
      Div2d(u, lsb - k, u, null);
    }
  }
}

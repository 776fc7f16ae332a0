/** mp_mul: the choice among the multiplication algorithms, and the two that call it again. */
module MpProduct {
  import opened Radix
  import opened Digits
  import opened MpCore
  import opened MpAdd
  import opened MpShift
  import opened MpMultiply
  import opened MpToom

  // Tunable at run time in the library; any value from 16 up is safe.
  type Cutoff = n: nat | 16 <= n witness 80
  const KARATSUBA_MUL_CUTOFF: Cutoff
  const TOOM_MUL_CUTOFF: Cutoff

  // ----- Karatsuba

  /** The digits of a from lo up to hi, as a number. */
  method Slice(a: MpInt, lo: nat, hi: nat) returns (x: MpInt)
    requires lo <= hi <= |a.dp|
    ensures fresh(x) && x.Wf() && !x.neg && x.used == hi - lo && x.Mag() == V(a.dp[lo..], hi - lo)
    ensures hi > lo ==> x.dp[x.used - 1] == a.dp[hi - 1]
  {
    x := new MpInt.Sized(hi - lo);
    x.used := hi - lo;
    var k := lo;
    while k < hi
      invariant lo <= k <= hi && x.used == hi - lo <= |x.dp| && MP_PREC <= |x.dp| && !x.neg
      invariant forall j | lo <= j < k :: x.dp[j - lo] == a.dp[j]
      modifies x
    {
      x.dp := x.dp[k - lo := a.dp[k]];
      k := k + 1;
    }
    forall j | 0 <= j < hi - lo
      ensures x.dp[j] == a.dp[lo..][j]
    {
      assert x.dp[lo + j - lo] == a.dp[lo + j];
    }
    VSame(x.dp, a.dp[lo..], hi - lo);
  }

  lemma KaratsubaIdentity(x0: int, x1: int, y0: int, y1: int, p: int)
    ensures (x1 + x0) * (y1 + y0) - (x0 * y0 + x1 * y1) == x1 * y0 + x0 * y1
    ensures x0 * y0 + (x1 * y0 + x0 * y1) * p + (x1 * y1) * (p * p) == (x0 + p * x1) * (y0 + p * y1)
  {}

  /** Join the three half-size products: x0y0 + t * B^n + x1y1 * B^2n. */
  method KaratsubaJoin(x0y0: MpInt, t: MpInt, x1y1: MpInt, n: nat, c: MpInt)
    requires x0y0.Valid() && t.Valid() && x1y1.Valid() && !x0y0.neg && !t.neg && !x1y1.neg
    requires x0y0 != t && x0y0 != x1y1 && t != x1y1 && c.used <= |c.dp| && MP_PREC <= |c.dp|
    modifies t, x1y1, c
    ensures c.Valid() && c.Val() == old(x0y0.Val()) + old(t.Val()) * P(n) + old(x1y1.Val()) * P(2 * n)
    ensures old(c.Zeroed()) ==> c.Zeroed()
  {
    hide V, P;
    Lshd(t, n);
    Lshd(x1y1, n * 2);
    Add(x0y0, t, t);
    MulMonotone(0, old(t.Mag()), P(n));
    SignOf(t);
    Add(t, x1y1, c);
  }

  /** (x1 + x0) * (y1 + y0) - (x0y0 + x1y1), left in t. */
  method KaratsubaMiddle(x0: MpInt, x0y0: MpInt, x1y1: MpInt, t: MpInt)
    requires x0.Wf() && x0y0.Valid() && x1y1.Valid() && t.Valid() && !x0y0.neg && !x1y1.neg && !t.neg
    requires x0 != t && x0 != x0y0 && x0 != x1y1 && t != x0y0 && t != x1y1
    requires x0y0.Val() + x1y1.Val() <= t.Val()
    modifies x0, t
    ensures t.Valid() && !t.neg && t.Val() == old(t.Val()) - x0y0.Val() - x1y1.Val()
  {
    hide V;
    Add(x0y0, x1y1, x0);
    SignOf(x0);
    UsedOrder(x0, t);
    SSub(t, x0, t);
  }

  /** The low n digits of |a| and the rest. */
  method KaratsubaSplit(a: MpInt, n: nat) returns (x0: MpInt, x1: MpInt)
    requires a.Valid() && 0 < n < a.used
    ensures fresh(x0) && fresh(x1) && x0 != x1 && x0.Valid() && x1.Valid() && !x0.neg && !x1.neg
    ensures x0.used <= n && x1.used == a.used - n && a.Mag() == x0.Mag() + P(n) * x1.Mag()
  {
    hide V, P;
    x0 := Slice(a, 0, n);
    x1 := Slice(a, n, a.used);
    Halves(a.dp, n, a.used);
    Clamp(x0);
  }

  /** x0 * y0, x1 * y1 and (x1 + x0) * (y1 + y0). */
  method KaratsubaProducts(x0: MpInt, x1: MpInt, y0: MpInt, y1: MpInt, ghost bound: nat)
    returns (x0y0: MpInt, x1y1: MpInt, t: MpInt)
    requires x0.Valid() && x1.Valid() && y0.Valid() && y1.Valid() && !x0.neg && !x1.neg && !y0.neg && !y1.neg
    requires x0 != x1 && x0 != y0 && x0 != y1
    requires x0.used <= x1.used && y0.used <= y1.used && x1.used + y1.used + 2 < bound
    modifies x0
    ensures fresh(x0y0) && fresh(x1y1) && fresh(t) && x0y0 != x1y1 && x0y0 != t && x1y1 != t && x0.Wf()
    ensures x0y0.Valid() && x1y1.Valid() && t.Valid()
    ensures x0y0.Val() == old(x0.Mag()) * old(y0.Mag()) && x1y1.Val() == old(x1.Mag()) * old(y1.Mag())
    ensures t.Val() == (old(x1.Mag()) + old(x0.Mag())) * (old(y1.Mag()) + old(y0.Mag()))
    decreases bound, 1
  {
    hide V;
    x0y0 := new MpInt();
    x1y1 := new MpInt();
    t := new MpInt();
    Mul(x0, y0, x0y0);
    Mul(x1, y1, x1y1);
    SumProduct(x0, x1, y0, y1, t, bound);
  }

  /** t := (x1 + x0) * (y1 + y0); x0 is reused for the second sum. */
  method SumProduct(x0: MpInt, x1: MpInt, y0: MpInt, y1: MpInt, t: MpInt, ghost bound: nat)
    requires x0.Valid() && x1.Valid() && y0.Valid() && y1.Valid() && !x0.neg && t.Valid() && !t.neg
    requires x0 != x1 && x0 != y0 && x0 != y1 && t != x0 && t != x1 && t != y0 && t != y1
    requires x0.used <= x1.used && y0.used <= y1.used && x1.used + y1.used + 2 < bound
    modifies x0, t
    ensures t.Valid() && x0.Wf()
    ensures t.Val() == (x1.Mag() + old(x0.Mag())) * (y1.Mag() + y0.Mag())
    decreases bound, 0
  {
    hide V;
    SAdd(x1, x0, t);
    SAdd(y1, y0, x0);
    Mul(t, x0, t);
  }

  /** |a| * |b| by three half-size products. */
  method KaratsubaMul(a: MpInt, b: MpInt, c: MpInt)
    requires a.Valid() && b.Valid() && c.used <= |c.dp| && MP_PREC <= |c.dp|
    requires KARATSUBA_MUL_CUTOFF <= a.used && KARATSUBA_MUL_CUTOFF <= b.used
    modifies c
    ensures c.Valid() && !c.neg && c.Mag() == old(a.Mag()) * old(b.Mag())
    ensures old(c.Zeroed()) ==> c.Zeroed()
    decreases a.used + b.used, 2
  {
    hide V, P;
    var n := Min(a.used, b.used) / 2;
    var x0, x1 := KaratsubaSplit(a, n);
    var y0, y1 := KaratsubaSplit(b, n);
    ghost var u0, u1, v0, v1 := x0.Mag(), x1.Mag(), y0.Mag(), y1.Mag();
    var x0y0, x1y1, t := KaratsubaProducts(x0, x1, y0, y1, a.used + b.used);
    KaratsubaSigns(u0, u1, v0, v1);
    SignOf(x0y0);
    SignOf(x1y1);
    SignOf(t);
    KaratsubaMiddle(x0, x0y0, x1y1, t);
    KaratsubaJoin(x0y0, t, x1y1, n, c);
    KaratsubaTotal(u0, u1, v0, v1, n);
    SignOf(c);
  }

  lemma KaratsubaSigns(x0: nat, x1: nat, y0: nat, y1: nat)
    ensures 0 <= x0 * y0 && 0 <= x1 * y1 && x0 * y0 + x1 * y1 <= (x1 + x0) * (y1 + y0)
  {
    KaratsubaIdentity(x0, x1, y0, y1, 0);
    MulMonotone(0, x1, y0);
    MulMonotone(0, x0, y1);
    MulMonotone(0, x0, y0);
    MulMonotone(0, x1, y1);
  }

  lemma KaratsubaTotal(x0: nat, x1: nat, y0: nat, y1: nat, n: nat)
    ensures x0 * y0 + ((x1 + x0) * (y1 + y0) - x0 * y0 - x1 * y1) * P(n) + (x1 * y1) * P(2 * n)
         == (x0 + P(n) * x1) * (y0 + P(n) * y1)
    ensures (x0 + P(n) * x1) * (y0 + P(n) * y1) >= 0
  {
    hide P;
    PAdd(n, n);
    assert n + n == 2 * n;
    KaratsubaIdentity(x0, x1, y0, y1, P(n));
    MulMonotone(0, x1, P(n));
    MulMonotone(0, y1, P(n));
    MulMonotone(0, x0 + P(n) * x1, y0 + P(n) * y1);
  }

  lemma Halves(d: seq<MpDigit>, n: nat, u: nat)
    requires n <= u <= |d|
    ensures V(d, u) == V(d[0..], n) + P(n) * V(d[n..], u - n)
  {
    hide P;
    VSplit(d, n, u);
    VSame(d[0..], d, n);
  }

  function Third(a: MpInt, b: MpInt): nat
    reads a, b
  {
    Min(a.used, b.used) / 3
  }

  /** Coefficients of the product of the two three-part polynomials. */
  ghost function Coeff(x: int, y: int, n: nat, i: nat): int
    requires i < 5
  {
    var a0, a1, a2 := Part(x, n, 0), Part(x, n, 1), Part(x, n, 2);
    var b0, b1, b2 := Part(y, n, 0), Part(y, n, 1), Part(y, n, 2);
    if i == 0 then a0 * b0
    else if i == 1 then a0 * b1 + a1 * b0
    else if i == 2 then a0 * b2 + a1 * b1 + a2 * b0
    else if i == 3 then a1 * b2 + a2 * b1
    else a2 * b2
  }

  /** The operands for which Toom-Cook loses track: computable from the operands alone. */
  ghost predicate Faulty(x: int, y: int, n: nat) {
    n > 0 && (Drops(Coeff(x, y, n, 0), Coeff(x, y, n, 1), n) || Drops(Coeff(x, y, n, 2), Coeff(x, y, n, 3), n))
  }

  // ----- which products are exact

  ghost function Size(x: int): nat {
    if x < 0 then 0 - x else x
  }

  /** The number of digits of a number, from its value. */
  ghost function Len(x: int): nat
    decreases Size(x)
  {
    if x == 0 then 0 else LessDigits(Size(x)); 1 + Len(Quot(Size(x), B))
  }

  lemma LessDigits(m: nat)
    requires m > 0
    ensures Quot(m, B) < m
  {
    QuotMod(m, B);
    if Quot(m, B) > 0 {
      MulMonotone(2, B, Quot(m, B));
    }
  }

  /** The number of digits is settled by the powers around the number. */
  lemma {:induction false} LenIs(x: int, n: nat)
    requires if n == 0 then x == 0 else P(n - 1) <= Size(x) < P(n)
    ensures Len(x) == n
    decreases n
  {
    hide Quot;
    if n > 0 {
      var m := Size(x);
      var q := Quot(m, B);
      PNext(n - 1);
      QuotMod(m, B);
      if n == 1 {
        assert q == 0 by {
          if q > 0 {
            MulMonotone(1, q, B);
          }
        }
      } else {
        PNext(n - 2);
        LenStep(m, q, P(n - 2), P(n - 1));
      }
      LenIs(q, n - 1);
    }
  }

  lemma LenStep(m: nat, q: nat, p: nat, p': nat)
    requires q == Quot(m, B) && p * B <= m < p' * B
    ensures p <= q < p'
  {
    QuotMod(m, B);
    if q < p {
      MulMonotone(q + 1, p, B);
    }
    if q >= p' {
      MulMonotone(p', q, B);
    }
  }

  lemma UsedIsLen(a: MpInt)
    requires a.Valid()
    ensures a.used == Len(a.Val())
  {
    SignOf(a);
    VBound(a.dp, a.used);
    if a.used > 0 {
      VTop(a.dp, a.used);
    }
    hide P, V;
    LenIs(a.Val(), a.used);
  }

  /** A number of more than 2n digits has an upper part. */
  lemma UpperPart(x: int, n: nat)
    requires Len(x) > 2 * n
    ensures Part(x, n, 2) != 0
  {
    if Size(x) < P(2 * n) {
      ShortLen(x, 2 * n);
    }
    hide P;
    assert n * 2 == 2 * n;
    QuotMod(Size(x), P(2 * n));
  }

  lemma {:induction false} ShortLen(x: int, n: nat)
    requires Size(x) < P(n)
    ensures Len(x) <= n
    decreases n
  {
    assert P(0) == 1;
    hide P, Quot;
    if x != 0 {
      var m := Size(x);
      if n > 0 {
        PNext(n - 1);
        LenStep(m, Quot(m, B), 0, P(n - 1));
        ShortLen(Quot(m, B), n - 1);
      }
    }
  }

  ghost function Shorter(x: int, y: int): nat {
    Min(Len(x), Len(y))
  }

  /** The values of the three-part polynomial at the five points are smaller than the number. */
  lemma PointsSmaller(x: int, n: nat)
    requires n > 0 && Part(x, n, 2) != 0
    ensures var a0, a1, a2 := Part(x, n, 0), Part(x, n, 1), Part(x, n, 2);
            && Size(a0) < Size(x) && Size(a2) < Size(x) && Size(a2 + a1 + a0) < Size(x)
            && Size(4 * a0 + 2 * a1 + a2) < Size(x) && Size(4 * a2 + 2 * a1 + a0) < Size(x)
  {
    PartsSum(x, n);
    PartSigns(x, n);
    PartBound(x, n);
    hide Part, P;
    PMonotone(1, n);
    PNext(0);
    PAdd(n, n);
    assert n + n == 2 * n;
    var a0, a1, a2 := Part(x, n, 0), Part(x, n, 1), Part(x, n, 2);
    PointSizes(Size(a0), Size(a1), Size(a2), P(n));
    SizeOfSum(x, a0, a1, a2, P(n), P(2 * n));
  }

  lemma PartBound(x: int, n: nat)
    ensures Size(Part(x, n, 0)) < P(n)
  {
    QuotMod(Size(x), P(n));
  }

  lemma SizeOfSum(x: int, a0: int, a1: int, a2: int, p: nat, q: nat)
    requires x == a0 + a1 * p + a2 * q
    requires if x < 0 then a0 <= 0 && a1 <= 0 && a2 <= 0 else a0 >= 0 && a1 >= 0 && a2 >= 0
    ensures Size(x) == Size(a0) + Size(a1) * p + Size(a2) * q
  {}

  lemma PointSizes(a0: nat, a1: nat, a2: nat, p: nat)
    requires p >= 128 && a0 < p && a2 > 0
    ensures var t := a0 + a1 * p + a2 * (p * p);
            a0 < t && a2 < t && a2 + a1 + a0 < t && 4 * a0 + 2 * a1 + a2 < t && 4 * a2 + 2 * a1 + a0 < t
  {
    MulMonotone(128, p, p);
    MulMonotone(128, p, a1);
    var r: nat := p * p;
    MulMonotone(1, a2, r - 4);
    MulMonotone(16384, r, a2);
  }

  /** Multiplication is exact: the operands are of one sign or short, or else they are not faulty and the five
      products that Toom-Cook makes of their parts are exact. */
  ghost predicate Exact(x: int, y: int)
    decreases Size(x) + Size(y), 1
  {
    || (x >= 0 && y >= 0) || (x <= 0 && y <= 0) || Shorter(x, y) < TOOM_MUL_CUTOFF
    || (var n := Shorter(x, y) / 3;
        UpperPart(x, n);
        UpperPart(y, n);
        !Faulty(x, y, n) && InnerExact(x, y, n))
  }

  /** The products at the five points are exact. */
  ghost predicate InnerExact(x: int, y: int, n: nat)
    requires n > 0 && Part(x, n, 2) != 0 && Part(y, n, 2) != 0
    decreases Size(x) + Size(y), 0
  {
    PointsSmaller(x, n);
    PointsSmaller(y, n);
    var a0, a1, a2 := Part(x, n, 0), Part(x, n, 1), Part(x, n, 2);
    var b0, b1, b2 := Part(y, n, 0), Part(y, n, 1), Part(y, n, 2);
    && Exact(a0, b0) && Exact(a2, b2) && Exact(a2 + a1 + a0, b2 + b1 + b0)
    && Exact(4 * a0 + 2 * a1 + a2, 4 * b0 + 2 * b1 + b2) && Exact(4 * a2 + 2 * a1 + a0, 4 * b2 + 2 * b1 + b0)
  }

  lemma PointsExact(x: int, y: int, n: nat)
    requires n > 0 && Part(x, n, 2) != 0 && Part(y, n, 2) != 0
    ensures InnerExact(x, y, n) ==>
              var a0, a1, a2 := Part(x, n, 0), Part(x, n, 1), Part(x, n, 2);
              var b0, b1, b2 := Part(y, n, 0), Part(y, n, 1), Part(y, n, 2);
              && Exact(a0, b0) && Exact(a2, b2) && Exact(a2 + a1 + a0, b2 + b1 + b0)
              && Exact(4 * a0 + 2 * a1 + a2, 4 * b0 + 2 * b1 + b2) && Exact(4 * a2 + 2 * a1 + a0, 4 * b2 + 2 * b1 + b0)
  {
    hide Exact, Part;
  }

  /** Operands of one sign have points of one sign. */
  lemma SameSignInner(x: int, y: int, n: nat)
    requires n > 0 && Part(x, n, 2) != 0 && Part(y, n, 2) != 0 && (x < 0) == (y < 0)
    ensures InnerExact(x, y, n)
  {
    PartSigns(x, n);
    PartSigns(y, n);
    hide Part;
  }

  /** Operands of opposite sign that Toom-Cook takes apart into n digits each. */
  ghost predicate Apart(x: int, y: int, n: nat) {
    && n > 0 && n == Shorter(x, y) / 3 && TOOM_MUL_CUTOFF <= Shorter(x, y) && (x < 0) != (y < 0)
    && Part(x, n, 2) != 0 && Part(y, n, 2) != 0
  }

  lemma ExactApart(x: int, y: int, n: nat)
    requires Apart(x, y, n)
    ensures Exact(x, y) <==> !Faulty(x, y, n) && InnerExact(x, y, n)
  {
    hide Part, Faulty, InnerExact;
    assert x != 0 && y != 0;
  }

  ghost predicate Sound(a: MpInt, b: MpInt)
    requires a.used <= |a.dp| && b.used <= |b.dp|
    reads a, b
  {
    Exact(a.Val(), b.Val())
  }

  /** mp_mul: c := a * b, whenever that is exact; and if Toom-Cook makes exact products of the parts, exactly
      if the operands are not faulty. */
  method Mul(a: MpInt, b: MpInt, c: MpInt)
    requires a.Valid() && b.Valid() && c.used <= |c.dp| && MP_PREC <= |c.dp|
    modifies c
    ensures c.Valid()
    ensures old(Sound(a, b)) ==> c.Val() == old(a.Val()) * old(b.Val())
    ensures var x, y, n := old(a.Val()), old(b.Val()), old(Third(a, b));
            Apart(x, y, n) && InnerExact(x, y, n) ==> (c.Val() == x * y <==> !Faulty(x, y, n))
    ensures CLEAN_CELL && old(c.Zeroed()) ==> c.Zeroed()
    decreases a.used + b.used, 7
  {
    hide V, P, Faulty, Third, Exact, InnerExact, Apart;
    var neg := a.neg != b.neg;
    ProductMag(a, b);
    MulMag(a, b, c);
    MagZero(c);
    c.neg := c.used > 0 && neg;
  }

  /** The magnitude, by the algorithm for operands of this length. */
  method MulMag(a: MpInt, b: MpInt, c: MpInt)
    requires a.Valid() && b.Valid() && c.used <= |c.dp| && MP_PREC <= |c.dp|
    modifies c
    ensures c.Valid()
    ensures old(Sound(a, b)) ==> c.Mag() == old(a.Mag()) * old(b.Mag())
    ensures var x, y, n := old(a.Val()), old(b.Val()), old(Third(a, b));
            Apart(x, y, n) && InnerExact(x, y, n) ==>
              (c.Mag() == old(a.Mag()) * old(b.Mag()) <==> !Faulty(x, y, n))
    ensures CLEAN_CELL && old(c.Zeroed()) ==> c.Zeroed()
    decreases a.used + b.used, 6
  {
    hide V, P, Faulty, Exact, InnerExact, Part;
    Operands(a, b);
    if Min(a.used, b.used) >= TOOM_MUL_CUTOFF {
      ghost var x, y, n := a.Val(), b.Val(), Third(a, b);
      ToomMul(a, b, c);
      if (x < 0) != (y < 0) {
        ExactApart(x, y, n);
      }
    } else if Min(a.used, b.used) >= KARATSUBA_MUL_CUTOFF {
      KaratsubaMul(a, b, c);
    } else {
      BasicMul(a, b, c);
    }
  }

  /** Values, signs and sizes of the operands. */
  lemma Operands(a: MpInt, b: MpInt)
    requires a.Valid() && b.Valid()
    ensures a.Val() * b.Val() == if a.neg != b.neg then 0 - a.Mag() * b.Mag() else a.Mag() * b.Mag()
    ensures a.used == Len(a.Val()) && b.used == Len(b.Val())
    ensures (a.neg <==> a.Val() < 0) && (b.neg <==> b.Val() < 0)
    ensures a.Mag() == 0 <==> a.used == 0
    ensures b.Mag() == 0 <==> b.used == 0
  {
    UsedIsLen(a);
    UsedIsLen(b);
    ProductMag(a, b);
    MagZero(a);
    MagZero(b);
  }

  lemma SignRule(m: bool, n: bool, x: nat, y: nat)
    ensures Signed(m, x) * Signed(n, y) == if m != n then 0 - x * y else x * y
  {}

  method BasicMul(a: MpInt, b: MpInt, c: MpInt)
    requires a.Valid() && b.Valid() && c.used <= |c.dp| && MP_PREC <= |c.dp|
    modifies c
    ensures c.Valid() && c.Mag() == old(a.Mag()) * old(b.Mag())
    ensures CLEAN_CELL && old(c.Zeroed()) ==> c.Zeroed()
  {
    hide V, P, Mod;
    var digs := a.used + b.used + 1;
    ProductBound(a.dp, a.used, b.dp, b.used, digs);
    if digs < MP_WARRAY && Min(a.used, b.used) <= COLUMNS {
      MulDigsFast(a, b, c, digs);
    } else {
      MulDigs(a, b, c, digs);
    }
  }

  // ----- Toom-Cook

  /** Three parts of at most m digits each. */
  ghost predicate Parts(x: MpInt, y: MpInt, z: MpInt, m: nat)
    reads x, y, z
  {
    x.Valid() && y.Valid() && z.Valid() && x.used <= m && y.used <= m && z.used <= m
  }

  /** The product of two values of the polynomials, w := t1 * t2. */
  method PointProduct(t1: MpInt, t2: MpInt, w: MpInt, ghost bound: nat)
    requires t1.Valid() && t2.Valid() && w.Valid() && t1.used + t2.used < bound
    modifies w
    ensures w.Valid() && (old(Exact(t1.Val(), t2.Val())) ==> w.Val() == old(Times(t1.Val(), t2.Val())))
    decreases bound, 0
  {
    hide V, Exact, InnerExact, Faulty;
    Mul(t1, t2, w);
  }

  /** The product, as a function whose definition proofs can leave alone. */
  ghost function Times(x: int, y: int): int {
    x * y
  }

  /** w := (4 * x + 2 * y + z) * (4 * x' + 2 * y' + z') */
  method PointEval(x: MpInt, y: MpInt, z: MpInt, x': MpInt, y': MpInt, z': MpInt, w: MpInt,
                   ghost m: nat, ghost m': nat, ghost bound: nat)
    requires Parts(x, y, z, m) && Parts(x', y', z', m') && w.Valid() && m + m' + 8 < bound
    modifies w
    ensures w.Valid()
    ensures var u, v := old(4 * x.Val() + 2 * y.Val() + z.Val()), old(4 * x'.Val() + 2 * y'.Val() + z'.Val());
            Exact(u, v) ==> w.Val() == Times(u, v)
    decreases bound, 1
  {
    hide V, Exact, Times;
    var t1 := new MpInt();
    var t2 := new MpInt();
    Eval(x, y, z, t1);
    Eval(x', y', z', t2);
    PointProduct(t1, t2, w, bound);
  }

  /** w := (x + y + z) * (x' + y' + z') */
  method PointSum(x: MpInt, y: MpInt, z: MpInt, x': MpInt, y': MpInt, z': MpInt, w: MpInt,
                  ghost m: nat, ghost m': nat, ghost bound: nat)
    requires Parts(x, y, z, m) && Parts(x', y', z', m') && w.Valid() && m + m' + 8 < bound
    modifies w
    ensures w.Valid()
    ensures var u, v := old(x.Val() + y.Val() + z.Val()), old(x'.Val() + y'.Val() + z'.Val());
            Exact(u, v) ==> w.Val() == Times(u, v)
    decreases bound, 1
  {
    hide V, Exact, Times;
    var t1 := new MpInt();
    var t2 := new MpInt();
    Sum3(x, y, z, t1);
    Sum3(x', y', z', t2);
    PointProduct(t1, t2, w, bound);
  }

  /** The products at one half and two. */
  method InnerProducts(a0: MpInt, a1: MpInt, a2: MpInt, b0: MpInt, b1: MpInt, b2: MpInt,
                       ghost m: nat, ghost m': nat, ghost bound: nat)
    returns (w1: MpInt, w3: MpInt)
    requires Parts(a0, a1, a2, m) && Parts(b0, b1, b2, m') && m + m' + 8 < bound
    ensures fresh(w1) && fresh(w3) && w1 != w3 && w1.Valid() && w3.Valid()
    ensures var u, v := 4 * a0.Val() + 2 * a1.Val() + a2.Val(), 4 * b0.Val() + 2 * b1.Val() + b2.Val();
            Exact(u, v) ==> w1.Val() == Times(u, v)
    ensures var u, v := 4 * a2.Val() + 2 * a1.Val() + a0.Val(), 4 * b2.Val() + 2 * b1.Val() + b0.Val();
            Exact(u, v) ==> w3.Val() == Times(u, v)
    decreases bound, 2
  {
    hide V, Times, Exact;
    assert Parts(a2, a1, a0, m) && Parts(b2, b1, b0, m');
    hide Parts;
    w1 := new MpInt();
    PointEval(a0, a1, a2, b0, b1, b2, w1, m, m', bound);
    w3 := new MpInt();
    PointEval(a2, a1, a0, b2, b1, b0, w3, m, m', bound);
  }

  /** The products at zero and infinity. */
  method OuterProducts(a0: MpInt, a1: MpInt, a2: MpInt, b0: MpInt, b1: MpInt, b2: MpInt,
                       ghost m: nat, ghost m': nat, ghost bound: nat)
    returns (w0: MpInt, w4: MpInt)
    requires Parts(a0, a1, a2, m) && Parts(b0, b1, b2, m') && m + m' + 8 < bound
    ensures fresh(w0) && fresh(w4) && w0 != w4 && w0.Valid() && w4.Valid()
    ensures Exact(a0.Val(), b0.Val()) ==> w0.Val() == Times(a0.Val(), b0.Val())
    ensures Exact(a2.Val(), b2.Val()) ==> w4.Val() == Times(a2.Val(), b2.Val())
    decreases bound, 2
  {
    hide V, Exact, Times;
    w0 := new MpInt();
    PointProduct(a0, b0, w0, bound);
    w4 := new MpInt();
    PointProduct(a2, b2, w4, bound);
  }

  /** mp_toom_mul: when the products of the parts are exact, the exact product, except for what Assemble drops. */
  method ToomMul(a: MpInt, b: MpInt, c: MpInt)
    requires a.Valid() && b.Valid() && c.used <= |c.dp| && MP_PREC <= |c.dp|
    requires TOOM_MUL_CUTOFF <= a.used && TOOM_MUL_CUTOFF <= b.used
    modifies c
    ensures c.Valid()
    ensures old(a.neg == b.neg) ==> c.Mag() == old(a.Mag()) * old(b.Mag())
    ensures var x, y, n := old(a.Val()), old(b.Val()), old(Third(a, b));
            && Part(x, n, 2) != 0 && Part(y, n, 2) != 0
            && (old(a.neg != b.neg) && InnerExact(x, y, n) ==>
                  (c.Mag() == old(a.Mag()) * old(b.Mag()) <==> !Faulty(x, y, n)))
    ensures old(c.Zeroed()) ==> c.Zeroed()
    decreases a.used + b.used, 5
  {
    hide V, P, Part, CoeffTotal, Excess, Faulty, InnerExact, ProductsOf;
    var n := Min(a.used, b.used) / 3;
    var a0, a1, a2 := Split(a, n);
    var b0, b1, b2 := Split(b, n);
    MagZero(a2);
    MagZero(b2);
    ghost var x, y := a.Val(), b.Val();
    ToomResult(x, y, n);
    CoeffSum(x, y, n);
    ProductMag(a, b);
    if a.neg == b.neg {
      SameSignInner(x, y, n);
    }
    ToomWork(a0, a1, a2, b0, b1, b2, n, c, x, y, a.used - 2 * n, b.used - 2 * n, a.used + b.used);
    SignOf(c);
  }

  lemma ProductMag(a: MpInt, b: MpInt)
    requires a.Valid() && b.Valid()
    ensures a.Val() * b.Val() == if a.neg != b.neg then 0 - a.Mag() * b.Mag() else a.Mag() * b.Mag()
    ensures (a.neg <==> a.Val() < 0) && (b.neg <==> b.Val() < 0)
  {
    SignOf(a);
    SignOf(b);
    SignRule(a.neg, b.neg, a.Mag(), b.Mag());
  }

  /** The products at the five points. */
  method FiveProducts(a0: MpInt, a1: MpInt, a2: MpInt, b0: MpInt, b1: MpInt, b2: MpInt, ghost n: nat,
                      ghost x: int, ghost y: int, ghost m: nat, ghost m': nat, ghost bound: nat)
    returns (w0: MpInt, w1: MpInt, w2: MpInt, w3: MpInt, w4: MpInt)
    requires Parts(a0, a1, a2, m) && Parts(b0, b1, b2, m') && m + m' + 8 < bound && n > 0
    requires a0.Val() == Part(x, n, 0) && a1.Val() == Part(x, n, 1) && a2.Val() == Part(x, n, 2) && a2.Val() != 0
    requires b0.Val() == Part(y, n, 0) && b1.Val() == Part(y, n, 1) && b2.Val() == Part(y, n, 2) && b2.Val() != 0
    ensures fresh(w0) && fresh(w1) && fresh(w2) && fresh(w3) && fresh(w4)
    ensures w0 != w1 && w0 != w2 && w0 != w3 && w0 != w4 && w1 != w2 && w1 != w3 && w1 != w4
    ensures w2 != w3 && w2 != w4 && w3 != w4
    ensures w0.Valid() && w1.Valid() && w2.Valid() && w3.Valid() && w4.Valid()
    ensures InnerExact(x, y, n) ==> ProductsOf(w0.Val(), w1.Val(), w2.Val(), w3.Val(), w4.Val(), x, y, n)
    decreases bound, 3
  {
    hide V, P, Part, ProductsOf, Times, Exact, InnerExact;
    assert Parts(a2, a1, a0, m) && Parts(b2, b1, b0, m');
    hide Parts;
    PointsExact(x, y, n);
    w0, w4 := OuterProducts(a0, a1, a2, b0, b1, b2, m, m', bound);
    w1, w3 := InnerProducts(a0, a1, a2, b0, b1, b2, m, m', bound);
    w2 := new MpInt();
    PointSum(a2, a1, a0, b2, b1, b0, w2, m, m', bound);
    PointsEvaluate(x, y, n);
  }

  /** The products of the parts and what is made of them. */
  method ToomWork(a0: MpInt, a1: MpInt, a2: MpInt, b0: MpInt, b1: MpInt, b2: MpInt, n: nat, c: MpInt,
                  ghost x: int, ghost y: int, ghost m: nat, ghost m': nat, ghost bound: nat)
    requires Parts(a0, a1, a2, m) && Parts(b0, b1, b2, m') && m + m' + 8 < bound && n > 0
    requires a0.Val() == Part(x, n, 0) && a1.Val() == Part(x, n, 1) && a2.Val() == Part(x, n, 2) && a2.Val() != 0
    requires b0.Val() == Part(y, n, 0) && b1.Val() == Part(y, n, 1) && b2.Val() == Part(y, n, 2) && b2.Val() != 0
    requires c.used <= |c.dp| && MP_PREC <= |c.dp|
    modifies c
    ensures c.Valid()
    ensures InnerExact(x, y, n) ==> c.Val() == CoeffTotal(x, y, n) + Excess(x, y, n)
    ensures old(c.Zeroed()) ==> c.Zeroed()
    decreases bound, 4
  {
    hide V, P, Part, ProductsOf, CoeffTotal, Excess, InnerExact, Parts;
    var w0, w1, w2, w3, w4 := FiveProducts(a0, a1, a2, b0, b1, b2, n, x, y, m, m', bound);
    ToomFinish(w0, w1, w2, w3, w4, n, c, x, y);
  }

  /** An operand pair of 3n digits each on which Toom-Cook goes wrong: opposite signs, nothing in the middle
      third and little in the lowest. */
  lemma FaultyPair(n: nat)
    requires n >= 2
    ensures Faulty(0 - (1 + P(3 * n - 1)), 1 + P(3 * n - 1), n)
  {
    var m := 1 + P(3 * n - 1);
    PairParts(n);
    PMonotone(1, n - 1);
    PNext(0);
    hide P;
    assert Part(0 - m, n, 0) == -1 && Part(0 - m, n, 1) == 0;
  }

  lemma PairParts(n: nat)
    requires n >= 2
    ensures var m := 1 + P(3 * n - 1); Part(m, n, 0) == 1 && Part(m, n, 1) == 0 && Part(m, n, 2) == P(n - 1)
  {
    hide P;
    PAdd(n, 2 * n - 1);
    PAdd(n, n - 1);
    PAdd(n, n);
    PAdd(2 * n, n - 1);
    assert n * 2 == n + n;
    var m, p, h := 1 + P(3 * n - 1), P(n), P(n - 1);
    PNext(n - 1);
    PMonotone(1, n - 1);
    PNext(0);
    MulMonotone(128, B, h);
    ModIs(m, p, P(2 * n - 1), 1);
    ModIs(P(2 * n - 1), p, h, 0);
    MulSwap(p, p, h);
    PMonotone(1, 2 * n);
    ModIs(m, P(2 * n), h, 1);
  }

  lemma PairNegated(n: nat)
    requires n >= 2
    ensures var m := 1 + P(3 * n - 1);
            Part(0 - m, n, 0) == -1 && Part(0 - m, n, 1) == 0 && Part(0 - m, n, 2) == 0 - P(n - 1)
  {
    PairParts(n);
    hide P;
  }

  lemma PairLength(n: nat)
    requires n >= 2
    ensures var m := 1 + P(3 * n - 1); Len(m) == 3 * n && Len(0 - m) == 3 * n
  {
    var m := 1 + P(3 * n - 1);
    PNext(3 * n - 1);
    hide P;
    MulMonotone(128, B, P(3 * n - 1));
    LenIs(m, 3 * n);
    LenIs(0 - m, 3 * n);
  }

  /** Products of short operands are exact. */
  lemma ShortExact(x: int, y: int, n: nat)
    requires n < TOOM_MUL_CUTOFF && Size(x) < P(n)
    ensures Exact(x, y)
  {
    ShortLen(x, n);
    hide P, Part, Faulty, InnerExact;
  }

  /** For every n from a third of the cutoff up to it, mp_mul gets this product of 3n-digit operands wrong:
      all five inner products are exact, but what is made of them is not. */
  lemma ToomCounterexample(n: nat)
    requires TOOM_MUL_CUTOFF <= 3 * n && n < TOOM_MUL_CUTOFF
    ensures var m := 1 + P(3 * n - 1);
            Apart(0 - m, m, n) && InnerExact(0 - m, m, n) && Faulty(0 - m, m, n) && !Exact(0 - m, m)
  {
    hide P, Part, Faulty, Len, InnerExact, Exact, Apart;
    FaultyPair(n);
    PairApart(n);
    PairInner(n);
    ExactApart(0 - (1 + P(3 * n - 1)), 1 + P(3 * n - 1), n);
  }

  lemma PairApart(n: nat)
    requires TOOM_MUL_CUTOFF <= 3 * n && n < TOOM_MUL_CUTOFF
    ensures Apart(0 - (1 + P(3 * n - 1)), 1 + P(3 * n - 1), n)
  {
    hide P, Part, Len;
    PairParts(n);
    PairNegated(n);
    PairLength(n);
  }

  lemma PairInner(n: nat)
    requires 2 <= n < TOOM_MUL_CUTOFF
    ensures var m := 1 + P(3 * n - 1);
            Part(0 - m, n, 2) != 0 && Part(m, n, 2) != 0 && InnerExact(0 - m, m, n)
  {
    hide P, Part, Exact;
    PairParts(n);
    PairNegated(n);
    PNext(n - 1);
    PMonotone(1, n - 1);
    PNext(0);
    var h: int := P(n - 1);
    MulMonotone(128, B, h);
    ShortExact(-1, 1, n);
    ShortExact(0 - h, h, n);
    ShortExact(0 - h - 1, h + 1, n);
    ShortExact(-4 - h, 4 + h, n);
    ShortExact(0 - 4 * h - 1, 4 * h + 1, n);
  }

  method Pair(n: nat) returns (a: MpInt, b: MpInt)
    requires n >= 2
    ensures fresh(a) && fresh(b) && a != b && a.Valid() && b.Valid()
    ensures b.Val() == 1 + P(3 * n - 1) && a.Val() == 0 - b.Val()
  {
    hide V, P, Pow;
    var one := new MpInt();
    Set(one, 1);
    b := new MpInt();
    TwoExpt(b, DIGIT_BIT * (3 * n - 1));
    DigitsAsBits(3 * n - 1);
    Add(b, one, b);
    SignOf(b);
    MagZero(b);
    a := InitCopy(b);
    a.neg := true;
  }

  /** Such an n exists whatever the cutoff, so there are always operands that are multiplied wrongly. */
  method WrongProduct() returns (a: MpInt, b: MpInt, c: MpInt)
    ensures fresh(a) && fresh(b) && fresh(c) && a.Valid() && b.Valid() && c.Valid()
    ensures c.Val() != a.Val() * b.Val()
  {
    hide V, P, Faulty, Exact, InnerExact, Apart, Len;
    var n := (TOOM_MUL_CUTOFF + 2) / 3;
    a, b := Pair(n);
    ToomCounterexample(n);
    PairLength(n);
    UsedIsLen(a);
    UsedIsLen(b);
    c := new MpInt();
    Mul(a, b, c);
  }

  /** What the excess means for the result. */
  lemma ToomResult(x: int, y: int, n: nat)
    requires Part(x, n, 2) != 0 && Part(y, n, 2) != 0 && n > 0
    ensures (x < 0) == (y < 0) ==> Excess(x, y, n) == 0
    ensures (x < 0) != (y < 0) ==> CoeffTotal(x, y, n) + Excess(x, y, n) < 0
    ensures Excess(x, y, n) == 0 <==> !Faulty(x, y, n)
  {
    hide Part, Coeff, P;
    CoeffSigns(x, y, n);
    var c0, c1, c2, c3, c4 := Coeff(x, y, n, 0), Coeff(x, y, n, 1), Coeff(x, y, n, 2), Coeff(x, y, n, 3), Coeff(x, y, n, 4);
    if (x < 0) != (y < 0) {
      NegativeTerm(c1, P(n));
      NegativeTerm(c2, P(2 * n));
      NegativeTerm(c3, P(3 * n));
      NegativeTerm(c4, P(4 * n));
      LastWeight(n);
    }
  }

  lemma NegativeTerm(c: int, p: nat)
    requires c <= 0
    ensures c * p <= 0 && (c < 0 ==> c * p <= 0 - p)
  {
    if c < 0 {
      MulMonotone(c, -1, p);
    }
  }

  lemma LastWeight(n: nat)
    requires n > 0
    ensures P(n) + P(3 * n) < P(4 * n)
  {
    PMonotone(n, 3 * n);
    PNext(3 * n);
    PMonotone(3 * n + 1, 4 * n);
    hide P;
    MulMonotone(128, B, P(3 * n));
  }

  /** From the five products to the result. */
  method ToomFinish(w0: MpInt, w1: MpInt, w2: MpInt, w3: MpInt, w4: MpInt, n: nat, c: MpInt, ghost x: int, ghost y: int)
    requires w0.Valid() && w1.Valid() && w2.Valid() && w3.Valid() && w4.Valid() && n > 0
    requires c.used <= |c.dp| && MP_PREC <= |c.dp|
    requires w0 != w1 && w0 != w2 && w0 != w3 && w0 != w4 && w1 != w2 && w1 != w3 && w1 != w4
    requires w2 != w3 && w2 != w4 && w3 != w4
    requires c != w0 && c != w1 && c != w2 && c != w3 && c != w4
    requires Part(x, n, 2) != 0 && Part(y, n, 2) != 0
    modifies w1, w2, w3, w4, c
    ensures c.Valid()
    ensures old(ProductsOf(w0.Val(), w1.Val(), w2.Val(), w3.Val(), w4.Val(), x, y, n)) ==>
              c.Val() == CoeffTotal(x, y, n) + Excess(x, y, n)
    ensures old(c.Zeroed()) ==> c.Zeroed()
  {
    hide V, P, Coeff, Evaluated, Dropped, OneSign, Part;
    var t := new MpInt();
    ghost var c1, c2, c3 := Coeff(x, y, n, 1), Coeff(x, y, n, 2), Coeff(x, y, n, 3);
    Eliminate(w0, w1, w2, w3, w4, t, c1, c2, c3);
    Solve(w1, w2, w3, c1, c2, c3);
    CoeffSigns(x, y, n);
    Assemble(w0, w1, w2, w3, w4, n, c, t);
  }

  ghost predicate ProductsOf(w0: int, w1: int, w2: int, w3: int, w4: int, x: int, y: int, n: nat) {
    && w0 == Coeff(x, y, n, 0) && w4 == Coeff(x, y, n, 4)
    && Evaluated(w0, w1, w2, w3, w4, Coeff(x, y, n, 1), Coeff(x, y, n, 2), Coeff(x, y, n, 3))
  }

  ghost function CoeffTotal(x: int, y: int, n: nat): int {
    Coeff(x, y, n, 0) + Coeff(x, y, n, 1) * P(n) + Coeff(x, y, n, 2) * P(2 * n)
    + Coeff(x, y, n, 3) * P(3 * n) + Coeff(x, y, n, 4) * P(4 * n)
  }

  ghost function Excess(x: int, y: int, n: nat): nat {
    if n == 0 then 0 else Dropped(Coeff(x, y, n, 0), Coeff(x, y, n, 1), Coeff(x, y, n, 2), Coeff(x, y, n, 3), n)
  }

  lemma TwoPolys(a0: int, a1: int, a2: int, b0: int, b1: int, b2: int)
    ensures Evaluated(a0 * b0, (4 * a0 + 2 * a1 + a2) * (4 * b0 + 2 * b1 + b2), (a2 + a1 + a0) * (b2 + b1 + b0),
                      (4 * a2 + 2 * a1 + a0) * (4 * b2 + 2 * b1 + b0), a2 * b2,
                      a0 * b1 + a1 * b0, a0 * b2 + a1 * b1 + a2 * b0, a1 * b2 + a2 * b1)
  {}

  lemma PolyRow(a: int, w: int, b0: int, b1: int, b2: int, p: int, q: int)
    ensures (a * w) * (b0 + b1 * p + b2 * q) == (a * b0) * w + (a * b1) * (w * p) + (a * b2) * (w * q)
  {}

  lemma PolyProduct(a0: int, a1: int, a2: int, b0: int, b1: int, b2: int, p: int, q: int, r: int, s: int)
    requires q == p * p && r == q * p && s == q * q
    ensures a0 * b0 + (a0 * b1 + a1 * b0) * p + (a0 * b2 + a1 * b1 + a2 * b0) * q + (a1 * b2 + a2 * b1) * r + (a2 * b2) * s
         == (a0 + a1 * p + a2 * q) * (b0 + b1 * p + b2 * q)
  {
    PolyRow(a0, 1, b0, b1, b2, p, q);
    PolyRow(a1, p, b0, b1, b2, p, q);
    PolyRow(a2, q, b0, b1, b2, p, q);
    var y := b0 + b1 * p + b2 * q;
    MulDistribute(a0 + a1 * p, a2 * q, y);
    MulDistribute(a0, a1 * p, y);
    MulDistribute(a0 * b1, a1 * b0, p);
    MulDistribute(a0 * b2 + a1 * b1, a2 * b0, q);
    MulDistribute(a0 * b2, a1 * b1, q);
    MulDistribute(a1 * b2, a2 * b1, r);
  }

  lemma PointsEvaluate(x: int, y: int, n: nat)
    ensures var a0, a1, a2, b0, b1, b2 := Part(x, n, 0), Part(x, n, 1), Part(x, n, 2), Part(y, n, 0), Part(y, n, 1), Part(y, n, 2);
            ProductsOf(Times(a0, b0), Times(4 * a0 + 2 * a1 + a2, 4 * b0 + 2 * b1 + b2), Times(a2 + a1 + a0, b2 + b1 + b0),
                       Times(4 * a2 + 2 * a1 + a0, 4 * b2 + 2 * b1 + b0), Times(a2, b2), x, y, n)
  {
    hide Part, Evaluated;
    TwoPolys(Part(x, n, 0), Part(x, n, 1), Part(x, n, 2), Part(y, n, 0), Part(y, n, 1), Part(y, n, 2));
  }

  lemma ProductSign(x: int, y: int)
    ensures (x >= 0 && y >= 0) || (x <= 0 && y <= 0) ==> x * y >= 0
    ensures (x >= 0 && y <= 0) || (x <= 0 && y >= 0) ==> x * y <= 0
    ensures x != 0 && y != 0 ==> x * y != 0
  {}

  /** All coefficients have the sign of the product; the leading one does not vanish. */
  lemma CoeffSigns(x: int, y: int, n: nat)
    requires Part(x, n, 2) != 0 && Part(y, n, 2) != 0
    ensures OneSign(Coeff(x, y, n, 0), Coeff(x, y, n, 1), Coeff(x, y, n, 2), Coeff(x, y, n, 3), Coeff(x, y, n, 4))
    ensures Coeff(x, y, n, 4) != 0
    ensures ((x < 0) == (y < 0)) ==> Coeff(x, y, n, 0) >= 0 && Coeff(x, y, n, 2) >= 0
    ensures ((x < 0) != (y < 0)) ==> Coeff(x, y, n, 4) < 0
  {
    PartSigns(x, n);
    PartSigns(y, n);
    hide Part;
    forall i: nat, j: nat | i < 3 && j < 3
      ensures ((x < 0) == (y < 0)) ==> Part(x, n, i) * Part(y, n, j) >= 0
      ensures ((x < 0) != (y < 0)) ==> Part(x, n, i) * Part(y, n, j) <= 0
    {
      ProductSign(Part(x, n, i), Part(y, n, j));
    }
    ProductSign(Part(x, n, 2), Part(y, n, 2));
  }

  lemma CoeffSum(x: int, y: int, n: nat)
    requires x == Part(x, n, 0) + Part(x, n, 1) * P(n) + Part(x, n, 2) * P(2 * n)
    requires y == Part(y, n, 0) + Part(y, n, 1) * P(n) + Part(y, n, 2) * P(2 * n)
    ensures x * y == CoeffTotal(x, y, n)
  {
    hide Part, P;
    PAdd(n, n);
    PAdd(2 * n, n);
    PAdd(2 * n, 2 * n);
    assert n + n == 2 * n && 2 * n + n == 3 * n && 2 * n + 2 * n == 4 * n;
    PolyProduct(Part(x, n, 0), Part(x, n, 1), Part(x, n, 2), Part(y, n, 0), Part(y, n, 1), Part(y, n, 2),
                P(n), P(2 * n), P(3 * n), P(4 * n));
  }
}

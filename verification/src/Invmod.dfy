/** Modular inverse by the binary extended Euclidean algorithm, for odd moduli. */
module MpInvmod {
  import opened Radix
  import opened Digits
  import opened MpCore
  import opened MpAdd
  import opened MpShift
  import opened MpDivide
  import opened MpGcd
  import opened MpExptmod
  import opened Residue

  ghost predicate Cong(x: int, y: int, n: nat)
    requires n > 0
  {
    Mod(x, n) == Mod(y, n)
  }

  lemma CongSub(x: int, x': int, y: int, y': int, n: nat)
    requires n > 0 && Cong(x, x', n) && Cong(y, y', n)
    ensures Cong(x - y, x' - y', n)
  {
    ModDifference(x, x', n);
    ModDifference(y, y', n);
    var a, b := x / n - x' / n, y / n - y' / n;
    MulDistribute(a, b, n);
    ModEqual(x - y, x' - y', a - b, n);
  }

  /** Two can be cancelled modulo an odd number. */
  lemma CongHalf(x: int, y: int, n: nat)
    requires n % 2 == 1 && Cong(2 * x, 2 * y, n)
    ensures Cong(x, y, n)
  {
    var h := (n + 1) / 2;
    ModEqual(2 * h, 1, 1, n);
    assert UnitBy(2, h, n);
    assert Unit(2, n);
    CancelUnit(x, y, 2, n);
  }

  /** An odd divisor sees the same numbers before and after halving. */
  ghost predicate SameOdd(a: int, b: int, a': int, b': int) {
    forall d: nat | d % 2 == 1 :: Common(d, a, b) <==> Common(d, a', b')
  }

  lemma HalveOdd(a: int, b: int)
    ensures SameOdd(a, b, 2 * a, b) && SameOdd(a, b, a, 2 * b)
  {
    forall d: nat | d % 2 == 1
      ensures Common(d, a, b) <==> Common(d, 2 * a, b)
      ensures Common(d, a, b) <==> Common(d, a, 2 * b)
    {
      if d > 0 {
        if Divides(d, a) { TwiceDivides(d, a); }
        if Divides(d, b) { TwiceDivides(d, b); }
        if Divides(d, 2 * a) { OddDivides(d, a); }
        if Divides(d, 2 * b) { OddDivides(d, b); }
      }
    }
  }

  lemma ChainOdd(a: int, b: int, c: int, d: int, e: int, f: int)
    requires SameOdd(a, b, c, d) && SameOdd(c, d, e, f)
    ensures SameOdd(a, b, e, f)
  {
    hide Common;
  }

  lemma SubtractOdd(u: int, v: int)
    ensures SameOdd(u, v - u, u, v) && SameOdd(u - v, v, u, v)
  {
    hide Divides;
    SubtractCommon(u, v);
    SubtractCommon(v, u);
    forall d: nat | d % 2 == 1 ensures Common(d, u - v, v) <==> Common(d, u, v) {
      assert Common(d, v, u - v) <==> Common(d, v, u);
    }
  }

  /** At the end u is zero and v odd: v is the gcd. */
  lemma LastGcd(v: nat, n: int, y: int)
    requires v % 2 == 1 && n % 2 == 1 && SameOdd(0, v, n, y)
    ensures IsGcd(v, n, y)
  {
    GcdWithZero(v);
    assert Common(v, 0, v);
    forall d: nat | Common(d, n, y) ensures Divides(d, v) {
      var k := Factor(d, n);
      OddFactor(d, k);
      assert Common(d, 0, v);
    }
  }

  // ----- the loop

  /** Half of the state: w stands for w = B * y modulo x. */
  ghost predicate Holds(w: MpInt, b: MpInt, x: nat, y: int)
    requires x > 0
    reads w, b
  {
    w.Valid() && !w.neg && b.Valid() && Cong(b.Val() * y, w.Mag(), x)
  }

  predicate IsEven(a: MpInt)
    requires a.Wf()
    reads a
  {
    a.used > 0 && a.dp[0] % 2 == 0
  }

  predicate IsOdd(a: MpInt)
    requires a.Wf()
    reads a
  {
    a.used > 0 && a.dp[0] % 2 == 1
  }

  lemma Parity(a: MpInt)
    requires a.Valid()
    ensures IsEven(a) <==> a.Mag() > 0 && a.Mag() % 2 == 0
    ensures IsOdd(a) <==> a.Mag() % 2 == 1
    ensures a.Mag() % 2 == a.Val() % 2
  {
    MagZero(a);
    if a.used > 0 {
      OddDigit(a.dp, a.used);
    }
  }

  lemma HalfStep(b: int, b': int, w: int, y: int, x: nat)
    requires x % 2 == 1 && (2 * b' == b || 2 * b' == b - x) && Cong(b * y, 2 * w, x)
    ensures Cong(b' * y, w, x)
  {
    MulSwap(2, b', y);
    if 2 * b' == b - x {
      MulDistribute(b, x, y);
      MulSwap(1, x, y);
      ModEqual((b - x) * y, b * y, -y, x);
    }
    CongHalf(b' * y, w, x);
  }

  // ----- what the loop computes, on values

  function Half(b: int, x: nat): int {
    if b % 2 == 0 then b / 2 else (b - x) / 2
  }

  function Halved(w: nat, b: int, x: nat): (r: (nat, int))
    requires w > 0
    ensures 0 < r.0 <= w
  {
    if w % 2 == 0 then Halved(w / 2, Half(b, x), x) else (w, b)
  }

  /** The cofactor that D ends as. */
  function Cofactor(u: nat, v: nat, b: int, d: int, x: nat): int
    requires v > 0
    decreases u + v
  {
    if u == 0 then d
    else
      var (u', b') := Halved(u, b, x);
      var (v', d') := Halved(v, d, x);
      if u' >= v' then Cofactor(u' - v', v', b' - d', d', x) else Cofactor(u', v' - u', b', d' - b', x)
  }

  /** The first number from d on, in steps of x, that is not negative. */
  function Lift(d: int, x: nat): int
    requires x > 0
    decreases 0 - d
  {
    if d < 0 then Lift(d + x, x) else d
  }

  /** b := b / 2, after making it even by subtracting x */
  method HalveCofactor(b: MpInt, x: MpInt)
    requires b != x && b.Valid() && x.Valid() && !x.neg && x.Mag() % 2 == 1
    modifies b
    ensures b.Valid() && (2 * b.Val() == old(b.Val()) || 2 * b.Val() == old(b.Val()) - x.Mag())
    ensures b.Val() == Half(old(b.Val()), x.Mag())
  {
    hide V;
    Parity(b);
    if IsOdd(b) {
      Sub(b, x, b);
      Parity(b);
    }
    Div2(b, b);
  }

  /** while w is even, halve it together with its cofactor */
  method HalveWhileEven(w: MpInt, b: MpInt, x: MpInt, ghost y: int, ghost other: int)
    requires w != b && w != x && b != x && x.Valid() && !x.neg && x.Mag() % 2 == 1
    requires Holds(w, b, x.Mag(), y) && w.Mag() > 0
    modifies w, b
    ensures x.Valid() && Holds(w, b, x.Mag(), y) && 0 < w.Mag() <= old(w.Mag()) && w.Mag() % 2 == 1
    ensures SameOdd(w.Mag(), other, old(w.Mag()), other) && SameOdd(other, w.Mag(), other, old(w.Mag()))
    ensures Halved(old(w.Mag()), old(b.Val()), x.Mag()) == (w.Mag(), b.Val())
  {
    hide V, Mod, SameOdd, Half;
    SelfOdd(w.Mag(), other);
    Parity(w);
    while IsEven(w)
      invariant x.Valid() && Holds(w, b, x.Mag(), y) && 0 < w.Mag() <= old(w.Mag())
      invariant IsEven(w) <==> w.Mag() % 2 == 0
      invariant Halved(old(w.Mag()), old(b.Val()), x.Mag()) == Halved(w.Mag(), b.Val(), x.Mag())
      invariant SameOdd(w.Mag(), other, old(w.Mag()), other) && SameOdd(other, w.Mag(), other, old(w.Mag()))
      decreases w.Mag()
    {
      ghost var w0, b0 := w.Mag(), b.Val();
      Div2(w, w);
      HalveCofactor(b, x);
      HalfStep(b0, b.Val(), w.Mag(), y, x.Mag());
      HalveOdd(w.Mag(), other);
      HalveOdd(other, w.Mag());
      ChainOdd(w.Mag(), other, w0, other, old(w.Mag()), other);
      ChainOdd(other, w.Mag(), other, w0, other, old(w.Mag()));
      Parity(w);
    }
  }

  lemma SelfOdd(a: int, b: int)
    ensures SameOdd(a, b, a, b) && SameOdd(b, a, b, a)
  {}

  /** Subtract the smaller number from the larger, and likewise their cofactors. */
  method SubtractSmaller(u: MpInt, v: MpInt, B: MpInt, D: MpInt, ghost x: nat, ghost y: int)
    requires u != v && u != B && u != D && v != B && v != D && B != D
    requires x > 0 && Holds(u, B, x, y) && Holds(v, D, x, y) && u.Mag() > 0 && v.Mag() > 0
    modifies u, v, B, D
    ensures Holds(u, B, x, y) && Holds(v, D, x, y) && v.Mag() > 0 && v.Mag() <= old(v.Mag())
    ensures u.Mag() + v.Mag() < old(u.Mag() + v.Mag()) && (u.Mag() == 0 ==> v.Mag() == old(v.Mag()))
    ensures SameOdd(u.Mag(), v.Mag(), old(u.Mag()), old(v.Mag()))
    ensures if old(u.Mag()) >= old(v.Mag()) then
              u.Mag() == old(u.Mag()) - old(v.Mag()) && v.Mag() == old(v.Mag())
              && B.Val() == old(B.Val()) - old(D.Val()) && D.Val() == old(D.Val())
            else
              v.Mag() == old(v.Mag()) - old(u.Mag()) && u.Mag() == old(u.Mag())
              && D.Val() == old(D.Val()) - old(B.Val()) && B.Val() == old(B.Val())
  {
    hide V, Mod, SameOdd, Holds;
    HoldsFacts(u, B, x, y);
    HoldsFacts(v, D, x, y);
    SubtractOdd(u.Mag(), v.Mag());
    SignOf(u);
    SignOf(v);
    var c := Cmp(u, v);
    if c != LT {
      TakeFrom(u, v, B, D, x, y);
    } else {
      TakeFrom(v, u, D, B, x, y);
    }
  }

  /** u := u - v and B := B - D */
  method TakeFrom(u: MpInt, v: MpInt, B: MpInt, D: MpInt, ghost x: nat, ghost y: int)
    requires u != v && u != B && u != D && v != B && v != D && B != D
    requires x > 0 && Holds(u, B, x, y) && Holds(v, D, x, y) && u.Mag() >= v.Mag()
    modifies u, B
    ensures Holds(u, B, x, y) && Holds(v, D, x, y)
    ensures u.Mag() == old(u.Mag()) - v.Mag() && B.Val() == old(B.Val()) - D.Val()
  {
    hide V, Mod;
    ghost var p, q, b, d := u.Mag(), v.Mag(), B.Val(), D.Val();
    MulDistribute(b, d, y);
    CongSub(b * y, p, d * y, q, x);
    SignOf(u);
    SignOf(v);
    Sub(u, v, u);
    SignOf(u);
    Sub(B, D, B);
  }

  /** The whole loop: v ends as the gcd and D as its cofactor. */
  method Reduce(u: MpInt, v: MpInt, B: MpInt, D: MpInt, x: MpInt, ghost y: int)
    requires u != v && u != B && u != D && v != B && v != D && B != D && x != u && x != v && x != B && x != D
    requires x.Valid() && !x.neg && x.Mag() % 2 == 1
    requires Holds(u, B, x.Mag(), y) && Holds(v, D, x.Mag(), y) && u.Mag() > 0 && v.Mag() > 0
    modifies u, v, B, D
    ensures x.Valid() && Holds(v, D, x.Mag(), y) && v.Mag() % 2 == 1
    ensures SameOdd(0, v.Mag(), old(u.Mag()), old(v.Mag()))
    ensures D.Val() == Cofactor(old(u.Mag()), old(v.Mag()), old(B.Val()), old(D.Val()), x.Mag())
  {
    hide V, Mod, SameOdd, Holds, Halved;
    HoldsFacts(u, B, x.Mag(), y);
    HoldsFacts(v, D, x.Mag(), y);
    MagZero(u);
    SelfOdd(u.Mag(), v.Mag());
    while u.used != 0
      invariant x.Valid() && u.Valid() && v.Valid() && B.Valid() && D.Valid() && Holds(u, B, x.Mag(), y) && Holds(v, D, x.Mag(), y)
      invariant v.Mag() > 0 && (u.Mag() == 0 ==> v.Mag() % 2 == 1) && (u.used == 0 <==> u.Mag() == 0)
      invariant SameOdd(u.Mag(), v.Mag(), old(u.Mag()), old(v.Mag()))
      invariant Cofactor(u.Mag(), v.Mag(), B.Val(), D.Val(), x.Mag())
             == Cofactor(old(u.Mag()), old(v.Mag()), old(B.Val()), old(D.Val()), x.Mag())
      decreases u.Mag() + v.Mag()
    {
      Turn(u, v, B, D, x, y, old(u.Mag()), old(v.Mag()));
      MagZero(u);
    }
  }

  lemma HoldsFacts(w: MpInt, b: MpInt, x: nat, y: int)
    requires x > 0 && Holds(w, b, x, y)
    ensures w.Valid() && !w.neg && b.Valid()
  {}

  method Turn(u: MpInt, v: MpInt, B: MpInt, D: MpInt, x: MpInt, ghost y: int, ghost u0: int, ghost v0: int)
    requires u != v && u != B && u != D && v != B && v != D && B != D && x != u && x != v && x != B && x != D
    requires x.Valid() && !x.neg && x.Mag() % 2 == 1
    requires u.Valid() && v.Valid() && Holds(u, B, x.Mag(), y) && Holds(v, D, x.Mag(), y) && u.Mag() > 0 && v.Mag() > 0
    requires SameOdd(u.Mag(), v.Mag(), u0, v0)
    modifies u, v, B, D
    ensures x.Valid() && x.Mag() == old(x.Mag()) && u.Valid() && v.Valid() && B.Valid() && D.Valid()
    ensures Holds(u, B, x.Mag(), y) && Holds(v, D, x.Mag(), y)
    ensures v.Mag() > 0 && (u.Mag() == 0 ==> v.Mag() % 2 == 1)
    ensures u.Mag() + v.Mag() < old(u.Mag() + v.Mag()) && SameOdd(u.Mag(), v.Mag(), u0, v0)
    ensures Cofactor(u.Mag(), v.Mag(), B.Val(), D.Val(), x.Mag())
         == Cofactor(old(u.Mag()), old(v.Mag()), old(B.Val()), old(D.Val()), x.Mag())
  {
    hide V, Mod, SameOdd, Halved;
    ghost var p, q := u.Mag(), v.Mag();
    HalveWhileEven(u, B, x, y, q);
    ghost var p' := u.Mag();
    ChainOdd(p', q, p, q, u0, v0);
    HalveWhileEven(v, D, x, y, p');
    ghost var q' := v.Mag();
    ChainOdd(p', q', p', q, u0, v0);
    SubtractSmaller(u, v, B, D, x.Mag(), y);
    ChainOdd(u.Mag(), v.Mag(), p', q', u0, v0);
  }

  /** mp_cmp_d */
  method CmpD(a: MpInt, b: MpDigit) returns (r: Order)
    requires a.Valid()
    ensures a.used > 0 || a.dp[0] == 0 ==> r == Compare(a.Val(), b)
    ensures a.used == 0 ==> r == Compare(a.dp[0], b)
  {
    MagZero(a);
    if a.neg {
      return LT;
    }
    if a.used > 1 {
      VTop(a.dp, a.used);
      PNext(0);
      PMonotone(1, a.used - 1);
      return GT;
    }
    if a.used == 1 {
      PNext(0);
      assert V(a.dp, 0) == 0;
    }
    return if a.dp[0] > b then GT else if a.dp[0] < b then LT else EQ;
  }

  /** D := D + b until it is not negative */
  method MakePositive(D: MpInt, b: MpInt, ghost y: int)
    requires D != b && D.Valid() && b.Valid() && !b.neg && b.Mag() > 0 && Cong(D.Val() * y, 1, b.Mag())
    modifies D
    ensures D.Valid() && !D.neg && Cong(D.Val() * y, 1, b.Mag()) && D.Val() == Lift(old(D.Val()), b.Mag())
  {
    hide V, Mod;
    SignOf(D);
    while D.neg
      invariant D.Valid() && Cong(D.Val() * y, 1, b.Mag()) && (D.neg <==> D.Val() < 0)
      invariant Lift(D.Val(), b.Mag()) == Lift(old(D.Val()), b.Mag())
      decreases 0 - D.Val()
    {
      ghost var d := D.Val();
      SignOf(D);
      Add(D, b, D);
      SignOf(D);
      CongAdd(d, y, b.Mag());
    }
  }

  lemma CongAdd(d: int, y: int, n: nat)
    requires n > 0
    ensures Cong((d + n) * y, d * y, n)
  {
    MulDistribute(d, n, y);
    MulSwap(1, n, y);
    ModEqual((d + n) * y, d * y, y, n);
  }

  /** Invert y modulo x, if that is possible. */
  method Invert(x: MpInt, y: MpInt) returns (ok: bool, D: MpInt)
    requires x.Valid() && !x.neg && x.Mag() % 2 == 1 && y.Valid() && !y.neg && y.Mag() > 0
    ensures fresh(D) && D.Valid() && !D.neg
    ensures ok <==> IsGcd(1, x.Mag(), y.Mag())
    ensures ok ==> Cong(D.Val() * y.Mag(), 1, x.Mag())
    ensures ok ==> D.Val() == Lift(Cofactor(x.Mag(), y.Mag(), 0, 1, x.Mag()), x.Mag())
  {
    hide V, Mod, SameOdd, IsGcd, Cofactor, Lift;
    var u := InitCopy(x);
    var v := InitCopy(y);
    var B := new MpInt();
    D := new MpInt();
    Set(D, 1);
    ghost var n, w := x.Mag(), y.Mag();
    StartHolds(u, B, v, D, n, w);
    hide Holds;
    Reduce(u, v, B, D, x, w);
    HoldsFacts(v, D, n, w);
    HoldsCong(v, D, n, w);
    LastGcd(v.Mag(), n, w);
    OnlyGcd(v.Mag(), n, w);
    MagZero(v);
    var r := CmpD(v, 1);
    ok := r == EQ;
    if ok {
      MakePositive(D, x, w);
    } else {
      D := new MpInt();
    }
  }

  lemma StartHolds(u: MpInt, B: MpInt, v: MpInt, D: MpInt, n: nat, w: nat)
    requires u.Valid() && !u.neg && B.Valid() && v.Valid() && !v.neg && D.Valid()
    requires n > 0 && u.Mag() == n && v.Mag() == w && B.Val() == 0 && D.Val() == 1
    ensures Holds(u, B, n, w) && Holds(v, D, n, w)
  {
    hide V;
    StartCong(w, n);
  }

  lemma HoldsCong(v: MpInt, D: MpInt, n: nat, w: nat)
    requires n > 0 && Holds(v, D, n, w)
    ensures Cong(D.Val() * w, v.Mag(), n)
  {}

  lemma StartCong(w: int, n: nat)
    requires n > 0
    ensures Cong(0 * w, n, n) && Cong(1 * w, w, n)
  {
    ModEqual(n, 0, 1, n);
  }

  lemma OnlyGcd(g: nat, a: int, b: int)
    requires IsGcd(g, a, b)
    ensures IsGcd(1, a, b) <==> g == 1
  {
    GreatestIs(g, a, b, 1);
  }

  /** The inverse that is found. */
  ghost function Found(a: int, n: nat): int
    requires n > 0 && Mod(a, n) != 0
  {
    Lift(Cofactor(n, Mod(a, n), 0, 1, n), n)
  }

  /** fast_mp_invmod: c := an inverse of a modulo odd b, which exists exactly when they are coprime.
      The result carries the sign of a, so for negative a it is the inverse of -a. */
  method FastInvmod(a: MpInt, b: MpInt, c: MpInt) returns (ok: bool)
    requires a.Valid() && b.Valid() && !b.neg && c.Wf()
    requires b.Mag() % 2 == 1 ==> Mod(a.Val(), b.Mag()) != 0
    modifies c
    ensures ok <==> old(b.Mag()) % 2 == 1 && IsGcd(1, old(b.Mag()), Mod(old(a.Val()), old(b.Mag())))
    ensures !ok ==> unchanged(c)
    ensures ok ==> c.Wf() && c.neg == old(a.neg) && Cong(c.Mag() * old(a.Val()), 1, old(b.Mag()))
    ensures ok ==> c.Mag() == Found(old(a.Val()), old(b.Mag()))
    ensures ok && OddPart(Mod(old(a.Val()), old(b.Mag()))) < 15 ==> c.Mag() < old(b.Mag())
  {
    hide V, Mod, IsGcd, Remainder, Cong, Cofactor, Lift, OddPart;
    MagZero(b);
    Parity(b);
    if IsEven(b) {
      return false;
    }
    var x := InitCopy(b);
    var y := new MpInt();
    ok := Modulo(a, b, y);
    if !ok {
      return;
    }
    ghost var n, av := b.Mag(), a.Val();
    RemainderIsMod(av, n);
    SignOf(y);
    var D;
    ok, D := Invert(x, y);
    if ok {
      InverseOf(D.Mag(), y.Mag(), av, n);
      if OddPart(Mod(av, n)) < 15 {
        ReducedWhen(av, n);
      }
      var neg := a.neg;
      Exch(D, c);
      c.neg := neg;
    }
  }

  lemma InverseOf(d: int, y: nat, a: int, n: nat)
    requires n > 0 && y == Mod(a, n) && Cong(d * y, 1, n)
    ensures Cong(d * a, 1, n)
  {
    ModSmall(y, n);
    ModMul(d, d, y, a, n);
  }

  /** The signed result is an inverse of a exactly when a is not negative. */
  lemma SignedInverse(c: nat, neg: bool, a: int, n: nat)
    requires n > 2 && Cong(c * a, 1, n)
    ensures Cong((if neg then 0 - c else c) * a, 1, n) <==> !neg
  {
    if neg {
      MulDistribute(0, c, a);
      CongSub(0, 0, c * a, 1, n);
      ModIs(-1, n, -1, n - 1);
      ModIs(1, n, 0, 1);
    }
  }

  /** w is an odd multiple of 1, 2 or 4. */
  lemma HalvedIs(w: nat, b: int, w': nat, b': int, x: nat)
    requires w' % 2 == 1
    requires || (w == w' && b == b') || (w == 2 * w' && b' == Half(b, x))
             || (w == 4 * w' && b' == Half(Half(b, x), x))
    ensures w > 0 && Halved(w, b, x) == (w', b')
  {
    hide Half;
    assert Halved(w', b', x) == (w', b');
    if w == 4 * w' {
      assert w / 2 == 2 * w' && w / 2 / 2 == w';
    }
  }

  /** One turn, modulo 777. */
  lemma TurnIs(u: nat, v: nat, b: int, d: int, u': nat, b': int, v': nat, d': int)
    requires u' % 2 == 1 && v' % 2 == 1
    requires (u == u' && b == b') || (u == 2 * u' && b' == Half(b, 777)) || (u == 4 * u' && b' == Half(Half(b, 777), 777))
    requires (v == v' && d == d') || (v == 2 * v' && d' == Half(d, 777)) || (v == 4 * v' && d' == Half(Half(d, 777), 777))
    ensures v > 0
    ensures Cofactor(u, v, b, d, 777)
         == if u' >= v' then Cofactor(u' - v', v', b' - d', d', 777) else Cofactor(u', v' - u', b', d' - b', 777)
  {
    hide Half, Halved, Cofactor;
    HalvedIs(u, b, u', b', 777);
    HalvedIs(v, d, v', d', 777);
    CofactorTurn(u, v, b, d, u', b', v', d', 777);
  }

  lemma CofactorTurn(u: nat, v: nat, b: int, d: int, u': nat, b': int, v': nat, d': int, x: nat)
    requires u > 0 && v > 0 && Halved(u, b, x) == (u', b') && Halved(v, d, x) == (v', d')
    ensures u' > 0 && v' > 0
    ensures Cofactor(u, v, b, d, x)
         == if u' >= v' then Cofactor(u' - v', v', b' - d', d', x) else Cofactor(u', v' - u', b', d' - b', x)
  {
    hide Halved;
  }

  /** The result need not be below the modulus, since it is only made positive: modulo 777 the inverse found
      of 253 is 820. */
  lemma NotReduced()
    ensures Mod(253, 777) == 253 && Found(253, 777) == 820
  {
    ModSmall(253, 777);
    hide Mod, Cofactor;
    TurnIs(777, 253, 0, 1, 777, 0, 253, 1);
    TurnIs(524, 253, 0 - 1, 1, 131, 0 - 583, 253, 1);
    TurnIs(131, 122, 0 - 583, 584, 131, 0 - 583, 61, 292);
    TurnIs(70, 61, 0 - 875, 292, 35, 0 - 826, 61, 292);
    TurnIs(35, 26, 0 - 826, 1118, 35, 0 - 826, 13, 559);
    TurnIs(22, 13, 0 - 1385, 559, 11, 0 - 1081, 13, 559);
    TurnIs(11, 2, 0 - 1081, 1640, 11, 0 - 1081, 1, 820);
    TurnIs(10, 1, 0 - 1901, 820, 5, 0 - 1339, 1, 820);
    TurnIs(4, 1, 0 - 2159, 820, 1, 0 - 734, 1, 820);
    NoMore();
  }

  lemma NoMore()
    ensures Cofactor(0, 1, 0 - 1554, 820, 777) == 820
  {}

  lemma LiftBelow(d: int, x: nat)
    requires x > 0
    ensures Lift(d, x) < x <==> d < x
    ensures d >= 0 ==> Lift(d, x) == d
    decreases 0 - d
  {
    if d < 0 {
      LiftBelow(d + x, x);
    }
  }

  // ----- how far from reduced

  function OddPart(w: nat): (r: nat)
    requires w > 0
    ensures 0 < r <= w && r % 2 == 1
  {
    if w % 2 == 0 then OddPart(w / 2) else w
  }

  /** Where the cofactors of an odd u and an odd v can lie, when t is the modulus times the number of
      subtractions from v so far. */
  ghost predicate BRange(b: int, t: nat, x: nat) {
    0 - (2 + t + 2 * x) <= 2 * b <= 2 * x + t
  }

  ghost predicate DRange(d: int, t: nat, x: nat) {
    0 - (2 * x + t) <= 2 * d <= 2 + t
  }

  /** Those of an even number get there by halving. */
  ghost predicate BNext(u: nat, b: int, t: nat, x: nat) {
    u > 0 ==> BRange(if u % 2 == 0 then Half(b, x) else b, t, x)
  }

  ghost predicate DNext(v: nat, d: int, t: nat, x: nat) {
    v > 0 ==> DRange(if v % 2 == 0 then Half(d, x) else d, t, x)
  }

  lemma {:induction false} HalvedB(u: nat, b: int, t: nat, x: nat)
    requires u > 0 && x % 2 == 1 && BNext(u, b, t, x)
    ensures Halved(u, b, x).0 == OddPart(u) && BRange(Halved(u, b, x).1, t, x)
  {
    if u % 2 == 0 {
      HalvedB(u / 2, Half(b, x), t, x);
    }
  }

  lemma {:induction false} HalvedD(v: nat, d: int, t: nat, x: nat)
    requires v > 0 && x % 2 == 1 && DNext(v, d, t, x)
    ensures Halved(v, d, x).0 == OddPart(v) && DRange(Halved(v, d, x).1, t, x)
  {
    if v % 2 == 0 {
      HalvedD(v / 2, Half(d, x), t, x);
    }
  }

  /** Each subtraction from v moves the range by half the modulus, and at least halves v. */
  lemma {:induction false} CofactorRange(u: nat, v: nat, b: int, d: int, x: nat, t: nat, k: nat)
    requires v > 0 && x % 2 == 1 && BNext(u, b, t, x) && DNext(v, d, t, x) && (u == 0 ==> v % 2 == 1)
    requires OddPart(v) + 1 < Pow(2, k + 2)
    ensures k * x >= 0 && DRange(Cofactor(u, v, b, d, x), t + k * x, x)
    decreases u + v
  {
    hide Pow, Halved, Half, BRange, DRange, BNext, DNext, OddPart;
    MulMonotone(0, k, x);
    if u == 0 {
      LastRange(v, d, t, k * x, x);
    } else {
      var (u', b') := Halved(u, b, x);
      var (v', d') := Halved(v, d, x);
      HalvedB(u, b, t, x);
      HalvedD(v, d, t, x);
      if u' >= v' {
        UStep(u' - v', v', b', d', t, x);
        OddIsPart(v');
        CofactorRange(u' - v', v', b' - d', d', x, t, k);
      } else {
        FewerBits(u', v', k);
        VStep(u', v' - u', b', d', t, x);
        MulDistribute(k, 1, x);
        CofactorRange(u', v' - u', b', d' - b', x, t + x, k - 1);
      }
    }
  }

  lemma OddIsPart(v: nat)
    requires v % 2 == 1
    ensures OddPart(v) == v
  {}

  lemma LastRange(v: nat, d: int, t: nat, more: nat, x: nat)
    requires v % 2 == 1 && DNext(v, d, t, x)
    ensures DRange(d, t + more, x)
  {}

  lemma UStep(u: nat, v: nat, b: int, d: int, t: nat, x: nat)
    requires BRange(b, t, x) && DRange(d, t, x) && x % 2 == 1 && u % 2 == 0 && v % 2 == 1
    ensures BNext(u, b - d, t, x) && DNext(v, d, t, x)
  {}

  lemma VStep(u: nat, v: nat, b: int, d: int, t: nat, x: nat)
    requires BRange(b, t, x) && DRange(d, t, x) && x % 2 == 1 && u % 2 == 1 && v % 2 == 0
    ensures BNext(u, b, t + x, x) && DNext(v, d - b, t + x, x)
  {}

  lemma FewerBits(u: nat, v: nat, k: nat)
    requires u % 2 == 1 && v % 2 == 1 && u < v && v + 1 < Pow(2, k + 2)
    ensures k > 0 && (v - u) % 2 == 0 && OddPart(v - u) + 1 < Pow(2, k - 1 + 2)
  {
    assert Pow(2, k + 2) == 2 * Pow(2, k + 1) && Pow(2, 1) == 2;
    assert OddPart(v - u) == OddPart((v - u) / 2);
  }

  /** For every input: with an odd part of a mod n below 2^(k + 2) - 1, the cofactor lies between -(1 + k / 2) n and
      1 + k n / 2, and so does what is made of it unless it is reduced. */
  lemma FoundWithin(a: int, n: nat, k: nat)
    requires n % 2 == 1 && Mod(a, n) != 0 && OddPart(Mod(a, n)) + 1 < Pow(2, k + 2)
    ensures var d := Cofactor(n, Mod(a, n), 0, 1, n); 0 - (2 * n + k * n) <= 2 * d <= 2 + k * n
    ensures 0 <= Found(a, n) && (Found(a, n) < n || 2 * Found(a, n) <= 2 + k * n)
  {
    hide Pow, Cofactor, Mod, Lift, OddPart;
    var y := Mod(a, n);
    assert BNext(n, 0, 0, n) && DNext(y, 1, 0, n);
    CofactorRange(n, y, 0, 1, n, 0, k);
    LiftBelow(Cofactor(n, y, 0, 1, n), n);
    LiftPositive(Cofactor(n, y, 0, 1, n), n);
  }

  lemma LiftPositive(d: int, x: nat)
    requires x > 0
    ensures Lift(d, x) >= 0
    decreases 0 - d
  {
    if d < 0 {
      LiftPositive(d + x, x);
    }
  }

  /** Below 15 that is enough: the inverse is reduced. */
  lemma ReducedWhen(a: int, n: nat)
    requires n % 2 == 1 && Mod(a, n) != 0 && OddPart(Mod(a, n)) < 15 && Cong(Found(a, n) * a, 1, n)
    ensures 0 <= Found(a, n) < n
  {
    hide Mod, Cofactor, Lift, Found;
    assert Pow(2, 4) == 16 && Pow(2, 2) == 4;
    FoundWithin(a, n, 2);
    if Mod(a, n) == 1 {
      assert OddPart(1) == 1;
      FoundWithin(a, n, 0);
    }
    JustAbove(Found(a, n), a, n);
  }

  /** Neither the modulus nor its successor is an inverse, but for one. */
  lemma JustAbove(f: int, a: int, n: nat)
    requires n > 0 && Mod(a, n) != 0 && Cong(f * a, 1, n)
    ensures f != n && (f == n + 1 ==> Mod(a, n) == 1)
  {
    if n > 1 {
      ModIs(1, n, 0, 1);
      if f == n {
        MultipleMod(a, 0, n);
      } else if f == n + 1 {
        MulDistribute(n, 1, a);
        MultipleMod(a, a, n);
      }
    }
  }

  lemma MultipleMod(a: int, r: int, n: nat)
    requires n > 0
    ensures Mod(n * a + r, n) == Mod(r, n)
  {
    ModEqual(n * a + r, r, a, n);
  }
}

/** Modular exponentiation by sliding windows (HAC 14.85), over any of the reductions.  The two
    routines of the library differ only in the reductions they offer; their common part is shared. */
module MpExptmod {
  import opened Radix
  import opened Digits
  import opened MpCore
  import opened MpAdd
  import opened MpShift
  import opened MpMultiply
  import opened MpDivide
  import opened MpProduct
  import opened MpSquare
  import opened MpMontgomery
  import opened MpRedc
  import MpBarrett
  import opened MpSpecial
  import opened Residue

  // ----- remainders

  ghost function Remainder(a: int, b: int): int
    requires b != 0
  {
    var t := TMod(a, b);
    if (t < 0) != (b < 0) then b + t else t
  }

  lemma RemainderIsMod(a: int, b: int)
    requires b > 0
    ensures Remainder(a, b) == Mod(a, b)
  {
    var t := TMod(a, b);
    TDivModHolds(a, b);
    hide TMod, TDiv;
    var q := TDiv(a, b);
    if t < 0 {
      MulDistribute(q, 1, b);
      ModIs(a, b, q - 1, b + t);
    } else {
      ModIs(a, b, q, t);
    }
  }

  /** mp_mod */
  method Modulo(a: MpInt, b: MpInt, c: MpInt) returns (ok: bool)
    requires a.Valid() && b.Valid() && c.Wf()
    modifies c
    ensures ok <==> old(b.Val()) != 0
    ensures !ok ==> unchanged(c)
    ensures ok ==> c.Valid() && c.Val() == Remainder(old(a.Val()), old(b.Val()))
  {
    hide V, TMod;
    SignMag(b);
    var t := new MpInt();
    ok := Div(a, b, null, t);
    if !ok {
      return;
    }
    SignOf(t);
    SignOf(b);
    if t.neg != b.neg {
      Add(b, t, c);
    } else {
      Exch(t, c);
    }
  }

  /** mp_mulmod */
  method Mulmod(a: MpInt, b: MpInt, c: MpInt, d: MpInt) returns (ok: bool)
    requires a.Valid() && b.Valid() && c.Valid() && d.Wf()
    modifies d
    ensures ok <==> old(c.Val()) != 0
    ensures ok ==> d.Valid() && (old(c.Val()) > 0 ==> 0 <= d.Val() < old(c.Val()))
    ensures ok && old(Sound(a, b)) ==> d.Val() == Remainder(old(a.Val()) * old(b.Val()), old(c.Val()))
  {
    hide V, Remainder;
    var t := new MpInt();
    Mul(a, b, t);
    ghost var x, m := t.Val(), c.Val();
    ok := Modulo(t, c, d);
    if m > 0 {
      RemainderIsMod(x, m);
    }
  }

  // ----- the reductions on offer

  datatype Reducer =
    | Montgomery(rho: MpDigit)
    | TwoK(d: MpDigit)
    | Barrett(mu: MpInt)
    | TwoKLong(gap: MpInt)

  ghost function Aux(red: Reducer): set<object> {
    match red
    case Barrett(mu) => {mu}
    case TwoKLong(gap) => {gap}
    case _ => {}
  }

  /** The scale of the numbers a reduction works on. */
  ghost function Scale(red: Reducer, n: MpInt): nat
    reads n
  {
    if red.Montgomery? then n.used else 0
  }

  /** The reduction has been set up for n.  What it can be relied on for is claimed. */
  ghost predicate Ready(red: Reducer, n: MpInt, claim: Claim)
    reads n, Aux(red)
  {
    && n.Valid() && !n.neg && n.used > 0 && n.Mag() > 0 && n !in Aux(red) && (n.Mag() == 1 ==> red.TwoKLong? || red.Barrett?)
    && match red
       case Montgomery(rho) => !claim.Remainders? && Companion(n.dp[0], rho) && (n.used < COLUMNS || CLEAN_CELL)
       case TwoK(d) =>
         && Short(n, if d == 0 then B else d)
         && (claim.Residues? && d == 0 ==> Mod(B, n.Mag()) == 0)
         && (claim.Remainders? ==> d == 0 && claim.w == n.Mag() + B)
       case Barrett(mu) => !claim.Remainders? && MpBarrett.Reciprocal(mu, n)
       case TwoKLong(gap) => !claim.Remainders? && gap.Valid() && !gap.neg && Short(n, gap.Mag())
  }

  /** Where Montgomery reduction by rows is used, it is to find zeros above the digits in use. */
  ghost predicate Tidy(red: Reducer, n: MpInt, x: MpInt)
    reads n, x
  {
    red.Montgomery? && n.used >= COLUMNS ==> x.Zeroed()
  }

  lemma ReadyFacts(red: Reducer, n: MpInt, claim: Claim)
    requires Ready(red, n, claim)
    ensures n.Valid() && !n.neg && n.used > 0 && n.Mag() > 0 && n !in Aux(red) && (n.Mag() == 1 ==> red.TwoKLong? || red.Barrett?)
    ensures claim.Remainders? ==> red.TwoK?
  {}

  lemma ScaleUnit(red: Reducer, n: MpInt, claim: Claim)
    requires Ready(red, n, claim)
    ensures Unit(P(Scale(red, n)), n.Mag())
  {
    hide V, P, Short, Unit, MpBarrett.Reciprocal;
    match red {
      case Montgomery(rho) =>
        RadixUnit(n.dp, n.used, rho);
        WeightUnit(n.used, n.Mag());
      case TwoK(d) =>
        UnitOne(n.Mag());
      case Barrett(mu) =>
        UnitOne(n.Mag());
      case TwoKLong(gap) =>
        UnitOne(n.Mag());
    }
  }

  lemma UnscaledReduced(r: nat, x: nat, n: nat)
    requires n > 0 && r == Mod(x, n)
    ensures Reduced(r, x, n, 0)
  {
    PNext(0);
    ModSmall(r, n);
  }

  lemma SquareRoom(x: nat, d: seq<MpDigit>, u: nat)
    requires u <= |d| && x < V(d, u) * V(d, u)
    ensures x < V(d, u) * P(u) && x < P(2 * u)
  {
    hide P, V;
    VBound(d, u);
    PAdd(u, u);
    assert u + u == 2 * u;
    MulMonotone(V(d, u), P(u), V(d, u));
    MulMonotone(V(d, u), P(u), P(u));
  }

  /** No product of two remainders makes the reduction store outside an array. */
  ghost predicate Calm(red: Reducer, n: MpInt)
    reads n
  {
    red.Barrett? ==> n.Wf() && n.used > 0 && n.Mag() > 0 && !MpBarrett.Spilling(n.Mag(), n.used)
  }

  /** The square of v does. */
  ghost predicate SquareSpills(red: Reducer, n: MpInt, v: nat)
    reads n
  {
    red.Barrett? && n.Wf() && n.used > 0 && v * v >= 0 && MpBarrett.SpillsOn(v * v, n.Mag(), n.used)
  }

  lemma SpillTest(x: MpInt, n: MpInt, mu: MpInt)
    requires x.Valid() && !x.neg && n.used > 0 && MpBarrett.Reciprocal(mu, n)
    ensures MpBarrett.Spills(x.used, n.used, mu.used) <==> MpBarrett.SpillsOn(x.Mag(), n.Mag(), n.used)
    ensures MpBarrett.SpillsOn(x.Mag(), n.Mag(), n.used) && n.Mag() > 1 && x.Mag() <= (n.Mag() - 1) * (n.Mag() - 1) ==>
              MpBarrett.Spilling(n.Mag(), n.used)
    ensures MpBarrett.SpillsOn(x.Mag(), n.Mag(), n.used) && x.Mag() <= 1 ==> n.Mag() > 1
  {
    hide V, P, MpBarrett.Spills, MpBarrett.Spilling, Len;
    MpBarrett.RecipDigits(mu, n);
    UsedIsLen(x);
    VTop(n.dp, n.used);
    VBound(n.dp, n.used);
    if MpBarrett.SpillsOn(x.Mag(), n.Mag(), n.used) && n.Mag() > 1 && x.Mag() <= (n.Mag() - 1) * (n.Mag() - 1) {
      MpBarrett.NeverSpills(x.Mag(), n.Mag(), n.used);
    }
    if n.Mag() == 1 && x.Mag() <= 1 {
      OneRoom(x, n);
    }
  }

  /** Modulo one there is always room. */
  lemma OneRoom(x: MpInt, n: MpInt)
    requires x.Valid() && !x.neg && x.Mag() <= 1 && n.Valid() && n.Mag() == 1 && x.used == Len(x.Mag())
    ensures n.used > 0 && !MpBarrett.SpillsOn(x.Mag(), n.Mag(), n.used)
  {
    hide MpBarrett.Spills, Len, V, P;
    MagZero(n);
    if n.used != 1 {
      OneIsOneDigit(n);
    }
    ShortOne(x.Mag());
    MpBarrett.SpillsWhen(x.used, 1, MpBarrett.RecipLen(1, 1));
  }

  lemma ShortOne(x: nat)
    requires x <= 1
    ensures Len(x) <= 1
  {
    PNext(0);
    ShortLen(x, 1);
  }

  /** The reduction in use, called indirectly.  Where it would store outside an array nothing is known of what
      follows, and the model stops. */
  method Redux(x: MpInt, n: MpInt, red: Reducer, ghost claim: Claim) returns (inside: bool)
    requires Ready(red, n, claim) && x != n && x !in Aux(red) && x.Valid() && !x.neg
    requires x.Mag() < n.Mag() * n.Mag() || (n.Mag() == 1 && x.Mag() == 1)
    requires Tidy(red, n, x)
    modifies x
    ensures inside <==> !(red.Barrett? && MpBarrett.SpillsOn(old(x.Mag()), n.Mag(), n.used))
    ensures Calm(red, n) && (n.Mag() == 1 || old(x.Mag()) <= (n.Mag() - 1) * (n.Mag() - 1)) ==> inside
    ensures inside ==> x.Valid() && !x.neg && x.Mag() < n.Mag() && Tidy(red, n, x)
    ensures inside ==> Lowered(claim, x.Mag(), old(x.Mag()), n.Mag(), Scale(red, n))
  {
    hide V, P, Short, Mod, Reduced, Unit, MpBarrett.Reciprocal, MpBarrett.Spills, MpBarrett.SpillsOn, MpBarrett.Spilling;
    ghost var X := x.Mag();
    if X < n.Mag() * n.Mag() {
      SquareRoom(X, n.dp, n.used);
    } else {
      PMonotone(1, 2 * n.used);
      PNext(0);
    }
    ScaleUnit(red, n, claim);
    inside := true;
    match red {
      case Montgomery(rho) =>
        MpRedc.Reduce(x, n, rho);
        ReducedBelow(x.Mag(), X, n.Mag(), n.used);
      case TwoK(d) =>
        Reduce2k(x, n, d, if d == 0 then B else d);
        GapKept(X, d, n);
        if claim.Residues? {
          UnscaledReduced(x.Mag(), X, n.Mag());
        }
      case Barrett(mu) =>
        SpillTest(x, n, mu);
        if MpBarrett.Spills(x.used, n.used, mu.used) {
          return false;
        }
        MpBarrett.Reduce(x, n, mu);
        SignOf(x);
        UnscaledReduced(x.Mag(), X, n.Mag());
      case TwoKLong(gap) =>
        Reduce2kL(x, n, gap);
        UnscaledReduced(x.Mag(), X, n.Mag());
    }
  }

  lemma ReducedBelow(r: nat, x: nat, n: nat, k: nat)
    requires n > 0 && Reduced(r, x, n, k)
    ensures r < n
  {}

  /** What a reduction with the gap, or with the zero that a gap of B leaves, returns. */
  lemma GapKept(x: nat, d: nat, n: MpInt)
    requires Short(n, if d == 0 then B else d) && n.Mag() > 0
    ensures var w := n.Mag() + (if d == 0 then B else d);
            && w > 0 && (d > 0 ==> Mod(Kept2k(x, d, w), n.Mag()) == Mod(x, n.Mag()))
            && (d == 0 ==> Kept2k(x, d, w) == Mod(x, w))
            && (d == 0 && Mod(B, n.Mag()) == 0 ==> Mod(Kept2k(x, d, w), n.Mag()) == Mod(x, n.Mag()))
  {
    hide V, Mod;
    if d == 0 {
      LostGap(n.Mag());
    }
  }

  // ----- one squaring, one multiplication

  lemma BelowSquare(v: nat, w: nat, n: nat)
    requires n > 0 && (v < n || v == 1) && (w < n || w == 1)
    ensures 0 <= v * w && (v * w < n * n || (n == 1 && v * w == 1))
    ensures n == 1 || v * w <= (n - 1) * (n - 1)
  {
    MulMonotone(0, v, w);
    if n > 1 {
      LessProduct(v, w, n, n);
      MulMonotone(v, n - 1, w);
      MulMonotone(w, n - 1, n - 1);
    }
  }

  method SquareStep(res: MpInt, n: MpInt, red: Reducer, ghost claim: Claim, ghost g: int) returns (inside: bool)
    requires Ready(red, n, claim) && res != n && res !in Aux(red) && res.Valid() && !res.neg && Tidy(red, n, res)
    requires Rep(claim, res.Mag(), g, n.Mag(), Scale(red, n)) && Fits(claim, g * g, n.Mag())
    modifies res
    ensures inside ==> res.Valid() && !res.neg && Tidy(red, n, res) && res.Mag() < n.Mag() && Rep(claim, res.Mag(), g * g, n.Mag(), Scale(red, n))
    ensures Calm(red, n) ==> inside
    ensures SquareSpills(red, n, old(res.Mag())) ==> !inside
  {
    hide V, P, Mod, Reduced, Unit, Short, MpBarrett.Reciprocal, MpBarrett.SpillsOn, MpBarrett.Spilling;
    ghost var v := res.Mag();
    BelowSquare(v, v, n.Mag());
    Sqr(res, res);
    inside := Redux(res, n, red, claim);
    if !inside {
      return;
    }
    RepMul(claim, v, g, v, g, res.Mag(), n.Mag(), Scale(red, n));
  }

  /** c := a * b in the system of residues */
  method MultiplyStep(a: MpInt, b: MpInt, c: MpInt, n: MpInt, red: Reducer, ghost claim: Claim, ghost g: int, ghost h: int)
    returns (inside: bool)
    requires Ready(red, n, claim) && c != n && c !in Aux(red) && c.Wf() && c != b && Tidy(red, n, c)
    requires a.Valid() && !a.neg && b.Valid() && !b.neg
    requires Rep(claim, a.Mag(), g, n.Mag(), Scale(red, n)) && Rep(claim, b.Mag(), h, n.Mag(), Scale(red, n))
    requires Fits(claim, g * h, n.Mag())
    modifies c
    ensures inside ==> c.Valid() && !c.neg && Tidy(red, n, c) && c.Mag() < n.Mag() && Rep(claim, c.Mag(), g * h, n.Mag(), Scale(red, n))
    ensures Calm(red, n) ==> inside
  {
    hide V, P, Mod, Reduced, Unit, Short, MpBarrett.Reciprocal, MpBarrett.SpillsOn, MpBarrett.Spilling;
    ghost var v, w := a.Mag(), b.Mag();
    BelowSquare(v, w, n.Mag());
    Mul(a, b, c);
    SignOf(c);
    inside := Redux(c, n, red, claim);
    if !inside {
      return;
    }
    RepMul(claim, v, g, w, h, c.Mag(), n.Mag(), Scale(red, n));
  }

  /** All powers of g have remainders that the reduction leaves alone. */
  ghost predicate Closed(claim: Claim, g: int, n: nat) {
    claim.Remainders? ==> claim.w > 0 && forall e: nat :: Mod(Power(g, e), claim.w) < n
  }

  lemma ClosedOther(claim: Claim, g: int, n: nat)
    requires !claim.Remainders?
    ensures Closed(claim, g, n)
  {}

  lemma ClosedFits(claim: Claim, g: int, n: nat, e: nat, f: nat)
    requires Closed(claim, g, n)
    ensures Fits(claim, Power(g, e) * Power(g, f), n)
  {
    PowerAdd(g, e, f);
  }

  /** res, a power of g, is squared. */
  method SquarePower(res: MpInt, n: MpInt, red: Reducer, ghost claim: Claim, ghost g: int, ghost e: nat)
    returns (inside: bool)
    requires Ready(red, n, claim) && res != n && res !in Aux(red) && res.Valid() && !res.neg && Tidy(red, n, res)
    requires Rep(claim, res.Mag(), Power(g, e), n.Mag(), Scale(red, n)) && Closed(claim, g, n.Mag())
    modifies res
    ensures inside ==> res.Valid() && !res.neg && Tidy(red, n, res) && res.Mag() < n.Mag()
    ensures inside ==> Rep(claim, res.Mag(), Power(g, 2 * e), n.Mag(), Scale(red, n))
    ensures Calm(red, n) ==> inside
    ensures SquareSpills(red, n, old(res.Mag())) ==> !inside
  {
    hide V, P, Mod, Rep, Closed, Ready, Power, Calm, SquareSpills;
    ReadyFacts(red, n, claim);
    ClosedFits(claim, g, n.Mag(), e, e);
    inside := SquareStep(res, n, red, claim, Power(g, e));
    if !inside {
      return;
    }
    PowerAdd(g, e, e);
    assert e + e == 2 * e;
  }

  lemma DoubleExponent(e: nat, x: nat)
    ensures 2 * (e * Pow(2, x)) == e * Pow(2, x + 1)
  {
    assert Pow(2, x + 1) == 2 * Pow(2, x);
    MulSwap(e, 2, Pow(2, x));
  }

  /** Square k times: the exponent moves up by k bits. */
  method SquareTimes(res: MpInt, k: nat, n: MpInt, red: Reducer, ghost claim: Claim, ghost g: int, ghost e: nat)
    returns (inside: bool)
    requires Ready(red, n, claim) && res != n && res !in Aux(red) && res.Valid() && !res.neg && Tidy(red, n, res)
    requires Rep(claim, res.Mag(), Power(g, e), n.Mag(), Scale(red, n))
    requires Closed(claim, g, n.Mag())
    modifies res
    ensures inside ==> res.Valid() && !res.neg && Tidy(red, n, res) && Rep(claim, res.Mag(), Power(g, e * Pow(2, k)), n.Mag(), Scale(red, n))
    ensures Calm(red, n) ==> inside
    ensures k > 0 && SquareSpills(red, n, old(res.Mag())) ==> !inside
  {
    assert Pow(2, 0) == 1;
    hide V, P, Mod, Rep, Ready, Power, Pow, Calm, SquareSpills;
    inside := true;
    var x := 0;
    while x < k
      invariant 0 <= x <= k && res.Valid() && !res.neg && Tidy(red, n, res) && Ready(red, n, claim) && n.Mag() == old(n.Mag())
      invariant Rep(claim, res.Mag(), Power(g, e * Pow(2, x)), n.Mag(), Scale(red, n))
      invariant inside && if x == 0 then res.Mag() == old(res.Mag()) else !SquareSpills(red, n, old(res.Mag()))
      modifies res
    {
      inside := SquarePower(res, n, red, claim, g, e * Pow(2, x));
      if !inside {
        return;
      }
      DoubleExponent(e, x);
      x := x + 1;
    }
  }

  // ----- reading the exponent bit by bit, from the top

  /** E is the number read so far; `low` is what is still to come of the current digit, c bits,
      held at the top of the low DIGIT_BIT bits of buf; j digits have not been started. */
  ghost predicate Reading(d: seq<MpDigit>, u: nat, j: nat, c: nat, buf: nat, low: nat, E: nat)
    requires u <= |d|
  {
    && j <= u && c <= DIGIT_BIT && low < Pow(2, c) && Low(buf) == low * Pow(2, DIGIT_BIT - c)
    && E * Pow(2, c) + low == H(d, j, u)
  }

  ghost function Left(j: nat, c: nat): nat {
    j * DIGIT_BIT + c
  }

  lemma ReadStart(d: seq<MpDigit>, u: nat)
    requires u <= |d|
    ensures Reading(d, u, u, 0, 0, 0, 0)
  {
    HEnds(d, u);
    ModSmall(0, B);
  }

  lemma ReadEnd(d: seq<MpDigit>, u: nat, buf: nat, low: nat, E: nat)
    requires u <= |d| && Reading(d, u, 0, 0, buf, low, E)
    ensures E == V(d, u)
  {
    HEnds(d, u);
    assert Pow(2, 0) == 1;
  }

  lemma ReadDigit(d: seq<MpDigit>, u: nat, j: nat, buf: nat, low: nat, E: nat)
    requires u <= |d| && j > 0 && Reading(d, u, j, 0, buf, low, E)
    ensures Reading(d, u, j - 1, DIGIT_BIT, d[j - 1], d[j - 1], E)
    ensures Left(j - 1, DIGIT_BIT) == Left(j, 0)
  {
    assert Pow(2, 0) == 1;
    LowIs(d[j - 1]);
    hide H, V;
    HStep(d, j - 1, u);
    MulSwap(1, B, E);
    MulDistribute(j, 1, DIGIT_BIT);
  }

  /** The next bit, as the code extracts it. */
  function TopOf(buf: nat): nat {
    PowPositive(2, DIGIT_BIT - 1);
    buf / Pow(2, DIGIT_BIT - 1) % 2
  }

  lemma TopOfLow(buf: nat)
    ensures TopOf(buf) <= 1
    ensures TopOf(buf) == 1 <==> 2 * Low(buf) >= B
  {
    PowPositive(2, DIGIT_BIT - 1);
    var h := Pow(2, DIGIT_BIT - 1);
    assert B == 2 * h;
    hide Pow;
    LowHigh(buf);
    var l: nat := Low(buf);
    MulSwap(2, High(buf), h);
    if l >= h {
      MulDistribute(2 * High(buf), 1, h);
      DivModUnique(buf, h, 2 * High(buf) + 1, l - h);
    } else {
      DivModUnique(buf, h, 2 * High(buf), l);
    }
  }

  lemma ShiftBuffer(buf: nat)
    ensures Low(Digit(2 * buf)) == 2 * Low(buf) - TopOf(buf) * B
  {
    TopOfLow(buf);
    hide TopOf;
    DigitModulus();
    var k := Pow(2, DIGIT_SIZE - DIGIT_BIT);
    var q := (2 * buf) / DIGIT_MODULUS;
    assert 2 * buf == q * DIGIT_MODULUS + Digit(2 * buf);
    hide Pow, Digit;
    LowHigh(buf);
    var y := TopOf(buf);
    MulSwap(q, k, B);
    ShiftAlgebra(2 * buf, Digit(2 * buf), q * k, B, Low(buf), High(buf), y);
    DivModUnique(Digit(2 * buf), B, 2 * High(buf) - q * k + y, 2 * Low(buf) - y * B);
  }

  lemma ShiftAlgebra(b2: int, r: int, qk: int, b: int, l: int, h: int, y: int)
    requires b2 == qk * b + r && b2 == 2 * (l + h * b)
    ensures r == (2 * h - qk + y) * b + (2 * l - y * b)
  {
    MulDistribute(2 * h - qk, y, b);
    MulDistribute(2 * h, qk, b);
    MulSwap(2, h, b);
  }

  /** One bit moves from what is to come to what has been read. */
  lemma ReadBit(d: seq<MpDigit>, u: nat, j: nat, c: nat, buf: nat, low: nat, E: nat) returns (low': nat)
    requires u <= |d| && c > 0 && Reading(d, u, j, c, buf, low, E)
    ensures Reading(d, u, j, c - 1, Digit(2 * buf), low', 2 * E + TopOf(buf))
    ensures TopOf(buf) <= 1 && Left(j, c - 1) < Left(j, c)
  {
    hide H, V, Low, Digit, TopOf;
    TopOfLow(buf);
    ShiftBuffer(buf);
    var y := TopOf(buf);
    var p, q := Pow(2, c - 1), Pow(2, DIGIT_BIT - c);
    assert Pow(2, c) == 2 * p && Pow(2, DIGIT_BIT - (c - 1)) == 2 * q;
    PowAdd(2, c - 1, DIGIT_BIT - c);
    assert Pow(2, DIGIT_BIT) == 2 * Pow(2, DIGIT_BIT - 1);
    assert c - 1 + (DIGIT_BIT - c) == DIGIT_BIT - 1;
    PowPositive(2, DIGIT_BIT - c);
    hide Pow;
    low' := BitAlgebra(low, p, q, y, B);
    ReadAlgebra(E, p, low, y, low');
  }

  lemma BitAlgebra(low: nat, p: nat, q: nat, y: nat, b: nat) returns (low': nat)
    requires low < 2 * p && b == 2 * (p * q) && q > 0 && y <= 1
    requires y == 1 <==> 2 * (low * q) >= b
    ensures low' == low - y * p && low' < p
    ensures 2 * (low * q) - y * b == low' * (2 * q)
  {
    if y == 1 {
      if low < p {
        MulMonotone(low + 1, p, q);
        MulDistribute(low, 1, q);
      }
    } else if low >= p {
      MulMonotone(p, low, q);
    }
    low' := low - y * p;
    MulDistribute(low, y * p, q);
    MulSwap(y, p, q);
    MulSwap(low', 2, q);
  }

  lemma ReadAlgebra(E: int, p: int, low: int, y: int, low': int)
    requires low' == low - y * p
    ensures (2 * E + y) * p + low' == E * (2 * p) + low
  {
    MulDistribute(2 * E, y, p);
    MulSwap(E, 2, p);
  }

  /** The next bit of the exponent, or none when its digits are used up. */
  method NextBit(X: MpInt, digidx: int, bitcnt: nat, buf: nat, ghost low: nat, ghost E: nat)
    returns (more: bool, y: nat, digidx': int, bitcnt': nat, buf': nat, ghost low': nat)
    requires X.Wf() && digidx >= -1 && bitcnt >= 1 && Reading(X.dp, X.used, digidx + 1, bitcnt - 1, buf, low, E)
    ensures digidx' >= -1
    ensures !more ==> E == X.Mag()
    ensures more ==> bitcnt' >= 1 && y <= 1
                     && Reading(X.dp, X.used, digidx' + 1, bitcnt' - 1, buf', low', 2 * E + y)
                     && Left(digidx' + 1, bitcnt' - 1) < Left(digidx + 1, bitcnt - 1)
  {
    hide Reading, TopOf, Digit, V, Left;
    more, y, digidx', bitcnt', buf', low' := true, 0, digidx, bitcnt - 1, buf, low;
    if bitcnt' == 0 {
      if digidx' == -1 {
        ReadEnd(X.dp, X.used, buf, low, E);
        more := false;
        return;
      }
      ReadIndex(X.dp, X.used, digidx' + 1, 0, buf, low, E);
      ReadDigit(X.dp, X.used, digidx' + 1, buf, low, E);
      buf' := X.dp[digidx'];
      low' := X.dp[digidx'];
      digidx' := digidx' - 1;
      bitcnt' := DIGIT_BIT;
    }
    low' := ReadBit(X.dp, X.used, digidx' + 1, bitcnt', buf', low', E);
    y := TopOf(buf');
    buf' := Digit(2 * buf');
  }

  lemma ReadIndex(d: seq<MpDigit>, u: nat, j: nat, c: nat, buf: nat, low: nat, E: nat)
    requires u <= |d| && Reading(d, u, j, c, buf, low, E)
    ensures j <= u
  {}

  // ----- windows

  type WindowSize = w: nat | 2 <= w <= 8 witness 2
  const TAB_SIZE := 256

  /** bitcpy bits of the exponent, with value w, wait in bitbuf; the bits before them make up E0. */
  ghost predicate Window(ws: WindowSize, mode: nat, bitcpy: nat, bitbuf: nat, E: nat, E0: nat, w: nat) {
    && bitcpy < ws && mode <= 2 && (mode == 2 <==> bitcpy > 0) && (mode == 0 <==> E == 0)
    && (if bitcpy == 0 then w == 0 else Pow(2, bitcpy - 1) <= w) && w < Pow(2, bitcpy)
    && bitbuf == w * Pow(2, ws - bitcpy) && E == E0 * Pow(2, bitcpy) + w
  }

  lemma WindowIdle(ws: WindowSize, mode: nat, E: nat)
    requires mode <= 1 && (mode == 0 <==> E == 0)
    ensures Window(ws, mode, 0, 0, E, E, 0)
  {
    assert Pow(2, 0) == 1;
  }

  lemma WindowOpen(ws: WindowSize, mode: nat, bitcpy: nat, bitbuf: nat, E: nat, E0: nat, w: nat)
    requires Window(ws, mode, bitcpy, bitbuf, E, E0, w) && mode != 2
    ensures bitcpy == 0 && bitbuf == 0 && E == E0 && w == 0 && (mode == 0 <==> E == 0) && mode <= 1
  {
    assert Pow(2, 0) == 1;
  }

  /** b | (y << s) */
  function OrBit(b: nat, y: nat, s: nat): nat {
    PowPositive(2, s);
    if b / Pow(2, s) % 2 == 1 then b else b + y * Pow(2, s)
  }

  /** A further bit enters the window. */
  lemma WindowBit(ws: WindowSize, mode: nat, bitcpy: nat, bitbuf: nat, E: nat, E0: nat, w: nat, y: nat)
    requires Window(ws, mode, bitcpy, bitbuf, E, E0, w) && y <= 1 && (bitcpy == 0 ==> y == 1)
    ensures var b := OrBit(bitbuf, y, ws - (bitcpy + 1));
            && b == (2 * w + y) * Pow(2, ws - (bitcpy + 1))
            && Pow(2, bitcpy) <= 2 * w + y < Pow(2, bitcpy + 1)
            && 2 * E + y == E0 * Pow(2, bitcpy + 1) + (2 * w + y) == Ahead(E0, bitcpy + 1, 2 * w + y)
            && (bitcpy + 1 < ws ==> Window(ws, 2, bitcpy + 1, b, 2 * E + y, E0, 2 * w + y))
            && (bitcpy + 1 == ws ==> b == 2 * w + y)
  {
    var s := ws - (bitcpy + 1);
    PowPositive(2, s);
    assert Pow(2, ws - bitcpy) == 2 * Pow(2, s);
    assert Pow(2, bitcpy + 1) == 2 * Pow(2, bitcpy);
    assert bitcpy > 0 ==> Pow(2, bitcpy) == 2 * Pow(2, bitcpy - 1);
    assert Pow(2, 0) == 1;
    PowPositive(2, bitcpy);
    hide Pow;
    OrAlgebra(bitbuf, w, y, Pow(2, s));
    MulSwap(E0, 2, Pow(2, bitcpy));
    MulMonotone(0, E0, Pow(2, bitcpy));
  }

  lemma OrAlgebra(b: nat, w: nat, y: nat, p: nat)
    requires p > 0 && b == w * (2 * p)
    ensures b / p % 2 == 0 && b + y * p == (2 * w + y) * p
  {
    MulSwap(2, w, p);
    MulSwap(w, 2, p);
    DivModUnique(b, p, 2 * w, 0);
    MulDistribute(2 * w, y, p);
  }

  ghost predicate Entry(m: MpInt?, claim: Claim, g: int, n: nat, k: nat)
    requires n > 0
    reads m
  {
    m != null && m.Valid() && !m.neg && Rep(claim, m.Mag(), g, n, k)
  }

  /** The first power of the base, and the powers whose exponents have their top bit set. */
  ghost predicate Table(M: array<MpInt?>, ws: WindowSize, claim: Claim, g: int, n: nat, k: nat)
    requires n > 0
    reads M, M[..]
  {
    && M.Length == TAB_SIZE && Pow(2, ws) <= TAB_SIZE && Entry(M[1], claim, g, n, k)
    && forall i | Pow(2, ws - 1) <= i < Pow(2, ws) :: Entry(M[i], claim, Power(g, i), n, k)
  }

  ghost predicate Apart(M: array<MpInt?>, res: MpInt)
    reads M
  {
    res !in M[..]
  }

  /** The exponent E0 followed by k bits of value w. */
  ghost function Ahead(E0: nat, k: nat, w: nat): nat {
    E0 * Pow(2, k) + w
  }

  /** A full window: square past it and multiply by its entry. */
  method UseWindow(res: MpInt, M: array<MpInt?>, ws: WindowSize, bitbuf: nat, n: MpInt, red: Reducer,
                   ghost claim: Claim, ghost g: int, ghost E0: nat) returns (inside: bool)
    requires Ready(red, n, claim) && res != n && res !in Aux(red) && res.Valid() && !res.neg && Tidy(red, n, res) && Apart(M, res)
    requires Rep(claim, res.Mag(), Power(g, E0), n.Mag(), Scale(red, n))
    requires Table(M, ws, claim, g, n.Mag(), Scale(red, n)) && Pow(2, ws - 1) <= bitbuf < Pow(2, ws)
    requires Closed(claim, g, n.Mag())
    modifies res
    ensures inside ==> res.Valid() && !res.neg && Tidy(red, n, res) && res.Mag() < n.Mag()
    ensures inside ==> Rep(claim, res.Mag(), Power(g, Ahead(E0, ws, bitbuf)), n.Mag(), Scale(red, n))
    ensures Calm(red, n) ==> inside
  {
    hide V, P, Mod, Rep, Closed, Power, Pow, Ready, Table, Calm, SquareSpills;
    ReadyFacts(red, n, claim);
    inside := SquareTimes(res, ws, n, red, claim, g, E0);
    if !inside {
      return;
    }
    TableEntry(M, ws, bitbuf, claim, g, n.Mag(), Scale(red, n));
    ClosedFits(claim, g, n.Mag(), E0 * Pow(2, ws), bitbuf);
    inside := MultiplyStep(res, M[bitbuf], res, n, red, claim, Power(g, E0 * Pow(2, ws)), Power(g, bitbuf));
    if !inside {
      return;
    }
    PowerAdd(g, E0 * Pow(2, ws), bitbuf);
  }

  /** The main loop: all bits but those left in the last window. */
  method Scan(res: MpInt, M: array<MpInt?>, ws: WindowSize, X: MpInt, n: MpInt, red: Reducer,
              ghost claim: Claim, ghost g: int)
    returns (mode: nat, bitcpy: nat, bitbuf: nat, ghost E0: nat, ghost w: nat, inside: bool)
    requires Ready(red, n, claim) && res != n && res != X && res !in Aux(red) && res.Valid() && !res.neg && Tidy(red, n, res) && Apart(M, res)
    requires X.Valid() && Rep(claim, res.Mag(), Power(g, 0), n.Mag(), Scale(red, n))
    requires Table(M, ws, claim, g, n.Mag(), Scale(red, n))
    requires Closed(claim, g, n.Mag())
    modifies res
    ensures inside ==> res.Valid() && !res.neg && Tidy(red, n, res) && Rep(claim, res.Mag(), Power(g, E0), n.Mag(), Scale(red, n))
    ensures inside ==> (Window(ws, mode, bitcpy, bitbuf, X.Mag(), E0, w) && (E0 > 0 ==> res.Mag() < n.Mag()))
    ensures inside ==> (X.Mag() == 0 ==> res.Mag() == old(res.Mag()))
    ensures Calm(red, n) ==> inside
  {
    hide V, P, Mod, Rep, Closed, Power, Pow, Window, Reading, Ready, Table, Left, OrBit, Calm;
    inside := true;
    mode, bitcpy, bitbuf, E0, w := 0, 0, 0, 0, 0;
    ghost var E: nat, low: nat := 0, 0;
    WindowIdle(ws, 0, 0);
    ReadStart(X.dp, X.used);
    ReadyFacts(red, n, claim);
    var digidx: int, bitcnt: nat, buf: nat := X.used - 1, 1, 0;
    var more := true;
    while more
      invariant res.Valid() && !res.neg && Tidy(red, n, res) && X.Valid() && Ready(red, n, claim) && n.Valid() && n.Mag() == old(n.Mag()) > 0
      invariant Table(M, ws, claim, g, n.Mag(), Scale(red, n)) && Apart(M, res)
      invariant Rep(claim, res.Mag(), Power(g, E0), n.Mag(), Scale(red, n))
      invariant Window(ws, mode, bitcpy, bitbuf, E, E0, w) && (E0 > 0 ==> res.Mag() < n.Mag())
      invariant E == 0 ==> res.Mag() == old(res.Mag())
      invariant digidx >= -1 && (more ==> bitcnt >= 1)
      invariant more ==> Reading(X.dp, X.used, digidx + 1, bitcnt - 1, buf, low, E)
      invariant !more ==> E == X.Mag()
      invariant inside
      modifies res
      decreases more, Left(digidx + 1, if bitcnt > 0 then bitcnt - 1 else 0)
    {
      var y;
      more, y, digidx, bitcnt, buf, low := NextBit(X, digidx, bitcnt, buf, low, E);
      if more {
        mode, bitcpy, bitbuf, E0, w, inside := TakeBit(res, M, ws, y, mode, bitcpy, bitbuf, n, red, claim, g, E, E0, w);
        if !inside {
          return;
        }
        E := 2 * E + y;
      }
    }
  }

  /** What is done with one bit. */
  method TakeBit(res: MpInt, M: array<MpInt?>, ws: WindowSize, y: nat, mode: nat, bitcpy: nat, bitbuf: nat,
                 n: MpInt, red: Reducer, ghost claim: Claim, ghost g: int, ghost E: nat, ghost E0: nat, ghost w: nat)
    returns (mode': nat, bitcpy': nat, bitbuf': nat, ghost E0': nat, ghost w': nat, inside: bool)
    requires Ready(red, n, claim) && res != n && res !in Aux(red) && res.Valid() && !res.neg && Tidy(red, n, res) && Apart(M, res)
    requires Table(M, ws, claim, g, n.Mag(), Scale(red, n)) && y <= 1
    requires Rep(claim, res.Mag(), Power(g, E0), n.Mag(), Scale(red, n)) && Window(ws, mode, bitcpy, bitbuf, E, E0, w)
    requires E0 > 0 ==> res.Mag() < n.Mag()
    requires Closed(claim, g, n.Mag())
    modifies res
    ensures inside ==> res.Valid() && !res.neg && Tidy(red, n, res) && Rep(claim, res.Mag(), Power(g, E0'), n.Mag(), Scale(red, n))
    ensures inside ==> (E0' > 0 ==> res.Mag() < n.Mag())
    ensures inside ==> (2 * E + y == 0 ==> res.Mag() == old(res.Mag()))
    ensures inside ==> Window(ws, mode', bitcpy', bitbuf', 2 * E + y, E0', w')
    ensures Calm(red, n) ==> inside
  {
    hide V, P, Mod, Rep, Closed, Power, Pow, Table, OrBit, Ready, Window, Ahead, Calm, SquareSpills;
    inside := true;
    WindowFacts(ws, mode, bitcpy, bitbuf, E, E0, w);
    mode', bitcpy', bitbuf', E0', w' := mode, bitcpy, bitbuf, E0, w;
    if mode == 0 && y == 0 {
      WindowOpen(ws, mode, bitcpy, bitbuf, E, E0, w);
      return;
    }
    if mode == 1 && y == 0 {
      WindowOpen(ws, mode, bitcpy, bitbuf, E, E0, w);
      inside := SquarePower(res, n, red, claim, g, E0);
      if !inside {
        return;
      }
      E0' := 2 * E0;
      WindowIdle(ws, 1, E0');
      return;
    }
    if mode != 2 {
      WindowOpen(ws, mode, bitcpy, bitbuf, E, E0, w);
    }
    WindowBit(ws, mode, bitcpy, bitbuf, E, E0, w, y);
    bitcpy' := bitcpy + 1;
    bitbuf' := OrBit(bitbuf, y, ws - bitcpy');
    mode' := 2;
    w' := 2 * w + y;
    if bitcpy' == ws {
      inside := UseWindow(res, M, ws, bitbuf', n, red, claim, g, E0);
      if !inside {
        return;
      }
      E0' := 2 * E + y;
      WindowIdle(ws, 1, E0');
      bitcpy', bitbuf', mode', w' := 0, 0, 1, 0;
    }
  }

  // ----- the bits left in the last window

  /** Bit s of w, read from the window after it has been shifted up. */
  lemma WindowTop(ws: nat, w: nat, s: nat, bitbuf: nat)
    requires s <= ws && bitbuf == w * Pow(2, ws - s)
    ensures Pow(2, ws) > 0 && Pow(2, s) > 0 && bitbuf / Pow(2, ws) == Quot(w, Pow(2, s))
  {
    PowPositive(2, ws);
    PowPositive(2, s);
    PowPositive(2, ws - s);
    PowAdd(2, s, ws - s);
    hide Pow, Quot, Mod;
    var a, b, q, r := Pow(2, s), Pow(2, ws - s), Quot(w, Pow(2, s)), Mod(w, Pow(2, s));
    QuotMod(w, a);
    TopSplit(w, q, a, r, b);
    DivModUnique(bitbuf, a * b, q, r * b);
  }

  lemma TopSplit(w: int, q: int, a: int, r: int, b: int)
    requires w == q * a + r && 0 <= r < a && b > 0
    ensures w * b == q * (a * b) + r * b && 0 <= r * b < a * b
  {
    MulDistribute(q * a, r, b);
    MulSwap(q, a, b);
    MulMonotone(0, r, b);
    MulMonotone(r + 1, a, b);
    MulDistribute(r, 1, b);
  }

  lemma HalfQuotient(w: nat, s: nat)
    ensures Pow(2, s) > 0 && Pow(2, s + 1) > 0
    ensures Quot(w, Pow(2, s)) == 2 * Quot(w, Pow(2, s + 1)) + Quot(w, Pow(2, s)) % 2
  {
    PowPositive(2, s);
    assert Pow(2, s + 1) == Pow(2, s) * 2;
    hide Pow;
    DivDiv(w, Pow(2, s), 2);
    assert Quot(Quot(w, Pow(2, s)), 2) == Quot(w, Pow(2, s)) / 2;
  }

  lemma TailExponent(g: int, e: nat, y: nat)
    requires y <= 1
    ensures Power(g, e) * Power(g, e) == Power(g, 2 * e)
    ensures Power(g, 2 * e) * g == Power(g, 2 * e + 1)
  {
    PowerAdd(g, e, e);
    assert Power(g, 2 * e + 1) == g * Power(g, 2 * e);
    MulSwap(1, g, Power(g, 2 * e));
  }

  /** After x of its bits the window is shifted by x, and e is the exponent with them appended. */
  ghost predicate TailAt(ws: nat, w: nat, bitcpy: nat, x: nat, bb: nat, E0: nat, e: nat)
    requires x <= bitcpy <= ws
  {
    && Pow(2, bitcpy - x) > 0 && bb == w * Pow(2, ws - (bitcpy - x))
    && e == E0 * Pow(2, x) + Quot(w, Pow(2, bitcpy - x))
  }

  lemma TailTurn(ws: nat, w: nat, bitcpy: nat, x: nat, bb: nat, E0: nat, e: nat)
    requires x < bitcpy <= ws && TailAt(ws, w, bitcpy, x, bb, E0, e)
    ensures Pow(2, ws) > 0 && TailAt(ws, w, bitcpy, x + 1, 2 * bb, E0, 2 * e + 2 * bb / Pow(2, ws) % 2)
  {
    hide Pow, Quot;
    var s := bitcpy - x - 1;
    TailNext(ws, w, s, bb, E0, x);
    WindowTop(ws, w, s, 2 * bb);
    HalfQuotient(w, s);
  }

  lemma TailEnds(ws: nat, w: nat, bitcpy: nat, E0: nat)
    requires bitcpy <= ws && w < Pow(2, bitcpy)
    ensures TailAt(ws, w, bitcpy, 0, w * Pow(2, ws - bitcpy), E0, E0)
    ensures forall bb: nat, e: nat | TailAt(ws, w, bitcpy, bitcpy, bb, E0, e) :: e == Ahead(E0, bitcpy, w)
  {
    TailStart(E0, w, bitcpy);
    QuotOne(w);
  }
  /** One of the remaining bits: square, then multiply if the bit is set. */
  method TailBit(res: MpInt, M: array<MpInt?>, ws: WindowSize, y: nat, n: MpInt, red: Reducer,
                 ghost claim: Claim, ghost g: int, ghost e: nat) returns (inside: bool)
    requires Ready(red, n, claim) && res != n && res !in Aux(red) && res.Valid() && !res.neg && Tidy(red, n, res) && Apart(M, res)
    requires Table(M, ws, claim, g, n.Mag(), Scale(red, n)) && Closed(claim, g, n.Mag()) && y <= 1
    requires Rep(claim, res.Mag(), Power(g, e), n.Mag(), Scale(red, n))
    modifies res
    ensures n.Valid() && n.Mag() > 0 && Ready(red, n, claim)
    ensures Calm(red, n) ==> inside
    ensures inside ==> res.Valid() && !res.neg && Tidy(red, n, res) && res.Mag() < n.Mag()
    ensures inside ==> Rep(claim, res.Mag(), Power(g, 2 * e + y), n.Mag(), Scale(red, n))
  {
    hide V, P, Mod, Rep, Closed, Power, Pow, Ready, Table, Calm, SquareSpills;
    ReadyFacts(red, n, claim);
    TailExponent(g, e, y);
    inside := SquarePower(res, n, red, claim, g, e);
    if !inside {
      return;
    }
    if y != 0 {
      TableFirst(M, ws, claim, g, n.Mag(), Scale(red, n));
      PowerOne(g);
      ClosedFits(claim, g, n.Mag(), 2 * e, 1);
      inside := MultiplyStep(res, M[1], res, n, red, claim, Power(g, 2 * e), g);
    }
  }

  /** Square and multiply through the bits that did not fill a window. */
  method Tail(res: MpInt, M: array<MpInt?>, ws: WindowSize, bitcpy: nat, bitbuf: nat, n: MpInt, red: Reducer,
              ghost claim: Claim, ghost g: int, ghost E0: nat, ghost w: nat) returns (inside: bool)
    requires Ready(red, n, claim) && res != n && res !in Aux(red) && res.Valid() && !res.neg && Tidy(red, n, res) && Apart(M, res)
    requires Table(M, ws, claim, g, n.Mag(), Scale(red, n))
    requires Rep(claim, res.Mag(), Power(g, E0), n.Mag(), Scale(red, n))
    requires bitcpy < ws && w < Pow(2, bitcpy) && bitbuf == w * Pow(2, ws - bitcpy)
    requires Closed(claim, g, n.Mag())
    modifies res
    ensures inside ==> (res.Valid() && !res.neg && Tidy(red, n, res) && (bitcpy > 0 ==> res.Mag() < n.Mag()))
    ensures inside ==> (bitcpy == 0 ==> res.Mag() == old(res.Mag()))
    ensures inside ==> Rep(claim, res.Mag(), Power(g, Ahead(E0, bitcpy, w)), n.Mag(), Scale(red, n))
    ensures Calm(red, n) ==> inside
  {
    hide V, P, Mod, Rep, Closed, Power, Pow, Ready, Table, Ahead, TailAt, Calm;
    inside := true;
    ReadyFacts(red, n, claim);
    TailEnds(ws, w, bitcpy, E0);
    var x: nat, bb: nat := 0, bitbuf;
    ghost var e: nat := E0;
    while x < bitcpy
      invariant 0 <= x <= bitcpy && res.Valid() && !res.neg && Tidy(red, n, res) && Ready(red, n, claim) && n.Valid() && n.Mag() == old(n.Mag()) > 0
      invariant Table(M, ws, claim, g, n.Mag(), Scale(red, n)) && Apart(M, res)
      invariant TailAt(ws, w, bitcpy, x, bb, E0, e)
      invariant Rep(claim, res.Mag(), Power(g, e), n.Mag(), Scale(red, n))
      invariant if x > 0 then res.Mag() < n.Mag() else res.Mag() == old(res.Mag())
      invariant inside
      modifies res
    {
      TailTurn(ws, w, bitcpy, x, bb, E0, e);
      bb := 2 * bb;
      var y := bb / Pow(2, ws) % 2;
      inside := TailBit(res, M, ws, y, n, red, claim, g, e);
      if !inside {
        return;
      }
      e := 2 * e + y;
      x := x + 1;
    }
  }

  lemma QuotOne(w: nat)
    ensures Pow(2, 0) == 1 && Quot(w, Pow(2, 0)) == w
  {
    ModIs(w, 1, w, 0);
  }

  lemma TableEntry(M: array<MpInt?>, ws: WindowSize, i: nat, claim: Claim, g: int, n: nat, k: nat)
    requires n > 0 && Table(M, ws, claim, g, n, k) && Pow(2, ws - 1) <= i < Pow(2, ws)
    ensures i < M.Length && Entry(M[i], claim, Power(g, i), n, k)
  {}

  lemma TableFirst(M: array<MpInt?>, ws: WindowSize, claim: Claim, g: int, n: nat, k: nat)
    requires n > 0 && Table(M, ws, claim, g, n, k)
    ensures M.Length == TAB_SIZE && Entry(M[1], claim, g, n, k)
  {}

  lemma TailStart(E0: nat, w: nat, bitcpy: nat)
    requires w < Pow(2, bitcpy)
    ensures E0 == E0 * Pow(2, 0) + Quot(w, Pow(2, bitcpy))
  {
    assert Pow(2, 0) == 1;
    ModIs(w, Pow(2, bitcpy), 0, w);
  }

  lemma TailNext(ws: nat, w: nat, s: nat, bb: nat, E0: nat, x: nat)
    requires s + 1 <= ws && bb == w * Pow(2, ws - (s + 1))
    ensures 2 * bb == w * Pow(2, ws - s)
    ensures 2 * (E0 * Pow(2, x)) == E0 * Pow(2, x + 1)
  {
    assert Pow(2, ws - s) == 2 * Pow(2, ws - (s + 1));
    MulSwap(w, 2, Pow(2, ws - (s + 1)));
    MulSwap(E0, 2, Pow(2, x));
  }

  // ----- the table

  lemma TableSize(ws: WindowSize)
    ensures 2 <= Pow(2, ws - 1) && 2 * Pow(2, ws - 1) == Pow(2, ws) <= TAB_SIZE
  {
    PowMonotone(2, 1, ws - 1);
    PowMonotone(2, ws, 8);
    PowAdd(2, 4, 4);
    assert Pow(2, 4) == 16 && Pow(2, 1) == 2;
  }

  /** Entries lo..hi hold distinct fresh numbers, apart from entry one. */
  ghost predicate Slots(M: array<MpInt?>, lo: nat, hi: nat)
    reads M
  {
    && 1 < lo && hi <= M.Length == TAB_SIZE && M[1] != null
    && (forall i | lo <= i < hi :: M[i] != null && M[i] != M[1])
    && (forall i, j | lo <= i < j < hi :: M[i] != M[j])
  }

  /** Initialise the entries that will be used; the others are never touched. */
  method InitTable(ws: WindowSize) returns (M: array<MpInt?>)
    ensures fresh(M) && M.Length == TAB_SIZE && M[1] != null && M[1].Valid()
    ensures Slots(M, Pow(2, ws - 1), Pow(2, ws))
    ensures Blank(M, Pow(2, ws - 1), Pow(2, ws))
    ensures forall i | 0 <= i < TAB_SIZE && M[i] != null :: fresh(M[i]) && M[i].Valid() && M[i].Zeroed() && !M[i].neg
  {
    TableSize(ws);
    hide Pow;
    M := InitCells(Pow(2, ws - 1), Pow(2, ws));
    assert Unused(M[1]);
  }

  ghost predicate Unused(c: MpInt)
    reads c
  {
    c.Valid() && c.Zeroed() && !c.neg
  }

  method NewCell() returns (c: MpInt)
    ensures fresh(c) && Unused(c)
  {
    c := new MpInt();
  }

  method InitCells(lo: nat, hi: nat) returns (M: array<MpInt?>)
    requires 1 < lo <= hi <= TAB_SIZE
    ensures fresh(M) && M.Length == TAB_SIZE && M[1] != null && Slots(M, lo, hi)
    ensures forall i | 0 <= i < TAB_SIZE && M[i] != null :: fresh(M[i]) && Unused(M[i])
  {
    hide Unused;
    M := new MpInt?[TAB_SIZE](_ => null);
    var one := NewCell();
    M[1] := one;
    var x := lo;
    while x < hi
      invariant lo <= x <= hi && Slots(M, lo, x)
      invariant forall i | 0 <= i < TAB_SIZE && M[i] != null :: fresh(M[i]) && Unused(M[i])
      invariant forall i | x <= i < TAB_SIZE :: M[i] == null
      modifies M
    {
      var cell := NewCell();
      M[x] := cell;
      x := x + 1;
    }
  }

  ghost predicate Powers(M: array<MpInt?>, lo: nat, hi: nat, claim: Claim, g: int, n: nat, k: nat)
    requires n > 0 && hi <= M.Length
    reads M, M[..]
  {
    forall i | lo <= i < hi :: Entry(M[i], claim, Power(g, i), n, k)
  }

  /** The entry with only its top bit set, by squaring the first. */
  method FirstEntry(M: array<MpInt?>, ws: WindowSize, n: MpInt, red: Reducer, ghost claim: Claim, ghost g: int)
    returns (inside: bool)
    requires Ready(red, n, claim) && Slots(M, Pow(2, ws - 1), Pow(2, ws)) && Pow(2, ws - 1) < Pow(2, ws)
    requires n !in M[..] && Aux(red) !! (set o | o in M[..])
    requires Entry(M[1], claim, g, n.Mag(), Scale(red, n)) && M[Pow(2, ws - 1)].Valid() && M[Pow(2, ws - 1)].Zeroed()
    requires Closed(claim, g, n.Mag())
    modifies M[Pow(2, ws - 1)]
    ensures inside ==> Entry(M[Pow(2, ws - 1)], claim, Power(g, Pow(2, ws - 1)), n.Mag(), Scale(red, n))
    ensures Calm(red, n) ==> inside
    ensures old(M[1] != null && M[1].Wf() && SquareSpills(red, n, M[1].Mag())) ==> !inside
  {
    hide V, P, Mod, Rep, Closed, Power, Pow, Ready, Calm, SquareSpills;
    ReadyFacts(red, n, claim);
    var h := Pow(2, ws - 1);
    Copy(M[1], M[h]);
    PowerOne(g);
    inside := SquareTimes(M[h], ws - 1, n, red, claim, g, 1);
    if !inside {
      return;
    }
  }

  /** The entries still to be computed hold numbers. */
  ghost predicate Blank(M: array<MpInt?>, lo: nat, hi: nat)
    requires hi <= M.Length
    reads M, M[..]
  {
    forall i | lo <= i < hi :: M[i] != null && M[i].Valid() && M[i].Zeroed()
  }

  method NextEntry(M: array<MpInt?>, lo: nat, x: nat, hi: nat, n: MpInt, red: Reducer, ghost claim: Claim, ghost g: int)
    returns (inside: bool)
    requires Ready(red, n, claim) && Slots(M, lo, hi) && lo < x < hi
    requires n !in M[..] && Aux(red) !! (set o | o in M[..])
    requires Entry(M[1], claim, g, n.Mag(), Scale(red, n)) && Powers(M, lo, x, claim, g, n.Mag(), Scale(red, n))
    requires Blank(M, x, hi)
    requires Closed(claim, g, n.Mag())
    modifies M[x]
    ensures inside ==> Ready(red, n, claim) && Scale(red, n) == old(Scale(red, n)) && n.Valid() && n.Mag() == old(n.Mag()) > 0
    ensures inside ==> Entry(M[1], claim, g, n.Mag(), Scale(red, n)) && Powers(M, lo, x + 1, claim, g, n.Mag(), Scale(red, n))
    ensures inside ==> Blank(M, x + 1, hi)
    ensures Calm(red, n) ==> inside
  {
    hide V, P, Mod, Rep, Closed, Power, Pow, Ready, Calm;
    ReadyFacts(red, n, claim);
    ghost var k := Scale(red, n);
    assert Entry(M[x - 1], claim, Power(g, x - 1), n.Mag(), k);
    PowerOne(g);
    ClosedFits(claim, g, n.Mag(), x - 1, 1);
    inside := MultiplyStep(M[x - 1], M[1], M[x], n, red, claim, Power(g, x - 1), g);
    if !inside {
      return;
    }
    PowerNext(g, x);
  }

  method FillTable(M: array<MpInt?>, ws: WindowSize, n: MpInt, red: Reducer, ghost claim: Claim, ghost g: int)
    returns (inside: bool)
    requires Ready(red, n, claim) && Slots(M, Pow(2, ws - 1), Pow(2, ws)) && M.Length == TAB_SIZE
    requires n !in M[..] && Aux(red) !! (set o | o in M[..])
    requires Blank(M, Pow(2, ws - 1), Pow(2, ws))
    requires Entry(M[1], claim, g, n.Mag(), Scale(red, n))
    requires Closed(claim, g, n.Mag())
    modifies M[..]
    ensures inside ==> Ready(red, n, claim) && Scale(red, n) == old(Scale(red, n)) && n.Valid() && n.Mag() == old(n.Mag()) > 0
    ensures inside ==> Table(M, ws, claim, g, n.Mag(), Scale(red, n))
    ensures Calm(red, n) ==> inside
    ensures old(M[1] != null && M[1].Wf() && SquareSpills(red, n, M[1].Mag())) ==> !inside
  {
    TableSize(ws);
    hide V, P, Mod, Rep, Closed, Power, Pow, Ready, Calm, SquareSpills;
    ReadyFacts(red, n, claim);
    var lo, hi := Pow(2, ws - 1), Pow(2, ws);
    inside := FirstEntry(M, ws, n, red, claim, g);
    if !inside {
      return;
    }
    assert Powers(M, lo, lo + 1, claim, g, n.Mag(), Scale(red, n));
    hide Powers, Blank, Slots, Entry;
    var x: nat := lo + 1;
    while x < hi
      invariant lo < x <= hi && Ready(red, n, claim) && n.Valid() && n.Mag() == old(n.Mag()) > 0
      invariant Scale(red, n) == old(Scale(red, n)) && Entry(M[1], claim, g, n.Mag(), Scale(red, n))
      invariant Powers(M, lo, x, claim, g, n.Mag(), Scale(red, n)) && Blank(M, x, hi) && Slots(M, lo, hi)
      invariant inside
    {
      inside := NextEntry(M, lo, x, hi, n, red, claim, g);
      if !inside {
        return;
      }
      x := x + 1;
    }
    MakeTable(M, ws, claim, g, n.Mag(), Scale(red, n));
  }

  lemma MakeTable(M: array<MpInt?>, ws: WindowSize, claim: Claim, g: int, n: nat, k: nat)
    requires n > 0 && M.Length == TAB_SIZE && Pow(2, ws) <= TAB_SIZE && Entry(M[1], claim, g, n, k)
    requires Powers(M, Pow(2, ws - 1), Pow(2, ws), claim, g, n, k)
    ensures Table(M, ws, claim, g, n, k)
  {}

  lemma PowerNext(g: int, x: nat)
    requires x > 0
    ensures Power(g, x - 1) * g == Power(g, x)
  {}

  // ----- the two routines

  /** The window for an exponent of x bits. */
  function WindowFor(x: nat): WindowSize {
    if x <= 7 then 2
    else if x <= 36 then 3
    else if x <= 140 then 4
    else if x <= 450 then 5
    else if x <= 1303 then 6
    else if x <= 3529 then 7
    else 8
  }

  /** res, standing for one, becomes the power of the base in M[1] given by X. */
  method Exponentiate(res: MpInt, M: array<MpInt?>, ws: WindowSize, X: MpInt, n: MpInt, red: Reducer,
                      ghost claim: Claim, ghost g: int) returns (inside: bool)
    requires Ready(red, n, claim) && res != n && res != X && res !in Aux(red) && res.Valid() && !res.neg && Tidy(red, n, res) && Apart(M, res)
    requires X.Valid() && X !in M[..] && n !in M[..] && Aux(red) !! (set o | o in M[..])
    requires Slots(M, Pow(2, ws - 1), Pow(2, ws)) && M.Length == TAB_SIZE && Blank(M, Pow(2, ws - 1), Pow(2, ws))
    requires Entry(M[1], claim, g, n.Mag(), Scale(red, n)) && Rep(claim, res.Mag(), 1, n.Mag(), Scale(red, n))
    requires Closed(claim, g, n.Mag())
    modifies res, M[..]
    ensures inside ==> Ready(red, n, claim) && Scale(red, n) == old(Scale(red, n)) && n.Valid() && n.Mag() == old(n.Mag()) > 0
    ensures inside ==> res.Valid() && !res.neg && Tidy(red, n, res) && Rep(claim, res.Mag(), Power(g, X.Mag()), n.Mag(), Scale(red, n))
    ensures inside ==> (if X.Mag() > 0 then res.Mag() < n.Mag() else res.Mag() == old(res.Mag()))
    ensures Calm(red, n) ==> inside
    ensures old(M[1] != null && M[1].Wf() && SquareSpills(red, n, M[1].Mag())) ==> !inside
  {
    hide V, P, Mod, Rep, Closed, Power, Pow, Ready, Table, Entry, Blank, Slots, Window, Calm, SquareSpills;
    PowerOne(g);
    inside := FillTable(M, ws, n, red, claim, g);
    if !inside {
      return;
    }
    var mode, bitcpy, bitbuf, E0, w, stays := Scan(res, M, ws, X, n, red, claim, g);
    inside := stays;
    if !inside {
      return;
    }
    WindowFacts(ws, mode, bitcpy, bitbuf, X.Mag(), E0, w);
    if mode == 2 && bitcpy > 0 {
      inside := Tail(res, M, ws, bitcpy, bitbuf, n, red, claim, g, E0, w);
      if !inside {
        return;
      }
    }
  }

  lemma WindowFacts(ws: WindowSize, mode: nat, bitcpy: nat, bitbuf: nat, E: nat, E0: nat, w: nat)
    requires Window(ws, mode, bitcpy, bitbuf, E, E0, w)
    ensures bitcpy < ws && (mode == 2 <==> bitcpy > 0)
    ensures w < Pow(2, bitcpy) && bitbuf == w * Pow(2, ws - bitcpy) && E == E0 * Pow(2, bitcpy) + w
    ensures bitcpy == 0 ==> E == E0
    ensures bitcpy > 0 ==> E > 0
  {
    assert Pow(2, 0) == 1;
    if bitcpy > 0 {
      PowPositive(2, bitcpy - 1);
      MulMonotone(0, E0, Pow(2, bitcpy));
    }
  }

  /** Remainders represent what they are remainders of. */
  lemma RepMod(v: nat, x: int, g: int, n: nat, k: nat)
    requires n > 0 && v == Mod(x, n) && Mod(x, n) == Mod(g * P(k), n)
    ensures Rep(Residues, v, g, n, k)
  {
    hide P;
    ModSmall(v, n);
  }

  lemma RepAs(claim: Claim, v: nat, g: int, n: nat, k: nat)
    requires n > 0 && Rep(Residues, v, g, n, k)
    requires claim.Remainders? ==> claim.w > 0 && v == Mod(g, claim.w)
    ensures Rep(claim, v, g, n, k)
  {}

  /** A small base is its own remainder by any larger number. */
  lemma SmallBase(g: int, m: nat, w: nat)
    requires 0 <= g < m < w
    ensures Mod(g, m) == g == Mod(g, w) && Mod(1, w) == 1
  {
    ModSmall(g, m);
    ModSmall(g, w);
    ModSmall(1, w);
  }

  /** Scaling the base multiplies it by P(m.used) mod m; that product is exact. */
  ghost predicate ScalesBase(G: MpInt, m: MpInt)
    requires G.used <= |G.dp| && m.used <= |m.dp| && m.Mag() > 0
    reads G, m
  {
    Exact(G.Val(), Mod(P(m.used), m.Mag()))
  }

  /** That is so for every base that is not negative, and for every modulus too short for Toom-Cook. */
  lemma ScalesMost(G: MpInt, m: MpInt)
    requires G.Valid() && m.Valid() && m.Mag() > 0 && (!G.neg || m.used < TOOM_MUL_CUTOFF)
    ensures ScalesBase(G, m)
  {
    var r: nat := Mod(P(m.used), m.Mag());
    SignOf(G);
    VBound(m.dp, m.used);
    hide P, V, Mod, Faulty, InnerExact;
    ShortLen(r, m.used);
  }

  /** Montgomery mode: res := P(m.used) mod m, which stands for one, and M1 := G scaled. */
  method StartMontgomery(G: MpInt, m: MpInt, res: MpInt, M1: MpInt, ghost claim: Claim)
    requires G.Valid() && m.Valid() && !m.neg && m.Mag() > 1 && m.Mag() % 2 == 1 && res.Wf() && M1.Wf()
    requires res != m && res != G && M1 != m && M1 != res && M1 != G
    requires !claim.Remainders? && (claim.Residues? ==> ScalesBase(G, m))
    modifies res, M1
    ensures Entry(M1, claim, G.Val(), m.Mag(), m.used)
    ensures res.Valid() && res.Zeroed() && !res.neg && Rep(claim, res.Mag(), 1, m.Mag(), m.used)
  {
    hide V, P, Mod, IsPowerOfTwo, Remainder;
    MagZero(m);
    OddIsNoPower(m.Mag());
    ghost var n, k, g := m.Mag(), m.used, G.Val();
    Normalization(res, m);
    RepMod(res.Mag(), P(k), 1, n, k);
    ghost var r := res.Mag();
    UsedOrder(res, m);
    var _ := Mulmod(G, res, m, M1);
    SignOf(M1);
    if claim.Residues? {
      RemainderIsMod(g * r, n);
      ModMul(g, g, r, P(k), n);
      RepMod(M1.Mag(), g * r, g, n, k);
    }
  }

  /** The other modes: res := 1 and M1 := G mod m. */
  method StartPlain(G: MpInt, m: MpInt, res: MpInt, M1: MpInt, ghost claim: Claim)
    requires G.Valid() && m.Valid() && !m.neg && m.Mag() > 0 && res.Wf() && M1.Wf()
    requires res != m && res != G && M1 != m && M1 != res && M1 != G
    requires claim.Remainders? ==> 0 <= G.Val() < m.Mag() < claim.w
    modifies res, M1
    ensures Entry(M1, claim, G.Val(), m.Mag(), 0) && M1.Wf() && M1.Mag() == Mod(G.Val(), m.Mag())
    ensures res.Valid() && res.Zeroed() && !res.neg && res.Mag() == 1 && Rep(claim, res.Mag(), 1, m.Mag(), 0)
  {
    hide V, Mod, Remainder;
    ghost var n, g := m.Mag(), G.Val();
    PNext(0);
    Set(res, 1);
    SignOf(res);
    var _ := Modulo(G, m, M1);
    RemainderIsMod(g, n);
    SignOf(M1);
    RepMod(M1.Mag(), g, g, n, 0);
    if claim.Remainders? {
      SmallBase(g, n, claim.w);
    }
    RepOne(n);
    RepAs(claim, M1.Mag(), g, n, 0);
    RepAs(claim, 1, 1, n, 0);
  }

  lemma RepOne(n: nat)
    requires n > 0
    ensures Rep(Residues, 1, 1, n, 0)
  {
    PNext(0);
  }

  /** Set res and the first entry of the table, leaving the others alone. */
  method Start(G: MpInt, m: MpInt, res: MpInt, M: array<MpInt?>, ghost lo: nat, ghost hi: nat, ghost claim: Claim, redmode: nat)
    requires G.Valid() && m.Valid() && !m.neg && m.Mag() > 0 && res.Wf()
    requires redmode == 0 ==> m.Mag() > 1 && m.Mag() % 2 == 1
    requires redmode == 0 ==> !claim.Remainders? && (claim.Residues? ==> ScalesBase(G, m))
    requires claim.Remainders? ==> 0 <= G.Val() < m.Mag() < claim.w
    requires Slots(M, lo, hi) && Blank(M, lo, hi) && M[1].Valid()
    requires res != m && res != G && M[1] != m && M[1] != res && M[1] != G && res !in M[..]
    modifies res, M[1]
    ensures Blank(M, lo, hi)
    ensures Entry(M[1], claim, G.Val(), m.Mag(), if redmode == 0 then m.used else 0)
    ensures redmode != 0 ==> M[1].Wf() && M[1].Mag() == Mod(G.Val(), m.Mag())
    ensures res.Valid() && res.Zeroed() && !res.neg && (redmode != 0 ==> res.Mag() == 1)
    ensures Rep(claim, res.Mag(), 1, m.Mag(), if redmode == 0 then m.used else 0)
  {
    hide V, Mod, Rep, Entry;
    if redmode == 0 {
      StartMontgomery(G, m, res, M[1], claim);
    } else {
      StartPlain(G, m, res, M[1], claim);
    }
  }

  /** When mp_exptmod_fast is known to return the power. */
  ghost predicate FastSound(G: MpInt, m: MpInt, redmode: nat, gap: nat)
    requires G.used <= |G.dp| && m.used <= |m.dp| && m.Mag() > 0
    reads G, m
  {
    if redmode == 0 then ScalesBase(G, m) else gap < B || Mod(B, m.Mag()) == 0
  }

  /** With the gap lost, all powers of the base have remainders by m + B below m. */
  ghost predicate LostPowers(G: MpInt, m: MpInt)
    requires G.used <= |G.dp| && m.used <= |m.dp|
    reads G, m
  {
    0 <= G.Val() < m.Mag() && Closed(Remainders(m.Mag() + B), G.Val(), m.Mag())
  }

  /** An odd number has an odd lowest digit. */
  lemma OddDigit(d: seq<MpDigit>, u: nat)
    requires 0 < u <= |d|
    ensures d[0] % 2 == V(d, u) % 2
  {
    HEnds(d, u);
    HStep(d, 0, u);
    var p := Pow(2, DIGIT_BIT - 1);
    assert B == 2 * p;
    hide *;
    EvenPart(d[0], p, H(d, 1, u));
  }

  lemma EvenPart(x: nat, p: nat, h: nat)
    ensures x % 2 == (x + (2 * p) * h) % 2
  {
    MulSwap(2, p, h);
    ModAddMultiple(x, p * h, 2);
  }

  lemma SameGap(n: MpInt, g: nat, h: nat)
    requires Short(n, g) && Short(n, h)
    ensures g == h
  {
    hide V, Pow, BitLength;
    var p :| p > 0 && BitLength(n.dp, n.used, p) && n.Mag() + g == Pow(2, p);
    ShortBits(n, h, p);
  }

  lemma GapPositive(n: MpInt, gap: nat)
    requires Short(n, gap)
    ensures gap > 0
  {
    hide V, Pow, BitLength;
    var p :| p > 0 && BitLength(n.dp, n.used, p) && n.Mag() + gap == Pow(2, p);
    BitRange(n.dp, n.used, p);
  }

  /** A gap of B leaves nothing in its lowest digit. */
  lemma LowGap(gap: nat)
    requires gap <= B
    ensures Low(gap) == if gap < B then gap else 0
  {
    if gap < B {
      LowIs(gap);
    } else {
      DivModUnique(gap, B, 1, 0);
    }
  }

  method PickFast(m: MpInt, redmode: nat, ghost gap: nat, ghost claim: Claim) returns (ok: bool, red: Reducer)
    requires m.Valid() && !m.neg && m.Mag() > 1 && m.used > 0 && (redmode == 0 || redmode == 2)
    requires redmode == 0 ==> m.used < COLUMNS || CLEAN_CELL
    requires redmode == 2 ==> Short(m, gap) && gap <= B && (claim.Residues? ==> gap < B || Mod(B, m.Mag()) == 0)
    requires claim.Remainders? ==> redmode == 2 && gap == B && claim.w == m.Mag() + B
    ensures ok <==> redmode == 2 || m.Mag() % 2 == 1
    ensures ok ==> Ready(red, m, claim) && Aux(red) == {} && (red.Montgomery? <==> redmode == 0)
  {
    hide V, Short, Low, Mod;
    red := TwoK(0);
    if redmode == 0 {
      OddDigit(m.dp, m.used);
      var rho;
      ok, rho := Setup(m);
      red := Montgomery(rho);
    } else {
      ok := true;
      var d, gap' := Setup2k(m);
      SameGap(m, gap, gap');
      GapPositive(m, gap);
      LowGap(gap);
      red := TwoK(d);
    }
  }

  /** mp_exptmod_fast: Y := G^X mod m */
  method ExptmodFast(G: MpInt, X: MpInt, m: MpInt, Y: MpInt, redmode: nat, ghost gap: nat) returns (ok: bool)
    requires G.Valid() && X.Valid() && Y.Wf() && m.Valid() && !m.neg && m.Mag() > 1
    requires redmode == 0 || redmode == 2
    requires redmode == 0 ==> m.used < COLUMNS || CLEAN_CELL
    requires redmode == 2 ==> Short(m, gap) && gap <= B
    modifies Y
    ensures ok <==> redmode == 2 || old(m.Mag()) % 2 == 1
    ensures !ok ==> unchanged(Y)
    ensures ok ==> Y.Valid() && 0 <= Y.Val() < old(m.Mag())
    ensures ok && old(FastSound(G, m, redmode, gap)) ==>
              Y.Val() == Mod(Power(old(G.Val()), old(X.Mag())), old(m.Mag()))
    ensures redmode == 2 && old(!FastSound(G, m, redmode, gap) && LostPowers(G, m)) ==>
              Y.Val() == Mod(Power(old(G.Val()), old(X.Mag())), old(m.Mag()) + B)
  {
    hide V, P, Mod, Rep, Closed, Power, Pow, Short, Ready, Slots, Entry, Blank;
    MagZero(m);
    var bits := CountBits(X);
    var ws := WindowFor(bits);
    var M := InitTable(ws);
    ghost var claim :=
      if FastSound(G, m, redmode, gap) then Residues
      else if redmode == 2 && LostPowers(G, m) then Remainders(m.Mag() + B)
      else Silent;
    if !claim.Remainders? {
      ClosedOther(claim, G.Val(), m.Mag());
    }
    var red;
    ok, red := PickFast(m, redmode, gap, claim);
    if !ok {
      return;
    }
    var res := PowerFast(G, X, m, M, ws, red, claim, redmode);
    Exch(res, Y);
  }

  method PowerFast(G: MpInt, X: MpInt, m: MpInt, M: array<MpInt?>, ws: WindowSize, red: Reducer,
                   ghost claim: Claim, redmode: nat)
    returns (res: MpInt)
    requires Ready(red, m, claim) && Aux(red) == {} && (red.Montgomery? <==> redmode == 0)
    requires m.Valid() && !m.neg && m.Mag() > 1 && (redmode == 0 ==> m.Mag() % 2 == 1)
    requires X.Valid() && G.Valid() && X !in M[..] && m !in M[..] && G !in M[..]
    requires Slots(M, Pow(2, ws - 1), Pow(2, ws)) && M.Length == TAB_SIZE && Blank(M, Pow(2, ws - 1), Pow(2, ws))
    requires M[1] != null && M[1].Valid()
    requires redmode == 0 ==> !claim.Remainders? && (claim.Residues? ==> ScalesBase(G, m))
    requires claim.Remainders? ==> 0 <= G.Val() < m.Mag() < claim.w
    requires Closed(claim, G.Val(), m.Mag())
    modifies M[..]
    ensures fresh(res) && res.Valid() && 0 <= res.Val() < old(m.Mag())
    ensures claim.Residues? ==> res.Val() == Mod(Power(old(G.Val()), old(X.Mag())), old(m.Mag()))
    ensures claim.Remainders? ==> claim.w > 0 && res.Val() == Mod(Power(old(G.Val()), old(X.Mag())), claim.w)
  {
    hide V, P, Mod, Rep, Closed, Power, Pow, Ready, Slots, Entry, Blank, ScalesBase;
    res := new MpInt();
    ghost var w: nat := ws;
    Start(G, m, res, M, Pow(2, w - 1), Pow(2, w), claim, redmode);
    RunFast(G, X, m, res, M, ws, red, claim, redmode);
  }

  method RunFast(G: MpInt, X: MpInt, m: MpInt, res: MpInt, M: array<MpInt?>, ws: WindowSize, red: Reducer,
                 ghost claim: Claim, redmode: nat)
    requires Ready(red, m, claim) && Aux(red) == {} && (red.Montgomery? <==> redmode == 0) && m.Mag() > 1
    requires res != m && res != X && res != G && res.Valid() && res.Zeroed() && !res.neg && Apart(M, res)
    requires X.Valid() && G.Valid() && X !in M[..] && m !in M[..] && G !in M[..]
    requires Slots(M, Pow(2, ws - 1), Pow(2, ws)) && M.Length == TAB_SIZE && Blank(M, Pow(2, ws - 1), Pow(2, ws))
    requires Entry(M[1], claim, G.Val(), m.Mag(), Scale(red, m)) && Rep(claim, res.Mag(), 1, m.Mag(), Scale(red, m))
    requires Closed(claim, G.Val(), m.Mag())
    modifies res, M[..]
    ensures res.Valid() && 0 <= res.Val() < m.Mag()
    ensures claim.Residues? ==> res.Val() == Mod(Power(G.Val(), X.Mag()), m.Mag())
    ensures claim.Remainders? ==> claim.w > 0 && res.Val() == Mod(Power(G.Val(), X.Mag()), claim.w)
  {
    hide V, P, Mod, Power, Pow, Ready, Slots, Blank, Entry, Reduced, Unit, Rep;
    ghost var g := Power(G.Val(), X.Mag());
    ReadyFacts(red, m, claim);
    var inside := Exponentiate(res, M, ws, X, m, red, claim, G.Val());
    ghost var v := res.Mag();
    RepBelow(claim, v, g, m.Mag(), Scale(red, m));
    RepRemainder(claim, v, g, m.Mag(), Scale(red, m));
    if redmode == 0 {
      MulMonotone(1, m.Mag(), m.Mag());
      var _ := Redux(res, m, red, claim);
      if claim.Residues? {
        ScaleUnit(red, m, claim);
        RepOut(v, g, res.Mag(), m.Mag(), Scale(red, m));
      }
    } else if claim.Residues? {
      RepPlain(v, g, m.Mag());
    }
  }

  lemma RepRemainder(claim: Claim, v: nat, g: int, n: nat, k: nat)
    requires n > 0 && Rep(claim, v, g, n, k)
    ensures claim.Remainders? ==> claim.w > 0 && v == Mod(g, claim.w)
  {}

  lemma RepBelow(claim: Claim, v: nat, g: int, n: nat, k: nat)
    requires n > 1 && Rep(claim, v, g, n, k)
    ensures v < n
  {}

  method PickPlain(m: MpInt, redmode: nat) returns (ok: bool, red: Reducer)
    requires m.Valid() && !m.neg && redmode <= 1
    requires redmode == 1 ==> m.used > 0
    ensures ok <==> m.used > 0
    ensures ok ==> Ready(red, m, Residues) && fresh(Aux(red)) && !red.Montgomery? && (red.Barrett? <==> redmode == 0)
  {
    hide V, Short, MpBarrett.Reciprocal;
    MagZero(m);
    var mu := new MpInt();
    if redmode == 0 {
      ok := MpBarrett.Setup(mu, m);
      red := Barrett(mu);
    } else {
      ok := true;
      Setup2kL(m, mu);
      red := TwoKLong(mu);
    }
  }

  /** The first square of the table stores outside an array. */
  ghost predicate BaseSpills(G: MpInt, m: MpInt)
    requires G.used <= |G.dp| && m.used <= |m.dp|
    reads G, m
  {
    m.used > 0 && m.Mag() > 0 && var v := Mod(G.Val(), m.Mag()); v * v >= 0 && MpBarrett.SpillsOn(v * v, m.Mag(), m.used)
  }

  /** s_mp_exptmod: Y := G^X mod m, except that a zero exponent always gives one */
  method SExptmod(G: MpInt, X: MpInt, m: MpInt, Y: MpInt, redmode: nat) returns (ok: bool, inside: bool)
    requires G.Valid() && X.Valid() && Y.Wf() && m.Valid() && !m.neg && redmode <= 1
    requires redmode == 1 ==> m.used > 0
    modifies Y
    ensures ok <==> old(m.Mag()) != 0
    ensures !ok ==> inside && unchanged(Y)
    ensures ok && inside ==> Y.Valid()
    ensures ok && inside ==> Y.Val() == if old(X.Mag()) == 0 then 1 else Mod(Power(old(G.Val()), old(X.Mag())), old(m.Mag()))
    ensures redmode == 1 || old(m.used == 0 || !MpBarrett.Spilling(m.Mag(), m.used)) ==> inside
    ensures redmode == 0 && old(BaseSpills(G, m)) ==> !inside
  {
    hide V, P, Mod, Rep, Closed, Power, Pow, Ready, Slots, Entry, Blank, MpBarrett.SpillsOn, MpBarrett.Spilling;
    inside := true;
    MagZero(m);
    var bits := CountBits(X);
    var ws := WindowFor(bits);
    var M := InitTable(ws);
    var red;
    ok, red := PickPlain(m, redmode);
    if !ok {
      return;
    }
    var res := new MpInt();
    ghost var w: nat := ws;
    Start(G, m, res, M, Pow(2, w - 1), Pow(2, w), Residues, 1);
    ghost var v := M[1].Mag();
    inside := RunPlain(G, X, m, res, M, ws, red);
    if !inside {
      return;
    }
    Exch(res, Y);
  }

  method RunPlain(G: MpInt, X: MpInt, m: MpInt, res: MpInt, M: array<MpInt?>, ws: WindowSize, red: Reducer)
    returns (inside: bool)
    requires Ready(red, m, Residues) && !red.Montgomery? && Aux(red) !! (set o | o in M[..])
    requires res != m && res != X && res != G && res.Valid() && res.Zeroed() && !res.neg && Apart(M, res) && res !in Aux(red)
    requires X.Valid() && G.Valid() && X !in M[..] && m !in M[..] && G !in M[..]
    requires Slots(M, Pow(2, ws - 1), Pow(2, ws)) && M.Length == TAB_SIZE && Blank(M, Pow(2, ws - 1), Pow(2, ws))
    requires Entry(M[1], Residues, G.Val(), m.Mag(), 0) && Rep(Residues, res.Mag(), 1, m.Mag(), 0) && res.Mag() == 1
    modifies res, M[..]
    ensures inside ==> res.Valid() && m.Valid() && m.Mag() > 0
    ensures inside ==> (res.Val() == if X.Mag() == 0 then 1 else Mod(Power(G.Val(), X.Mag()), m.Mag()))
    ensures Calm(red, m) ==> inside
    ensures old(M[1] != null && M[1].Wf() && SquareSpills(red, m, M[1].Mag())) ==> !inside
  {
    hide V, P, Mod, Power, Pow, Ready, Slots, Blank, Entry, Rep, Calm, SquareSpills;
    ReadyFacts(red, m, Residues);
    ClosedOther(Residues, G.Val(), m.Mag());
    inside := Exponentiate(res, M, ws, X, m, red, Residues, G.Val());
    if !inside {
      return;
    }
    if X.Mag() > 0 {
      RepPlain(res.Mag(), Power(G.Val(), X.Mag()), m.Mag());
    }
  }

  /** The modulus is accepted for the 2^p - d form, but its gap does not fit in a digit. */
  ghost predicate GapLost(m: MpInt)
    reads m
  {
    m.Wf() && m.used == 2 && m.dp[0] == 0 && 1 < m.dp[1] < B - 1 && Short(m, B)
  }

  /** When mp_exptmod is known to return the power. */
  ghost predicate ExptmodSound(G: MpInt, X: MpInt, m: MpInt)
    requires G.used <= |G.dp| && X.used <= |X.dp| && m.used <= |m.dp|
    reads G, X, m
  {
    && (m.Mag() == 1 ==> X.Mag() > 0)
    && !GapLost(m)
    && (m.Mag() > 0 ==> ScalesBase(G, m))
  }

  /** With at least half of the digits full the long form is chosen before any other. */
  ghost predicate MostlyFull(m: MpInt)
    reads m
  {
    m.Wf() && (m.used == 1 || (m.used > 1 && FullDigits(m.dp, m.used) >= m.used / 2))
  }

  /** No special form applies, and mp_exptmod uses Barrett reduction. */
  ghost predicate BarrettMode(m: MpInt)
    requires m.used <= |m.dp|
    reads m
  {
    !m.neg && m.used > 0 && m.Mag() % 2 == 0 && !MostlyFull(m) && forall gap: nat | Short(m, gap) :: gap > B
  }

  /** mp_exptmod for exponents that are not negative: Y := G^X mod m */
  method Exptmod(G: MpInt, X: MpInt, m: MpInt, Y: MpInt) returns (ok: bool, inside: bool)
    requires G.Valid() && X.Valid() && !X.neg && m.Valid() && Y.Wf()
    requires m.Mag() % 2 == 1 && !MostlyFull(m) ==> m.used < COLUMNS || CLEAN_CELL
    modifies Y
    ensures ok <==> old(m.Val()) > 0
    ensures !ok ==> inside && unchanged(Y)
    ensures ok && inside ==> Y.Valid()
    ensures ok && inside && old(ExptmodSound(G, X, m)) ==> Y.Val() == Mod(Power(old(G.Val()), old(X.Val())), old(m.Val()))
    ensures ok && inside && old(GapLost(m) && LostPowers(G, m)) ==>
              Y.Val() == Mod(Power(old(G.Val()), old(X.Val())), old(m.Val()) + B)
    ensures old(!BarrettMode(m) || !MpBarrett.Spilling(m.Mag(), m.used)) ==> inside
    ensures old(BarrettMode(m) && BaseSpills(G, m)) ==> !inside
  {
    hide V, P, Mod, Power, Short, FullDigits, BarrettMode, MpBarrett.SpillsOn, MpBarrett.Spilling;
    inside := true;
    if BarrettMode(m) {
      ModeFacts(m);
    }
    SignMag(m);
    MagZero(m);
    PowerOne(G.Val());
    if m.neg {
      return false, true;
    }
    if m.Mag() > 1 {
      ModIs(1, m.Mag(), 0, 1);
    }
    if GapLost(m) {
      LostFacts(m);
    }
    var long := Is2kL(m);
    if long {
      ok, inside := SExptmod(G, X, m, Y, 1);
      return;
    }
    OneIsOneDigit(m);
    var dr := IsDr(m);
    if dr {
      DrIsAlso2kL(m.dp, m.used);
      assert false;
    }
    var two, gap := Is2k(m);
    if GapLost(m) {
      SameGap(m, gap, B);
    }
    var redmode: nat := if two then 2 else 0;
    if m.used > 0 {
      OddDigit(m.dp, m.used);
    }
    if (m.used > 0 && m.dp[0] % 2 == 1) || redmode != 0 {
      if two {
        GapForm(m, gap);
        if m.Mag() == B {
          ModIs(B, m.Mag(), 1, 0);
        }
      }
      ok := ExptmodFast(G, X, m, Y, redmode, gap);
    } else {
      NoShortForm(m, gap);
      ok, inside := SExptmod(G, X, m, Y, 0);
    }
  }

  lemma ModeFacts(m: MpInt)
    requires m.used <= |m.dp| && BarrettMode(m)
    ensures !m.neg && m.used > 0 && m.Mag() % 2 == 0 && !MostlyFull(m) && forall gap: nat | Short(m, gap) :: gap > B
  {}

  lemma NoShortForm(m: MpInt, gap: nat)
    requires m.Valid() && !m.neg && !MostlyFull(m) && m.Mag() % 2 == 0 && (m.used > 0 ==> Short(m, gap) && gap > B)
    ensures m.used == 0 || BarrettMode(m)
  {
    hide Short, MostlyFull;
    forall other: nat | m.used > 0 && Short(m, other) ensures other == gap {
      SameGap(m, gap, other);
    }
  }

  lemma LostFacts(m: MpInt)
    requires m.Valid() && GapLost(m)
    ensures FullDigits(m.dp, m.used) == 0 && m.Mag() > B && Mod(B, m.Mag()) != 0
  {
    TwoDigitValue(m);
    MulMonotone(2, m.dp[1], B);
    ModIs(B, m.Mag(), 0, B);
    assert FullDigits(m.dp, 2) == FullDigits(m.dp, 1) + (if m.dp[1] == B - 1 then 1 else 0);
    assert FullDigits(m.dp, 1) == FullDigits(m.dp, 0) + (if m.dp[0] == B - 1 then 1 else 0);
  }

  lemma OneIsOneDigit(m: MpInt)
    requires m.Valid() && m.used != 1
    ensures m.Mag() != 1
  {
    if m.used > 1 {
      VTop(m.dp, m.used);
      RadixBelow(m.used - 1);
    }
  }

  /** Among the moduli that get this far, a gap of B means two digits, the lower one zero. */
  lemma GapForm(m: MpInt, gap: nat)
    requires m.Valid() && m.used > 1 && Short(m, gap) && gap <= B && FullDigits(m.dp, m.used) < m.used / 2
    requires gap == B - m.dp[0]
    ensures gap < B || GapLost(m) || m.Mag() == B
  {
    hide Short, P;
    if gap == B {
      TwoDigits(m, gap);
      TwoDigitValue(m);
    }
  }

  lemma TwoDigitValue(m: MpInt)
    requires m.Valid() && m.used == 2
    ensures m.Mag() == m.dp[0] + B * (m.dp[1] as int)
  {
    PNext(0);
    assert V(m.dp, 2) == V(m.dp, 1) + m.dp[1] * P(1);
    assert V(m.dp, 1) == V(m.dp, 0) + m.dp[0] * P(0);
  }

  lemma TwoDigits(m: MpInt, gap: nat)
    requires m.Valid() && m.used > 1 && Short(m, gap) && gap <= B && FullDigits(m.dp, m.used) < m.used / 2
    ensures m.used == 2 && m.dp[1] < B - 1
  {
    var p :| p > 0 && BitLength(m.dp, m.used, p) && m.Mag() + gap == Pow(2, p);
    UpperOnesGap(m.dp, m.used, p - (m.used - 1) * DIGIT_BIT);
    FullCount(m.dp, m.used - 1);
    assert FullDigits(m.dp, m.used) == FullDigits(m.dp, m.used - 1) + (if m.dp[m.used - 1] == B - 1 then 1 else 0);
  }

  // ----- a power that is not reached

  /** Among the moduli that reach Barrett reduction it stays within its arrays for every base if and only if the
      modulus is not a spilling one: each of those has a base whose square it cannot reduce. */
  lemma SpillingBase(m: MpInt) returns (v: nat)
    requires m.Valid() && m.used > 0 && m.Mag() > 0 && MpBarrett.Spilling(m.Mag(), m.used)
    ensures v < m.Mag() && forall G: MpInt | G.Wf() && G.Val() == v :: BaseSpills(G, m)
  {
    hide V, P, MpBarrett.SpillsOn, MpBarrett.Spilling, Mod;
    VTop(m.dp, m.used);
    VBound(m.dp, m.used);
    v := MpBarrett.SomeSquareSpills(m.Mag(), m.used);
    ModIs(v, m.Mag(), 0, v);
    forall G: MpInt | G.Wf() && G.Val() == v ensures BaseSpills(G, m) {
      assert Mod(G.Val(), m.Mag()) == v;
    }
  }

  lemma {:induction false} NoneFull(d: seq<MpDigit>, n: nat)
    requires n <= |d| && forall i | 0 <= i < n :: d[i] != B - 1
    ensures FullDigits(d, n) == 0
  {
    if n > 0 {
      NoneFull(d, n - 1);
    }
  }

  /** Two times the thirtieth power of the radix: the reciprocal has as many digits as the first allocation. */
  method TwoAndZeros() returns (m: MpInt)
    ensures fresh(m) && m.Valid() && m.used == 31 && m.Val() == m.Mag() == 2 * P(30) > 2 && BarrettMode(m)
  {
    m := new MpInt();
    m.dp := m.dp[30 := 2];
    m.used := 31;
    VZeros(m.dp, 0, 30);
    assert V(m.dp, 31) == V(m.dp, 30) + m.dp[30] * P(30);
    hide V, P, Short, FullDigits;
    NoneFull(m.dp, 31);
    RadixBelow(30);
    SignOf(m);
    forall gap: nat | Short(m, gap) ensures gap > B {
      if gap <= B {
        TwoDigits(m, gap);
      }
    }
  }

  /** Powers of two modulo that number: their first square, 4, is not reduced within the arrays. */
  method LostRoom(X: MpInt, Y: MpInt) returns (G: MpInt, m: MpInt, inside: bool)
    requires MP_WARRAY > 33 && X.Valid() && !X.neg && Y.Wf()
    modifies Y
    ensures fresh(G) && fresh(m) && G.Valid() && m.Valid() && G.Val() == 2 && m.Val() == 2 * P(30)
    ensures !inside
  {
    hide V, P, Mod, Short, Len, MpBarrett.Spills, MpBarrett.Spilling;
    m := TwoAndZeros();
    G := new MpInt();
    Set(G, 2);
    SignOf(G);
    ModIs(2, m.Mag(), 0, 2);
    PNext(0);
    LenIs(4, 1);
    MpBarrett.SpillsWhen(1, 31, 32);
    MpBarrett.HalfRadix();
    assert MpBarrett.SpillsOn(2 * 2, m.Mag(), 31);
    var ok;
    ok, inside := Exptmod(G, X, m, Y);
  }

  // ----- a power that comes out wrong

  /** No odd number but one divides a power of two. */
  lemma {:induction false} OddNeverDivides(d: nat, q: nat, k: nat)
    requires d > 1 && d % 2 == 1
    ensures q * d != Pow(2, k)
  {
    if q * d == Pow(2, k) {
      if k == 0 {
        UnitProduct(q, d);
      } else {
        var h := EvenFactor(q, d, Pow(2, k - 1));
        OddNeverDivides(d, h, k - 1);
      }
    }
  }

  lemma UnitProduct(q: nat, d: nat)
    requires d > 1
    ensures q * d != 1
  {
    if q > 0 {
      MulMonotone(1, q, d);
    }
  }

  lemma EvenFactor(q: nat, d: nat, r: nat) returns (h: nat)
    requires d % 2 == 1 && q * d == 2 * r
    ensures h * d == r
  {
    h := q / 2;
    if q % 2 == 1 {
      OddTimesOdd(h, d / 2);
    } else {
      TwiceProduct(h, d);
    }
  }

  lemma OddTimesOdd(h: nat, e: nat)
    ensures (2 * h + 1) * (2 * e + 1) == 2 * (2 * (h * e) + h + e) + 1
  {}

  lemma TwiceProduct(h: nat, d: nat)
    ensures (2 * h) * d == 2 * (h * d)
  {}

  /** The powers of 2 b modulo 4 b are at most 2 b, and the second is zero. */
  lemma Vanishing(b: nat, e: nat)
    requires b > 0
    ensures Mod(Power(2 * b, e), 4 * b) <= 2 * b && Mod(Power(2 * b, 2), 4 * b) == 0 && Power(2 * b, 2) == (2 * b) * (2 * b)
  {
    var g := 2 * b;
    PowerOne(g);
    assert Power(g, 2) == g * g;
    hide Pow, Power;
    MulSwap(2, 2 * b, b);
    assert g * g == b * (4 * b);
    ModIs(g * g, 4 * b, b, 0);
    if e == 0 {
      ModIs(1, 4 * b, 0, 1);
    } else if e == 1 {
      ModIs(g, 4 * b, 0, g);
    } else {
      PowerAdd(g, 2, e - 2);
      MulSwap(b, 4 * b, Power(g, e - 2));
      ModIs(Power(g, e), 4 * b, b * Power(g, e - 2), 0);
    }
  }

  /** The top digit of such a modulus is all ones up to its length. */
  lemma LostTop(m: MpInt) returns (t: nat)
    requires m.Valid() && GapLost(m)
    ensures t >= 2 && m.dp[1] + 1 == Pow(2, t) && m.dp[1] % 2 == 1
    ensures m.Mag() == m.dp[1] * B && m.Mag() + B == Pow(2, DIGIT_BIT + t) == 4 * Pow(2, DIGIT_BIT + t - 2)
    ensures Pow(2, DIGIT_BIT + t - 2) >= B
  {
    hide V, BitLength;
    TwoDigitValue(m);
    var p :| p > 0 && BitLength(m.dp, m.used, p) && m.Mag() + B == Pow(2, p);
    t := OnesAbove(m.dp[1], p);
  }

  lemma OnesAbove(d: nat, p: nat) returns (t: nat)
    requires d > 1 && B * d + B == Pow(2, p)
    ensures t >= 2 && p == DIGIT_BIT + t && d + 1 == Pow(2, t) && d % 2 == 1
    ensures Pow(2, p) == 4 * Pow(2, p - 2) && Pow(2, p - 2) >= B
  {
    hide Pow;
    AboveRadix(d, p);
    t := p - DIGIT_BIT;
    Doubled(1);
    Doubled(t);
    Doubled(p);
    Doubled(p - 1);
    PowMonotone(2, DIGIT_BIT, p - 2);
  }

  lemma Doubled(e: nat)
    requires e > 0
    ensures Pow(2, e) == 2 * Pow(2, e - 1) && Pow(2, 0) == 1
  {}

  lemma AboveRadix(d: nat, p: nat)
    requires d > 1 && B * d + B == Pow(2, p)
    ensures p > DIGIT_BIT && Pow(2, p - DIGIT_BIT) == d + 1
  {
    hide Pow;
    MulMonotone(2, d, B);
    if p <= DIGIT_BIT {
      PowMonotone(2, p, DIGIT_BIT);
    }
    var t := p - DIGIT_BIT;
    PowAdd(2, DIGIT_BIT, t);
    Regroup(d, B);
    CancelFactor(Pow(2, t), d + 1, B);
  }

  lemma Regroup(d: nat, b: nat)
    ensures b * d + b == (d + 1) * b
  {}

  /** Each such modulus has a base with a wrong power: the square of half the power of two above it. */
  lemma LostBase(m: MpInt, e: nat)
    requires m.Valid() && GapLost(m)
    ensures var g := (m.Mag() + B) / 2;
            && g < m.Mag() && Mod(Power(g, e), m.Mag() + B) < m.Mag()
            && Mod(Power(g, 2), m.Mag() + B) == 0 && Mod(Power(g, 2), m.Mag()) != 0
  {
    hide V, Mod, Power, Quot;
    var t := LostTop(m);
    var b := Pow(2, DIGIT_BIT + t - 2);
    Vanishing(b, e);
    PowAdd(2, DIGIT_BIT + t - 1, DIGIT_BIT + t - 1);
    assert Pow(2, DIGIT_BIT + t - 1) == 2 * b;
    var d, q, k: nat := m.dp[1], Quot((2 * b) * (2 * b), m.Mag()), DIGIT_BIT + t - 1 + (DIGIT_BIT + t - 1);
    QuotMod((2 * b) * (2 * b), m.Mag());
    if Mod((2 * b) * (2 * b), m.Mag()) == 0 {
      MulSwap(q, d, B);
      OddNeverDivides(d, q * B, k);
    }
  }

  lemma CancelFactor(x: int, y: int, b: nat)
    requires b > 0 && b * x == y * b
    ensures x == y
  {
    MulDistribute(x, y, b);
    if x > y {
      MulMonotone(1, x - y, b);
    } else if x < y {
      MulMonotone(1, y - x, b);
    }
  }

  method Digits2(hi: MpDigit) returns (a: MpInt)
    requires hi > 0
    ensures fresh(a) && a.Valid() && !a.neg && a.used == 2 && a.dp[0] == 0 && a.dp[1] == hi && a.Mag() == hi * B
  {
    a := new MpInt();
    a.dp := a.dp[1 := hi];
    a.used := 2;
    TwoDigitValue(a);
    MulSwap(1, hi, B);
  }

  /** For instance 3 B, whose gap to the next power of two is B. */
  lemma ThreeRadix(m: MpInt)
    requires m.Valid() && m.used == 2 && m.dp[0] == 0 && m.dp[1] == 3
    ensures GapLost(m)
  {
    TwoDigitValue(m);
    assert Pow(2, DIGIT_BIT + 2) == 4 * B;
    assert Pow(2, 2) == 4 && Pow(2, 1) == 2;
    assert BitLength(m.dp, m.used, DIGIT_BIT + 2);
  }

  /** mp_exptmod returns zero for the square of that base. */
  method WrongPower(m: MpInt, Y: MpInt) returns (G: MpInt, X: MpInt)
    requires m.Valid() && !m.neg && GapLost(m) && Y.Wf() && Y != m
    modifies Y
    ensures fresh(G) && fresh(X) && G.Valid() && X.Valid() && Y.Valid()
    ensures G.Val() == (m.Val() + B) / 2 && X.Val() == 2
    ensures Y.Val() == 0 && Mod(Power(G.Val(), X.Val()), m.Val()) != 0
  {
    hide V, P, Power, Mod, Short, Pow;
    ghost var t := LostTop(m);
    HalfTop(m.dp[1], B);
    G := Digits2((m.dp[1] + 1) / 2);
    X := new MpInt();
    Set(X, 2);
    SignOf(G);
    SignOf(m);
    SignOf(X);
    OddDigit(m.dp, m.used);
    forall e: nat ensures Mod(Power(G.Val(), e), m.Mag() + B) < m.Mag() {
      LostBase(m, e);
    }
    LostBase(m, 2);
    var ok, inside := Exptmod(G, X, m, Y);
  }

  lemma HalfTop(d: nat, b: nat)
    requires d % 2 == 1
    ensures (d * b + b) / 2 == (d + 1) / 2 * b
  {
    var h := (d + 1) / 2;
    MulDistribute(d, 1, b);
    TwiceProduct(h, b);
  }
}

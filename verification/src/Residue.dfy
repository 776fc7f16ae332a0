/** Residues modulo n held in a scaled form: v stands for g when v is g * P(k) modulo n.  Montgomery
    reduction keeps numbers scaled by k digits; the other reductions use k = 0. */
module Residue {
  import opened Radix
  import opened Digits
  import opened MpCore
  import opened MpRedc

  ghost function Power(g: int, e: nat): int {
    if e == 0 then 1 else g * Power(g, e - 1)
  }

  lemma {:induction false} PowerAdd(g: int, e: nat, f: nat)
    ensures Power(g, e + f) == Power(g, e) * Power(g, f)
  {
    if e > 0 {
      PowerAdd(g, e - 1, f);
      MulSwap(g, Power(g, e - 1), Power(g, f));
    }
  }

  lemma PowerOne(g: int)
    ensures Power(g, 0) == 1 && Power(g, 1) == g
  {
    assert Power(g, 0) == 1;
  }

  lemma ModMul(x: int, x': int, y: int, y': int, n: nat)
    requires n > 0 && Mod(x, n) == Mod(x', n) && Mod(y, n) == Mod(y', n)
    ensures Mod(x * y, n) == Mod(x' * y', n)
  {
    var a, b := x / n - x' / n, y / n - y' / n;
    ModDifference(x, x', n);
    ModDifference(y, y', n);
    ModMulAlgebra(x, x', y, y', a, b, n);
    ModEqual(x * y, x' * y', x' * b + a * y' + a * b * n, n);
  }

  lemma ModDifference(x: int, y: int, n: int)
    requires n > 0 && x % n == y % n
    ensures x == y + (x / n - y / n) * n
  {
    MulDistribute(x / n, y / n, n);
  }

  lemma ModMulAlgebra(x: int, x': int, y: int, y': int, a: int, b: int, n: int)
    requires x == x' + a * n && y == y' + b * n
    ensures x * y == x' * y' + (x' * b + a * y' + a * b * n) * n
  {
    assert x * y == x' * y' + x' * (b * n) + (a * n) * y' + (a * n) * (b * n);
    assert (x' * b + a * y' + a * b * n) * n == x' * (b * n) + (a * n) * y' + (a * n) * (b * n);
  }

  ghost predicate Unit(p: int, n: nat)
    requires n > 0
  {
    exists u: int :: UnitBy(p, u, n)
  }

  ghost predicate UnitBy(p: int, u: int, n: nat)
    requires n > 0
  {
    Mod(p * u, n) == Mod(1, n)
  }

  /** A factor with an inverse can be cancelled. */
  lemma CancelUnit(x: int, y: int, p: int, n: nat)
    requires n > 0 && Unit(p, n) && Mod(x * p, n) == Mod(y * p, n)
    ensures Mod(x, n) == Mod(y, n)
  {
    hide Mod;
    var u: int :| UnitBy(p, u, n);
    ModMul(x * p, y * p, u, u, n);
    MulSwap(x, p, u);
    MulSwap(y, p, u);
    ModMul(x, x, p * u, 1, n);
    ModMul(y, y, p * u, 1, n);
  }

  lemma UnitOne(n: nat)
    requires n > 0
    ensures P(0) == 1 && Unit(P(0), n)
  {
    assert UnitBy(P(0), 1, n);
  }

  lemma {:induction false} UnitProduct(p: int, q: int, n: nat)
    requires n > 0 && Unit(p, n) && Unit(q, n)
    ensures Unit(p * q, n)
  {
    hide Mod;
    var u: int :| UnitBy(p, u, n);
    var v: int :| UnitBy(q, v, n);
    ModMul(p * u, 1, q * v, 1, n);
    assert (p * u) * (q * v) == (p * q) * (u * v);
    assert UnitBy(p * q, u * v, n);
  }

  /** The radix has an inverse modulo every number whose lowest digit has a companion. */
  lemma RadixUnit(d: seq<MpDigit>, u: nat, rho: MpDigit)
    requires 0 < u <= |d| && V(d, u) > 0 && Companion(d[0], rho)
    ensures Unit(B, V(d, u))
  {
    HEnds(d, u);
    HStep(d, 0, u);
    hide V, H;
    var n, h := V(d, u), H(d, 1, u);
    var x: nat, r: nat := d[0], rho;
    var z := ExactQuotient(x * r + 1, B);
    RadixAlgebra(n, x, h, r, z, B);
    ModEqual(B * (z + h * r), 1, r, n);
    assert UnitBy(B, z + h * r, n);
  }

  lemma ExactQuotient(y: nat, b: nat) returns (z: nat)
    requires b > 0 && Mod(y, b) == 0
    ensures y == b * z
  {
    z := y / b;
  }

  lemma RadixAlgebra(n: int, x: int, h: int, r: int, z: int, b: int)
    requires n == x + b * h && x * r + 1 == b * z
    ensures b * (z + h * r) == 1 + r * n
  {
    assert r * n == x * r + b * (h * r);
  }

  lemma {:induction false} WeightUnit(k: nat, n: nat)
    requires n > 0 && Unit(B, n)
    ensures Unit(P(k), n)
  {
    if k == 0 {
      UnitOne(n);
    } else {
      WeightUnit(k - 1, n);
      UnitProduct(B, P(k - 1), n);
      PNext(k - 1);
    }
  }

  /** Two reduced forms of the same number are equal, so the two forms of Montgomery reduction agree. */
  lemma ReducedUnique(r: nat, s: nat, x: nat, n: nat, k: nat)
    requires n > 0 && Unit(P(k), n) && Reduced(r, x, n, k) && Reduced(s, x, n, k)
    ensures r == s
  {
    CancelUnit(r, s, P(k), n);
    ModSmall(r, n);
    ModSmall(s, n);
  }

  /** What a number stands for: nothing in particular, a residue modulo n, or, where the reduction has been
      misled into dropping bits, a remainder by w. */
  datatype Claim = Silent | Residues | Remainders(w: nat)

  /** v is below n and stands for g as claimed.  A product starts from one, which for n = 1 is not below n. */
  ghost predicate Rep(claim: Claim, v: nat, g: int, n: nat, k: nat)
    requires n > 0
  {
    && (v < n || v == 1)
    && (claim.Residues? ==> Mod(v, n) == Mod(g * P(k), n))
    && (claim.Remainders? ==> claim.w > 0 && v == Mod(g, claim.w))
  }

  /** What a reduction of x to r does under the claim. */
  ghost predicate Lowered(claim: Claim, r: nat, x: nat, n: nat, k: nat)
    requires n > 0
  {
    && (claim.Residues? ==> Unit(P(k), n) && Reduced(r, x, n, k))
    && (claim.Remainders? ==> claim.w > 0 && r == Mod(Mod(x, claim.w), n))
  }

  /** The remainder of g is one that the reduction leaves alone. */
  ghost predicate Fits(claim: Claim, g: int, n: nat) {
    claim.Remainders? ==> claim.w > 0 && Mod(g, claim.w) < n
  }

  /** Multiplying and reducing multiplies what is represented. */
  lemma RepMul(claim: Claim, v: nat, g: int, w: nat, h: int, r: nat, n: nat, k: nat)
    requires n > 0 && Rep(claim, v, g, n, k) && Rep(claim, w, h, n, k) && r < n
    requires v * w >= 0 && Lowered(claim, r, v * w, n, k) && Fits(claim, g * h, n)
    ensures Rep(claim, r, g * h, n, k)
  {
    hide P, Mod, Unit, Reduced;
    if claim.Residues? {
      RepMulResidues(v, g, w, h, r, n, k);
    }
    if claim.Remainders? {
      var q := claim.w;
      ModTwice(g, q);
      ModTwice(h, q);
      ModMul(v, g, w, h, q);
      ModIs(Mod(g * h, q), n, 0, Mod(g * h, q));
    }
  }

  lemma ModTwice(x: int, n: nat)
    requires n > 0
    ensures Mod(Mod(x, n), n) == Mod(x, n)
  {}

  lemma RepMulResidues(v: nat, g: int, w: nat, h: int, r: nat, n: nat, k: nat)
    requires n > 0 && r < n && Mod(v, n) == Mod(g * P(k), n) && Mod(w, n) == Mod(h * P(k), n)
    requires v * w >= 0 && Unit(P(k), n) && Reduced(r, v * w, n, k)
    ensures Mod(r, n) == Mod((g * h) * P(k), n)
  {
    hide P, Mod;
    var p := P(k);
    ModMul(v, g * p, w, h * p, n);
    assert (g * p) * (h * p) == (g * h * p) * p;
    CancelUnit(r, g * h * p, p, n);
  }

  /** Without a scale a number below n is the remainder it stands for. */
  lemma RepPlain(v: nat, g: int, n: nat)
    requires n > 0 && v < n && Rep(Residues, v, g, n, 0)
    ensures v == Mod(g, n)
  {
    PNext(0);
    ModSmall(v, n);
  }

  /** Reducing once more removes the scale. */
  lemma RepOut(v: nat, g: int, r: nat, n: nat, k: nat)
    requires n > 0 && Rep(Residues, v, g, n, k) && Unit(P(k), n) && Reduced(r, v, n, k)
    ensures r == Mod(g, n)
  {
    hide P;
    CancelUnit(r, g, P(k), n);
    ModSmall(r, n);
  }

  // ----- what an unused digit does

  /** One stray digit at position k, above the digits in use. */
  lemma {:induction false} StrayExposed(d: seq<nat>, u: nat, k: nat, top: nat)
    requires u <= k < top <= |d| && forall i | u <= i < top && i != k :: d[i] == 0
    ensures Exposed(d, top) == V(d, u) + d[k] * P(k)
  {
    VZeros(d, u, k);
    VZeros(d, k + 1, top);
  }

  /** It spoils the reduction unless it is a multiple of the modulus, which below the modulus only zero is. */
  lemma StrayDigit(x: nat, d: nat, k: nat, n: nat)
    requires n > 0 && Unit(B, n)
    ensures Mod(x + d * P(k), n) == Mod(x, n) <==> Mod(d, n) == 0
    ensures d < n ==> (Mod(d, n) == 0 <==> d == 0)
  {
    hide P, Unit;
    ModIs(0, n, 0, 0);
    assert 0 * P(k) == 0;
    if Mod(x + d * P(k), n) == Mod(x, n) {
      WeightUnit(k, n);
      ModCancelAdd(x, d * P(k), n);
      CancelUnit(d, 0, P(k), n);
    } else if Mod(d, n) == 0 {
      ModDifference(d, 0, n);
      MulSwap(d / n, n, P(k));
      ModEqual(x + d * P(k), x, d / n * P(k), n);
    }
    if d < n {
      ModIs(d, n, 0, d);
    }
  }

  lemma ModCancelAdd(x: int, y: int, n: nat)
    requires n > 0 && Mod(x + y, n) == Mod(x, n)
    ensures Mod(y, n) == Mod(0, n)
  {
    ModDifference(x + y, x, n);
    ModEqual(y, 0, (x + y) / n - x / n, n);
  }

  /** The two forms of the reduction give the same number wherever both can be used. */
  method FormsAgree(x: MpInt, y: MpInt, n: MpInt, rho: MpDigit)
    requires x != n && y != n && x != y && x.Valid() && y.Valid() && n.Valid() && n.used > 0
    requires Companion(n.dp[0], rho) && n.used < COLUMNS
    requires x.Mag() == y.Mag() < n.Mag() * P(n.used) && y.Zeroed()
    modifies x, y
    ensures x.Valid() && y.Valid() && x.Mag() == y.Mag()
  {
    hide P, V, Reduced, Unit, Exposed;
    ghost var v := x.Mag();
    DigitCount(y.dp, y.used, n.dp, n.used);
    ExposedIsMag(y, 2 * n.used + 1);
    MagZero(n);
    RadixUnit(n.dp, n.used, rho);
    WeightUnit(n.used, n.Mag());
    ReduceFast(x, n, rho);
    ReduceRows(y, n, rho);
    ReducedUnique(x.Mag(), y.Mag(), v, n.Mag(), n.used);
  }

  /** A number as the column multiplier leaves the product of one by one: a single digit in use, and d in the
      cell that was copied without having been assigned. */
  method OneWithStray(d: MpDigit, size: nat) returns (x: MpInt)
    requires size >= 3
    ensures fresh(x) && x.Valid() && !x.neg && x.Mag() == 1 && x.used == 1 && |x.dp| >= size && x.dp[2] == d
    ensures forall i | 1 <= i < |x.dp| && i != 2 :: x.dp[i] == 0
  {
    x := new MpInt.Sized(size);
    x.used := 1;
    x.dp := x.dp[0 := 1][2 := d];
    VOne(x.dp);
  }

  lemma VOne(d: seq<nat>)
    requires |d| > 0
    ensures V(d, 1) == d[0]
  {
    assert V(d, 0) == 0;
    assert P(0) == 1;
  }

  /** Modulo a number of COLUMNS or more digits, that product of one by one is reduced wrongly unless d is
      zero.  The factors are met in exponentiation: the inverse of P(n.used) is represented by one. */
  method StrayWitness(n: MpInt, rho: MpDigit, d: MpDigit) returns (x: MpInt)
    requires n.Valid() && n.used >= COLUMNS && n.used >= 2 && Companion(n.dp[0], rho)
    ensures fresh(x) && x.Valid() && n.Mag() > 0 && (Reduced(x.Mag(), 1, n.Mag(), n.used) <==> d == 0)
  {
    hide P, V, Reduced, Unit, Exposed, Mod;
    var top := 2 * n.used + 1;
    x := OneWithStray(d, top);
    MagZero(n);
    StrayExposed(x.dp, 1, 2, top);
    RadixUnit(n.dp, n.used, rho);
    LargeEnough(n, d);
    StrayDigit(1, d, 2, n.Mag());
    Reduce(x, n, rho);
  }

  lemma LargeEnough(n: MpInt, d: MpDigit)
    requires n.Valid() && n.used >= 2
    ensures B <= n.Mag() && 1 + d * P(2) < n.Mag() * P(n.used)
  {
    VTop(n.dp, n.used);
    PMonotone(1, n.used - 1);
    PMonotone(2, n.used);
    PNext(2);
    hide P;
    var x: nat := d;
    MulMonotone(x, B - 1, P(2));
    MulMonotone(B, n.Mag(), P(n.used));
    MulMonotone(P(2), P(n.used), B);
    MulDistribute(B, 1, P(2));
    PMonotone(1, 2);
    PNext(0);
  }
}

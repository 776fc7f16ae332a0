/** Reduction by moduli just below a power of two or a power of the radix. */
module MpSpecial {
  import opened Radix
  import opened Digits
  import opened Columns
  import opened MpCore
  import opened MpAdd
  import opened MpShift
  import opened MpMultiply
  import opened MpProduct
  import opened MpMontgomery

  // ----- moduli 2^p - d

  /** n falls short of a power of two with as many bits by d. */
  ghost predicate Short(n: MpInt, d: nat)
    reads n
  {
    n.Valid() && n.used > 0 && exists p | p > 0 :: BitLength(n.dp, n.used, p) && n.Mag() + d == Pow(2, p)
  }

  lemma BitLengthUnique(d: seq<MpDigit>, u: nat, p: nat, q: nat)
    requires 0 < u <= |d| && BitLength(d, u, p) && BitLength(d, u, q)
    ensures p == q
  {
    var s, t := p - (u - 1) * DIGIT_BIT, q - (u - 1) * DIGIT_BIT;
    if s < t {
      PowMonotone(2, s, t - 1);
    } else if t < s {
      PowMonotone(2, t, s - 1);
    }
  }

  lemma ShortBits(n: MpInt, d: nat, p: nat)
    requires Short(n, d) && BitLength(n.dp, n.used, p)
    ensures n.Mag() + d == Pow(2, p)
  {
    hide V, BitLength;
    var q :| q > 0 && BitLength(n.dp, n.used, q) && n.Mag() + d == Pow(2, q);
    BitLengthUnique(n.dp, n.used, p, q);
  }

  /** Folding the part above 2^p down takes away a multiple of n. */
  lemma Fold(a: nat, n: nat, d: nat, w: nat) returns (q: nat)
    requires n + d == w && w > 0
    ensures q == Quot(a, w) && a == q * n + (Mod(a, w) + q * d)
  {
    q := Quot(a, w);
    QuotMod(a, w);
    MulDistribute(n, d, q);
  }

  /** One pass, given q = a / 2^p times d: add it in, and subtract n if that does not leave a reduced number. */
  method AddAndCheck(a: MpInt, q: MpInt, n: MpInt) returns (again: bool)
    requires a != n && a != q && a.Valid() && !a.neg && q.Valid() && n.Valid()
    modifies a
    ensures a.Valid() && !a.neg
    ensures again <==> old(a.Mag()) + q.Mag() >= n.Mag()
    ensures a.Mag() == old(a.Mag()) + q.Mag() - (if again then n.Mag() else 0)
  {
    hide V, P;
    SAdd(a, q, a);
    var r := CmpMag(a, n);
    UsedOrder(a, n);
    again := r != LT;
    if again {
      SSub(a, n, a);
    }
  }

  /** One pass of either form has subtracted k times n. */
  ghost predicate Passed(a: nat, a': nat, n: nat, k: nat, again: bool) {
    a == k * n + a' && (again ==> a' < a) && (!again ==> a' < n)
  }

  lemma PassDone(a: nat, n: nat, d: nat, w: nat, f: nat, a': nat, again: bool) returns (k: nat)
    requires n > 0 && n + d == w && w > 0 && f == Mod(a, w) + Quot(a, w) * d
    requires again <==> f >= n
    requires a' == f - (if again then n else 0)
    ensures Passed(a, a', n, k, again)
  {
    hide Quot, Mod;
    var q := Fold(a, n, d, w);
    k := q + (if again then 1 else 0);
    MulDistribute(q, 1, n);
    MulMonotone(0, q, n);
  }

  /** With d = 0 the part above 2^p is simply lost. */
  lemma PassLost(a: nat, n: nat, w: nat, a': nat, again: bool) returns (k: nat)
    requires n > 0 && w > 0 && (again <==> Mod(a, w) >= n) && a' == Mod(a, w) - (if again then n else 0)
    ensures Passed(Mod(a, w), a', n, k, again)
  {
    k := if again then 1 else 0;
  }

  method Pass2k(a: MpInt, q: MpInt, n: MpInt, d: MpDigit, p: nat) returns (again: bool, ghost k: nat)
    requires a != n && a != q && q != n && a.Valid() && !a.neg && q.Wf() && n.Valid() && n.Mag() > 0
    requires n.Mag() + d == Pow(2, p) || d == 0
    modifies a, q
    ensures a.Valid() && !a.neg && q.Wf()
    ensures d > 0 ==> Passed(old(a.Mag()), a.Mag(), n.Mag(), k, again)
    ensures Pow(2, p) > 0 && (d == 0 ==> Passed(Mod(old(a.Mag()), Pow(2, p)), a.Mag(), n.Mag(), k, again))
  {
    hide V, P, Pow, Quot, Mod, Passed;
    ghost var X := a.Mag();
    Div2d(a, p, q, a);
    if d != 1 {
      MulD(q, d, q);
    }
    again := AddAndCheck(a, q, n);
    if d == 0 {
      k := PassLost(X, n.Mag(), Pow(2, p), a.Mag(), again);
    } else {
      k := PassDone(X, n.Mag(), d, Pow(2, p), Mod(X, Pow(2, p)) + Quot(X, Pow(2, p)) * d, a.Mag(), again);
    }
  }

  method Pass2kL(a: MpInt, q: MpInt, n: MpInt, d: MpInt, p: nat) returns (again: bool, ghost k: nat)
    requires a != n && a != q && q != n && a != d && q != d
    requires a.Valid() && !a.neg && q.Wf() && n.Valid() && n.Mag() > 0 && d.Valid() && !d.neg
    requires n.Mag() + d.Mag() == Pow(2, p)
    modifies a, q
    ensures a.Valid() && !a.neg && q.Wf() && Passed(old(a.Mag()), a.Mag(), n.Mag(), k, again)
  {
    hide V, P, Pow, Quot, Mod, Passed;
    ghost var X := a.Mag();
    Div2d(a, p, q, a);
    Mul(q, d, q);
    SignOf(q);
    again := AddAndCheck(a, q, n);
    k := PassDone(X, n.Mag(), d.Mag(), Pow(2, p), Mod(X, Pow(2, p)) + Quot(X, Pow(2, p)) * d.Mag(), a.Mag(), again);
  }

  lemma ShortModulus(n: MpInt, d: nat)
    requires Short(n, d)
    ensures n.Valid() && n.used > 0 && n.Mag() > 0
  {
    MagZero(n);
  }

  /** What is left of x to be reduced: all of it, or the low p bits when the gap was lost. */
  ghost function Kept2k(x: nat, d: nat, w: nat): nat
    requires w > 0
  {
    if d == 0 then Mod(x, w) else x
  }

  lemma KeptAgain(x: nat, d: nat, w: nat, a: nat, n: nat, t: nat)
    requires w > 0 && Kept2k(x, d, w) == t * n + a
    ensures Kept2k(a, d, w) == a
  {
    if d == 0 {
      MulMonotone(0, t, n);
      ModSmall(a, w);
    }
  }

  /** mp_reduce_2k: a := a mod n when n falls short of a power of two by d.  Called with d = 0, the
      bits above that power are dropped first. */
  method Reduce2k(a: MpInt, n: MpInt, d: MpDigit, ghost gap: nat)
    requires a != n && a.Valid() && !a.neg && Short(n, gap) && (d == gap || d == 0)
    modifies a
    ensures a.Valid() && !a.neg && n.Mag() > 0 && n.Mag() + gap > 0
    ensures a.Val() == Mod(Kept2k(old(a.Mag()), d, n.Mag() + gap), n.Mag())
  {
    hide V, P, Pow, Mod, Short, BitLength, Kept2k;
    var q := new MpInt();
    ShortModulus(n, gap);
    var p := CountBits(n);
    ShortBits(n, gap, p);
    ghost var w := Pow(2, p);
    ghost var X, t := Kept2k(a.Mag(), d, w), 0;
    var again := true;
    while again
      invariant a.Valid() && !a.neg && q.Wf() && t >= 0
      invariant X == t * n.Mag() + Kept2k(a.Mag(), d, w)
      invariant !again ==> a.Mag() < n.Mag() && Kept2k(a.Mag(), d, w) == a.Mag()
      modifies a, q
      decreases again, a.Mag()
    {
      ghost var a0, k := a.Mag(), 0;
      again, k := Pass2k(a, q, n, d, p);
      KeptIs(a0, d, w);
      KeptAgain(a0, d, w, a.Mag(), n.Mag(), k);
      MulDistribute(t, k, n.Mag());
      t := t + k;
    }
    ModIs(X, n.Mag(), t, a.Mag());
  }

  lemma KeptIs(x: nat, d: nat, w: nat)
    requires w > 0
    ensures Kept2k(x, d, w) == if d == 0 then Mod(x, w) else x
    ensures Kept2k(x, d, w) <= x
  {
    hide Mod, Quot;
    QuotMod(x, w);
    MulMonotone(0, Quot(x, w), w);
  }

  /** mp_reduce_2k_l: a := a mod n, with a d of any length */
  method Reduce2kL(a: MpInt, n: MpInt, d: MpInt)
    requires a != n && a != d && a.Valid() && !a.neg && d.Valid() && !d.neg && Short(n, d.Mag())
    modifies a
    ensures a.Valid() && !a.neg && n.Mag() > 0 && a.Val() == Mod(old(a.Mag()), n.Mag())
  {
    hide V, P, Pow, Mod, Short, BitLength;
    var q := new MpInt();
    ShortModulus(n, d.Mag());
    var p := CountBits(n);
    ShortBits(n, d.Mag(), p);
    ghost var X, t := a.Mag(), 0;
    var again := true;
    while again
      invariant a.Valid() && !a.neg && q.Wf() && t >= 0
      invariant X == t * n.Mag() + a.Mag() && (!again ==> a.Mag() < n.Mag())
      modifies a, q
      decreases again, a.Mag()
    {
      ghost var k;
      again, k := Pass2kL(a, q, n, d, p);
      MulDistribute(t, k, n.Mag());
      t := t + k;
    }
    ModIs(X, n.Mag(), t, a.Mag());
  }

  // ----- choosing the form

  /** Subtract a from the least power of two above it. */
  method TakeGap(a: MpInt, d: MpInt)
    requires a != d && a.Valid() && a.used > 0 && d.Wf() && !d.neg
    modifies d
    ensures d.Valid() && !d.neg && d.used > 0 && Short(a, d.Mag())
  {
    hide V, P, Pow, BitLength;
    var tmp := new MpInt();
    var p := CountBits(a);
    BitRange(a.dp, a.used, p);
    TwoExpt(tmp, p);
    SignOf(tmp);
    UsedOrder(a, tmp);
    SSub(tmp, a, d);
    MagZero(d);
  }

  lemma LowDigit(d: seq<MpDigit>, n: nat)
    requires 0 < n <= |d|
    ensures d[0] == Low(V(d, n))
  {
    HEnds(d, n);
    HStep(d, 0, n);
    hide V, H;
    DivModUnique(V(d, n), B, H(d, 1, n), d[0]);
  }

  /** mp_reduce_2k_setup: the lowest digit of the gap.  It is the gap itself exactly when that is below B. */
  method Setup2k(a: MpInt) returns (d: MpDigit, ghost gap: nat)
    requires a.Valid() && a.used > 0
    ensures Short(a, gap) && d == Low(gap)
    ensures d == gap <==> gap < B
  {
    hide V, Short, Low;
    var tmp := new MpInt();
    TakeGap(a, tmp);
    gap := tmp.Mag();
    LowDigit(tmp.dp, tmp.used);
    d := tmp.dp[0];
    if gap < B {
      LowIs(gap);
    }
  }

  /** mp_reduce_2k_setup_l */
  method Setup2kL(a: MpInt, d: MpInt)
    requires a != d && a.Valid() && a.used > 0 && d.Wf() && !d.neg
    modifies d
    ensures d.Valid() && !d.neg && Short(a, d.Mag())
  {
    TakeGap(a, d);
  }

  /** All digits from one up to n are full. */
  ghost predicate Full(d: seq<MpDigit>, n: nat)
    requires n <= |d|
  {
    forall j | 1 <= j < n :: d[j] == B - 1
  }

  lemma {:induction false} FullValue(d: seq<MpDigit>, n: nat)
    requires 0 < n <= |d| && Full(d, n)
    ensures V(d, n) == P(n) - B + d[0]
  {
    PNext(n - 1);
    PNext(0);
    if n == 1 {
      assert V(d, 0) == 0;
    } else {
      FullValue(d, n - 1);
      assert V(d, n) == V(d, n - 1) + d[n - 1] * P(n - 1);
      hide P, V;
      MulDistribute(B, 1, P(n - 1));
    }
  }

  /** A number is within B of P(n) only if its upper digits are full. */
  lemma {:induction false} FullOnly(d: seq<MpDigit>, n: nat)
    requires 0 < n <= |d| && V(d, n) + B >= P(n)
    ensures Full(d, n)
  {
    if n > 1 {
      PNext(n - 1);
      PNext(n - 2);
      assert V(d, n) == V(d, n - 1) + d[n - 1] * P(n - 1);
      VBound(d, n - 1);
      PNext(0);
      PMonotone(0, n - 2);
      hide P, V;
      MulMonotone(1, P(n - 2), B);
      MulDistribute(B, 1, P(n - 1));
      MulDistribute(B, 2, P(n - 1));
      if d[n - 1] <= B - 2 {
        MulMonotone(d[n - 1], B - 2, P(n - 1));
        assert false;
      }
      FullOnly(d, n - 1);
    }
  }

  /** All bits of d from the second digit up to the highest are ones. */
  ghost predicate UpperOnes(d: seq<MpDigit>, u: nat, top: nat)
    requires 1 < u <= |d|
  {
    Full(d, u - 1) && d[u - 1] == Pow(2, top) - 1
  }

  /** That is so exactly when the number lies within B of the next power of two. */
  lemma UpperOnesGap(d: seq<MpDigit>, u: nat, top: nat)
    requires 1 < u <= |d| && d[u - 1] < Pow(2, top)
    ensures var w := Pow(2, (u - 1) * DIGIT_BIT + top);
            && (UpperOnes(d, u, top) <==> V(d, u) + B >= w)
            && (UpperOnes(d, u, top) ==> V(d, u) + B == w + d[0])
  {
    hide P, Pow, V;
    WeightIs(u - 1);
    PowAdd(2, DIGIT_BIT * (u - 1), top);
    VLast(d, u);
    VBound(d, u - 1);
    RadixBelow(u - 1);
    GapAlgebra(V(d, u - 1), d[u - 1], P(u - 1), Pow(2, top), B);
    if Full(d, u - 1) {
      FullValue(d, u - 1);
    } else if V(d, u - 1) + B >= P(u - 1) {
      FullOnly(d, u - 1);
    }
  }

  lemma VLast(d: seq<nat>, u: nat)
    requires 0 < u <= |d|
    ensures V(d, u) == V(d, u - 1) + d[u - 1] * P(u - 1)
  {}

  lemma RadixBelow(k: nat)
    requires k > 0
    ensures B <= P(k)
  {
    PNext(0);
    PMonotone(1, k);
  }

  lemma GapAlgebra(v: int, x: int, p: int, t: int, b: int)
    requires x < t && 0 <= v < p && b <= p
    ensures v + x * p + b >= p * t <==> x == t - 1 && v + b >= p
    ensures x == t - 1 ==> v + x * p == p * t - p + v
  {
    MulDistribute(t, 1, p);
    MulDistribute(t, 2, p);
    if x <= t - 2 {
      MulMonotone(x, t - 2, p);
    }
  }

  /** A number of t ones has a one at every position below t. */
  lemma OnesBit(t: nat, s: nat)
    requires s < t
    ensures Pow(2, s) > 0 && (Pow(2, t) - 1) / Pow(2, s) % 2 == 1
  {
    assert Pow(2, t - s) == 2 * Pow(2, t - s - 1);
    hide Pow;
    PowAdd(2, t - s, s);
    PowPositive(2, s);
    PowPositive(2, t - s - 1);
    OddQuotient(Pow(2, t), Pow(2, s), Pow(2, t - s - 1));
  }

  lemma OddQuotient(x: int, w: int, h: int)
    requires x == (2 * h) * w && w > 0 && h > 0
    ensures (x - 1) / w % 2 == 1
  {
    MulDistribute(2 * h, 1, w);
    DivModUnique(x - 1, w, 2 * h - 1, w - 1);
  }

  /** One more one bit. */
  lemma NextOne(x: nat, w: nat)
    requires w > 0 && x % w == w - 1 && x / w % 2 == 1
    ensures x % (2 * w) == 2 * w - 1
  {
    var q := x / w;
    assert x == q * w + (w - 1);
    MulSwap(q / 2, 2, w);
    assert q == 2 * (q / 2) + 1;
    MulDistribute(2 * (q / 2), 1, w);
    DivModUnique(x, 2 * w, q / 2, 2 * w - 1);
  }

  ghost function Place(iw: nat, s: nat): nat {
    iw * DIGIT_BIT + s
  }

  lemma PlaceNext(iw: nat, s: nat)
    ensures Place(iw, s + 1) == Place(iw, s) + 1
    ensures s + 1 == DIGIT_BIT ==> Place(iw + 1, 0) == Place(iw, s) + 1
    ensures Place(1, 0) == DIGIT_BIT
  {
    MulDistribute(iw, 1, DIGIT_BIT);
  }

  predicate BitSet(x: nat, w: nat)
    requires w > 0
  {
    x / w % 2 == 1
  }

  /** Where a bit position lies relative to the top digit. */
  lemma BitPlace(iw: nat, s: nat, u: nat, top: nat)
    requires u > 0 && s < DIGIT_BIT && 0 < top <= DIGIT_BIT
    ensures Place(iw, s) < Place(u - 1, top) ==> iw < u && (iw == u - 1 ==> s < top)
    ensures Place(iw, s) == Place(u - 1, top) ==>
              (iw == u - 1 && s == top) || (iw == u && s == 0 && top == DIGIT_BIT)
  {
    MulDistribute(u, 1, DIGIT_BIT);
    if iw >= u {
      MulMonotone(u, iw, DIGIT_BIT);
      if iw > u {
        MulMonotone(u + 1, iw, DIGIT_BIT);
        MulDistribute(u, 1, DIGIT_BIT);
      }
    } else if iw < u - 1 {
      MulMonotone(iw + 1, u - 1, DIGIT_BIT);
      MulDistribute(iw, 1, DIGIT_BIT);
    }
  }

  /** The bits from the second digit up to, but not including, bit s of digit iw are ones. */
  ghost predicate OnesUpTo(d: seq<MpDigit>, u: nat, iw: nat, s: nat)
    requires u <= |d|
  {
    && 1 <= iw <= u && Full(d, iw) && s < DIGIT_BIT && Pow(2, s) > 0
    && (if iw < u then d[iw] % Pow(2, s) == Pow(2, s) - 1 else s == 0)
  }

  lemma OnesStop(d: seq<MpDigit>, u: nat, iw: nat, s: nat, top: nat)
    requires 1 < u <= |d| && OnesUpTo(d, u, iw, s) && iw < u && 0 < top <= DIGIT_BIT && (iw == u - 1 ==> s < top)
    requires !BitSet(d[iw], Pow(2, s))
    ensures !UpperOnes(d, u, top)
  {
    OnesBit(DIGIT_BIT, s);
    if iw == u - 1 {
      OnesBit(top, s);
    }
  }

  lemma OnesGo(d: seq<MpDigit>, u: nat, iw: nat, s: nat)
    requires 1 < u <= |d| && OnesUpTo(d, u, iw, s) && iw < u && BitSet(d[iw], Pow(2, s))
    ensures Pow(2, s + 1) == 2 * Pow(2, s) <= B
    ensures s + 1 < DIGIT_BIT ==> Pow(2, s + 1) < B && OnesUpTo(d, u, iw, s + 1)
    ensures s + 1 == DIGIT_BIT ==> Pow(2, s + 1) == B && OnesUpTo(d, u, iw + 1, 0)
  {
    NextOne(d[iw], Pow(2, s));
    PowMonotone(2, s + 1, DIGIT_BIT);
    if s + 1 < DIGIT_BIT {
      OneBit(s + 1);
    } else {
      ModSmall(d[iw], B);
      assert Pow(2, 0) == 1;
    }
  }

  lemma OnesEnd(d: seq<MpDigit>, u: nat, iw: nat, s: nat, top: nat)
    requires 1 < u <= |d| && OnesUpTo(d, u, iw, s) && 0 < top <= DIGIT_BIT && d[u - 1] < Pow(2, top)
    requires (iw == u - 1 && s == top) || (iw == u && s == 0 && top == DIGIT_BIT)
    ensures UpperOnes(d, u, top)
  {
    if iw == u - 1 {
      ModSmall(d[iw], Pow(2, s));
    }
  }

  /** The gap to the next power of two, for a number that has one. */
  lemma TheGap(a: MpInt, p: nat) returns (gap: nat)
    requires a.Valid() && a.used > 0 && p > 0 && BitLength(a.dp, a.used, p)
    ensures a.Mag() + gap == Pow(2, p) && Short(a, gap)
  {
    BitRange(a.dp, a.used, p);
    gap := Pow(2, p) - a.Mag();
  }

  /** mp_reduce_is_2k: one digit, or a gap of at most B */
  method Is2k(a: MpInt) returns (yes: bool, ghost gap: nat)
    requires a.Valid()
    ensures a.used > 0 ==> Short(a, gap)
    ensures yes <==> a.used == 1 || (a.used > 1 && gap <= B)
    ensures a.used > 1 && yes ==> gap == B - a.dp[0]
  {
    hide Pow, V, P, Short, UpperOnes;
    gap := 0;
    if a.used == 0 {
      return false, gap;
    }
    var iy := CountBits(a);
    gap := TheGap(a, iy);
    if a.used == 1 {
      return true, gap;
    }
    ghost var top := iy - (a.used - 1) * DIGIT_BIT;
    UpperOnesGap(a.dp, a.used, top);
    MulMonotone(1, a.used - 1, DIGIT_BIT);
    yes := AllOnes(a, iy, top);
  }

  /** Test every bit from the second digit up. */
  method AllOnes(a: MpInt, iy: nat, ghost top: nat) returns (yes: bool)
    requires a.Valid() && a.used > 1 && iy == Place(a.used - 1, top) && iy >= DIGIT_BIT
    requires 0 < top <= DIGIT_BIT && a.dp[a.used - 1] < Pow(2, top)
    ensures yes <==> UpperOnes(a.dp, a.used, top)
  {
    hide Pow, V, P, UpperOnes, OnesUpTo, Digit, Place, BitSet;
    var iz, iw := 1, 1;
    ghost var s: nat := 0;
    OnesStart(a.dp, a.used);
    PlaceNext(1, 0);
    var ix: nat := DIGIT_BIT;
    while ix < iy
      invariant ix <= iy && s < DIGIT_BIT && iz == Pow(2, s) && iz > 0 && 1 <= iw <= a.used
      invariant ix == Place(iw, s) && OnesUpTo(a.dp, a.used, iw, s)
    {
      BitPlace(iw, s, a.used, top);
      if !BitSet(a.dp[iw], iz) {
        OnesStop(a.dp, a.used, iw, s, top);
        return false;
      }
      OnesGo(a.dp, a.used, iw, s);
      PlaceNext(iw, s);
      DigitExact(2 * iz);
      iz := Digit(2 * iz);
      s := s + 1;
      if iz > B - 1 {
        iw := iw + 1;
        iz := 1;
        s := 0;
        PowZero();
      }
      ix := ix + 1;
    }
    BitPlace(iw, s, a.used, top);
    OnesEnd(a.dp, a.used, iw, s, top);
    return true;
  }

  lemma PowZero()
    ensures Pow(2, 0) == 1
  {}

  lemma OnesStart(d: seq<MpDigit>, u: nat)
    requires 1 < u <= |d|
    ensures Pow(2, 0) == 1 && OnesUpTo(d, u, 1, 0)
  {}

  /** mp_dr_is_modulus */
  method IsDr(a: MpInt) returns (yes: bool)
    requires a.Valid()
    ensures yes <==> a.used >= 2 && a.Mag() + B >= P(a.used)
  {
    hide V, P;
    if a.used < 2 {
      return false;
    }
    var ix := 1;
    while ix < a.used
      invariant 1 <= ix <= a.used && Full(a.dp, ix)
    {
      if a.dp[ix] != B - 1 {
        if a.Mag() + B >= P(a.used) {
          FullOnly(a.dp, a.used);
        }
        return false;
      }
      ix := ix + 1;
    }
    FullValue(a.dp, a.used);
    return true;
  }

  ghost function FullDigits(d: seq<MpDigit>, n: nat): nat
    requires n <= |d|
  {
    if n == 0 then 0 else FullDigits(d, n - 1) + (if d[n - 1] == B - 1 then 1 else 0)
  }

  /** mp_reduce_is_2k_l: one digit, or at least half of the digits full */
  method Is2kL(a: MpInt) returns (yes: bool)
    requires a.Valid()
    ensures yes <==> a.used == 1 || (a.used > 1 && FullDigits(a.dp, a.used) >= a.used / 2)
  {
    if a.used <= 1 {
      return a.used == 1;
    }
    var iy := 0;
    var ix := 0;
    while ix < a.used
      invariant 0 <= ix <= a.used && iy == FullDigits(a.dp, ix)
    {
      if a.dp[ix] == B - 1 {
        iy := iy + 1;
      }
      ix := ix + 1;
    }
    return iy >= a.used / 2;
  }

  lemma {:induction false} FullCount(d: seq<MpDigit>, n: nat)
    requires 0 < n <= |d| && Full(d, n)
    ensures FullDigits(d, n) >= n - 1
  {
    if n > 1 {
      FullCount(d, n - 1);
    }
  }

  /** Every diminished-radix modulus also passes the test for the long 2^p - d form, which comes first. */
  lemma DrIsAlso2kL(d: seq<MpDigit>, n: nat)
    requires 2 <= n <= |d| && V(d, n) + B >= P(n)
    ensures FullDigits(d, n) >= n / 2
  {
    FullOnly(d, n);
    FullCount(d, n);
  }

  /** mp_reduce_is_2k also accepts a gap of exactly B, which mp_reduce_2k_setup cannot hold in a digit.
      The reduction is then right for every number exactly when the modulus divides B. */
  lemma LostGap(n: nat)
    requires n > 0
    ensures (forall x: nat :: Mod(Kept2k(x, 0, n + B), n) == Mod(x, n)) <==> Mod(B, n) == 0
  {
    hide Kept2k;
    if Mod(B, n) == 0 {
      forall x: nat ensures Mod(Kept2k(x, 0, n + B), n) == Mod(x, n) {
        KeptIs(x, 0, n + B);
        var q := Quot(x, n + B);
        QuotMod(x, n + B);
        var z := B / n;
        assert B == z * n;
        LostAlgebra(x, q, n, z, Mod(x, n + B));
        ModEqual(x, Mod(x, n + B), q * (1 + z), n);
      }
    } else {
      var x := n + B;
      KeptIs(x, 0, n + B);
      ModIs(x, n + B, 1, 0);
      ModIs(0, n, 0, 0);
      ModEqual(x, B, 1, n);
      assert Mod(Kept2k(x, 0, n + B), n) != Mod(x, n);
    }
  }

  lemma LostAlgebra(x: int, q: int, n: int, z: int, r: int)
    requires x == q * (n + z * n) + r
    ensures x == r + (q * (1 + z)) * n
  {
    MulDistribute(1, z, n);
    MulSwap(q, 1 + z, n);
  }

  // ----- moduli B^m - k

  /** mp_dr_setup */
  method DrSetup(a: MpInt) returns (k: nat)
    requires a.Valid() && a.used >= 2
    ensures 1 <= k <= B
    ensures a.Mag() + B >= P(a.used) ==> a.Mag() + k == P(a.used)
  {
    hide Digit, P, V;
    k := Digit(B - a.dp[0]);
    DigitExact(B - a.dp[0]);
    if a.Mag() + B >= P(a.used) {
      FullOnly(a.dp, a.used);
      FullValue(a.dp, a.used);
    }
  }

  /** A digit, a product with a factor of up to B and a carry of up to B stay within a word. */
  lemma WideWord(m: nat, x: nat, y: nat, u: nat)
    requires m < B && x < B && y <= B && u <= B
    ensures 0 <= x * y && Word(m + x * y + u) == m + x * y + u && High(m + x * y + u) <= B
  {
    hide Word, High, B;
    WideSum(m, x, y, u, B);
    WordExact(m + x * y + u);
    HighBound(m + x * y + u, B + 1);
  }

  lemma WideSum(m: nat, x: nat, y: nat, u: nat, b: nat)
    requires m < b && x < b && y <= b && u <= b
    ensures 0 <= x * y && 0 <= m + x * y + u < (b + 1) * b && (b + 1) * b <= 2 * (b * b)
  {
    WideProduct(x, y, b);
    MulDistribute(b, 1, b);
    MulMonotone(1, b, b);
  }

  lemma WideProduct(x: nat, y: nat, b: nat)
    requires x < b && y <= b
    ensures 0 <= x * y <= b * b - b
  {
    MulMonotone(0, x, y);
    MulMonotone(x, b - 1, y);
    MulMonotone(y, b, b - 1);
  }

  /** One digit of low + k * high.  The carry is at most B, and B only if k is. */
  lemma DrStep(d: seq<MpDigit>, x: seq<MpDigit>, m: nat, i: nat, k: nat, mu: nat)
    requires i < m && 2 * m <= |d| && |x| == |d| && x[i] == d[i] && x[m + i] == d[m + i] && k <= B && mu <= B
    requires V(x, i) + mu * P(i) == V(d, i) + k * V(d[m..], i)
    ensures var r := Word(x[i] + x[m + i] * k + mu);
            High(r) <= B && V(x[i := Low(r)], i + 1) + High(r) * P(i + 1) == V(d, i + 1) + k * V(d[m..], i + 1)
  {
    var y, z: nat := x[i], x[m + i];
    VLast(d, i + 1);
    VLast(d[m..], i + 1);
    hide P, V, Word, Low, High;
    WideWord(y, z, k, mu);
    var r := Word(y + z * k + mu);
    LowHigh(r);
    Carry(Low(r), High(r), r, i);
    RowSum(Low(r), High(r) * P(i + 1), r, y, z * k, mu, P(i));
    VUpdate(x, i, Low(r));
    MulDistribute(Low(r), y, P(i));
    DrAlgebra(k, V(d[m..], i), z, P(i));
  }

  lemma DrAlgebra(k: int, v: int, z: int, p: int)
    ensures k * (v + z * p) == k * v + (z * k) * p
  {}

  /** What the lowest i digits of both halves come to. */
  ghost function Folded(d: seq<MpDigit>, m: nat, k: nat, i: nat): int
    requires i <= m && 2 * m <= |d|
  {
    V(d, i) + k * V(d[m..], i)
  }

  lemma FoldStep(d: seq<MpDigit>, x: seq<MpDigit>, m: nat, i: nat, k: nat, mu: nat)
    requires i < m && 2 * m <= |d| && |x| == |d| && x[i] == d[i] && x[m + i] == d[m + i] && k <= B && mu <= B
    requires V(x, i) + mu * P(i) == Folded(d, m, k, i)
    ensures var r := Word(x[i] + x[m + i] * k + mu);
            High(r) <= B && V(x[i := Low(r)], i + 1) + High(r) * P(i + 1) == Folded(d, m, k, i + 1)
  {
    hide P, V, Word, Low, High;
    DrStep(d, x, m, i, k, mu);
  }

  lemma FoldEnds(d: seq<MpDigit>, u: nat, m: nat, k: nat)
    requires u <= 2 * m <= |d| && forall i | u <= i < |d| :: d[i] == 0
    ensures Folded(d, m, k, 0) == 0
    ensures Folded(d, m, k, m) == Mod(V(d, u), P(m)) + Quot(V(d, u), P(m)) * k && Quot(V(d, u), P(m)) < P(m)
  {
    hide P, V, Quot, Mod;
    DrParts(d, u, m);
    VEmpty(d);
    VEmpty(d[m..]);
    VBound(d[m..], m);
    assert k * 0 == 0;
  }

  /** (x mod P(m)) + k * (x / P(m)), in the lower half of x and a carry. */
  method DrFold(x: MpInt, m: nat, k: nat) returns (mu: nat)
    requires m > 0 && x.Valid() && !x.neg && x.Zeroed() && x.used <= 2 * m <= |x.dp| && k <= B
    modifies x`dp
    ensures |x.dp| == old(|x.dp|) && mu <= B && (x.used <= m ==> mu == 0 && x.dp == old(x.dp))
    ensures forall j | m <= j < |x.dp| :: x.dp[j] == old(x.dp)[j]
    ensures V(x.dp, m) + mu * P(m) == Mod(old(x.Mag()), P(m)) + Quot(old(x.Mag()), P(m)) * k
    ensures Quot(old(x.Mag()), P(m)) < P(m)
  {
    hide P, V, Word, Low, High, Quot, Mod, Folded;
    ghost var D := x.dp;
    FoldEnds(D, x.used, m, k);
    VEmpty(D);
    mu := 0;
    var i := 0;
    while i < m
      invariant 0 <= i <= m && |x.dp| == |D| && mu <= B
      invariant forall j | i <= j < |D| :: x.dp[j] == D[j]
      invariant x.used <= m ==> mu == 0 && x.dp == D
      invariant V(x.dp, i) + mu * P(i) == Folded(D, m, k, i)
    {
      FoldStep(D, x.dp, m, i, k, mu);
      DrIdle(x.dp[i], k);
      var r := Word(x.dp[i] + x.dp[m + i] * k + mu);
      x.dp := x.dp[i := Low(r)];
      mu := High(r);
      i := i + 1;
    }
  }

  lemma DrIdle(y: MpDigit, k: nat)
    ensures Low(Word(y + 0 * k + 0)) == y && High(Word(y + 0 * k + 0)) == 0
  {
    WordModulus();
    MulMonotone(128, B, B);
    ModSmall(y, WORD_MODULUS);
    ModSmall(y, B);
  }

  /** Zero the digits above position m and clamp. */
  method DrFinish(x: MpInt, m: nat)
    requires x.Wf() && !x.neg && m < |x.dp| && x.used <= 2 * m <= |x.dp|
    requires forall j | m < j < |x.dp| && x.used <= j :: x.dp[j] == 0
    requires x.used <= m ==> x.Zeroed()
    modifies x
    ensures x.Valid() && !x.neg && x.Zeroed() && x.used <= 2 * m <= |x.dp|
    ensures x.Mag() == old(V(x.dp, m + 1))
  {
    hide V;
    ghost var D := x.dp;
    var i := m + 1;
    while i < x.used
      invariant m < i && |x.dp| == |D| && x.used == old(x.used) && !x.neg
      invariant forall j | 0 <= j <= m :: x.dp[j] == D[j]
      invariant forall j | m < j < i && j < |D| :: x.dp[j] == 0
      invariant forall j | i <= j < |D| :: x.dp[j] == D[j]
      invariant x.used <= m ==> x.dp == D
    {
      x.dp := x.dp[i := 0];
      i := i + 1;
    }
    VSame(x.dp, D, m + 1);
    if x.used <= m {
      VZeros(x.dp, x.used, m + 1);
    } else {
      VZeros(x.dp, m + 1, x.used);
    }
    Clamp(x);
  }

  lemma DrParts(d: seq<MpDigit>, u: nat, m: nat)
    requires u <= 2 * m <= |d| && forall i | u <= i < |d| :: d[i] == 0
    ensures Mod(V(d, u), P(m)) == V(d, m) && Quot(V(d, u), P(m)) == V(d[m..], m)
    ensures u <= m ==> V(d[m..], m) == 0
  {
    hide P, V, Mod, Quot;
    VZeros(d, u, 2 * m);
    VSplit(d, m, 2 * m);
    VBound(d, m);
    MulSwap(1, P(m), V(d[m..], m));
    ModIs(V(d, u), P(m), V(d[m..], m), V(d, m));
    if u <= m {
      VEmpty(d[m..]);
      VZeros(d[m..], 0, m);
    }
  }

  /** mp_dr_reduce: x := x mod n */
  method ReduceDr(x: MpInt, n: MpInt, k: nat)
    requires x != n && x.Valid() && !x.neg && n.Valid() && n.used > 0 && n.Mag() + k == P(n.used) && k <= B
    requires x.Zeroed() && x.used <= 2 * n.used
    modifies x
    ensures x.Valid() && !x.neg && n.Mag() > 0 && x.Val() == Mod(old(x.Mag()), n.Mag())
  {
    hide V, P, Mod, Quot;
    var m := n.used;
    MagZero(n);
    ghost var X, t := x.Mag(), 0;
    Grow(x, m + m);
    VSame(x.dp, old(x.dp), x.used);
    var again := true;
    while again
      invariant x.Valid() && !x.neg && x.Zeroed() && x.used <= 2 * m <= |x.dp| && t >= 0
      invariant X == t * n.Mag() + x.Mag() && (!again ==> x.Mag() < n.Mag())
      modifies x
      decreases again, x.Mag()
    {
      ghost var k';
      again, k' := DrPass(x, n, k);
      MulDistribute(t, k', n.Mag());
      t := t + k';
    }
    ModIs(X, n.Mag(), t, x.Mag());
  }

  method DrPass(x: MpInt, n: MpInt, k: nat) returns (again: bool, ghost t: nat)
    requires x != n && n.Valid() && n.used > 0 && n.Mag() > 0 && n.Mag() + k == P(n.used) && k <= B
    requires x.Valid() && !x.neg && x.Zeroed() && x.used <= 2 * n.used <= |x.dp|
    modifies x
    ensures x.Valid() && !x.neg && x.Zeroed() && x.used <= 2 * n.used <= |x.dp|
    ensures Passed(old(x.Mag()), x.Mag(), n.Mag(), t, again)
  {
    hide V, P, Mod, Quot, Passed;
    ghost var X := x.Mag();
    var mu := DrFold(x, n.used, k);
    ghost var f := V(x.dp, n.used) + mu * P(n.used);
    MulMonotone(0, mu, P(n.used));
    if mu == B {
      CarryOut(V(x.dp, n.used), Mod(X, P(n.used)), Quot(X, P(n.used)), k, n.Mag(), P(n.used));
      SubtractCarry(x, n);
      again := true;
    } else {
      VUpdate(x.dp, n.used, mu);
      x.dp := x.dp[n.used := mu];
      DrFinish(x, n.used);
      var r := CmpMag(x, n);
      UsedOrder(x, n);
      again := r != LT;
      if again {
        SSub(x, n, x);
      }
    }
    t := PassDone(X, n.Mag(), k, P(n.used), f, x.Mag(), again);
  }

  /** A carry of B leaves less than the modulus below it. */
  lemma CarryOut(low: nat, r: nat, q: nat, k: nat, n: nat, p: nat)
    requires low + B * p == r + q * k && r < p && q < p && k <= B && n + k == p
    ensures low < n
  {
    MulMonotone(q, p - 1, k);
    MulMonotone(k, B, p - 1);
    MulDistribute(p, 1, B);
  }

  /** A final carry of B is stored at position `used` as it is, though it is no digit.  The number is then longer
      than n and n is subtracted at once; the lower digits borrow, which makes it a digit again. */
  method SubtractCarry(x: MpInt, n: MpInt)
    requires x != n && n.Valid() && n.used > 0 && n.used < |x.dp| && V(x.dp, n.used) < n.Mag()
    requires x.Wf() && !x.neg && x.used <= 2 * n.used <= |x.dp|
    requires forall j | x.used <= j < |x.dp| && n.used < j :: x.dp[j] == 0
    modifies x
    ensures x.Valid() && !x.neg && x.Zeroed() && x.used <= 2 * n.used <= |x.dp|
    ensures x.Mag() == old(V(x.dp, n.used)) + B * P(n.used) - n.Mag()
  {
    hide V, P;
    var m := n.used;
    var olduse := x.used;
    x.used := m + 1;
    ClearAbove(x, m + 1, olduse);
    VSame(x.dp, old(x.dp), m);
    var u := SubCommon(x, n, x, m);
    VBound(x.dp, m);
    BorrowOne(V(x.dp, m), old(V(x.dp, m)), n.Mag(), u, P(m));
    DigitExact(B - 1);
    ModSmall(B - 1, B);
    VUpdate(x.dp, m, B - 1);
    x.dp := x.dp[m := Low(Digit(B - u))];
    MulDistribute(B, 1, P(m));
    Clamp(x);
  }

  lemma BorrowOne(v: nat, low: nat, n: nat, u: nat, p: nat)
    requires v == low - n + u * p && low < n && u <= 1
    ensures u == 1
  {}
}

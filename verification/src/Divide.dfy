/** Signed division with remainder by the schoolbook method (HAC 14.20).  Each quotient digit is
    estimated from the leading digits, corrected against a three by two digit test and, if it is
    still one too large, repaired by adding the divisor back. */
module MpDivide {
  import opened Radix
  import opened Digits
  import opened MpCore
  import opened MpAdd
  import opened MpShift

  // ----- normalisation

  /** Bounds on a number in units of its top weight are bounds on its top digit. */
  lemma TopDigit(d: seq<MpDigit>, n: nat, j: nat, lo: nat, hi: nat)
    requires 0 < n <= |d| && d[n - 1] > 0 && 0 < lo && hi <= B
    requires lo * P(j) <= V(d, n) < hi * P(j)
    ensures n == j + 1 && lo <= d[n - 1] < hi
  {
    hide P;
    VTop(d, n);
    VBound(d, n);
    PNext(j);
    MulMonotone(hi, B, P(j));
    MulMonotone(1, lo, P(j));
    WeightOrder(n - 1, j + 1);
    WeightOrder(j, n);
    VBound(d, j);
    var x: nat := d[j];
    if x < lo {
      MulMonotone(x + 1, lo, P(j));
      MulDistribute(x, 1, P(j));
    }
    if x >= hi {
      MulMonotone(hi, x, P(j));
    }
  }

  /** How far to shift: the top digit of the divisor is to have DIGIT_BIT - 1 bits. */
  function Norm(bits: nat): (s: nat)
    ensures s < DIGIT_BIT
  {
    var norm := bits % DIGIT_BIT;
    if norm < DIGIT_BIT - 1 then DIGIT_BIT - 1 - norm else 0
  }

  lemma NormOf(u: nat, e: nat)
    requires 0 < u && 0 < e <= DIGIT_BIT
    ensures Norm((u - 1) * DIGIT_BIT + e) == if e == DIGIT_BIT then DIGIT_BIT - 1 else DIGIT_BIT - 1 - e
  {
    if e == DIGIT_BIT {
      MulDistribute(u, 1, DIGIT_BIT);
      DivModUnique((u - 1) * DIGIT_BIT + e, DIGIT_BIT, u, 0);
    } else {
      DivModUnique((u - 1) * DIGIT_BIT + e, DIGIT_BIT, u - 1, e);
    }
  }

  /** Quarter and half of the radix, the range of a normalised top digit. */
  const QUARTER: nat := Pow(2, DIGIT_BIT - 2)
  const HALF: nat := Pow(2, DIGIT_BIT - 1)

  lemma Quarters()
    ensures B == 4 * QUARTER && HALF == 2 * QUARTER && QUARTER >= 32
  {
    assert Pow(2, DIGIT_BIT) == 2 * Pow(2, DIGIT_BIT - 1);
    assert Pow(2, DIGIT_BIT - 1) == 2 * Pow(2, DIGIT_BIT - 2);
  }

  /** Shifting by Norm puts the number between a quarter and a half of some radix power. */
  lemma NormScale(v: nat, u: nat, e: nat, s: nat)
    requires 0 < u && 0 < e <= DIGIT_BIT && s == Norm((u - 1) * DIGIT_BIT + e)
    requires Pow(2, e - 1) * P(u - 1) <= v < Pow(2, e) * P(u - 1)
    ensures var j := if e == DIGIT_BIT then u else u - 1;
            QUARTER * P(j) <= v * Pow(2, s) < HALF * P(j)
  {
    NormOf(u, e);
    PowPositive(2, s);
    ScaleBounds(Pow(2, e - 1), Pow(2, e), P(u - 1), v, Pow(2, s));
    PowAdd(2, e - 1, s);
    PowAdd(2, e, s);
    if e == DIGIT_BIT {
      PowAdd(2, DIGIT_BIT, DIGIT_BIT - 2);
      PowAdd(2, DIGIT_BIT, DIGIT_BIT - 1);
      PNext(u - 1);
      MulSwap(QUARTER, B, P(u - 1));
      MulSwap(HALF, B, P(u - 1));
    }
  }

  lemma ScaleBounds(a: nat, b: nat, p: nat, v: nat, s: nat)
    requires s > 0 && a * p <= v < b * p
    ensures (a * s) * p <= v * s < (b * s) * p
  {
    MulMonotone(a * p, v, s);
    MulMonotone(v + 1, b * p, s);
    MulDistribute(v, 1, s);
    MulSwap(a, s, p);
    MulSwap(b, s, p);
  }

  /** Shift dividend and divisor so that the top digit of the divisor lies in [B/4, B/2). */
  method Normalize(x: MpInt, y: MpInt) returns (norm: nat)
    requires x.Valid() && y.Valid() && x != y && y.used > 0 && !x.neg && !y.neg
    requires x.Zeroed() && y.Zeroed()
    modifies x, y
    ensures norm < DIGIT_BIT && Pow(2, norm) > 0
    ensures x.Valid() && x.Zeroed() && !x.neg && x.Mag() == old(x.Mag()) * Pow(2, norm)
    ensures y.Valid() && y.Zeroed() && !y.neg && y.Mag() == old(y.Mag()) * Pow(2, norm)
    ensures y.used > 0 && QUARTER <= y.dp[y.used - 1] < HALF
    ensures x.used <= old(x.used) + 1
  {
    hide P, V, Pow, Norm, Whole, BitLength;
    var bits := CountBits(y);
    norm := Norm(bits);
    PowPositive(2, norm);
    BitWeight(norm);
    if norm > 0 {
      Mul2d(x, norm, x);
      Mul2d(y, norm, y);
    }
    MagZero(y);
    NormTop(old(y.dp), old(y.used), bits, y.dp, y.used);
  }

  lemma NormTop(d: seq<MpDigit>, u: nat, bits: nat, e: seq<MpDigit>, n: nat)
    requires 0 < u <= |d| && BitLength(d, u, bits)
    requires n <= |e| && (n > 0 ==> e[n - 1] > 0) && V(e, n) == V(d, u) * Pow(2, Norm(bits))
    ensures n > 0 && QUARTER <= e[n - 1] < HALF
  {
    hide P, Pow, Norm;
    var top := bits - (u - 1) * DIGIT_BIT;
    TopBits(d, u, top);
    NormScale(V(d, u), u, top, Norm(bits));
    Quarters();
    var j := if top == DIGIT_BIT then u else u - 1;
    MulMonotone(1, QUARTER, P(j));
    VEmpty(e);
    TopDigit(e, n, j, QUARTER, HALF);
  }

  lemma TopBits(d: seq<MpDigit>, u: nat, e: nat)
    requires 0 < u <= |d| && 0 < e && Pow(2, e - 1) <= d[u - 1] < Pow(2, e)
    ensures Pow(2, e - 1) * P(u - 1) <= V(d, u) < Pow(2, e) * P(u - 1)
  {
    hide P, Pow;
    VBound(d, u - 1);
    var x: nat := d[u - 1];
    MulMonotone(Pow(2, e - 1), x, P(u - 1));
    MulMonotone(x + 1, Pow(2, e), P(u - 1));
    MulDistribute(x, 1, P(u - 1));
  }

  // ----- the quotient digit estimate

  /** x3 and y2 are X and D cut off at the same weight s. */
  ghost predicate Leading(X: nat, D: nat, s: nat, x3: nat, y2: nat) {
    s > 0 && y2 * s <= D < (y2 + 1) * s && x3 * s <= X < (x3 + 1) * s
  }

  lemma CutNotBelow(q: nat, X: nat, D: nat, s: nat, x3: nat, y2: nat)
    requires Leading(X, D, s, x3, y2) && q * D <= X
    ensures q * y2 <= x3
  {
    MulMonotone(y2 * s, D, q);
    MulSwap(q, y2, s);
    if q * y2 > x3 {
      MulMonotone(x3 + 1, q * y2, s);
    }
  }

  lemma CutNotAbove(q: nat, X: nat, D: nat, s: nat, x3: nat, y2: nat)
    requires Leading(X, D, s, x3, y2) && 0 < q <= y2 + 1 && q * y2 <= x3
    ensures (q - 1) * D <= X
  {
    MulMonotone(D, (y2 + 1) * s, q - 1);
    assert (q - 1) * (y2 + 1) <= x3 by {
      assert (q - 1) * (y2 + 1) == q * y2 + q - y2 - 1;
    }
    MulMonotone((q - 1) * (y2 + 1), x3, s);
    MulSwap(q - 1, y2 + 1, s);
  }

  /** The leading digits that enter the test; digits below position zero count as zero. */
  ghost function Top2(d: seq<MpDigit>, i: nat): nat
    requires i < |d|
  {
    d[i] * B + (if i >= 1 then d[i - 1] as nat else 0)
  }

  ghost function Top3(d: seq<MpDigit>, i: nat): nat
    requires i < |d|
  {
    Top2(d, i) * B + (if i >= 2 then d[i - 2] as nat else 0)
  }

  lemma Cut2(d: seq<MpDigit>, i: nat)
    requires 0 < i < |d|
    ensures Top2(d, i) * P(i - 1) <= V(d, i + 1) < (Top2(d, i) + 1) * P(i - 1)
  {
    hide P;
    VBound(d, i - 1);
    PNext(i - 1);
    var a: nat, b: nat, p := d[i], d[i - 1], P(i - 1);
    assert V(d, i + 1) == V(d, i - 1) + b * p + a * (B * p);
    assert (a * B + b) * p == a * (B * p) + b * p;
    MulDistribute(a * B + b, 1, p);
  }

  lemma Cut3(d: seq<MpDigit>, i: nat)
    requires 2 <= i < |d|
    ensures Top3(d, i) * P(i - 2) <= V(d, i + 1) < (Top3(d, i) + 1) * P(i - 2)
  {
    hide P, Top2;
    VBound(d, i - 2);
    PNext(i - 2);
    var m: nat, c: nat, p := Top2(d, i), d[i - 2], P(i - 2);
    Cut2Exact(d, i);
    assert V(d, i + 1) == V(d, i - 2) + c * p + m * (B * p);
    assert (m * B + c) * p == m * (B * p) + c * p;
    MulDistribute(m * B + c, 1, p);
  }

  lemma Cut2Exact(d: seq<MpDigit>, i: nat)
    requires 0 < i < |d|
    ensures V(d, i + 1) == V(d, i - 1) + Top2(d, i) * P(i - 1)
  {
    hide P;
    PNext(i - 1);
    var a: nat, b: nat, p := d[i], d[i - 1], P(i - 1);
    assert (a * B + b) * p == a * (B * p) + b * p;
  }

  /** The divisor, shifted to line up with position i, cut at the same weight as the dividend. */
  lemma CutDivisor(y: seq<MpDigit>, t: nat, i: nat)
    requires t < i && 2 <= i && t < |y|
    ensures var D := V(y, t + 1) * P(i - t - 1);
            Top2(y, t) * P(i - 2) <= D < (Top2(y, t) + 1) * P(i - 2)
  {
    hide P, Top2;
    if t == 0 {
      OneDigit(y);
      PNext(i - 2);
      var a: nat := y[0];
      Top2Zero(y);
      MulSwap(a, B, P(i - 2));
      MulDistribute(a * B, 1, P(i - 2));
    } else {
      Cut2(y, t);
      PAdd(t - 1, i - t - 1);
      AlignBounds(Top2(y, t), Top2(y, t) + 1, P(t - 1), V(y, t + 1), P(i - t - 1));
    }
  }

  lemma OneDigit(y: seq<nat>)
    requires |y| > 0
    ensures V(y, 1) == y[0] && P(0) == 1
  {
    VEmpty(y);
    PNext(0);
    assert V(y, 1) == V(y, 0) + y[0] * P(0);
  }

  lemma Top2Zero(y: seq<MpDigit>)
    requires |y| > 0
    ensures Top2(y, 0) == y[0] * B
  {}

  /** Dividend and shifted divisor, cut consistently; for i = 1 both are first scaled by the radix. */
  lemma LeadingDigits(x: seq<MpDigit>, y: seq<MpDigit>, i: nat, t: nat)
    requires t < i < |x| && t < |y|
    ensures var X, D := V(x, i + 1), V(y, t + 1) * P(i - t - 1);
            if i >= 2 then Leading(X, D, P(i - 2), Top3(x, i), Top2(y, t))
            else Leading(X * B, D * B, 1, Top3(x, i), Top2(y, t))
  {
    hide P, Top2, Top3;
    if i >= 2 {
      Cut3(x, i);
      CutDivisor(y, t, i);
    } else {
      OneDigit(y);
      Cut2Exact(x, i);
      VEmpty(x);
      Top2Zero(y);
      Top3One(x);
    }
  }

  lemma Top3One(x: seq<MpDigit>)
    requires |x| > 1
    ensures Top3(x, 1) == Top2(x, 1) * B
  {}

  /** The same with one digit fewer on both sides. */
  lemma LeadingTwo(x: seq<MpDigit>, y: seq<MpDigit>, i: nat, t: nat)
    requires t < i < |x| && t < |y|
    ensures Leading(V(x, i + 1), V(y, t + 1) * P(i - t - 1), P(i - 1), Top2(x, i), y[t])
  {
    hide P, Top2;
    Cut2(x, i);
    VBound(y, t);
    PAdd(t, i - t - 1);
    var a: nat := y[t];
    MulDistribute(a, 1, P(t));
    AlignBounds(a, a + 1, P(t), V(y, t + 1), P(i - t - 1));
  }

  lemma AlignBounds(a: nat, b: nat, p: nat, v: nat, m: nat)
    requires m > 0 && a * p <= v < b * p
    ensures a * (p * m) <= v * m < b * (p * m)
  {
    ScaleBounds(a, b, p, v, m);
    MulSwap(a, p, m);
    MulSwap(b, p, m);
  }

  /** The true digit, and anything below it, passes both the two by one and the three by two test. */
  lemma EstimateLow(x: seq<MpDigit>, y: seq<MpDigit>, i: nat, t: nat, q: nat)
    requires t < i < |x| && t < |y| && q * (V(y, t + 1) * P(i - t - 1)) <= V(x, i + 1)
    ensures q * Top2(y, t) <= Top3(x, i) && q * y[t] <= Top2(x, i)
  {
    hide P, V, Leading, Top2, Top3;
    LeadingDigits(x, y, i, t);
    LeadingTwo(x, y, i, t);
    var X, D := V(x, i + 1), V(y, t + 1) * P(i - t - 1);
    CutNotBelow(q, X, D, P(i - 1), Top2(x, i), y[t]);
    if i >= 2 {
      CutNotBelow(q, X, D, P(i - 2), Top3(x, i), Top2(y, t));
    } else {
      MulMonotone(q * D, X, B);
      MulSwap(q, D, B);
      CutNotBelow(q, X * B, D * B, 1, Top3(x, i), Top2(y, t));
    }
  }

  /** A digit that passes the three by two test is at most one too large, and so is one that only
      passes the two by one test when the dividend's digit at position i is zero. */
  lemma EstimateHigh(x: seq<MpDigit>, y: seq<MpDigit>, i: nat, t: nat, q: nat)
    requires t < i < |x| && t < |y| && 0 < q < B && QUARTER <= y[t]
    requires q * Top2(y, t) <= Top3(x, i) || (x[i] == 0 && q * y[t] <= Top2(x, i))
    ensures (q - 1) * (V(y, t + 1) * P(i - t - 1)) <= V(x, i + 1)
  {
    hide P, V, Leading, Top2, Top3, Pow;
    var X, D := V(x, i + 1), V(y, t + 1) * P(i - t - 1);
    if q * Top2(y, t) <= Top3(x, i) {
      LeadingDigits(x, y, i, t);
      Top2Large(y, t);
      if i >= 2 {
        CutNotAbove(q, X, D, P(i - 2), Top3(x, i), Top2(y, t));
      } else {
        CutNotAbove(q, X * B, D * B, 1, Top3(x, i), Top2(y, t));
        Unscale(q - 1, D, X);
      }
    } else {
      LeadingTwo(x, y, i, t);
      SmallQuotient(x, i, q, y[t]);
      CutNotAbove(q, X, D, P(i - 1), Top2(x, i), y[t]);
    }
  }

  lemma Top2Large(y: seq<MpDigit>, t: nat)
    requires t < |y| && QUARTER <= y[t]
    ensures B <= Top2(y, t)
  {
    Quarters();
    MulMonotone(1, y[t], B);
  }

  lemma SmallQuotient(x: seq<MpDigit>, i: nat, q: nat, y: nat)
    requires 0 < i < |x| && x[i] == 0 && QUARTER <= y && q * y <= Top2(x, i)
    ensures q <= y + 1
  {
    Quarters();
    if q > 4 {
      MulMonotone(4, q, y);
    }
  }

  lemma Unscale(q: nat, D: nat, X: nat)
    requires q * (D * B) <= X * B
    ensures q * D <= X
  {
    MulSwap(q, D, B);
    if q * D > X {
      MulMonotone(X + 1, q * D, B);
    }
  }

  lemma SmallValues(d: seq<nat>)
    ensures |d| >= 2 ==> V(d, 2) == d[1] * B + d[0]
    ensures |d| >= 3 ==> V(d, 3) == (d[2] * B + d[1]) * B + d[0]
    ensures P(2) == B * B
  {
    PNext(0);
    PNext(1);
    if |d| >= 2 {
      OneDigit(d);
      hide P;
      assert V(d, 2) == V(d, 1) + d[1] * P(1);
      if |d| >= 3 {
        assert V(d, 3) == V(d, 2) + d[2] * P(2);
        assert (d[2] * B + d[1]) * B == d[2] * (B * B) + d[1] * B;
      }
    }
  }

  /** (q + 1) & MP_MASK and (q - 1) & MP_MASK */
  function Inc(q: MpDigit): MpDigit {
    Low(Digit(q + 1))
  }

  function Dec(q: MpDigit): MpDigit {
    Low(Digit(q - 1))
  }

  lemma DecInc(q: MpDigit)
    ensures Dec(Inc(q)) == q
    ensures q > 0 ==> Dec(q) == q - 1
  {
    DigitExact(q + 1);
    DigitModulus();
    if q > 0 {
      DigitExact(q - 1);
      ModSmall(q - 1, B);
    }
    if q + 1 < B {
      ModSmall(q + 1, B);
      DigitExact(q);
      ModSmall(q, B);
    } else {
      DivModUnique(q + 1, B, 1, 0);
      SubDigit(-1);
      LowOfWrap();
    }
  }

  lemma LowOfWrap()
    ensures Low(Digit(-1)) == B - 1
  {
    SubDigit(-1);
    var t := TopBit(Digit(-1));
    hide TopBit, Low, Digit;
    assert t == 0 || t == 1;
  }

  /** The first guess: the top two digits of x divided by the top digit of y, at most B - 1. */
  function FirstGuess(x1: MpDigit, x0: MpDigit, y: MpDigit): MpDigit
    requires y > 0
  {
    if x1 == y then B - 1
    else
      var tmp := Word(x1 * B + x0) / y;
      if tmp > B - 1 then B - 1 else tmp
  }

  lemma FirstGuessBounds(x1: MpDigit, x0: MpDigit, y: MpDigit, k: nat)
    requires y > 0
    ensures x1 == 0 ==> FirstGuess(x1, x0, y) * y <= x0
    ensures k < B && k * y <= x1 * B + x0 ==> k <= FirstGuess(x1, x0, y)
  {
    var x := x1 * B + x0;
    MulMonotone(x1, B - 1, B);
    assert (B - 1) * B == B * B - B;
    WordExact(x);
    hide Word;
    FloorBound(x, y, k);
    if x1 == 0 && x / y > B - 1 {
      MulMonotone(B - 1, x / y, y);
    }
  }

  lemma FloorBound(x: nat, y: nat, k: nat)
    requires y > 0
    ensures (x / y) * y <= x
    ensures k * y <= x ==> k <= x / y
  {
    if k > x / y {
      MulMonotone(x / y + 1, k, y);
      MulDistribute(x / y, 1, y);
    }
  }

  /** The quotient digit at position i: exact or one too large. */
  method Estimate(x: MpInt, y: MpInt, i: nat, t: nat, t1: MpInt, t2: MpInt) returns (q: MpDigit)
    requires x.Wf() && y.Wf() && t1.Wf() && t2.Wf()
    requires t1 != x && t1 != y && t2 != x && t2 != y && t1 != t2
    requires t < i < |x.dp| && t < |y.dp| && QUARTER <= y.dp[t]
    requires V(x.dp, i + 1) < B * (V(y.dp, t + 1) * P(i - t - 1))
    modifies t1, t2
    ensures t1.Wf() && t2.Wf()
    ensures q > 0 ==> (q - 1) * (V(y.dp, t + 1) * P(i - t - 1)) <= V(x.dp, i + 1)
    ensures V(x.dp, i + 1) < (q + 1) * (V(y.dp, t + 1) * P(i - t - 1))
  {
    hide P, V, Pow, Top2, Top3, Inc, Dec, FirstGuess;
    ghost var X, D := V(x.dp, i + 1), V(y.dp, t + 1) * P(i - t - 1);
    Quarters();
    q := FirstGuess(x.dp[i], x.dp[i - 1], y.dp[t]);
    GuessEnough(x.dp, y.dp, i, t, q);
    ghost var g: nat := q;
    DecInc(q);
    q := Inc(q);
    while true
      invariant t1.Wf() && t2.Wf() && Dec(q) == g
      invariant X < (g + 1) * D
      invariant x.dp[i] == 0 ==> g * y.dp[t] <= Top2(x.dp, i)
      decreases g
    {
      q := Dec(q);
      Product2(t1, y, t, q);
      Load3(t2, x, i);
      var c := CmpMag(t1, t2);
      Verdict(x.dp, y.dp, i, t, q, t1.used, t1.Mag(), c);
      if c != GT {
        break;
      }
      DecInc(q);
      g := q - 1;
      MulMonotone(q - 1, q, y.dp[t]);
    }
  }

  /** Left hand side of the test: the top two digits of y times the candidate digit. */
  method Product2(t1: MpInt, y: MpInt, t: nat, q: MpDigit)
    requires t1.Wf() && t < |y.dp| && t1 != y
    modifies t1
    ensures t1.Valid() && t1.Mag() == Top2(y.dp, t) * q && t1.used <= 3
    ensures t1.used < 3 ==> t1.Mag() < B * B
  {
    hide P, V;
    Zero(t1);
    t1.dp := t1.dp[0 := if t == 0 then 0 else y.dp[t - 1]];
    t1.dp := t1.dp[1 := y.dp[t]];
    t1.used := 2;
    SmallValues(t1.dp);
    MulD(t1, q, t1);
    if t1.used < 3 {
      VBound(t1.dp, t1.used);
      PMonotone(t1.used, 2);
    }
  }

  /** Right hand side: the top three digits of x, without clamping. */
  method Load3(t2: MpInt, x: MpInt, i: nat)
    requires t2.Wf() && 0 < i < |x.dp| && t2 != x
    modifies t2
    ensures t2.Wf() && t2.used == 3 && t2.Mag() == Top3(x.dp, i)
  {
    hide P, V;
    t2.dp := t2.dp[0 := if i < 2 then 0 else x.dp[i - 2]];
    t2.dp := t2.dp[1 := x.dp[i - 1]];
    t2.dp := t2.dp[2 := x.dp[i]];
    t2.used := 3;
    SmallValues(t2.dp);
  }

  lemma GuessEnough(x: seq<MpDigit>, y: seq<MpDigit>, i: nat, t: nat, q: MpDigit)
    requires t < i < |x| && t < |y| && y[t] > 0 && q == FirstGuess(x[i], x[i - 1], y[t])
    requires V(x, i + 1) < B * (V(y, t + 1) * P(i - t - 1))
    ensures V(x, i + 1) < (q + 1) * (V(y, t + 1) * P(i - t - 1))
    ensures x[i] == 0 ==> q * y[t] <= Top2(x, i)
  {
    hide P, V, FirstGuess;
    FirstGuessBounds(x[i], x[i - 1], y[t], q + 1);
    if q + 1 < B && V(x, i + 1) >= (q + 1) * (V(y, t + 1) * P(i - t - 1)) {
      EstimateLow(x, y, i, t, q + 1);
    }
  }

  /** What the comparison tells, although the right hand side is not clamped. */
  lemma Verdict(x: seq<MpDigit>, y: seq<MpDigit>, i: nat, t: nat, q: MpDigit, used: nat, m: nat, c: Order)
    requires t < i < |x| && t < |y| && QUARTER <= y[t]
    requires m == Top2(y, t) * q && (used < 3 ==> m < B * B) && used <= 3
    requires c == if used != 3 then Compare(used, 3) else Compare(m, Top3(x, i))
    requires x[i] == 0 ==> q * y[t] <= Top2(x, i)
    ensures c == GT ==> q > 0 && V(x, i + 1) < q * (V(y, t + 1) * P(i - t - 1))
    ensures c != GT && q > 0 ==> (q - 1) * (V(y, t + 1) * P(i - t - 1)) <= V(x, i + 1)
  {
    hide P, V, Top2, Top3;
    if c == GT {
      if V(x, i + 1) >= q * (V(y, t + 1) * P(i - t - 1)) {
        EstimateLow(x, y, i, t, q);
      }
    } else if q > 0 {
      if x[i] > 0 {
        Top3Large(x, i);
      }
      EstimateHigh(x, y, i, t, q);
    }
  }

  lemma Top3Large(x: seq<MpDigit>, i: nat)
    requires i < |x| && x[i] > 0
    ensures Top3(x, i) >= B * B
  {
    MulMonotone(1, x[i], B);
    MulMonotone(B, Top2(x, i), B);
  }

  // ----- the main loop

  /** x := x - q * y * B^k */
  method SubMultiple(x: MpInt, y: MpInt, q: MpDigit, k: nat, t1: MpInt)
    requires x.Valid() && y.Valid() && t1.Wf() && x != y && t1 != x && t1 != y
    requires !x.neg && !y.neg && y.used > 0 && k <= x.used
    modifies x, t1
    ensures x.Valid() && x.Val() == old(x.Val()) - q * (y.Mag() * P(k)) && t1.Wf()
    ensures old(x.Zeroed()) ==> x.Zeroed()
    ensures |x.dp| >= old(|x.dp|)
  {
    hide P, V;
    MulD(y, q, t1);
    MagZero(t1);
    MulSwap(y.Mag(), q, P(k));
    Lshd(t1, k);
    assert t1.Valid() || (t1.Mag() == 0 && t1.used <= x.used);
    Sub(x, t1, x);
  }

  /** x := x + y * B^k, for the add-back. */
  method AddBack(x: MpInt, y: MpInt, k: nat, t1: MpInt)
    requires x.Valid() && y.Valid() && t1.Wf() && x != y && t1 != x && t1 != y
    requires !y.neg && y.used > 0
    modifies x, t1
    ensures x.Valid() && x.Val() == old(x.Val()) + y.Mag() * P(k) && t1.Wf()
    ensures old(x.Zeroed()) ==> x.Zeroed()
    ensures |x.dp| >= old(|x.dp|)
  {
    hide P, V;
    Copy(y, t1);
    Lshd(t1, k);
    Add(x, t1, x);
  }

  /** A dividend too short to reach position i - 1 is already below the shifted divisor. */
  lemma ShortDividend(x: seq<MpDigit>, n: nat, y: seq<MpDigit>, t: nat, i: nat)
    requires n <= |x| && t < |y| && y[t] > 0 && t < i && n < i
    ensures V(x, n) < V(y, t + 1) * P(i - t - 1)
  {
    hide P;
    VBound(x, n);
    PMonotone(n, i - 1);
    VTop(y, t + 1);
    PAdd(t, i - t - 1);
    MulMonotone(P(t), V(y, t + 1), P(i - t - 1));
  }

  /** In a run of the loop the dividend has at most i + 1 digits. */
  lemma DividendDigits(x: seq<MpDigit>, n: nat, y: seq<MpDigit>, t: nat, i: nat)
    requires n <= |x| && (n > 0 ==> x[n - 1] > 0) && t < |y| && t < i < |x|
    requires V(x, n) < V(y, t + 1) * P(i - t)
    requires forall j | n <= j < |x| :: x[j] == 0
    ensures n <= i + 1 && V(x, i + 1) == V(x, n)
    ensures V(x, i + 1) < B * (V(y, t + 1) * P(i - t - 1))
  {
    hide P;
    VBound(y, t + 1);
    PAdd(t + 1, i - t);
    MulMonotone(V(y, t + 1), P(t + 1), P(i - t));
    if n > 0 {
      VTop(x, n);
      WeightOrder(n - 1, i + 1);
    }
    VZeros(x, n, i + 1);
    PNext(i - t - 1);
    MulSwap(V(y, t + 1), B, P(i - t - 1));
    MulSwap(B, V(y, t + 1), P(i - t - 1));
  }

  /** One position of the quotient. */
  method DivStep(x: MpInt, y: MpInt, q: MpInt, i: nat, t: nat, t1: MpInt, t2: MpInt)
    requires x.Valid() && x.Zeroed() && !x.neg && y.Valid() && !y.neg && q.Wf() && t1.Wf() && t2.Wf()
    requires x != y && x != q && x != t1 && x != t2 && y != q && y != t1 && y != t2
    requires q != t1 && q != t2 && t1 != t2
    requires t < i < |x.dp| && y.used == t + 1 && QUARTER <= y.dp[t]
    requires i - t - 1 < q.used && q.dp[i - t - 1] == 0
    requires x.Mag() < y.Mag() * P(i - t)
    modifies x, q, t1, t2
    ensures x.Valid() && x.Zeroed() && !x.neg && t1.Wf() && t2.Wf() && |x.dp| >= old(|x.dp|)
    ensures q.used == old(q.used) && |q.dp| == old(|q.dp|) && q.neg == old(q.neg)
    ensures forall j | 0 <= j < |q.dp| && j != i - t - 1 :: q.dp[j] == old(q.dp)[j]
    ensures x.Mag() < y.Mag() * P(i - t - 1)
    ensures q.Mag() * y.Mag() + x.Mag() == old(q.Mag()) * y.Mag() + old(x.Mag())
  {
    hide P, V, Dec, Pow;
    Quarters();
    var k := i - t - 1;
    if i > x.used {
      ShortDividend(x.dp, x.used, y.dp, t, i);
      return;
    }
    DividendDigits(x.dp, x.used, y.dp, t, i);
    var e := Estimate(x, y, i, t, t1, t2);
    q.dp := q.dp[k := e];
    var e' := SubAndRepair(x, y, e, k, t1);
    q.dp := q.dp[k := e'];
    assert q.dp == old(q.dp)[k := e'];
    QuotientSet(old(q.dp), k, e', q.used, y.Mag());
  }

  /** Subtract e times the shifted divisor; if that went below zero, add it back once. */
  method SubAndRepair(x: MpInt, y: MpInt, e: MpDigit, k: nat, t1: MpInt) returns (q: MpDigit)
    requires x.Valid() && !x.neg && y.Valid() && !y.neg && t1.Wf()
    requires x != y && x != t1 && y != t1 && y.used > 0 && k <= x.used
    requires e > 0 ==> (e - 1) * (y.Mag() * P(k)) <= x.Mag()
    requires x.Mag() < (e + 1) * (y.Mag() * P(k))
    modifies x, t1
    ensures x.Valid() && !x.neg && t1.Wf() && |x.dp| >= old(|x.dp|)
    ensures old(x.Zeroed()) ==> x.Zeroed()
    ensures x.Mag() < y.Mag() * P(k) && x.Mag() == old(x.Mag()) - q * (y.Mag() * P(k))
  {
    hide P, V, Dec;
    ghost var X, D := x.Mag(), y.Mag() * P(k);
    q := e;
    SubMultiple(x, y, e, k, t1);
    MagZero(x);
    if x.neg {
      AddBack(x, y, k, t1);
      MagZero(x);
      DecInc(e);
      q := Dec(e);
    }
    Settled(X, D, e, q, x.Val());
  }

  /** The remainder after at most one add-back. */
  lemma Settled(X: nat, D: nat, e: nat, q: nat, r: int)
    requires (e > 0 ==> (e - 1) * D <= X) && X < (e + 1) * D
    requires if X < e * D then e > 0 && q == e - 1 && r == X - e * D + D else q == e && r == X - e * D
    ensures 0 <= r < D && r == X - q * D
  {
    MulDistribute(e, 1, D);
  }

  /** Setting a quotient digit that was zero adds that multiple of the shifted divisor. */
  lemma QuotientSet(d: seq<nat>, k: nat, q: nat, n: nat, y: nat)
    requires k < n <= |d| && d[k] == 0
    ensures V(d[k := q], n) * y == V(d, n) * y + q * (y * P(k))
  {
    hide P;
    VSet(d, k, q, n);
    MulDistribute(V(d, n), q * P(k), y);
    MulSwap(q, P(k), y);
    MulSwap(q, y, P(k));
  }

  /** The leading quotient digit, by repeated subtraction; normalisation keeps it below four. */
  method LeadingDigit(x: MpInt, y: MpInt, q: MpInt, s: nat, ghost y0: nat)
    requires x.Valid() && x.Zeroed() && !x.neg && y.Valid() && !y.neg && q.Wf()
    requires x != y && x != q && y != q && y.used > 0
    requires s < q.used && q.dp[s] == 0 && y.Mag() == y0 * P(s)
    requires x.Mag() < 4 * y.Mag()
    modifies x, q
    ensures x.Valid() && x.Zeroed() && !x.neg && |x.dp| >= old(|x.dp|) && x.Mag() < y.Mag()
    ensures q.used == old(q.used) && |q.dp| == old(|q.dp|) && q.neg == old(q.neg)
    ensures forall j | 0 <= j < |q.dp| && j != s :: q.dp[j] == old(q.dp)[j]
    ensures q.Mag() * y0 + x.Mag() == old(q.Mag()) * y0 + old(x.Mag())
  {
    hide P, V;
    MagZero(y);
    ghost var k: nat := 0;
    ghost var D := y.Mag();
    assert old(q.dp)[s := 0] == old(q.dp);
    while true
      invariant x.Valid() && x.Zeroed() && !x.neg && |x.dp| >= old(|x.dp|)
      invariant q.used == old(q.used) && q.neg == old(q.neg) && k <= 3
      invariant q.dp == old(q.dp)[s := k]
      invariant x.Mag() == old(x.Mag()) - k * D
      decreases x.Mag()
    {
      var c := Cmp(x, y);
      if c == LT {
        break;
      }
      FewSteps(old(x.Mag()), D, k);
      q.dp := q.dp[s := q.dp[s] + 1];
      Sub(x, y, x);
      MagZero(x);
      k := k + 1;
      MulDistribute(k - 1, 1, D);
    }
    QuotientSet(old(q.dp), s, k, q.used, y0);
  }

  lemma FewSteps(X: nat, D: nat, k: nat)
    requires X < 4 * D && X - k * D >= D
    ensures k < 3
  {
    if k >= 3 {
      MulMonotone(3, k, D);
    }
  }

  /** Divide normalised magnitudes: q receives the quotient, x keeps the remainder. */
  method DivDigits(x: MpInt, y: MpInt, q: MpInt)
    requires x.Valid() && x.Zeroed() && !x.neg && y.Valid() && !y.neg && q.Wf()
    requires x != y && x != q && y != q
    requires 0 < y.used <= x.used && QUARTER <= y.dp[y.used - 1] < HALF
    requires x.used - y.used < q.used && forall j | 0 <= j < q.used :: q.dp[j] == 0
    modifies x, y, q
    ensures x.Valid() && !x.neg && q.Wf() && q.neg == old(q.neg)
    ensures x.Mag() < old(y.Mag()) && q.Mag() * old(y.Mag()) + x.Mag() == old(x.Mag())
  {
    hide P, V, Pow;
    var n, t := x.used - 1, y.used - 1;
    ghost var Y := y.Mag();
    DivStart(x, y, q);
    DivLoop(x, y, q, n, t);
  }

  /** The part before the loop: line the divisor up with the top of x and back. */
  method DivStart(x: MpInt, y: MpInt, q: MpInt)
    requires x.Valid() && x.Zeroed() && !x.neg && y.Valid() && !y.neg && q.Wf()
    requires x != y && x != q && y != q
    requires 0 < y.used <= x.used && QUARTER <= y.dp[y.used - 1]
    requires x.used - y.used < q.used && forall j | 0 <= j < q.used :: q.dp[j] == 0
    modifies x, y, q
    ensures x.Valid() && x.Zeroed() && !x.neg && q.Wf() && q.neg == old(q.neg) && q.used == old(q.used)
    ensures y.Valid() && !y.neg && y.used == old(y.used) && y.Mag() == old(y.Mag())
    ensures y.dp[y.used - 1] == old(y.dp[y.used - 1])
    ensures |x.dp| >= old(|x.dp|)
    ensures forall j | 0 <= j < old(x.used) - y.used :: q.dp[j] == 0
    ensures x.Mag() < y.Mag() * P(old(x.used) - y.used)
    ensures q.Mag() * y.Mag() + x.Mag() == old(x.Mag())
  {
    hide P, V, Pow;
    ghost var Y := y.Mag();
    var n, t := x.used - 1, y.used - 1;
    TopFour(x.dp, n, y.dp, t);
    VZeros(q.dp, 0, q.used);
    VEmpty(q.dp);
    Lshd(y, n - t);
    LeadingDigit(x, y, q, n - t, Y);
    Rshd(y, n - t);
    MultipleDiv(Y, P(n - t));
    TopKept(old(y.dp), old(y.used), y.dp, y.used);
  }

  method DivLoop(x: MpInt, y: MpInt, q: MpInt, n: nat, t: nat)
    requires x.Valid() && x.Zeroed() && !x.neg && y.Valid() && !y.neg && q.Wf()
    requires x != y && x != q && y != q
    requires t <= n < |x.dp| && y.used == t + 1 && QUARTER <= y.dp[t] && q.used > n - t
    requires forall j | 0 <= j < n - t :: q.dp[j] == 0
    requires x.Mag() < y.Mag() * P(n - t)
    modifies x, q
    ensures x.Valid() && !x.neg && q.Wf() && q.neg == old(q.neg)
    ensures x.Mag() < y.Mag() && q.Mag() * y.Mag() + x.Mag() == old(q.Mag()) * y.Mag() + old(x.Mag())
  {
    hide P, V, Pow;
    PNext(0);
    var t1 := new MpInt();
    var t2 := new MpInt();
    var i := n;
    while i >= t + 1
      invariant t <= i <= n < |x.dp| && x.Valid() && x.Zeroed() && !x.neg
      invariant q.Wf() && q.used > n - t && q.neg == old(q.neg) && t1.Wf() && t2.Wf()
      invariant forall j | 0 <= j < i - t :: q.dp[j] == 0
      invariant x.Mag() < y.Mag() * P(i - t)
      invariant q.Mag() * y.Mag() + x.Mag() == old(q.Mag()) * y.Mag() + old(x.Mag())
    {
      DivStep(x, y, q, i, t, t1, t2);
      i := i - 1;
    }
  }

  /** A normalised divisor goes fewer than four times into a number of as many digits. */
  lemma TopFour(x: seq<MpDigit>, n: nat, y: seq<MpDigit>, t: nat)
    requires t <= n < |x| && t < |y| && QUARTER <= y[t]
    ensures V(x, n + 1) < 4 * (V(y, t + 1) * P(n - t))
  {
    hide P, Pow;
    Quarters();
    VBound(x, n + 1);
    PNext(n);
    PAdd(t, n - t);
    FourTimes(QUARTER, y[t], P(t), V(y, t), P(n - t));
  }

  lemma FourTimes(c: nat, y: nat, p: nat, v: nat, m: nat)
    requires c <= y
    ensures 4 * c * (p * m) <= 4 * ((v + y * p) * m)
  {
    MulMonotone(c, y, p);
    MulMonotone(c * p, v + y * p, m);
    MulSwap(c, p, m);
  }

  lemma MultipleDiv(y: nat, p: nat)
    requires p > 0
    ensures Quot(y * p, p) == y
  {
    ModIs(y * p, p, y, 0);
  }

  /** A number has one clamped representation. */
  lemma TopKept(d: seq<MpDigit>, n: nat, e: seq<MpDigit>, m: nat)
    requires 0 < n <= |d| && d[n - 1] > 0 && 0 < m <= |e| && e[m - 1] > 0 && V(d, n) == V(e, m)
    ensures n == m && d[n - 1] == e[m - 1]
  {
    hide P;
    var x: nat := e[m - 1];
    VBound(e, m - 1);
    MulDistribute(x, 1, P(m - 1));
    TopDigit(d, n, m - 1, x, x + 1);
  }

  // ----- signed division

  function Abs(x: int): nat {
    if x < 0 then -x else x
  }

  /** Quotient and remainder of C: rounded towards zero, remainder with the sign of the dividend. */
  function TDiv(a: int, b: int): int
    requires b != 0
  {
    var q := Abs(a) / Abs(b);
    if (a < 0) == (b < 0) then q else -q
  }

  function TMod(a: int, b: int): int
    requires b != 0
  {
    var r := Abs(a) % Abs(b);
    if a < 0 then -r else r
  }

  /** The two are exactly the pair of numbers with the division property. */
  lemma TDivMod(a: int, b: int, q: int, r: int)
    requires b != 0
    ensures (q == TDiv(a, b) && r == TMod(a, b)) <==>
            (a == q * b + r && Abs(r) < Abs(b) && (r == 0 || (r < 0) == (a < 0)))
  {
    var q', r' := TDiv(a, b), TMod(a, b);
    TDivModHolds(a, b);
    hide TDiv, TMod;
    if a == q * b + r && Abs(r) < Abs(b) && (r == 0 || (r < 0) == (a < 0)) {
      MulDistribute(q', q, b);
      SmallMultiple(q' - q, b, r - r');
    }
  }

  lemma SmallMultiple(k: int, b: int, m: int)
    requires k * b == m && Abs(m) < Abs(b)
    ensures k == 0
  {
    if k != 0 {
      MulAtLeast(Abs(b), Abs(k));
      AbsProduct(k, b);
    }
  }

  lemma AbsProduct(k: int, b: int)
    ensures Abs(k * b) == Abs(b) * Abs(k)
  {}

  lemma TDivModHolds(a: int, b: int)
    requires b != 0
    ensures a == TDiv(a, b) * b + TMod(a, b) && Abs(TMod(a, b)) < Abs(b)
    ensures TMod(a, b) == 0 || (TMod(a, b) < 0) == (a < 0)
  {
    var q, m := Abs(a) / Abs(b), Abs(b);
    assert Abs(a) == q * m + Abs(a) % m;
    assert q * (-m) == -(q * m) && (-q) * m == -(q * m) && (-q) * (-m) == q * m;
  }

  ghost predicate Target(c: MpInt?)
    reads c
  {
    c != null ==> c.used <= |c.dp| && MP_PREC <= |c.dp|
  }

  lemma SignMag(a: MpInt)
    requires a.Valid()
    ensures Abs(a.Val()) == a.Mag() && (a.Val() < 0 <==> a.neg) && (a.Val() == 0 <==> a.used == 0)
  {
    MagZero(a);
  }

  /** mp_div: c := a / b and d := a mod b, where either may be absent; division by zero is refused. */
  method Div(a: MpInt, b: MpInt, c: MpInt?, d: MpInt?) returns (ok: bool)
    requires a.Valid() && b.Valid() && Target(c) && Target(d) && (c != d || c == null)
    modifies c, d
    ensures ok <==> old(b.Val()) != 0
    ensures !ok ==> (c != null ==> unchanged(c)) && (d != null ==> unchanged(d))
    ensures ok && c != null ==> c.Valid() && c.Val() == TDiv(old(a.Val()), old(b.Val()))
    ensures ok && d != null ==> d.Valid() && d.Val() == TMod(old(a.Val()), old(b.Val()))
  {
    hide V;
    SignMag(a);
    SignMag(b);
    if b.used == 0 {
      return false;
    }
    var r := CmpMag(a, b);
    if r == LT {
      ModSmall(a.Mag(), b.Mag());
      if d != null {
        Copy(a, d);
      }
      if c != null {
        Zero(c);
      }
      return true;
    }
    DivLarge(a, b, c, d);
    return true;
  }

  lemma Parts(a: MpInt, b: MpInt)
    requires a.Valid() && b.Valid() && b.Mag() > 0
    ensures b.Val() != 0
    ensures TDiv(a.Val(), b.Val()) == if a.neg == b.neg then a.Mag() / b.Mag() else 0 - a.Mag() / b.Mag()
    ensures TMod(a.Val(), b.Val()) == if a.neg then 0 - a.Mag() % b.Mag() else a.Mag() % b.Mag()
  {
    SignMag(a);
    SignMag(b);
  }

  /** The case |a| >= |b| > 0. */
  method DivLarge(a: MpInt, b: MpInt, c: MpInt?, d: MpInt?)
    requires a.Valid() && b.Valid() && Target(c) && Target(d) && (c != d || c == null)
    requires 0 < b.Mag() <= a.Mag()
    modifies c, d
    ensures c != null ==> c.Valid() && c.Val() == TDiv(old(a.Val()), old(b.Val()))
    ensures d != null ==> d.Valid() && d.Val() == TMod(old(a.Val()), old(b.Val()))
  {
    hide V, Pow, TDiv, TMod;
    Parts(a, b);
    ghost var A, D := a.Mag(), b.Mag();
    var neg := a.neg != b.neg;
    var q, x, norm := DivMag(a, b);
    MagZero(x);
    x.neg := x.used != 0 && a.neg;
    QuotientPositive(A, D);
    if c != null {
      Clamp(q);
      MagZero(q);
      Exch(q, c);
      c.neg := neg;
    }
    if d != null {
      PowPositive(2, norm);
      MultipleDiv(A % D, Pow(2, norm));
      Div2d(x, norm, x, null);
      Exch(x, d);
    }
  }

  lemma QuotientPositive(a: nat, b: nat)
    requires 0 < b <= a
    ensures a / b > 0
  {
    FloorBound(a, b, 1);
  }

  /** The magnitudes: a quotient still to be clamped and a remainder still shifted by norm bits. */
  method DivMag(a: MpInt, b: MpInt) returns (q: MpInt, x: MpInt, norm: nat)
    requires a.Valid() && b.Valid() && 0 < b.Mag() <= a.Mag()
    ensures fresh(q) && fresh(x) && q != x && q.Wf() && x.Valid() && !x.neg && !q.neg
    ensures q.Mag() == a.Mag() / b.Mag() && x.Mag() == (a.Mag() % b.Mag()) * Pow(2, norm)
  {
    hide V, P, Pow;
    UsedOrder(a, b);
    MagZero(b);
    q := new MpInt.Sized(a.used + 2);
    q.used := a.used + 2;
    x := InitCopy(a);
    var y := InitCopy(b);
    x.neg, y.neg := false, false;
    norm := Normalize(x, y);
    MulMonotone(b.Mag(), a.Mag(), Pow(2, norm));
    UsedOrder(y, x);
    ghost var Y := y.Mag();
    DivDigits(x, y, q);
    Unnormalize(a.Mag(), b.Mag(), Pow(2, norm), q.Mag(), x.Mag());
  }

  lemma Unnormalize(a: nat, b: nat, s: nat, q: nat, x: nat)
    requires b > 0 && s > 0 && x < b * s && q * (b * s) + x == a * s
    ensures q == a / b && x == (a % b) * s
  {
    var q', r' := a / b, a % b;
    MulDistribute(q' * b, r', s);
    MulSwap(q', b, s);
    MulMonotone(r' + 1, b, s);
    MulDistribute(r', 1, s);
    DivModUnique(a * s, b * s, q, x);
    DivModUnique(a * s, b * s, q', r' * s);
  }
}

/** Shifts by whole digits and by bits, bit counting, and multiplication by one digit. */
module MpShift {
  import opened Radix
  import opened Digits
  import opened MpCore
  import opened MpAdd

  /** a := a * B^b.  Zero is left with b zero digits, that is, unclamped. */
  method Lshd(a: MpInt, b: nat)
    requires a.Wf()
    modifies a`used, a`dp
    ensures a.Wf() && a.used == old(a.used) + b && a.Mag() == old(a.Mag()) * P(b)
    ensures old(a.Zeroed()) ==> a.Zeroed()
    ensures |a.dp| >= old(|a.dp|)
    ensures old(a.Valid()) && (b == 0 || old(a.used) > 0) ==> a.Valid()
  {
    hide V, P;
    if b == 0 {
      PNext(0);
      return;
    }
    Grow(a, a.used + b);
    ghost var D, n := a.dp, a.used;
    MoveUp(a, b);
    a.used := a.used + b;
    ShiftedUp(old(a.dp), D, a.dp, n, b);
  }

  method MoveUp(a: MpInt, b: nat)
    requires a.used + b <= |a.dp|
    modifies a`dp
    ensures |a.dp| == old(|a.dp|)
    ensures forall k | 0 <= k < b :: a.dp[k] == 0
    ensures forall k | b <= k < a.used + b :: a.dp[k] == old(a.dp)[k - b]
    ensures forall k | a.used + b <= k < |a.dp| :: a.dp[k] == old(a.dp)[k]
  {
    ghost var D, n := a.dp, a.used;
    var x := a.used + b;
    while x > b
      invariant b <= x <= n + b && |a.dp| == |D|
      invariant forall k | x <= k < n + b :: a.dp[k] == D[k - b]
      invariant forall k | 0 <= k < |D| && (k < x || n + b <= k) :: a.dp[k] == D[k]
    {
      x := x - 1;
      a.dp := a.dp[x := a.dp[x - b]];
    }
    x := 0;
    while x < b
      invariant 0 <= x <= b && |a.dp| == |D|
      invariant forall k | 0 <= k < x :: a.dp[k] == 0
      invariant forall k | b <= k < n + b :: a.dp[k] == D[k - b]
      invariant forall k | n + b <= k < |D| :: a.dp[k] == D[k]
    {
      a.dp := a.dp[x := 0];
      x := x + 1;
    }
  }

  lemma ShiftedUp(d: seq<nat>, d': seq<nat>, e: seq<nat>, n: nat, b: nat)
    requires n <= |d| && d <= d' && n + b <= |e|
    requires forall k | 0 <= k < b :: e[k] == 0
    requires forall k | b <= k < n + b :: e[k] == d'[k - b]
    ensures V(e, n + b) == V(d, n) * P(b)
  {
    hide P;
    VSplit(e, b, n + b);
    VEmpty(e);
    VZeros(e, 0, b);
    VSame(e[b..], d, n);
  }

  /** a := a / B^b on magnitudes, keeping the sign of a nonzero result. */
  method Rshd(a: MpInt, b: nat)
    requires a.Valid()
    modifies a
    ensures a.Valid() && a.Mag() == Quot(old(a.Mag()), P(b))
    ensures a.neg == (old(a.neg) && a.Mag() != 0)
    ensures a.used == if old(a.used) <= b then 0 else old(a.used) - b
    ensures old(a.Zeroed()) ==> a.Zeroed()
    ensures |a.dp| == old(|a.dp|)
  {
    hide V, P, Quot;
    MagZero(a);
    if b == 0 {
      PNext(0);
      ModIs(a.Mag(), 1, a.Mag(), 0);
      return;
    }
    if a.used <= b {
      Small(a.dp, a.used, b);
      Zero(a);
      return;
    }
    ghost var D := a.dp;
    MoveDown(a, b);
    ShiftedDown(D, a.dp, a.used, b);
    a.used := a.used - b;
    MagZero(a);
  }

  method MoveDown(a: MpInt, b: nat)
    requires b <= a.used <= |a.dp|
    modifies a`dp
    ensures |a.dp| == old(|a.dp|)
    ensures forall k | 0 <= k < a.used - b :: a.dp[k] == old(a.dp)[k + b]
    ensures forall k | a.used - b <= k < a.used :: a.dp[k] == 0
    ensures forall k | a.used <= k < |a.dp| :: a.dp[k] == old(a.dp)[k]
  {
    ghost var D, n := a.dp, a.used;
    var x := 0;
    while x < a.used - b
      invariant 0 <= x <= n - b && |a.dp| == |D|
      invariant forall k | 0 <= k < x :: a.dp[k] == D[k + b]
      invariant forall k | x <= k < |D| :: a.dp[k] == D[k]
    {
      a.dp := a.dp[x := a.dp[x + b]];
      x := x + 1;
    }
    while x < a.used
      invariant n - b <= x <= n && |a.dp| == |D|
      invariant forall k | 0 <= k < n - b :: a.dp[k] == D[k + b]
      invariant forall k | n - b <= k < x :: a.dp[k] == 0
      invariant forall k | x <= k < |D| :: a.dp[k] == D[k]
    {
      a.dp := a.dp[x := 0];
      x := x + 1;
    }
  }

  lemma Small(d: seq<MpDigit>, n: nat, b: nat)
    requires n <= |d| && n <= b
    ensures Quot(V(d, n), P(b)) == 0 && Mod(V(d, n), P(b)) == V(d, n)
  {
    VBound(d, n);
    PMonotone(n, b);
    ModIs(V(d, n), P(b), 0, V(d, n));
  }

  lemma ShiftedDown(d: seq<MpDigit>, e: seq<MpDigit>, n: nat, b: nat)
    requires b <= n <= |d| && n - b <= |e|
    requires forall k | 0 <= k < n - b :: e[k] == d[k + b]
    ensures V(e, n - b) == Quot(V(d, n), P(b)) && V(d, b) == Mod(V(d, n), P(b))
  {
    hide P;
    VSplit(d, b, n);
    VSame(e, d[b..], n - b);
    VBound(d, b);
    ModIs(V(d, n), P(b), V(e, n - b), V(d, b));
  }

  /** One step of multiplying by a digit: the product and carry fit a word. */
  lemma MulStep(a: seq<MpDigit>, c: seq<MpDigit>, i: nat, b: MpDigit, u: MpDigit)
    requires i < |a| && i < |c| && V(c, i) + u * P(i) == V(a, i) * b
    ensures var r := Word(u + a[i] * b);
            High(r) < B && V(c[i := Low(r)], i + 1) + High(r) * P(i + 1) == V(a, i + 1) * b
  {
    hide P, Word, Low, High;
    var x: nat, y: nat, w: nat := a[i], b, u;
    ProductWord(x, y, w, 0);
    var r := Word(w + x * y);
    LowHigh(r);
    VUpdate(c, i, Low(r));
    Carry(Low(r), High(r), r, i);
    MulStepAlgebra(V(a, i), x, y, w, r, P(i), V(c, i));
  }

  lemma MulStepAlgebra(v: int, x: int, y: int, w: int, r: int, p: int, c: int)
    requires c + w * p == v * y && r == w + x * y
    ensures c + r * p == (v + x * p) * y
  {
    MulDistribute(w, x * y, p);
    MulDistribute(v, x * p, y);
    MulSwap(x, p, y);
  }

  /** The product of two digits plus two more digits stays below B^2. */
  lemma ProductFits(x: nat, y: nat, u: nat, v: nat)
    requires x < B && y < B && u < B && v < B
    ensures 0 <= u + x * y < B * B && x * y + u + v < B * B
    ensures B * B >= 0
  {
    MulMonotone(x, B - 1, y);
    MulMonotone(y, B - 1, B - 1);
    assert (B - 1) * (B - 1) == B * B - 2 * B + 1;
  }

  lemma ProductWord(x: nat, y: nat, u: nat, v: nat)
    requires x < B && y < B && u < B && v < B
    ensures 0 <= x * y && Word(v + x * y + u) == v + x * y + u && High(v + x * y + u) < B
  {
    hide Word, High;
    ProductFits(x, y, u, v);
    WordExact(v + x * y + u);
    HighBound(v + x * y + u, B);
  }

  /** c := a * b for a single digit b. */
  method MulD(a: MpInt, b: MpDigit, c: MpInt)
    requires a.Wf() && c.used <= |c.dp| && MP_PREC <= |c.dp|
    modifies c
    ensures c.Valid() && c.Val() == old(a.Val()) * b && c.Mag() == old(a.Mag()) * b
    ensures c.neg == (old(a.neg) && c.Mag() != 0)
    ensures old(c.Zeroed()) ==> c.Zeroed()
    ensures |c.dp| >= old(|c.dp|)
    ensures c.used <= old(a.used) + 1
  {
    hide P, V, Word, Low, High;
    var n := a.used;
    Grow(c, n + 1);
    var olduse := c.used;
    c.neg := a.neg;
    ghost var above := c.dp;
    VSame(a.dp, old(a.dp), n);
    var u := MulDigits(a, b, c, n);
    VUpdate(c.dp, n, u);
    c.dp := c.dp[n := u];
    c.used := n + 1;
    Finish(c, olduse);
    SignedProduct(old(a.Mag()), b);
  }

  lemma SignedProduct(m: int, b: int)
    ensures (0 - m) * b == 0 - m * b
  {}

  method MulDigits(a: MpInt, b: MpDigit, c: MpInt, n: nat) returns (u: MpDigit)
    requires n <= |a.dp| && n <= |c.dp|
    modifies c`dp
    ensures |c.dp| == old(|c.dp|) && Kept(c.dp, old(c.dp), n)
    ensures V(c.dp, n) + u * P(n) == old(V(a.dp, n)) * b
  {
    hide P, Word, Low, High;
    ghost var A := a.dp;
    u := 0;
    var ix := 0;
    while ix < n
      invariant 0 <= ix <= n && |c.dp| == old(|c.dp|)
      invariant Kept(a.dp, A, ix) && Kept(c.dp, old(c.dp), ix)
      invariant V(c.dp, ix) + u * P(ix) == V(A, ix) * b
    {
      var r := Word(u + a.dp[ix] * b);
      MulStep(A, c.dp, ix, b, u);
      c.dp := c.dp[ix := Low(r)];
      u := High(r);
      ix := ix + 1;
    }
  }

  // ----- shifts by fewer bits than a digit has

  /** ((x << d) | r) & MP_MASK, where r is below 2^d so that the bits do not overlap. */
  function ShlDigit(x: MpDigit, r: nat, d: nat): MpDigit {
    Low(Digit(x * Pow(2, d)) + r)
  }

  /** The d high bits of a digit. */
  function ShlCarry(x: MpDigit, d: nat): nat
    requires d <= DIGIT_BIT
  {
    PowPositive(2, DIGIT_BIT - d);
    PowPositive(2, d);
    Mod(Quot(x, Pow(2, DIGIT_BIT - d)), Pow(2, d))
  }

  lemma BitsSplit(d: nat)
    requires d <= DIGIT_BIT
    ensures Pow(2, d) * Pow(2, DIGIT_BIT - d) == B
    ensures Pow(2, d) > 0 && Pow(2, DIGIT_BIT - d) > 0
  {
    PowAdd(2, d, DIGIT_BIT - d);
    PowPositive(2, d);
    PowPositive(2, DIGIT_BIT - d);
  }

  lemma ShlExact(x: MpDigit, r: nat, d: nat)
    requires d <= DIGIT_BIT && r < Pow(2, d)
    ensures ShlCarry(x, d) < Pow(2, d)
    ensures ShlDigit(x, r, d) + ShlCarry(x, d) * B == x * Pow(2, d) + r
  {
    hide Pow, Low, Digit, Quot, Mod;
    BitsSplit(d);
    var s, t := Pow(2, d), Pow(2, DIGIT_BIT - d);
    DropWrap(x * s, r);
    QuotMod(x, t);
    ShlAlgebra(x, r, s, t, Quot(x, t), Mod(x, t));
    ModIs(Quot(x, t), s, 0, Quot(x, t));
    ModIs(x * s + r, B, Quot(x, t), Mod(x, t) * s + r);
  }

  lemma ShlAlgebra(x: nat, r: nat, s: nat, t: nat, hi: nat, lo: nat)
    requires s > 0 && t > 0 && s * t == B && x < B && r < s && x == hi * t + lo && lo < t
    ensures hi < s && lo * s + r < B && x * s + r == hi * B + (lo * s + r)
  {
    if hi >= s {
      MulMonotone(s, hi, t);
    }
    MulMonotone(lo + 1, t, s);
    MulDistribute(lo, 1, s);
    MulDistribute(hi * t, lo, s);
    MulSwap(hi, t, s);
  }

  /** Reduction to an mp_digit does not change the low DIGIT_BIT bits. */
  lemma DropWrap(x: nat, r: nat)
    ensures Low(Digit(x) + r) == Mod(x + r, B)
  {
    DigitModulus();
    var k, q := Pow(2, DIGIT_SIZE - DIGIT_BIT), x / DIGIT_MODULUS;
    hide Pow;
    assert x == q * DIGIT_MODULUS + Digit(x);
    MulSwap(q, k, B);
    ModEqual(x + r, Digit(x) + r, q * k, B);
  }

  lemma ShlStep(a: seq<MpDigit>, c: seq<MpDigit>, i: nat, d: nat, r: nat)
    requires d <= DIGIT_BIT && i < |a| && i < |c| && r < Pow(2, d)
    requires V(c, i) + r * P(i) == V(a, i) * Pow(2, d)
    ensures ShlCarry(a[i], d) < Pow(2, d)
    ensures V(c[i := ShlDigit(a[i], r, d)], i + 1) + ShlCarry(a[i], d) * P(i + 1) == V(a, i + 1) * Pow(2, d)
  {
    hide P, ShlDigit, ShlCarry, Pow;
    var x: nat, s := a[i], Pow(2, d);
    ShlExact(x, r, d);
    VUpdate(c, i, ShlDigit(x, r, d));
    Carry(ShlDigit(x, r, d), ShlCarry(x, d), x * s + r, i);
    var p, v := P(i), V(a, i);
    MulDistribute(x * s, r, p);
    MulDistribute(v, x * p, s);
    MulSwap(x, p, s);
  }

  /** c := a * 2^d on the lowest n digits, returning the bits shifted out. */
  method ShlDigits(a: MpInt, c: MpInt, n: nat, d: nat) returns (r: nat)
    requires n <= |a.dp| && n <= |c.dp| && d <= DIGIT_BIT
    modifies c`dp
    ensures |c.dp| == old(|c.dp|) && Kept(c.dp, old(c.dp), n) && r < Pow(2, d)
    ensures V(c.dp, n) + r * P(n) == old(V(a.dp, n)) * Pow(2, d)
  {
    PowPositive(2, d);
    hide P, ShlDigit, ShlCarry, Pow;
    ghost var A := a.dp;
    r := 0;
    var x := 0;
    while x < n
      invariant 0 <= x <= n && |c.dp| == old(|c.dp|) && r < Pow(2, d)
      invariant Kept(a.dp, A, x) && Kept(c.dp, old(c.dp), x)
      invariant V(c.dp, x) + r * P(x) == V(A, x) * Pow(2, d)
    {
      var rr := ShlCarry(a.dp[x], d);
      ShlStep(A, c.dp, x, d, r);
      c.dp := c.dp[x := ShlDigit(a.dp[x], r, d)];
      r := rr;
      x := x + 1;
    }
  }

  /** c := a * 2^b */
  method Mul2d(a: MpInt, b: nat, c: MpInt)
    requires a.Valid() && c.used <= |c.dp| && MP_PREC <= |c.dp|
    modifies c
    ensures c.Valid() && c.Val() == old(a.Val()) * Pow(2, b) && c.Mag() == old(a.Mag()) * Pow(2, b)
    ensures c.neg == (old(a.neg) && c.Mag() != 0)
    ensures old(c.Zeroed()) ==> c.Zeroed()
    ensures c.used <= old(a.used) + Whole(b) + 1
  {
    hide P, V, Pow, Whole, Spare, Quot, Mod;
    var k, d := Whole(b), Spare(b);
    BitWeight(b);
    Copy(a, c);
    Grow(c, c.used + k + 1);
    VSame(c.dp, old(a.dp), c.used);
    if b >= DIGIT_BIT {
      Lshd(c, k);
    } else {
      PNext(0);
    }
    assert c.Mag() == old(a.Mag()) * P(k);
    if d != 0 {
      ShlInPlace(c, d);
      MulSwap(old(a.Mag()), P(k), Pow(2, d));
    }
    Clamp(c);
    SignedProduct(old(a.Mag()), Pow(2, b));
  }

  method ShlInPlace(c: MpInt, d: nat)
    requires c.Wf() && c.used < |c.dp| && d < DIGIT_BIT
    modifies c`used, c`dp
    ensures c.Wf() && c.Mag() == old(c.Mag()) * Pow(2, d)
    ensures old(c.used) <= c.used <= old(c.used) + 1
    ensures old(c.Zeroed()) ==> c.Zeroed()
  {
    hide P, Pow, V;
    var r := ShlDigits(c, c, c.used, d);
    if r != 0 {
      BitsSplit(d);
      MulAtLeast(Pow(2, d), Pow(2, DIGIT_BIT - d));
      VUpdate(c.dp, c.used, r);
      c.dp := c.dp[c.used := r];
      c.used := c.used + 1;
    }
  }

  /** The number of whole digits in b bits, and the bits left over. */
  function Whole(b: nat): nat {
    b / DIGIT_BIT
  }

  function Spare(b: nat): (r: nat)
    ensures r < DIGIT_BIT
  {
    b % DIGIT_BIT
  }

  lemma WholeSpare(b: nat)
    ensures b == DIGIT_BIT * Whole(b) + Spare(b)
    ensures b < DIGIT_BIT <==> Whole(b) == 0
  {
    if b < DIGIT_BIT {
      ModSmall(b, DIGIT_BIT);
    }
  }

  /** 2^b splits into whole digits and the bits left over. */
  lemma BitWeight(b: nat)
    ensures Pow(2, b) == P(Whole(b)) * Pow(2, Spare(b))
    ensures Pow(2, 0) == 1
    ensures b < DIGIT_BIT <==> Whole(b) == 0
  {
    WholeSpare(b);
    hide Whole, Spare;
    PowMul(2, DIGIT_BIT, Whole(b));
    PowAdd(2, DIGIT_BIT * Whole(b), Spare(b));
  }

  /** b := 2 * a */
  method Mul2(a: MpInt, b: MpInt)
    requires a.Valid() && b.used <= |b.dp| && MP_PREC <= |b.dp|
    modifies b
    ensures b.Valid() && b.Val() == 2 * old(a.Val())
    ensures old(b.Zeroed()) ==> b.Zeroed()
    ensures b.used <= old(a.used) + 1
  {
    hide P, V;
    assert Pow(2, 1) == 2;
    hide Pow;
    var n := a.used;
    Grow(b, n + 1);
    VSame(a.dp, old(a.dp), n);
    MagZero(a);
    var oldused := b.used;
    b.used := n;
    ghost var above := b.dp;
    var r := ShlDigits(a, b, n, 1);
    b.neg := a.neg;
    if r != 0 {
      VUpdate(b.dp, n, 1);
      b.dp := b.dp[n := 1];
      b.used := n + 1;
    }
    Mul2Top(old(a.dp), b.dp, n, b.used, r);
    ClearTo(b, b.used, oldused);
  }

  /** Doubling leaves a nonzero top digit without clamping. */
  lemma Mul2Top(a: seq<MpDigit>, b: seq<MpDigit>, n: nat, m: nat, r: nat)
    requires n <= |a| && n <= m <= |b| && (n > 0 ==> a[n - 1] > 0)
    requires if r == 0 then m == n else m == n + 1 && b[n] == 1
    requires V(b, m) == 2 * V(a, n)
    ensures m > 0 ==> b[m - 1] > 0
    ensures m == 0 <==> n == 0
  {
    if n > 0 {
      VTop(a, n);
    }
    if m == n > 0 && b[n - 1] == 0 {
      VBound(b, n - 1);
    } else if n == 0 < m {
      VTop(b, m);
    }
  }

  // ----- right shifts

  /** The d low bits of a digit, which move down into the next digit. */
  function ShrCarry(x: MpDigit, d: nat): nat {
    PowPositive(2, d);
    Mod(x, Pow(2, d))
  }

  /** (x >> d) | (r << (DIGIT_BIT - d)), where the bits do not overlap. */
  function ShrDigit(x: MpDigit, r: nat, d: nat): MpDigit
    requires d <= DIGIT_BIT
  {
    PowPositive(2, d);
    Low(Quot(x, Pow(2, d)) + r * Pow(2, DIGIT_BIT - d))
  }

  lemma ShrExact(x: MpDigit, r: nat, d: nat)
    requires d <= DIGIT_BIT && r < Pow(2, d)
    ensures ShrCarry(x, d) < Pow(2, d)
    ensures r * B + x == ShrDigit(x, r, d) * Pow(2, d) + ShrCarry(x, d)
  {
    hide Pow, Low, Quot, Mod;
    BitsSplit(d);
    var s, t := Pow(2, d), Pow(2, DIGIT_BIT - d);
    QuotMod(x, s);
    ShrAlgebra(x, r, s, t, Quot(x, s), Mod(x, s));
    LowIs(Quot(x, s) + r * t);
  }

  lemma ShrAlgebra(x: nat, r: nat, s: nat, t: nat, hi: nat, lo: nat)
    requires s > 0 && t > 0 && s * t == B && r < s && x < B && x == hi * s + lo && lo < s
    ensures hi + r * t < B && r * B + x == (hi + r * t) * s + lo
  {
    if hi >= t {
      MulMonotone(t, hi, s);
    }
    MulMonotone(r + 1, s, t);
    MulDistribute(r, 1, t);
    MulDistribute(hi, r * t, s);
    MulSwap(r, t, s);
  }

  /** c := a / 2^d on the lowest n digits, from the top down, returning the bits shifted out. */
  method ShrDigits(a: MpInt, c: MpInt, n: nat, d: nat) returns (r: nat)
    requires n <= |a.dp| && n <= |c.dp| && d <= DIGIT_BIT
    modifies c`dp
    ensures |c.dp| == old(|c.dp|) && Kept(c.dp, old(c.dp), n) && r < Pow(2, d)
    ensures V(c.dp, n) * Pow(2, d) + r == old(V(a.dp, n))
  {
    PowPositive(2, d);
    hide P, Pow, H, ShrDigit, ShrCarry;
    ghost var A := a.dp;
    HEnds(A, n);
    HEnds(c.dp, n);
    r := 0;
    var x := n;
    while x > 0
      invariant 0 <= x <= n && |c.dp| == old(|c.dp|) && r < Pow(2, d)
      invariant forall k | 0 <= k < x :: a.dp[k] == A[k]
      invariant Kept(c.dp, old(c.dp), n)
      invariant H(c.dp, x, n) * Pow(2, d) + r == H(A, x, n)
    {
      x := x - 1;
      ShrExact(a.dp[x], r, d);
      var rr := ShrCarry(a.dp[x], d);
      var t := ShrDigit(a.dp[x], r, d);
      ShortDivStep(A, c.dp, x, n, Pow(2, d), r, t, rr);
      c.dp := c.dp[x := t];
      r := rr;
    }
    HEnds(c.dp, n);
  }

  /** b := a / 2, rounding towards zero. */
  method Div2(a: MpInt, b: MpInt)
    requires a.Valid() && b.used <= |b.dp| && MP_PREC <= |b.dp|
    modifies b
    ensures b.Valid() && b.Mag() == old(a.Mag()) / 2 && b.neg == (old(a.neg) && b.Mag() != 0)
    ensures old(b.Zeroed()) ==> b.Zeroed()
    ensures b.used <= old(a.used)
  {
    hide V;
    assert Pow(2, 1) == 2;
    hide Pow;
    var n := a.used;
    Grow(b, n);
    VSame(a.dp, old(a.dp), n);
    var oldused := b.used;
    b.used := n;
    ghost var above := b.dp;
    var r := ShrDigits(a, b, n, 1);
    b.neg := a.neg;
    Finish(b, oldused);
  }

  /** c := a mod 2^b on magnitudes, with the sign of a. */
  method Mod2d(a: MpInt, b: nat, c: MpInt)
    requires a.Valid() && c.used <= |c.dp| && MP_PREC <= |c.dp|
    modifies c
    ensures Pow(2, b) > 0 && c.Valid() && c.Mag() == Mod(old(a.Mag()), Pow(2, b))
    ensures c.neg == (old(a.neg) && c.Mag() != 0)
    ensures old(c.Zeroed()) ==> c.Zeroed()
    ensures c.used <= old(a.used)
  {
    hide P, V, Pow, Whole, Spare, Quot, Mod;
    MagZero(a);
    PowPositive(2, b);
    BitWeight(b);
    if b == 0 {
      Zero(c);
      return;
    }
    Copy(a, c);
    VSame(c.dp, old(a.dp), c.used);
    BitsReach(c.dp, c.used, b);
    if b >= c.used * DIGIT_BIT {
      return;
    }
    ghost var D := c.dp;
    var k, m := Whole(b), Spare(b);
    var x := if m == 0 then k else k + 1;
    ZeroAbove(c, x);
    PowPositive(2, m);
    VSame(c.dp, D, k);
    LowBits(D, c.used, k, m);
    KeepBits(c, k, m);
    Clamp(c);
  }

  method ZeroAbove(c: MpInt, i: nat)
    requires i <= c.used <= |c.dp|
    modifies c`dp
    ensures |c.dp| == old(|c.dp|)
    ensures forall j | i <= j < c.used :: c.dp[j] == 0
    ensures forall j | 0 <= j < |c.dp| && (j < i || c.used <= j) :: c.dp[j] == old(c.dp)[j]
  {
    var x := i;
    while x < c.used
      invariant i <= x <= c.used && |c.dp| == old(|c.dp|)
      invariant forall j | i <= j < x :: c.dp[j] == 0
      invariant forall j | 0 <= j < |c.dp| && (j < i || x <= j) :: c.dp[j] == old(c.dp)[j]
    {
      c.dp := c.dp[x := 0];
      x := x + 1;
    }
  }

  /** dp[k] &= 2^m - 1 */
  method KeepBits(c: MpInt, k: nat, m: nat)
    requires k < c.used <= |c.dp|
    requires forall j | k < j < c.used :: c.dp[j] == 0
    modifies c`dp
    ensures Pow(2, m) > 0 && |c.dp| == old(|c.dp|)
    ensures V(c.dp, c.used) == old(V(c.dp, k)) + Mod(old(c.dp[k]), Pow(2, m)) * P(k)
    ensures forall j | c.used <= j < |c.dp| :: c.dp[j] == old(c.dp)[j]
  {
    hide P, Pow;
    PowPositive(2, m);
    MaskDigit(c.dp[k], m);
    VUpdate(c.dp, k, Mod(c.dp[k], Pow(2, m)));
    c.dp := c.dp[k := Mod(c.dp[k], Pow(2, m))];
    VZeros(c.dp, k + 1, c.used);
  }

  lemma MaskDigit(x: MpDigit, m: nat)
    ensures Pow(2, m) > 0 && Mod(x, Pow(2, m)) < B
  {
    PowPositive(2, m);
    hide Pow, Mod, Quot;
    QuotMod(x, Pow(2, m));
    MulMonotone(0, Quot(x, Pow(2, m)), Pow(2, m));
  }

  /** A number of n digits is below 2^b once b reaches n * DIGIT_BIT; otherwise b ends inside it. */
  lemma BitsReach(d: seq<MpDigit>, n: nat, b: nat)
    requires n <= |d|
    ensures b >= n * DIGIT_BIT ==> Pow(2, b) > 0 && Mod(V(d, n), Pow(2, b)) == V(d, n)
    ensures b < n * DIGIT_BIT ==> Whole(b) < n
  {
    WholeSpare(b);
    PowPositive(2, b);
    PowMul(2, DIGIT_BIT, n);
    hide Whole, Spare, V;
    if b >= n * DIGIT_BIT {
      PowMonotone(2, DIGIT_BIT * n, b);
      VBound(d, n);
      hide Pow;
      ModIs(V(d, n), Pow(2, b), 0, V(d, n));
    } else if Whole(b) >= n {
      MulMonotone(n, Whole(b), DIGIT_BIT);
    }
  }

  /** The low k * DIGIT_BIT + m bits of a number. */
  lemma LowBits(d: seq<MpDigit>, n: nat, k: nat, m: nat)
    requires k < n <= |d| && m <= DIGIT_BIT
    ensures Pow(2, m) > 0 && P(k) * Pow(2, m) > 0
    ensures Mod(V(d, n), P(k) * Pow(2, m)) == V(d, k) + Mod(d[k], Pow(2, m)) * P(k)
  {
    hide P, Pow, H, V;
    BitsSplit(m);
    VSplit(d, k, n);
    HStep(d, k, n);
    HIsTail(d, k, n);
    VBound(d, k);
    var s, t, p := Pow(2, m), Pow(2, DIGIT_BIT - m), P(k);
    LowBitsAlgebra(V(d, n), V(d, k), p, s, t, d[k], H(d, k + 1, n));
  }

  lemma HIsTail(d: seq<nat>, k: nat, n: nat)
    requires k <= n <= |d|
    ensures H(d, k, n) == V(d[k..], n - k)
  {}

  lemma LowBitsAlgebra(w: nat, v: nat, p: nat, s: nat, t: nat, x: nat, h: nat)
    requires p > 0 && s > 0 && s * t == B && v < p && w == v + p * (x + B * h)
    ensures p * s > 0 && Mod(w, p * s) == v + Mod(x, s) * p
  {
    hide Mod, Quot;
    var hi, lo := Quot(x, s), Mod(x, s);
    QuotMod(x, s);
    MulMonotone(lo + 1, s, p);
    MulDistribute(lo, 1, p);
    MulMonotone(1, p, s);
    LowBitsPoly(p, hi, lo, s, t, h);
    ModIs(w, p * s, hi + t * h, v + lo * p);
  }

  lemma LowBitsPoly(p: nat, hi: nat, lo: nat, s: nat, t: nat, h: nat)
    ensures p * ((hi * s + lo) + (s * t) * h) == (hi + t * h) * (p * s) + lo * p
  {}

  /** c := a / 2^b and, when wanted, d := a mod 2^b, both on magnitudes and with the sign of a. */
  method Div2d(a: MpInt, b: nat, c: MpInt, d: MpInt?)
    requires a.Valid() && c.used <= |c.dp| && MP_PREC <= |c.dp| && c != d
    requires d != null ==> d.used <= |d.dp| && MP_PREC <= |d.dp|
    modifies c, d
    ensures Pow(2, b) > 0 && c.Valid() && c.Mag() == Quot(old(a.Mag()), Pow(2, b))
    ensures c.neg == (old(a.neg) && c.Mag() != 0)
    ensures d != null ==> d.Valid() && d.Mag() == Mod(old(a.Mag()), Pow(2, b))
    ensures d != null ==> d.neg == (old(a.neg) && d.Mag() != 0)
    ensures old(c.Zeroed()) ==> c.Zeroed()
    ensures d != null && old(d.Zeroed()) ==> d.Zeroed()
    ensures c.used <= old(a.used) && (d != null ==> d.used <= old(a.used))
  {
    hide P, V, Pow, Whole, Spare, Quot, Mod;
    PowPositive(2, b);
    BitWeight(b);
    MagZero(a);
    if b == 0 {
      ModIs(a.Mag(), 1, a.Mag(), 0);
      Copy(a, c);
      if d != null {
        Zero(d);
      }
      return;
    }
    var t := new MpInt();
    if d != null {
      Mod2d(a, b, t);
    }
    Copy(a, c);
    ShrInPlace(c, b);
    if d != null {
      Exch(t, d);
    }
  }

  method ShrInPlace(c: MpInt, b: nat)
    requires c.Valid() && b > 0
    modifies c
    ensures Pow(2, b) > 0 && c.Valid() && c.Mag() == Quot(old(c.Mag()), Pow(2, b))
    ensures c.neg == (old(c.neg) && c.Mag() != 0)
    ensures old(c.Zeroed()) ==> c.Zeroed()
    ensures c.used <= old(c.used)
  {
    hide P, V, Pow, Whole, Spare, Quot, Mod;
    PowPositive(2, b);
    BitWeight(b);
    var k, m := Whole(b), Spare(b);
    if b >= DIGIT_BIT {
      Rshd(c, k);
    } else {
      PNext(0);
      ModIs(c.Mag(), 1, c.Mag(), 0);
    }
    ghost var mid := c.Mag();
    if m != 0 {
      var r := ShrDigits(c, c, c.used, m);
      PowPositive(2, m);
      QuotientOf(mid, Pow(2, m), V(c.dp, c.used), r);
    }
    DivDiv(old(c.Mag()), P(k), Pow(2, m));
    Clamp(c);
  }

  lemma QuotientOf(x: nat, y: nat, q: nat, r: nat)
    requires y > 0 && x == q * y + r && r < y
    ensures Quot(x, y) == q
  {
    ModIs(x, y, q, r);
  }

  lemma DivDiv(x: nat, y: nat, z: nat)
    requires y > 0 && z > 0
    ensures y * z > 0 && Quot(Quot(x, y), z) == Quot(x, y * z)
    ensures z == 1 ==> Quot(x, y) == Quot(x, y * z)
  {
    MulMonotone(1, y, z);
    var q := Quot(x, y);
    QuotMod(x, y);
    QuotMod(q, z);
    NestedQuotient(x, y, z, q, Mod(x, y), Quot(q, z), Mod(q, z));
  }

  lemma NestedQuotient(x: nat, y: nat, z: nat, q: nat, r: nat, q': nat, r': nat)
    requires x == q * y + r && r < y && q == q' * z + r' && r' < z && y * z > 0
    ensures Quot(x, y * z) == q'
  {
    MulMonotone(r' + 1, z, y);
    MulDistribute(r', 1, y);
    MulDistribute(q' * z, r', y);
    MulSwap(q', z, y);
    ModIs(x, y * z, q', r' * y + r);
  }

  /** r is the position just above the highest one bit of the first u digits. */
  ghost predicate BitLength(d: seq<MpDigit>, u: nat, r: nat)
    requires 0 < u <= |d|
  {
    var top := r - (u - 1) * DIGIT_BIT;
    0 < top <= DIGIT_BIT && Pow(2, top - 1) <= d[u - 1] < Pow(2, top)
  }

  lemma WeightIs(k: nat)
    ensures P(k) == Pow(2, DIGIT_BIT * k)
  {
    PowMul(2, DIGIT_BIT, k);
  }

  /** The highest one bit of a number is part of it. */
  lemma HighestBit(d: seq<MpDigit>, u: nat, bits: nat)
    requires 0 < u <= |d| && BitLength(d, u, bits) && bits > 0
    ensures Pow(2, bits - 1) <= V(d, u)
  {
    var top := bits - (u - 1) * DIGIT_BIT;
    PowMul(2, DIGIT_BIT, u - 1);
    PowAdd(2, top - 1, DIGIT_BIT * (u - 1));
    hide P, Pow;
    MulMonotone(Pow(2, top - 1), d[u - 1], P(u - 1));
    WeightIs(u - 1);
    assert bits - 1 == (top - 1) + DIGIT_BIT * (u - 1);
  }

  lemma TopAlgebra(v: int, x: int, p: int, t: int)
    requires v < p && x < t && p >= 0
    ensures v + x * p < p * t
  {
    MulMonotone(x + 1, t, p);
    MulDistribute(x, 1, p);
  }

  lemma TopRange(d: seq<MpDigit>, u: nat, top: nat)
    requires 0 < u <= |d| && d[u - 1] < Pow(2, top)
    ensures V(d, u) < Pow(2, (u - 1) * DIGIT_BIT + top)
  {
    WeightIs(u - 1);
    PowAdd(2, DIGIT_BIT * (u - 1), top);
    assert V(d, u) == V(d, u - 1) + d[u - 1] * P(u - 1);
    hide P, Pow, V;
    VBound(d, u - 1);
    TopAlgebra(V(d, u - 1), d[u - 1], P(u - 1), Pow(2, top));
  }

  /** p is the number of bits of n. */
  lemma BitRange(d: seq<MpDigit>, u: nat, p: nat)
    requires 0 < u <= |d| && BitLength(d, u, p) && p > 0
    ensures Pow(2, p - 1) <= V(d, u) < Pow(2, p)
  {
    HighestBit(d, u, p);
    TopRange(d, u, p - (u - 1) * DIGIT_BIT);
  }

  /** The number of bits of |a|. */
  method CountBits(a: MpInt) returns (r: nat)
    requires a.Valid()
    ensures a.used == 0 ==> r == 0
    ensures a.used > 0 ==> r > 0 && BitLength(a.dp, a.used, r) && Pow(2, r - 1) <= a.Mag() < Pow(2, r)
  {
    if a.used == 0 {
      return 0;
    }
    r := (a.used - 1) * DIGIT_BIT;
    var q: nat := a.dp[a.used - 1];
    ghost var n := 0;
    while q > 0
      invariant n >= 0 && r == (a.used - 1) * DIGIT_BIT + n
      invariant q * Pow(2, n) <= a.dp[a.used - 1] < (q + 1) * Pow(2, n)
      invariant q == 0 ==> n > 0 && Pow(2, n - 1) <= a.dp[a.used - 1]
    {
      HalveStep(q, Pow(2, n), a.dp[a.used - 1]);
      q := q / 2;
      r := r + 1;
      n := n + 1;
    }
    if n > DIGIT_BIT {
      PowMonotone(2, DIGIT_BIT, n - 1);
    }
    BitRange(a.dp, a.used, r);
  }

  lemma HalveStep(q: nat, p: nat, x: nat)
    requires q > 0 && q * p <= x < (q + 1) * p
    ensures (q / 2) * (2 * p) <= x < (q / 2 + 1) * (2 * p)
    ensures p <= x
  {
    MulMonotone(1, q, p);
    MulMonotone(2 * (q / 2), q, p);
    MulMonotone(q + 1, 2 * (q / 2 + 1), p);
    MulSwap(q / 2, 2, p);
    MulSwap(q / 2 + 1, 2, p);
  }

  /** a := 2^b */
  method TwoExpt(a: MpInt, b: nat)
    requires MP_PREC <= |a.dp|
    modifies a
    ensures a.Valid() && a.Zeroed() && a.Val() == Pow(2, b) && a.used == Whole(b) + 1
  {
    hide P, Pow, Whole, Spare;
    Zero(a);
    var k, m := Whole(b), Spare(b);
    BitWeight(b);
    Grow(a, k + 1);
    a.used := k + 1;
    BitsSplit(m);
    OneBit(m);
    VUpdate(a.dp, k, Pow(2, m));
    VZeros(a.dp, 0, k);
    a.dp := a.dp[k := Pow(2, m)];
  }

  lemma ProperFactor(s: nat, t: nat, b: nat)
    requires s * t == b && t >= 2 && s > 0
    ensures s < b
  {
    MulMonotone(2, t, s);
  }

  lemma OneBit(m: nat)
    requires m < DIGIT_BIT
    ensures 0 < Pow(2, m) < B
  {
    PowMonotone(2, 1, DIGIT_BIT - m);
    assert Pow(2, 1) == 2;
    hide Pow;
    BitsSplit(m);
    ProperFactor(Pow(2, m), Pow(2, DIGIT_BIT - m), B);
  }
}

/** Addition and subtraction of magnitudes and of signed numbers (HAC 14.7 and 14.9), in place. */
module MpAdd {
  import opened Radix
  import opened Digits
  import opened MpCore

  /** From position i on, d still holds the digits of e. */
  ghost predicate Kept(d: seq<nat>, e: seq<nat>, i: nat) {
    |e| <= |d| && forall k | i <= k < |e| :: d[k] == e[k]
  }

  /** Writing the low part of x + u at position i and carrying the rest adds x at that position. */
  lemma AddStep(c: seq<MpDigit>, i: nat, x: nat, u: nat, s: nat)
    requires i < |c| && x + u < 2 * B
    requires V(c, i) + u * P(i) == s
    ensures var t := Digit(x + u);
            && High(t) <= 1
            && V(c[i := Low(t)], i + 1) + High(t) * P(i + 1) == s + x * P(i)
  {
    hide P;
    DigitExact(x + u);
    var t := Digit(x + u);
    LowHigh(t);
    HighBound(t, 2);
    hide Digit, Low, High;
    VUpdate(c, i, Low(t));
    Carry(Low(t), High(t), x + u, i);
    MulDistribute(x, u, P(i));
  }

  lemma AddBoth(a: seq<MpDigit>, b: seq<MpDigit>, c: seq<MpDigit>, i: nat, u: nat)
    requires i < |c| && i < |a| && i < |b| && u <= 1
    requires V(c, i) + u * P(i) == V(a, i) + V(b, i)
    ensures var t := Digit(a[i] + b[i] + u);
            && High(t) <= 1
            && V(c[i := Low(t)], i + 1) + High(t) * P(i + 1) == V(a, i + 1) + V(b, i + 1)
  {
    hide P, Digit, Low, High;
    var x: nat, y: nat := a[i], b[i];
    AddStep(c, i, x + y, u, V(a, i) + V(b, i));
    MulDistribute(x, y, P(i));
  }

  /** The digits both numbers have: c := a + b on positions below n, returning the carry. */
  method AddCommon(a: MpInt, b: MpInt, c: MpInt, n: nat) returns (u: nat)
    requires n <= |a.dp| && n <= |b.dp| && n <= |c.dp|
    modifies c`dp
    ensures |c.dp| == old(|c.dp|) && Kept(c.dp, old(c.dp), n) && u <= 1
    ensures V(c.dp, n) + u * P(n) == old(V(a.dp, n)) + old(V(b.dp, n))
  {
    hide P, V, Digit, Low, High;
    ghost var A, D := a.dp, b.dp;
    VEmpty(A);
    VEmpty(D);
    VEmpty(c.dp);
    u := 0;
    var i := 0;
    while i < n
      invariant 0 <= i <= n && u <= 1
      invariant |c.dp| == old(|c.dp|)
      invariant Kept(a.dp, A, i) && Kept(b.dp, D, i) && Kept(c.dp, old(c.dp), i)
      invariant V(c.dp, i) + u * P(i) == V(A, i) + V(D, i)
    {
      var t := Digit(a.dp[i] + b.dp[i] + u);
      AddBoth(A, D, c.dp, i, u);
      c.dp := c.dp[i := Low(t)];
      u := High(t);
      i := i + 1;
    }
  }

  /** The digits only the longer number has: add the carry into them. */
  method AddRest(x: MpInt, c: MpInt, i: nat, n: nat, u: nat) returns (u': nat)
    requires i <= n <= |x.dp| && n <= |c.dp| && u <= 1
    modifies c`dp
    ensures |c.dp| == old(|c.dp|) && Kept(c.dp, old(c.dp), n) && u' <= 1
    ensures V(c.dp, n) + u' * P(n) == old(V(c.dp, i)) + u * P(i) + old(V(x.dp, n)) - old(V(x.dp, i))
  {
    hide P, Digit, Low, High;
    ghost var X := x.dp;
    u' := u;
    var k := i;
    while k < n
      invariant i <= k <= n && u' <= 1
      invariant |c.dp| == old(|c.dp|)
      invariant Kept(x.dp, X, k) && Kept(c.dp, old(c.dp), k)
      invariant V(c.dp, k) + u' * P(k) == old(V(c.dp, i)) + u * P(i) + V(X, k) - V(X, i)
    {
      var t := Digit(x.dp[k] + u');
      AddStep(c.dp, k, X[k], u', V(c.dp, k) + u' * P(k));
      c.dp := c.dp[k := Low(t)];
      u' := High(t);
      k := k + 1;
    }
  }

  /** The digits of the sum: both numbers, what the longer one has above, and the last carry. */
  method AddDigits(a: MpInt, b: MpInt, x: MpInt, c: MpInt, min: nat, max: nat)
    requires min <= max < |c.dp| && (if x == a then min <= |b.dp| && max <= |a.dp| else x == b && min <= |a.dp| && max <= |b.dp|)
    modifies c`dp
    ensures |c.dp| == old(|c.dp|) && Kept(c.dp, old(c.dp), max + 1)
    ensures V(c.dp, max + 1) == old(if x == a then V(a.dp, max) + V(b.dp, min) else V(a.dp, min) + V(b.dp, max))
  {
    hide P, V;
    ghost var X := x.dp;
    var u := AddCommon(a, b, c, min);
    VTail(x.dp, X, min, max);
    u := AddRest(x, c, min, max, u);
    VUpdate(c.dp, max, u);
    c.dp := c.dp[max := u];
  }

  /** c := |a| + |b|, leaving the sign of c alone. */
  method SAdd(a: MpInt, b: MpInt, c: MpInt)
    requires a.Wf() && b.Wf() && c.used <= |c.dp| && MP_PREC <= |c.dp|
    modifies c
    ensures c.Valid() && c.Mag() == old(a.Mag()) + old(b.Mag())
    ensures c.neg == (old(c.neg) && c.Mag() != 0)
    ensures old(c.Zeroed()) ==> c.Zeroed()
    ensures |c.dp| >= old(|c.dp|)
    ensures c.used <= 1 + (if old(a.used) > old(b.used) then old(a.used) else old(b.used))
  {
    hide P, V;
    var x, min, max := b, a.used, b.used;
    if a.used > b.used {
      x, min, max := a, b.used, a.used;
    }
    Grow(c, max + 1);
    VSame(a.dp, old(a.dp), old(a.used));
    VSame(b.dp, old(b.dp), old(b.used));
    var olduse := c.used;
    c.used := max + 1;
    AddDigits(a, b, x, c, min, max);
    Finish(c, olduse);
  }

  /** The borrow: the top bit of an mp_digit. */
  function TopBit(t: nat): nat {
    PowPositive(2, DIGIT_SIZE - 1);
    t / Pow(2, DIGIT_SIZE - 1)
  }

  /** A difference that went negative wraps around; its low bits and top bit still tell it. */
  lemma SubDigit(x: int)
    requires 0 <= x + B && x < B
    ensures TopBit(Digit(x)) <= 1 && Low(Digit(x)) - TopBit(Digit(x)) * B == x
  {
    DigitModulus();
    var h := Pow(2, DIGIT_SIZE - 1);
    if x >= 0 {
      DigitExact(x);
      ModSmall(x, B);
      ModSmall(x, h);
    } else {
      DivModUnique(x, DIGIT_MODULUS, -1, x + DIGIT_MODULUS);
      DivModUnique(x + DIGIT_MODULUS, h, 1, x + h);
      var k := Pow(2, DIGIT_SIZE - DIGIT_BIT);
      DivModUnique(x + DIGIT_MODULUS, B, k - 1, x + B) by {
        MulDistribute(k, 1, B);
      }
    }
  }

  lemma SubStep(c: seq<MpDigit>, i: nat, x: int, u: nat, s: int)
    requires i < |c| && 0 <= x - u + B && x - u < B
    requires V(c, i) == s + u * P(i)
    ensures var t := Digit(x - u);
            TopBit(t) <= 1 && V(c[i := Low(t)], i + 1) == s + x * P(i) + TopBit(t) * P(i + 1)
  {
    hide P, Digit, Low, TopBit;
    SubDigit(x - u);
    var t := Digit(x - u);
    VUpdate(c, i, Low(t));
    Carry(Low(t), 0 - TopBit(t), x - u, i);
    MulDistribute(x, u, P(i));
    MulDistribute(0, TopBit(t), P(i + 1));
  }

  lemma SubBoth(a: seq<MpDigit>, b: seq<MpDigit>, c: seq<MpDigit>, i: nat, u: nat)
    requires i < |c| && i < |a| && i < |b| && u <= 1
    requires V(c, i) == V(a, i) - V(b, i) + u * P(i)
    ensures var t := Digit(a[i] - b[i] - u);
            TopBit(t) <= 1 && V(c[i := Low(t)], i + 1) == V(a, i + 1) - V(b, i + 1) + TopBit(t) * P(i + 1)
  {
    hide P, Digit, Low, TopBit;
    var x: int, y: int := a[i], b[i];
    SubStep(c, i, x - y, u, V(a, i) - V(b, i));
    MulDistribute(x, y, P(i));
  }

  method SubCommon(a: MpInt, b: MpInt, c: MpInt, n: nat) returns (u: nat)
    requires n <= |a.dp| && n <= |b.dp| && n <= |c.dp|
    modifies c`dp
    ensures |c.dp| == old(|c.dp|) && Kept(c.dp, old(c.dp), n) && u <= 1
    ensures V(c.dp, n) == old(V(a.dp, n)) - old(V(b.dp, n)) + u * P(n)
  {
    hide P, V, Digit, Low, TopBit;
    ghost var A, D := a.dp, b.dp;
    VEmpty(A);
    VEmpty(D);
    VEmpty(c.dp);
    u := 0;
    var i := 0;
    while i < n
      invariant 0 <= i <= n && u <= 1
      invariant |c.dp| == old(|c.dp|)
      invariant Kept(a.dp, A, i) && Kept(b.dp, D, i) && Kept(c.dp, old(c.dp), i)
      invariant V(c.dp, i) == V(A, i) - V(D, i) + u * P(i)
    {
      var t := Digit(a.dp[i] - b.dp[i] - u);
      SubBoth(A, D, c.dp, i, u);
      c.dp := c.dp[i := Low(t)];
      u := TopBit(t);
      i := i + 1;
    }
  }

  method SubRest(a: MpInt, c: MpInt, i: nat, n: nat, u: nat) returns (u': nat)
    requires i <= n <= |a.dp| && n <= |c.dp| && u <= 1
    modifies c`dp
    ensures |c.dp| == old(|c.dp|) && Kept(c.dp, old(c.dp), n) && u' <= 1
    ensures V(c.dp, n) - u' * P(n) == old(V(c.dp, i)) - u * P(i) + old(V(a.dp, n)) - old(V(a.dp, i))
  {
    hide P, Digit, Low, TopBit;
    ghost var A := a.dp;
    u' := u;
    var k := i;
    while k < n
      invariant i <= k <= n && u' <= 1
      invariant |c.dp| == old(|c.dp|)
      invariant Kept(a.dp, A, k) && Kept(c.dp, old(c.dp), k)
      invariant V(c.dp, k) - u' * P(k) == old(V(c.dp, i)) - u * P(i) + V(A, k) - V(A, i)
    {
      var t := Digit(a.dp[k] - u');
      SubStep(c.dp, k, A[k], u', V(c.dp, k) - u' * P(k));
      c.dp := c.dp[k := Low(t)];
      u' := TopBit(t);
      k := k + 1;
    }
  }

  /** c := |a| - |b|, leaving the sign of c alone.  If |b| > |a| the last borrow is dropped. */
  method SSub(a: MpInt, b: MpInt, c: MpInt)
    requires a.Wf() && b.Wf() && c.used <= |c.dp| && MP_PREC <= |c.dp|
    requires b.used <= a.used
    modifies c
    ensures c.Valid() && c.neg == (old(c.neg) && c.Mag() != 0)
    ensures old(b.Mag()) <= old(a.Mag()) ==> c.Mag() == old(a.Mag()) - old(b.Mag())
    ensures old(b.Mag()) > old(a.Mag()) ==> c.Mag() == old(a.Mag()) - old(b.Mag()) + P(old(a.used))
    ensures old(c.Zeroed()) ==> c.Zeroed()
    ensures |c.dp| >= old(|c.dp|)
    ensures c.used <= old(a.used)
  {
    hide P, V;
    var min, max := b.used, a.used;
    Grow(c, max);
    ghost var A, D := a.dp, b.dp;
    VSame(A, old(a.dp), max);
    VSame(D, old(b.dp), min);
    var olduse := c.used;
    c.used := max;
    var u := SubCommon(a, b, c, min);
    VTail(a.dp, A, min, max);
    u := SubRest(a, c, min, max, u);
    FinalBorrow(c.dp, max, u, V(A, max) - V(D, min));
    Finish(c, olduse);
  }

  /** There is a borrow out of the top position exactly when the difference is negative. */
  lemma FinalBorrow(c: seq<MpDigit>, n: nat, u: nat, d: int)
    requires n <= |c| && u <= 1 && V(c, n) - u * P(n) == d
    ensures V(c, n) == if d >= 0 then d else d + P(n)
  {
    VBound(c, n);
  }

  /** Zero the digits of c from position i up to position n. */
  method ClearTo(c: MpInt, i: nat, n: nat)
    requires i <= |c.dp| && n <= |c.dp| && i == c.used
    modifies c`dp
    ensures |c.dp| == old(|c.dp|) && c.dp[..i] == old(c.dp)[..i]
    ensures forall k | i <= k < n :: c.dp[k] == 0
    ensures forall k | i <= k < |c.dp| && n <= k :: c.dp[k] == old(c.dp)[k]
    ensures c.Mag() == old(c.Mag())
    ensures old(c.Wf()) ==> c.Wf()
  {
    var k := i;
    while k < n
      invariant i <= k && (k <= n || k == i)
      invariant |c.dp| == old(|c.dp|) && c.dp[..i] == old(c.dp)[..i]
      invariant forall j | i <= j < k :: c.dp[j] == 0
      invariant forall j | k <= j < |c.dp| :: c.dp[j] == old(c.dp)[j]
    {
      c.dp := c.dp[k := 0];
      k := k + 1;
    }
    assert forall j | 0 <= j < i :: c.dp[j] == c.dp[..i][j] == old(c.dp)[..i][j];
    VSame(c.dp, old(c.dp), i);
  }

  /** The common tail of the digit loops: zero what the old value still held above and clamp. */
  method Finish(c: MpInt, olduse: nat)
    requires c.Wf() && olduse <= |c.dp|
    modifies c
    ensures c.Valid() && c.Mag() == old(c.Mag()) && c.used <= old(c.used)
    ensures c.neg == (old(c.neg) && c.Mag() != 0)
    ensures |c.dp| == old(|c.dp|)
    ensures ZeroFrom(old(c.dp), old(c.used), olduse) ==> c.Zeroed()
  {
    hide V;
    ClearTo(c, c.used, olduse);
    Clamp(c);
  }

  /** All digits at or above both positions are zero. */
  ghost predicate ZeroFrom(d: seq<nat>, i: nat, j: nat) {
    forall k | i <= k < |d| && j <= k :: d[k] == 0
  }

  /** The digit counts do not contradict the magnitudes: what CmpMag needs of unclamped arguments. */
  ghost predicate Comparable(a: MpInt, b: MpInt)
    requires a.Wf() && b.Wf()
    reads a, b
  {
    (a.used < b.used ==> a.Mag() <= b.Mag()) && (b.used < a.used ==> b.Mag() <= a.Mag())
  }

  /** By how much an addition goes wrong when the digit counts contradict the magnitudes. */
  ghost function Slip(a: MpInt, b: MpInt): int
    requires a.Wf() && b.Wf()
    reads a, b
  {
    if a.neg == b.neg then 0
    else if a.used < b.used && b.Mag() < a.Mag() then (if b.neg then 0 - P(b.used) else P(b.used))
    else if b.used < a.used && a.Mag() < b.Mag() then (if a.neg then 0 - P(a.used) else P(a.used))
    else 0
  }

  /** c := a + b, provided the digit counts do not mislead the comparison of magnitudes. */
  method Add(a: MpInt, b: MpInt, c: MpInt)
    requires a.Wf() && b.Wf() && c.used <= |c.dp| && MP_PREC <= |c.dp|
    modifies c
    ensures c.Valid() && c.Val() == old(a.Val()) + old(b.Val()) + old(Slip(a, b))
    ensures old(a.Valid()) && old(b.Valid()) ==> c.Val() == old(a.Val()) + old(b.Val())
    ensures old(c.Zeroed()) ==> c.Zeroed()
    ensures |c.dp| >= old(|c.dp|)
    ensures c.used <= 1 + (if old(a.used) > old(b.used) then old(a.used) else old(b.used))
  {
    hide V, P;
    var sa, sb := a.neg, b.neg;
    var r := CmpMag(a, b);
    UsedOrder(a, b);
    if sa == sb {
      c.neg := sa;
      SAdd(a, b, c);
    } else if r == LT {
      c.neg := sb;
      SSub(b, a, c);
    } else {
      c.neg := sa;
      SSub(a, b, c);
    }
  }

  /** c := a - b */
  method Sub(a: MpInt, b: MpInt, c: MpInt)
    requires a.Wf() && b.Wf() && c.used <= |c.dp| && MP_PREC <= |c.dp|
    requires a.neg != b.neg || (a.Valid() && b.Valid()) || Comparable(a, b)
    modifies c
    ensures c.Valid() && c.Val() == old(a.Val()) - old(b.Val())
    ensures old(c.Zeroed()) ==> c.Zeroed()
    ensures |c.dp| >= old(|c.dp|)
    ensures c.used <= 1 + (if old(a.used) > old(b.used) then old(a.used) else old(b.used))
  {
    hide V;
    var sa, sb := a.neg, b.neg;
    var r := CmpMag(a, b);
    UsedOrder(a, b);
    if sa != sb {
      c.neg := sa;
      SAdd(a, b, c);
    } else if r != LT {
      c.neg := sa;
      SSub(a, b, c);
    } else {
      c.neg := !sa;
      SSub(b, a, c);
    }
  }

  /** Magnitudes order digit counts. */
  lemma UsedOrder(a: MpInt, b: MpInt)
    requires a.Wf() && b.Wf()
    ensures a.Valid() && b.Valid() && a.Mag() <= b.Mag() ==> a.used <= b.used
    ensures a.Valid() && b.Valid() && b.Mag() <= a.Mag() ==> b.used <= a.used
  {
    if !a.Valid() || !b.Valid() {
    } else if a.used < b.used {
      VLonger(a.dp, a.used, b.dp, b.used);
    } else if b.used < a.used {
      VLonger(b.dp, b.used, a.dp, a.used);
    }
  }
}

/** Division by a single digit, with its shortcuts for powers of two and for three. */
module MpShort {
  import opened Radix
  import opened Digits
  import opened MpCore
  import opened MpAdd
  import opened MpShift

  /** floor(B / 3), the fixed-point reciprocal of three. */
  function Third(): nat {
    B / 3
  }

  /** Quotient and remainder of v * B + x by three: a first approximation by the reciprocal, then
      fixed up. */
  method DivideWord3(v: nat, x: MpDigit) returns (t: nat, r: nat)
    requires v < 3
    ensures v * B + x == t * 3 + r && r < 3 && t < B
  {
    var w: nat := v * B + x;
    hide Word, High;
    if w < 3 {
      return 0, w;
    }
    ReciprocalLow(w);
    t := High(Word(w * Third()));
    r := Word(w - Word(t + t + t));
    while r >= 3
      invariant w == 3 * t + r
      decreases r
    {
      t := t + 1;
      r := r - 3;
    }
  }

  lemma ReciprocalLow(w: nat)
    requires w < 3 * B
    ensures Word(w * Third()) == w * Third() && 3 * High(w * Third()) <= w
    ensures var t := High(w * Third()); Word(t + t + t) == t + t + t && Word(w - (t + t + t)) == w - (t + t + t)
  {
    hide Word, High;
    var x := w * Third();
    MulMonotone(w, 3 * B, Third());
    MulMonotone(3 * Third(), B, B);
    MulSwap(3, B, Third());
    MulSwap(3, Third(), B);
    MulMonotone(3 * Third(), B, w);
    WordExact(x);
    LowHigh(x);
    var t := High(x);
    ThirdBound(w, t, Third(), Low(x));
    MulMonotone(128, B, B);
    WordExact(t + t + t);
    WordExact(w - (t + t + t));
  }

  lemma ThirdBound(w: nat, t: nat, b: nat, lo: nat)
    requires w * b == lo + t * B && 3 * b <= B
    ensures 3 * t <= w
  {
    MulMonotone(3 * b, B, w);
    if 3 * t > w {
      MulMonotone(w + 1, 3 * t, B);
    }
  }

  /** mp_div_3: c := a / 3 on magnitudes with the sign of a; returns the remainder. */
  method Div3(a: MpInt, c: MpInt) returns (d: nat)
    requires a.Valid() && c.used <= |c.dp| && MP_PREC <= |c.dp|
    modifies c
    ensures c.Valid() && old(a.Mag()) == c.Mag() * 3 + d && d < 3
    ensures c.neg == (old(a.neg) && c.Mag() != 0)
    ensures c.used <= old(a.used)
  {
    hide H, V;
    var q := new MpInt.Sized(a.used);
    q.used, q.neg := a.used, a.neg;
    HEnds(a.dp, a.used);
    HEnds(q.dp, a.used);
    var w: nat := 0;
    var ix := a.used;
    while ix > 0
      invariant 0 <= ix <= a.used == q.used <= |q.dp| && MP_PREC <= |q.dp| && q.neg == a.neg && w < 3
      invariant H(q.dp, ix, a.used) * 3 + w == H(a.dp, ix, a.used)
      modifies q
    {
      ix := ix - 1;
      var t, r := DivideWord3(w, a.dp[ix]);
      ShortDivStep(a.dp, q.dp, ix, a.used, 3, w, t, r);
      q.dp := q.dp[ix := t];
      w := r;
    }
    HEnds(q.dp, a.used);
    d := w;
    Clamp(q);
    Exch(q, c);
  }

  /** s_is_power_of_two: 0 unless b = 2^p for some 1 <= p < DIGIT_BIT. */
  method PowerOfTwo(b: MpDigit) returns (p: nat)
    ensures p < DIGIT_BIT && (p > 0 ==> b == Pow(2, p))
    ensures p == 0 ==> forall x | 1 <= x < DIGIT_BIT :: b != Pow(2, x)
  {
    p := 1;
    while p < DIGIT_BIT
      invariant 1 <= p <= DIGIT_BIT
      invariant forall x | 1 <= x < p :: b != Pow(2, x)
    {
      if b == Pow(2, p) {
        return p;
      }
      p := p + 1;
    }
    p := 0;
  }

  /** Below a power of two only the lowest digit matters. */
  lemma LowestDigit(d: seq<MpDigit>, n: nat, p: nat)
    requires 0 < n <= |d| && p < DIGIT_BIT
    ensures Pow(2, p) > 0 && Mod(V(d, n), Pow(2, p)) == Mod(d[0], Pow(2, p))
  {
    hide Pow, P, Mod, H;
    BitsSplit(p);
    HEnds(d, n);
    HStep(d, 0, n);
    MultipleDrops(V(d, n), d[0], H(d, 1, n), Pow(2, p), Pow(2, DIGIT_BIT - p));
  }

  lemma MultipleDrops(v: int, x: int, h: int, s: nat, t: int)
    requires s > 0 && s * t == B && v == x + B * h
    ensures Mod(v, s) == Mod(x, s)
  {
    MulSwap(t, h, s);
    MulSwap(s, t, h);
    ModEqual(v, x, t * h, s);
  }

  /** mp_div_d: c := a / b on magnitudes with the sign of a; returns the remainder.  Zero is refused. */
  method DivD(a: MpInt, b: MpDigit, c: MpInt) returns (ok: bool, d: nat)
    requires a.Valid() && c.used <= |c.dp| && MP_PREC <= |c.dp|
    modifies c
    ensures ok <==> b != 0
    ensures !ok ==> unchanged(c)
    ensures ok ==> c.Valid() && old(a.Mag()) == c.Mag() * b + d && d < b
    ensures ok ==> c.neg == (old(a.neg) && c.Mag() != 0)
    ensures ok ==> c.used <= old(a.used)
  {
    hide V;
    MagZero(a);
    if b == 0 {
      return false, 0;
    }
    if b == 1 || a.used == 0 {
      Copy(a, c);
      return true, 0;
    }
    var p := PowerOfTwo(b);
    if p > 0 {
      PowPositive(2, p);
      LowestDigit(a.dp, a.used, p);
      d := Mod(a.dp[0], Pow(2, p));
      Div2d(a, p, c, null);
      return true, d;
    }
    if b == 3 {
      d := Div3(a, c);
      return true, d;
    }
    d := DivDigit(a, b, c);
    return true, d;
  }

  /** The general loop. */
  method DivDigit(a: MpInt, b: MpDigit, c: MpInt) returns (d: nat)
    requires a.Valid() && c.used <= |c.dp| && MP_PREC <= |c.dp| && b > 0
    modifies c
    ensures c.Valid() && old(a.Mag()) == c.Mag() * b + d && d < b
    ensures c.neg == (old(a.neg) && c.Mag() != 0)
    ensures c.used <= old(a.used)
  {
    hide H, Word, V;
    var q := new MpInt.Sized(a.used);
    q.used, q.neg := a.used, a.neg;
    HEnds(a.dp, a.used);
    HEnds(q.dp, a.used);
    var w: nat := 0;
    var ix := a.used;
    while ix > 0
      invariant 0 <= ix <= a.used == q.used <= |q.dp| && MP_PREC <= |q.dp| && q.neg == a.neg && w < b
      invariant H(q.dp, ix, a.used) * b + w == H(a.dp, ix, a.used)
      modifies q
    {
      ix := ix - 1;
      var t, r := DivideWord(w, a.dp[ix], b);
      ShortDivStep(a.dp, q.dp, ix, a.used, b, w, t, r);
      q.dp := q.dp[ix := t];
      w := r;
    }
    HEnds(q.dp, a.used);
    d := w;
    Clamp(q);
    Exch(q, c);
  }

  method DivideWord(w: nat, x: MpDigit, b: MpDigit) returns (t: nat, r: nat)
    requires w < b
    ensures w * B + x == t * b + r && r < b && t < B
  {
    MulMonotone(w, B - 1, B);
    MulDistribute(B, 1, B);
    WordExact(w * B + x);
    var w' := Word(w * B + x);
    hide Word;
    if w' >= b {
      t := w' / b;
      ProductBack(w', b);
      WordExact(t * b);
      r := w' - Word(t * b);
    } else {
      t, r := 0, w';
    }
    QuotientDigit(w, x, b, t, r);
  }

  lemma ProductBack(w: nat, b: nat)
    requires b > 0
    ensures 0 <= (w / b) * b <= w < (w / b) * b + b
  {}

  lemma QuotientDigit(w: nat, x: nat, b: nat, t: nat, r: nat)
    requires w < b && x < B && w * B + x == t * b + r
    ensures t < B
  {
    MulMonotone(w + 1, b, B);
    MulDistribute(w, 1, B);
    if t >= B {
      MulMonotone(B, t, b);
    }
  }
}

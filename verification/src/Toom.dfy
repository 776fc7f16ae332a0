/** The pieces of Toom-Cook multiplication that do not recurse: splitting into three parts, evaluating,
    solving for the coefficients and putting the result together. */
module MpToom {
  import opened Radix
  import opened Digits
  import opened MpCore
  import opened MpAdd
  import opened MpShift
  import opened MpShort

  /** Fewer digits follow from a smaller value. */
  lemma UsedBelow(a: MpInt, n: nat)
    requires a.Valid() && a.Mag() < P(n)
    ensures a.used <= n
  {
    if a.used > n {
      VTop(a.dp, a.used);
      PMonotone(n, a.used - 1);
    }
  }

  lemma DigitsAsBits(n: nat)
    ensures Pow(2, DIGIT_BIT * n) == P(n)
  {
    PowMul(2, DIGIT_BIT, n);
  }

  lemma ThreeParts(m: nat, p: nat)
    requires p > 0
    ensures p * p > 0
    ensures m == Mod(m, p) + Mod(Quot(m, p), p) * p + Quot(m, p * p) * (p * p)
  {
    MulMonotone(1, p, p);
    DivDiv(m, p, p);
    var q := Quot(m, p);
    QuotMod(m, p);
    QuotMod(q, p);
    ThreePartsAlgebra(m, p, q, Mod(m, p), Quot(q, p), Mod(q, p));
  }

  lemma ThreePartsAlgebra(m: nat, p: nat, q: nat, r: nat, q': nat, r': nat)
    requires m == q * p + r && q == q' * p + r'
    ensures m == r + r' * p + q' * (p * p)
  {
    MulDistribute(q' * p, r', p);
    MulSwap(q', p, p);
  }

  /** The three parts of a number at digit n: below B^n, below B^2n and the rest. */
  ghost function Part(v: int, n: nat, i: nat): int
    requires i < 3
  {
    var m: nat := if v < 0 then 0 - v else v;
    Signed(v < 0, if i == 0 then Mod(m, P(n)) else if i == 1 then Mod(Quot(m, P(n)), P(n)) else Quot(m, P(n * 2)))
  }

  /** a = a0 + a1 * B^n + a2 * B^2n, every part with the sign of a. */
  method Split(a: MpInt, n: nat) returns (a0: MpInt, a1: MpInt, a2: MpInt)
    requires a.Valid()
    ensures fresh(a0) && fresh(a1) && fresh(a2) && a0 != a1 && a0 != a2 && a1 != a2
    ensures a0.Valid() && a1.Valid() && a2.Valid()
    ensures a0.used <= n && a1.used <= n && a2.used == if a.used <= 2 * n then 0 else a.used - 2 * n
    ensures a.Val() == a0.Val() + a1.Val() * P(n) + a2.Val() * P(2 * n)
    ensures a0.Val() == Part(a.Val(), n, 0) && a1.Val() == Part(a.Val(), n, 1) && a2.Val() == Part(a.Val(), n, 2)
    ensures a.neg ==> a0.Val() <= 0 && a1.Val() <= 0 && a2.Val() <= 0
    ensures !a.neg ==> a0.Val() >= 0 && a1.Val() >= 0 && a2.Val() >= 0
  {
    hide P, V, Part;
    a0 := FirstPart(a, n);
    a1 := SecondPart(a, n);
    a2 := new MpInt();
    Copy(a, a2);
    Rshd(a2, n * 2);
    HighPart(a, a2, n);
    PartsSum(a.Val(), n);
    PartSigns(a.Val(), n);
    SignOf(a);
  }

  method FirstPart(a: MpInt, n: nat) returns (r: MpInt)
    requires a.Valid()
    ensures fresh(r) && r.Valid() && r.Val() == Part(a.Val(), n, 0) && r.used <= n
  {
    hide P, V, Mod;
    SignOf(a);
    r := LowPart(a, n);
  }

  method SecondPart(a: MpInt, n: nat) returns (r: MpInt)
    requires a.Valid()
    ensures fresh(r) && r.Valid() && r.Val() == Part(a.Val(), n, 1) && r.used <= n
  {
    hide P, V, Mod, Quot;
    SignOf(a);
    r := new MpInt();
    Copy(a, r);
    Rshd(r, n);
    ModIs(0, P(n), 0, 0);
    r := LowPart(r, n);
  }

  lemma HighPart(a: MpInt, r: MpInt, n: nat)
    requires a.Valid() && r.Valid() && r.Mag() == Quot(a.Mag(), P(n * 2)) && r.neg == (a.neg && r.Mag() != 0)
    ensures r.Val() == Part(a.Val(), n, 2)
  {
    hide P, V, Quot;
    SignOf(a);
  }

  lemma PartsSum(v: int, n: nat)
    ensures v == Part(v, n, 0) + Part(v, n, 1) * P(n) + Part(v, n, 2) * P(2 * n)
  {
    hide P, Mod, Quot;
    var m: nat := if v < 0 then 0 - v else v;
    PartsJoin(v < 0, m, Mod(m, P(n)), Mod(Quot(m, P(n)), P(n)), Quot(m, P(n * 2)), n);
  }

  lemma PartSigns(x: int, n: nat)
    ensures forall i: nat | i < 3 :: if x < 0 then Part(x, n, i) <= 0 else Part(x, n, i) >= 0
  {}

  function Signed(neg: bool, m: nat): int {
    if neg then 0 - m else m
  }

  lemma PartsJoin(neg: bool, m: nat, x: nat, y: nat, z: nat, n: nat)
    requires x == Mod(m, P(n)) && y == Mod(Quot(m, P(n)), P(n)) && z == Quot(m, P(n * 2))
    ensures Signed(neg, m) == Signed(neg, x) + Signed(neg, y) * P(n) + Signed(neg, z) * P(2 * n)
  {
    hide P, Quot, Mod;
    PAdd(n, n);
    assert n * 2 == n + n == 2 * n;
    ThreeParts(m, P(n));
    SignedParts(x, y, z, P(n));
  }

  /** mp_mod_2d with a whole number of digits. */
  method LowPart(a: MpInt, n: nat) returns (r: MpInt)
    requires a.Valid()
    ensures fresh(r) && r.Valid() && r.Mag() == Mod(a.Mag(), P(n)) && r.used <= n
    ensures r.neg == (a.neg && r.Mag() != 0)
  {
    hide P, V, Pow, Mod;
    DigitsAsBits(n);
    r := new MpInt();
    Mod2d(a, DIGIT_BIT * n, r);
    UsedBelow(r, n);
  }

  lemma SignedParts(x: nat, y: nat, z: nat, p: nat)
    ensures (0 - x) + (0 - y) * p + (0 - z) * (p * p) == 0 - (x + y * p + z * (p * p))
  {}

  function Max(x: nat, y: nat): nat {
    if x < y then y else x
  }

  /** t := z + 2 * (y + 2 * x) */
  method Eval(x: MpInt, y: MpInt, z: MpInt, t: MpInt)
    requires x.Valid() && y.Valid() && z.Valid() && t.Wf() && t != x && t != y && t != z
    modifies t
    ensures t.Valid() && t.Val() == 4 * x.Val() + 2 * y.Val() + z.Val()
    ensures t.used <= 1 + Max(2 + Max(x.used + 1, y.used), z.used)
  {
    hide V;
    Mul2(x, t);
    Add(t, y, t);
    Mul2(t, t);
    Add(t, z, t);
  }

  /** t := x + y + z */
  method Sum3(x: MpInt, y: MpInt, z: MpInt, t: MpInt)
    requires x.Valid() && y.Valid() && z.Valid() && t.Wf() && t != x && t != y && t != z
    modifies t
    ensures t.Valid() && t.Val() == x.Val() + y.Val() + z.Val()
    ensures t.used <= 1 + Max(1 + Max(x.used, y.used), z.used)
  {
    hide V;
    Add(x, y, t);
    Add(t, z, t);
  }

  /** Halving an even number, and dividing a multiple of three, is exact for either sign. */
  method Halve(w: MpInt, ghost k: int)
    requires w.Valid()
    modifies w
    ensures w.Valid()
    ensures old(w.Val()) == 2 * k ==> w.Val() == k
  {
    hide V;
    Div2(w, w);
  }

  method DivideBy3(w: MpInt, ghost k: int)
    requires w.Valid()
    modifies w
    ensures w.Valid()
    ensures old(w.Val()) == 3 * k ==> w.Val() == k
  {
    hide V;
    var d := Div3(w, w);
  }

  /** w := w - 8 * u */
  method SubEight(w: MpInt, u: MpInt, t: MpInt)
    requires w.Valid() && u.Valid() && t.Wf() && t != w && t != u && w != u
    modifies w, t
    ensures w.Valid() && w.Val() == old(w.Val()) - 8 * u.Val() && t.Wf()
  {
    hide V, Whole;
    assert Pow(2, 1) == 2;
    assert Pow(2, 2) == 4;
    assert Pow(2, 3) == 8;
    hide Pow;
    Mul2d(u, 3, t);
    Sub(w, t, w);
  }

  /** w1, w2 and w3 are the values at 1/2, 1 and 2 of the polynomial with coefficients w0, c1, c2, c3, w4. */
  ghost predicate Evaluated(w0: int, w1: int, w2: int, w3: int, w4: int, c1: int, c2: int, c3: int) {
    && w1 == 16 * w0 + 8 * c1 + 4 * c2 + 2 * c3 + w4
    && w2 == w0 + c1 + c2 + c3 + w4
    && w3 == w0 + 2 * c1 + 4 * c2 + 8 * c3 + 16 * w4
  }

  /** First half of the solution: the outer coefficients are eliminated from the outer equations. */
  method Eliminate(w0: MpInt, w1: MpInt, w2: MpInt, w3: MpInt, w4: MpInt, t: MpInt,
                   ghost c1: int, ghost c2: int, ghost c3: int)
    requires w0.Valid() && w1.Valid() && w2.Valid() && w3.Valid() && w4.Valid() && t.Wf()
    requires w0 != w1 && w0 != w2 && w0 != w3 && w0 != t && w1 != w2 && w1 != w3 && w1 != w4
    requires w1 != t && w2 != w3 && w2 != w4 && w2 != t && w3 != w4 && w3 != t && w4 != t
    modifies w1, w2, w3, t
    ensures w1.Valid() && w2.Valid() && w3.Valid() && t.Wf()
    ensures old(Evaluated(w0.Val(), w1.Val(), w2.Val(), w3.Val(), w4.Val(), c1, c2, c3)) ==>
              w1.Val() == 3 * c1 + c2 && w2.Val() == c1 + c2 + c3 && w3.Val() == c2 + 3 * c3
  {
    hide V;
    SubHalve(w1, w4, 8 * w0.Val() + 4 * c1 + 2 * c2 + c3);
    SubHalve(w3, w0, c1 + 2 * c2 + 4 * c3 + 8 * w4.Val());
    Sub(w2, w0, w2);
    Sub(w2, w4, w2);
    Sub(w1, w2, w1);
    Sub(w3, w2, w3);
    SubEight(w1, w0, t);
    SubEight(w3, w4, t);
  }

  /** w := (w - u) / 2 */
  method SubHalve(w: MpInt, u: MpInt, ghost k: int)
    requires w.Valid() && u.Valid() && w != u
    modifies w
    ensures w.Valid()
    ensures old(w.Val()) - u.Val() == 2 * k ==> w.Val() == k
  {
    hide V;
    Sub(w, u, w);
    Halve(w, k);
  }

  /** Second half: the middle coefficient, then the other two. */
  method Solve(w1: MpInt, w2: MpInt, w3: MpInt, ghost c1: int, ghost c2: int, ghost c3: int)
    requires w1.Valid() && w2.Valid() && w3.Valid() && w1 != w2 && w1 != w3 && w2 != w3
    modifies w1, w2, w3
    ensures w1.Valid() && w2.Valid() && w3.Valid()
    ensures old(w1.Val()) == 3 * c1 + c2 && old(w2.Val()) == c1 + c2 + c3 && old(w3.Val()) == c2 + 3 * c3 ==>
              w1.Val() == c1 && w2.Val() == c2 && w3.Val() == c3
  {
    hide V;
    MulD(w2, 3, w2);
    Sub(w2, w1, w2);
    Sub(w2, w3, w2);
    Sub(w1, w2, w1);
    Sub(w3, w2, w3);
    DivideBy3(w1, c1);
    DivideBy3(w3, c3);
  }

  /** A negative coefficient of fewer than n digits next to a vanishing one: shifting the zero leaves n
      zero digits, which the following addition takes for a larger magnitude. */
  ghost predicate Drops(x: int, y: int, n: nat)
    requires n > 0
  {
    x < 0 && y == 0 && 0 - x < P(n - 1)
  }

  /** What the assembled sum is too large by. */
  ghost function Dropped(c0: int, c1: int, c2: int, c3: int, n: nat): nat
    requires n > 0
  {
    (if Drops(c0, c1, n) then P(n) else 0) + (if Drops(c2, c3, n) then P(3 * n) else 0)
  }

  ghost predicate OneSign(c0: int, c1: int, c2: int, c3: int, c4: int) {
    (c0 >= 0 && c1 >= 0 && c2 >= 0 && c3 >= 0 && c4 >= 0) || (c0 <= 0 && c1 <= 0 && c2 <= 0 && c3 <= 0 && c4 <= 0)
  }

  /** w holds the coefficient v moved up by k digits; zero is left unclamped. */
  ghost predicate Shifted(w: MpInt, v: int, k: nat)
    reads w
  {
    && w.Wf() && w.Val() == v * P(k) && w.neg == (v < 0)
    && (if v == 0 then w.used == k else w.Valid() && k < w.used)
    && (v != 0 ==> V(w.dp, w.used) >= P(w.used - 1) && V(w.dp, w.used) < P(w.used))
  }

  method ShiftUp(w: MpInt, k: nat, ghost v: int)
    requires w.Valid() && w.Val() == v
    modifies w
    ensures Shifted(w, v, k)
  {
    hide V, P;
    SignOf(w);
    MagZero(w);
    Lshd(w, k);
    ScaleSigned(old(w.Mag()), P(k));
    if v != 0 {
      VTop(w.dp, w.used);
      VBound(w.dp, w.used);
    }
  }

  lemma ScaleSigned(m: nat, p: nat)
    ensures (0 - m) * p == 0 - m * p
  {}

  /** How many digits a shifted nonzero coefficient has. */
  lemma ShiftedUsed(w: MpInt, v: int, k: nat, m: nat)
    requires Shifted(w, v, k) && v != 0
    ensures w.used <= k + m <==> (0 - P(m) < v < P(m))
  {
    hide V, P;
    var a := if v < 0 then 0 - v else v;
    ScaleSigned(a, P(k));
    PAdd(k, m);
    if a < P(m) {
      MulMonotone(a + 1, P(m), P(k));
      MulDistribute(a, 1, P(k));
      WeightOrder(w.used - 1, k + m);
    } else {
      MulMonotone(P(m), a, P(k));
      WeightOrder(k + m, w.used);
    }
  }

  /** Where the addition of neighbouring coefficients goes wrong, and by how much. */
  lemma PairSlip(x: MpInt, xv: int, k: nat, y: MpInt, yv: int, n: nat)
    requires n > 0 && Shifted(x, xv, k) && Shifted(y, yv, k + n)
    requires (xv <= 0 && yv <= 0) || (xv >= 0 && yv >= 0)
    ensures Slip(x, y) == if Drops(xv, yv, n) then P(k + n) else 0
  {
    hide V, P;
    if xv < 0 && yv == 0 {
      ShiftedUsed(x, xv, k, n - 1);
      MagZero(x);
    }
  }

  /** The end of mp_toom_mul: c := c0 + c1 * B^n + ... + c4 * B^4n, up to the digits it drops. */
  method Assemble(w0: MpInt, w1: MpInt, w2: MpInt, w3: MpInt, w4: MpInt, n: nat, c: MpInt, t: MpInt)
    requires w0.Valid() && w1.Valid() && w2.Valid() && w3.Valid() && w4.Valid() && t.Wf() && n > 0
    requires c.used <= |c.dp| && MP_PREC <= |c.dp|
    requires w0 != w1 && w0 != w2 && w0 != w3 && w0 != w4 && w1 != w2 && w1 != w3 && w1 != w4
    requires w2 != w3 && w2 != w4 && w3 != w4
    requires c != w0 && c != w1 && c != w2 && c != w3 && c != w4 && c != t
    requires t != w0 && t != w1 && t != w2 && t != w3 && t != w4
    modifies w1, w2, w3, w4, c, t
    ensures c.Valid()
    ensures var c0, c1, c2, c3, c4 := w0.Val(), old(w1.Val()), old(w2.Val()), old(w3.Val()), old(w4.Val());
            OneSign(c0, c1, c2, c3, c4) && c4 != 0 ==>
              c.Val() == c0 + c1 * P(n) + c2 * P(2 * n) + c3 * P(3 * n) + c4 * P(4 * n) + Dropped(c0, c1, c2, c3, n)
    ensures old(c.Zeroed()) ==> c.Zeroed()
  {
    hide V, P, Shifted, Drops, Slip;
    ghost var c0, c1, c2, c3, c4 := w0.Val(), w1.Val(), w2.Val(), w3.Val(), w4.Val();
    AsShifted(w0);
    ShiftUp(w1, n, c1);
    ShiftUp(w2, 2 * n, c2);
    ShiftUp(w3, 3 * n, c3);
    ShiftUp(w4, 4 * n, c4);
    AddPair(w0, c0, 0, w1, c1, n, c);
    AddPair(w2, c2, 2 * n, w3, c3, n, t);
    ShiftedFacts(w4, c4, 4 * n);
    Add(w4, t, t);
    Add(t, c, c);
    PNext(0);
  }

  lemma AsShifted(w: MpInt)
    requires w.Valid()
    ensures Shifted(w, w.Val(), 0)
  {
    SignOf(w);
    MagZero(w);
    PNext(0);
    if w.used > 0 {
      VTop(w.dp, w.used);
      VBound(w.dp, w.used);
    }
  }

  lemma ShiftedFacts(w: MpInt, v: int, k: nat)
    requires Shifted(w, v, k)
    ensures w.Wf() && w.Val() == v * P(k) && (v != 0 ==> w.Valid())
  {}

  method AddPair(x: MpInt, ghost xv: int, ghost k: nat, y: MpInt, ghost yv: int, ghost n: nat, r: MpInt)
    requires n > 0 && Shifted(x, xv, k) && Shifted(y, yv, k + n) && r.used <= |r.dp| && MP_PREC <= |r.dp|
    modifies r
    ensures r.Valid()
    ensures (xv <= 0 && yv <= 0) || (xv >= 0 && yv >= 0) ==>
              r.Val() == xv * P(k) + yv * P(k + n) + (if Drops(xv, yv, n) then P(k + n) else 0)
    ensures old(r.Zeroed()) ==> r.Zeroed()
  {
    hide V, P, Shifted, Drops, Slip;
    ShiftedFacts(x, xv, k);
    ShiftedFacts(y, yv, k + n);
    if (xv <= 0 && yv <= 0) || (xv >= 0 && yv >= 0) {
      PairSlip(x, xv, k, y, yv, n);
    }
    Add(x, y, r);
  }
}

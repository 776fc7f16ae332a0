/** Barrett reduction (HAC 14.42) and the product of which only the high digits are computed. */
module MpBarrett {
  import opened Radix
  import opened Digits
  import opened Columns
  import opened MpCore
  import opened MpAdd
  import opened MpShift
  import opened MpMultiply
  import opened MpProduct
  import opened MpDivide
  import opened MpMontgomery

  // ----- the high digits of a product

  /** Column ix of a product whose columns below digs are skipped. */
  lemma HighStep(a: seq<nat>, na: nat, b: seq<nat>, nb: nat, W: seq<MpDigit>, digs: nat, ix: nat, w: nat, r: nat)
    requires na <= |a| && nb <= |b| && digs <= ix < |W| && r == w + Col(a, na, b, nb, ix)
    requires Rows(a, na, b, nb, ix) == Rows(a, na, b, nb, digs) + (H(W, digs, ix) + w * P(ix - digs)) * P(digs)
    ensures Rows(a, na, b, nb, ix + 1) == Rows(a, na, b, nb, digs)
              + (H(W[ix := Low(r)], digs, ix + 1) + High(r) * P(ix + 1 - digs)) * P(digs)
  {
    hide P, Low, High, Rows, Col, V;
    RowsNext(a, na, b, nb, ix);
    LowHigh(r);
    assert W[ix := Low(r)][digs..] == W[digs..][ix - digs := Low(r)];
    VUpdate(W[digs..], ix - digs, Low(r));
    Carry(Low(r), High(r), r, ix - digs);
    PAdd(digs, ix - digs);
    HighAlgebra(w, Col(a, na, b, nb, ix), P(ix - digs), P(digs), H(W, digs, ix));
  }

  lemma HighAlgebra(w: int, c: int, q: int, p: int, h: int)
    ensures (h + w * q) * p + c * (p * q) == (h + (w + c) * q) * p
  {
    MulDistribute(w, c, q);
    MulSwap(c, q, p);
    MulDistribute(h + w * q, c * q, p);
  }

  /** No carry leaves the last column. */
  lemma HighEnd(x: nat, r: nat, h: nat, w: nat, p: nat, q: nat)
    requires x == r + (h + w * q) * p && x < p * q
    ensures w == 0
  {
    if w > 0 {
      MulMonotone(1, w, q);
      MulMonotone(q, h + w * q, p);
    }
  }

  /** The columns from digs on, with carries resolved from there. */
  method HighColumns(a: MpInt, b: MpInt, digs: nat) returns (W: array<MpDigit>)
    requires a.Wf() && b.Wf() && Min(a.used, b.used) <= COLUMNS
    requires digs <= a.used + b.used < MP_WARRAY
    ensures fresh(W) && W.Length == MP_WARRAY
    ensures a.Mag() * b.Mag() == Rows(a.dp, a.used, b.dp, b.used, digs) + H(W[..], digs, a.used + b.used) * P(digs)
  {
    hide P, Word, Low, High, CarryBound, V, H, Rows;
    W := new MpDigit[MP_WARRAY];
    var pa := a.used + b.used;
    HNone(W[..], digs);
    CarryPositive();
    var w: nat := 0;
    var ix := digs;
    while ix < pa
      invariant digs <= ix <= pa && w < CarryBound()
      invariant Rows(a.dp, a.used, b.dp, b.used, ix)
        == Rows(a.dp, a.used, b.dp, b.used, digs) + (H(W[..], digs, ix) + w * P(ix - digs)) * P(digs)
    {
      var r := ColumnSum(a, b, ix, w);
      ghost var before := W[..];
      HighStep(a.dp, a.used, b.dp, b.used, before, digs, ix, w, r);
      W[ix] := Low(r);
      assert W[..] == before[ix := Low(r)];
      w := High(r);
      ix := ix + 1;
    }
    ghost var k := RowsCut(a.dp, a.used, b.dp, b.used, pa);
    ProductBound(a.dp, a.used, b.dp, b.used, pa);
    PAdd(digs, pa - digs);
    HighEnd(a.Mag() * b.Mag(), Rows(a.dp, a.used, b.dp, b.used, digs), H(W[..], digs, pa), w, P(digs), P(pa - digs));
  }

  lemma HNone(d: seq<nat>, x: nat)
    requires x <= |d|
    ensures H(d, x, x) == 0
  {}

  /** The digits from digs on decide the quotient by P(digs). */
  lemma HighQuotient(d: seq<MpDigit>, digs: nat, n: nat)
    requires digs <= n <= |d|
    ensures Quot(V(d, n), P(digs)) == H(d, digs, n)
  {
    hide P, V, Quot;
    VSplit(d, digs, n);
    VBound(d, digs);
    MulSwap(1, P(digs), V(d[digs..], n - digs));
    ModIs(V(d, n), P(digs), H(d, digs, n), V(d, digs));
  }

  lemma BelowQuotient(d: seq<MpDigit>, n: nat, digs: nat)
    requires n <= |d| && n <= digs
    ensures Quot(V(d, n), P(digs)) == 0
  {
    hide P, V, Quot;
    VBound(d, n);
    PMonotone(n, digs);
    ModIs(V(d, n), P(digs), 0, V(d, n));
  }

  /** fast_s_mp_mul_high_digs: the digits of c from digs on are those of |a| * |b| less its low columns.
      The digits below are left as they were, and the one above is arbitrary.  That one is stored without
      having been asked room for, so c must not have exactly as many digits as the product. */
  method HighFast(a: MpInt, b: MpInt, c: MpInt, digs: nat) returns (ghost k: nat)
    requires a.Wf() && b.Wf() && c.Wf()
    requires a.used + b.used < MP_WARRAY && Min(a.used, b.used) <= COLUMNS
    requires digs <= a.used + b.used ==> |c.dp| != a.used + b.used
    modifies c
    ensures c.Valid() && (c.neg ==> old(c.neg))
    ensures old(a.Mag()) * old(b.Mag()) == old(Rows(a.dp, a.used, b.dp, b.used, digs)) + k * P(digs)
    ensures Quot(c.Mag(), P(digs)) == k
  {
    hide P, V, H, Rows, Quot;
    var pa := a.used + b.used;
    RowsSame(a.dp, old(a.dp), a.used, b.dp, old(b.dp), b.used, digs);
    Grow(c, pa);
    VSame(a.dp, old(a.dp), a.used);
    VSame(b.dp, old(b.dp), b.used);
    RowsSame(a.dp, old(a.dp), a.used, b.dp, old(b.dp), b.used, digs);
    if pa < digs {
      k := RowsCut(a.dp, a.used, b.dp, b.used, digs);
      var olduse := c.used;
      c.used := pa;
      BelowQuotient(c.dp, pa, digs);
      if digs < olduse {
        ClearAbove(c, digs, olduse);
      }
      Clamp(c);
      return;
    }
    var W := HighColumns(a, b, digs);
    k := H(W[..], digs, pa);
    CopyHigh(c, W, digs, pa);
    Clamp(c);
  }

  lemma {:induction false} RowsSame(a: seq<nat>, a': seq<nat>, na: nat, b: seq<nat>, b': seq<nat>, nb: nat, n: nat)
    requires na <= |a| && na <= |a'| && nb <= |b| && nb <= |b'|
    requires forall i | 0 <= i < na :: a[i] == a'[i]
    requires forall i | 0 <= i < nb :: b[i] == b'[i]
    ensures Rows(a, na, b, nb, n) == Rows(a', na, b', nb, n)
  {
    if na > 0 {
      RowsSame(a, a', na - 1, b, b', nb, n);
      VSame(b, b', Reach(n, na - 1, nb));
    }
  }

  /** Copy the computed cells, and one more. */
  method CopyHigh(c: MpInt, W: array<MpDigit>, digs: nat, pa: nat)
    requires c.Wf() && digs <= pa < W.Length && pa < |c.dp|
    modifies c
    ensures c.Wf() && c.used == pa && c.neg == old(c.neg)
    ensures Quot(c.Mag(), P(digs)) == H(W[..], digs, pa)
  {
    hide P, V, Quot;
    var olduse := c.used;
    c.used := pa;
    var ix := digs;
    while ix <= pa
      invariant digs <= ix <= pa + 1 && c.used == pa && c.Wf() && c.neg == old(c.neg) && |c.dp| == old(|c.dp|)
      invariant forall k | digs <= k < ix && k < pa :: c.dp[k] == W[k]
      modifies c`dp
    {
      c.dp := c.dp[ix := W[ix]];
      ix := ix + 1;
    }
    HSame(c.dp, W[..], digs, pa);
    HighQuotient(c.dp, digs, pa);
    if ix < olduse {
      ClearAbove(c, ix, olduse);
    }
  }

  /** x v at position ix. */
  ghost function Scaled(x: nat, ix: nat, v: nat): int {
    x * P(ix) * v
  }

  lemma CellStep(t: seq<MpDigit>, n: nat, x: MpDigit, b: seq<MpDigit>, ix: nat, iy: nat, u: MpDigit, s: int)
    requires ix + iy < n <= |t| && iy < |b|
    requires V(t, n) + u * P(ix + iy) == s + Scaled(x, ix, V(b, iy))
    ensures var r := Word(t[ix + iy] + x * b[iy] + u);
            && High(r) < B
            && V(t[ix + iy := Low(r)], n) + High(r) * P(ix + iy + 1) == s + Scaled(x, ix, V(b, iy + 1))
  {
    hide P, V, Word, Low, High;
    RowStep(t, n, x, b, ix, iy, u, s);
  }

  /** The products x b[iy] for iy from start, added at ix + iy, with the carry behind them. */
  method HighCells(t: MpInt, x: MpDigit, b: MpInt, ix: nat, start: nat)
    requires t != b && t.Wf() && b.Wf() && start < b.used && ix + b.used < t.used
    requires forall j | ix + b.used <= j < t.used :: t.dp[j] == 0
    modifies t`dp
    ensures t.Wf() && |t.dp| == old(|t.dp|)
    ensures forall j | ix + 1 + b.used <= j < t.used :: t.dp[j] == 0
    ensures t.Mag() == old(t.Mag()) - Scaled(x, ix, V(b.dp, start)) + Scaled(x, ix, b.Mag())
  {
    hide P, V, Word, Low, High, Scaled;
    var u: MpDigit := 0;
    ghost var s := old(t.Mag()) - Scaled(x, ix, V(b.dp, start));
    var iy := start;
    while iy < b.used
      invariant start <= iy <= b.used && |t.dp| == old(|t.dp|)
      invariant forall j | ix + b.used <= j < t.used :: t.dp[j] == 0
      invariant V(t.dp, t.used) + u * P(ix + iy) == s + Scaled(x, ix, V(b.dp, iy))
    {
      var r := Word(t.dp[ix + iy] + x * b.dp[iy] + u);
      CellStep(t.dp, t.used, x, b.dp, ix, iy, u, s);
      t.dp := t.dp[ix + iy := Low(r)];
      u := High(r);
      iy := iy + 1;
    }
    VSet(t.dp, ix + iy, u, t.used);
    t.dp := t.dp[ix + iy := u];
  }

  /** t := t + x * P(ix) * (b without its digits that fall below digs) */
  method HighRow(t: MpInt, x: MpDigit, b: MpInt, ix: nat, digs: nat)
    requires t != b && t.Wf() && b.Wf() && ix <= digs < t.used && ix + b.used < t.used
    requires forall j | ix + b.used <= j < t.used :: t.dp[j] == 0
    modifies t`dp
    ensures t.Wf() && |t.dp| == old(|t.dp|)
    ensures forall j | ix + 1 + b.used <= j < t.used :: t.dp[j] == 0
    ensures t.Mag() == old(t.Mag()) + (x * P(ix) * b.Mag() - x * P(ix) * V(b.dp, Reach(digs, ix, b.used)))
  {
    hide P, V;
    var start := digs - ix;
    if start >= b.used {
      // no product lies so high, and the zero carry is stored at digs
      VSet(t.dp, digs, 0, t.used);
      t.dp := t.dp[digs := 0];
      return;
    }
    HighCells(t, x, b, ix, start);
  }

  /** The row form of s_mp_mul_high_digs. */
  method HighRows(a: MpInt, b: MpInt, c: MpInt, digs: nat) returns (ghost k: nat)
    requires a.Wf() && b.Wf() && c.Wf() && a.used <= digs + 1 && digs <= a.used + b.used
    modifies c
    ensures c.Valid() && !c.neg
    ensures old(a.Mag()) * old(b.Mag()) == old(Rows(a.dp, a.used, b.dp, b.used, digs)) + k * P(digs)
    ensures Quot(c.Mag(), P(digs)) == k
  {
    hide P, V, Rows, Quot;
    var t := new MpInt.Sized(a.used + b.used + 1);
    VEmpty(t.dp);
    VZeros(t.dp, 0, a.used + b.used + 1);
    t.used := a.used + b.used + 1;
    HighStart(a.dp, b.dp, b.used, digs);
    var ix := 0;
    while ix < a.used
      invariant 0 <= ix <= a.used && t.Wf() && t.used == a.used + b.used + 1 && !t.neg
      invariant forall j | ix + b.used <= j < t.used :: t.dp[j] == 0
      invariant t.Mag() + Rows(a.dp, ix, b.dp, b.used, digs) == V(a.dp, ix) * b.Mag()
      modifies t
    {
      HighRow(t, a.dp[ix], b, ix, digs);
      RowAdds(a.dp, ix, b.Mag());
      RowsGrow(a.dp, ix, b.dp, b.used, digs);
      ix := ix + 1;
    }
    k := RowsCut(a.dp, a.used, b.dp, b.used, digs);
    ModIs(t.Mag(), P(digs), k, 0);
    Clamp(t);
    Exch(t, c);
  }

  lemma HighStart(a: seq<nat>, b: seq<nat>, nb: nat, n: nat)
    requires nb <= |b|
    ensures Rows(a, 0, b, nb, n) == 0 && V(a, 0) * V(b, nb) == 0
  {
    VEmpty(a);
  }

  lemma RowsGrow(a: seq<nat>, i: nat, b: seq<nat>, nb: nat, n: nat)
    requires i < |a| && nb <= |b|
    ensures Rows(a, i + 1, b, nb, n) == Rows(a, i, b, nb, n) + a[i] * P(i) * V(b, Reach(n, i, nb))
  {}

  /** The fast form is used for factors of these lengths. */
  predicate FastHigh(na: nat, nb: nat) {
    na + nb + 1 < MP_WARRAY && Min(na, nb) < COLUMNS
  }

  /** s_mp_mul_high_digs */
  method MulHighDigs(a: MpInt, b: MpInt, c: MpInt, digs: nat) returns (ghost k: nat)
    requires a.Wf() && b.Wf() && c.Wf() && a.used <= digs + 1 && digs <= a.used + b.used
    requires FastHigh(a.used, b.used) ==> |c.dp| != a.used + b.used
    modifies c
    ensures c.Valid() && (c.neg ==> old(c.neg))
    ensures old(a.Mag()) * old(b.Mag()) == old(Rows(a.dp, a.used, b.dp, b.used, digs)) + k * P(digs)
    ensures Quot(c.Mag(), P(digs)) == k
  {
    if FastHigh(a.used, b.used) {
      k := HighFast(a, b, c, digs);
    } else {
      k := HighRows(a, b, c, digs);
    }
  }

  // ----- how far off the quotient estimate can be

  /** Skipping the columns below n loses at most n units at position n + 1. */
  lemma {:induction false} RowsBound(a: seq<MpDigit>, na: nat, b: seq<MpDigit>, nb: nat, n: nat)
    requires na <= |a| && nb <= |b|
    ensures Rows(a, na, b, nb, n) <= Min(na, n) * P(n + 1)
  {
    if na > 0 {
      RowsBound(a, na - 1, b, nb, n);
      RowBound(a[na - 1], na - 1, b, nb, n);
      hide P, V;
      MulDistribute(na - 1, 1, P(n + 1));
    }
  }

  lemma RowBound(x: MpDigit, i: nat, b: seq<MpDigit>, nb: nat, n: nat)
    requires nb <= |b|
    ensures x * P(i) * V(b, Reach(n, i, nb)) <= P(n + 1)
    ensures n <= i ==> x * P(i) * V(b, Reach(n, i, nb)) == 0
  {
    hide P, V;
    var y: nat := x;
    if n <= i {
      VEmpty(b);
    } else {
      var r := Reach(n, i, nb);
      VBound(b, r);
      PMonotone(r, n - i);
      PAdd(i, n - i);
      PNext(n);
      MulMonotone(V(b, r), P(n - i), P(i));
      MulMonotone(y, B, P(i) * V(b, r));
      MulMonotone(P(i) * V(b, r), P(n), B);
      MulSwap(y, P(i), V(b, r));
    }
  }

  /** The estimate q of a product known up to e units of weight w. */
  lemma EstimateBounds(z: nat, r: nat, k: nat, p: nat, q: nat, e: nat, b: nat)
    requires z == r + k * p && r <= e * (b * p) && q * b <= k < (q + 1) * b && p > 0
    ensures q * (b * p) <= z < (q + 1 + e) * (b * p)
  {
    MulMonotone(q * b, k, p);
    MulMonotone(k + 1, (q + 1) * b, p);
    MulDistribute(k, 1, p);
    MulSwap(q, b, p);
    MulSwap(q + 1, b, p);
    MulDistribute(q + 1, e, b * p);
  }

  /** The estimate never exceeds the quotient: b1 and b2 are the weights below and above the top digit. */
  lemma NotAbove(x: nat, m: nat, mu: nat, q1: nat, q: nat, b1: nat, b2: nat)
    requires b2 > 0 && q1 * b1 <= x && mu * m <= b1 * b2 && q * b2 <= q1 * mu
    ensures q * m <= x
  {
    MulMonotone(q * b2, q1 * mu, m);
    MulMonotone(mu * m, b1 * b2, q1);
    MulMonotone(q1 * b1, x, b2);
    MulSwap(q, b2, m);
    MulSwap(q1, mu, m);
    MulSwap(q1, b1, b2);
    if q * m > x {
      MulMonotone(x + 1, q * m, b2);
      MulDistribute(x, 1, b2);
    }
  }

  /** It falls short of it by less than three more than what the product lost. */
  lemma NotBelow(x: nat, m: nat, mu: nat, q1: nat, q: nat, e: nat, b1: nat, b2: nat)
    requires b2 > 0 && b1 <= m && q1 <= b2
    requires x < (q1 + 1) * b1 && b1 * b2 < (mu + 1) * m && q1 * mu < (q + 1 + e) * b2
    ensures x < (q + 3 + e) * m
  {
    BelowDividend(x, q1, b1, b2);
    BelowProduct(q1, mu, m, b1 * b2);
    BelowEstimate(q1 * mu, q + 1 + e, b2, m);
    MulMonotone(b1, m, b2);
    MulMonotone(q1, b2, m);
    if x >= (q + 3 + e) * m {
      MulMonotone((q + 3 + e) * m, x, b2);
    }
  }

  lemma BelowDividend(x: int, q1: int, b1: int, b2: int)
    requires x < (q1 + 1) * b1 && b2 > 0
    ensures x * b2 < q1 * (b1 * b2) + b1 * b2
  {
    MulMonotone(x + 1, (q1 + 1) * b1, b2);
    MulDistribute(x, 1, b2);
    MulSwap(q1 + 1, b1, b2);
    MulDistribute(q1, 1, b1 * b2);
  }

  lemma BelowProduct(q1: int, mu: int, m: int, s: int)
    requires s <= (mu + 1) * m && q1 >= 0
    ensures q1 * s <= (q1 * mu) * m + q1 * m
  {
    MulMonotone(s, (mu + 1) * m, q1);
    MulSwap(q1, mu + 1, m);
    MulDistribute(mu, 1, q1);
    MulDistribute(q1 * mu, q1, m);
  }

  lemma BelowEstimate(z: int, q: int, b2: int, m: int)
    requires z <= q * b2 && m >= 0
    ensures z * m + b2 * m + m * b2 <= ((q + 2) * m) * b2
  {
    MulMonotone(z, q * b2, m);
    MulSwap(q, b2, m);
    MulDistribute(q, 2, m);
    MulDistribute(q * m, 2 * m, b2);
    MulSwap(2, m, b2);
    MulSwap(1, b2, m);
  }

  // ----- the reduction

  ghost predicate Reciprocal(mu: MpInt, m: MpInt)
    reads mu, m
  {
    mu.Valid() && m.Valid() && m.Mag() > 0 && mu.Val() == Quot(P(2 * m.used), m.Mag())
  }

  /** mp_reduce_setup: a := P(2 b.used) / b */
  method Setup(a: MpInt, b: MpInt) returns (ok: bool)
    requires a != b && a.Wf() && b.Valid() && !b.neg
    modifies a
    ensures ok <==> b.used > 0
    ensures ok ==> Reciprocal(a, b)
  {
    hide P, V, Pow;
    MagZero(b);
    WeightIs(2 * b.used);
    PowPositive(2, b.used * 2 * DIGIT_BIT);
    assert b.used * 2 * DIGIT_BIT == DIGIT_BIT * (2 * b.used);
    TwoExpt(a, b.used * 2 * DIGIT_BIT);
    ok := Div(a, b, a, null);
  }

  /** The weights around the top digit of the modulus, and the number of digits of its reciprocal. */
  lemma Weights(m: seq<MpDigit>, um: nat, mu: seq<MpDigit>, nmu: nat, x: seq<MpDigit>, nx: nat)
    requires 0 < um <= |m| && m[um - 1] > 0 && nmu <= |mu| && nx <= |x|
    requires V(m, um) > 0 && V(mu, nmu) == Quot(P(2 * um), V(m, um))
    requires V(x, nx) < P(2 * um) && (nx > 0 ==> x[nx - 1] > 0)
    ensures P(um - 1) <= V(m, um) < P(um) && P(2 * um) == P(um - 1) * P(um + 1)
    ensures um < nmu && nx <= 2 * um
  {
    hide P, V, Quot, Mod;
    VTop(m, um);
    VBound(m, um);
    PAdd(um - 1, um + 1);
    PAdd(um, um);
    assert um - 1 + (um + 1) == 2 * um && um + um == 2 * um;
    if nx > 0 {
      VTop(x, nx);
      WeightOrder(nx - 1, 2 * um);
    }
    QuotMod(P(2 * um), V(m, um));
    VBound(mu, nmu);
    LongReciprocal(V(mu, nmu), V(m, um), P(um), Mod(P(2 * um), V(m, um)));
    if nmu <= um {
      PMonotone(nmu, um);
    }
  }

  lemma LongReciprocal(mu: nat, m: nat, p: nat, r: nat)
    requires p * p == mu * m + r && r < m < p
    ensures mu >= p
  {
    if mu < p {
      MulMonotone(mu + 1, p, m);
      MulDistribute(mu, 1, m);
      MulMonotone(m + 1, p, p);
      MulDistribute(m, 1, p);
    }
  }

  lemma HalfRadix()
    ensures 2 * Pow(2, DIGIT_BIT - 1) == B
  {}

  /** The estimate is within e + 3 of the quotient, from below. */
  ghost predicate Near(q: nat, x: nat, m: nat, e: nat) {
    q * m <= x < (q + 3 + e) * m
  }

  lemma NearQuotient(x: nat, m: nat, mu: nat, q1: nat, q: nat, e: nat, um: nat)
    requires um > 0 && m > 0 && x < P(2 * um) && P(2 * um) == P(um - 1) * P(um + 1)
    requires P(um - 1) <= m && mu == Quot(P(2 * um), m) && q1 == Quot(x, P(um - 1))
    requires q * P(um + 1) <= q1 * mu < (q + 1 + e) * P(um + 1)
    ensures Near(q, x, m, e)
  {
    hide P, Quot, Mod;
    var b1, b2 := P(um - 1), P(um + 1);
    QuotMod(P(2 * um), m);
    QuotMod(x, b1);
    MulDistribute(q1, 1, b1);
    MulDistribute(mu, 1, m);
    if q1 > b2 {
      MulMonotone(b2, q1, b1);
    }
    NotAbove(x, m, mu, q1, q, b1, b2);
    NotBelow(x, m, mu, q1, q, e, b1, b2);
  }

  /** The high product gives an estimate that may have lost um units. */
  lemma HighEstimate(z: nat, r: nat, k: nat, q: nat, um: nat)
    requires z == r + k * P(um) && r <= um * P(um + 1) && q == Quot(k, B)
    ensures q * P(um + 1) <= z < (q + 1 + um) * P(um + 1)
  {
    hide P, Quot, Mod;
    PNext(um);
    QuotMod(k, B);
    MulDistribute(q, 1, B);
    EstimateBounds(z, r, k, P(um), q, um, B);
  }

  lemma FullEstimate(z: nat, q: nat, um: nat)
    requires q == Quot(z, P(um + 1))
    ensures q * P(um + 1) <= z < (q + 1 + 0) * P(um + 1)
  {
    hide P, Quot, Mod;
    QuotMod(z, P(um + 1));
    MulDistribute(q, 1, P(um + 1));
  }

  lemma TwoShifts(z: nat, um: nat)
    ensures Quot(Quot(z, P(um)), B) == Quot(z, P(um + 1))
  {
    hide P, Quot;
    PNext(um);
    DivDiv(z, P(um), B);
    MulSwap(1, P(um), B);
  }

  /** q := q * mu, exactly or without its low columns */
  method Scale(q: MpInt, mu: MpInt, um: nat) returns (ghost e: nat)
    requires q != mu && q.Valid() && !q.neg && mu.Valid() && !mu.neg && um < mu.used && q.used <= um + 1
    requires um <= Pow(2, DIGIT_BIT - 1) && FastHigh(q.used, mu.used) ==> |q.dp| != q.used + mu.used
    modifies q
    ensures q.Valid() && !q.neg && e + 3 <= B
    ensures var r := Quot(q.Mag(), P(um + 1));
            r * P(um + 1) <= old(q.Mag()) * mu.Mag() < (r + 1 + e) * P(um + 1)
  {
    hide P, V, Quot, Mod, Rows, Pow;
    ghost var q1 := q.Mag();
    HalfRadix();
    if um > Pow(2, DIGIT_BIT - 1) {
      e := 0;
      Mul(q, mu, q);
      MagZero(q);
      FullEstimate(q.Mag(), Quot(q.Mag(), P(um + 1)), um);
    } else {
      e := um;
      RowsBound(q.dp, q.used, mu.dp, mu.used, um);
      MulMonotone(Min(q.used, um), um, P(um + 1));
      ghost var low := Rows(q.dp, q.used, mu.dp, mu.used, um);
      ghost var k := MulHighDigs(q, mu, q, um);
      TwoShifts(q.Mag(), um);
      HighEstimate(q1 * mu.Mag(), low, k, Quot(k, B), um);
    }
  }

  // ----- where the high product leaves its array

  /** The digits of x above position um - 1. */
  function TopDigits(xu: nat, um: nat): nat
    requires um > 0
  {
    if xu <= um - 1 then 0 else xu - (um - 1)
  }

  /** What mp_init_copy allocates for a number of xu digits. */
  function CopyRoom(xu: nat): nat {
    if xu <= MP_PREC then MP_PREC else Padded(xu)
  }

  /** Reducing a number of xu digits by a modulus of um digits with a reciprocal of nmu digits multiplies, in
      place, by the fast form, a number that has exactly as much room as the product has digits: the digit
      behind the product is then stored outside the array. */
  predicate Spills(xu: nat, um: nat, nmu: nat)
    requires um > 0
  {
    && um <= Pow(2, DIGIT_BIT - 1) && FastHigh(TopDigits(xu, um), nmu)
    && CopyRoom(xu) == TopDigits(xu, um) + nmu
  }

  /** The digit count of x at which a longer number meets the first allocation: 30, or 29 if the modulus is a
      power of the radix. */
  function Edge(um: nat, nmu: nat): int {
    MP_PREC - 1 + um - nmu
  }

  /** Numbers shorter than the modulus, for which the product is empty but for the room it takes. */
  predicate MeetsShort(xu: nat, nmu: nat) {
    if xu <= MP_PREC then nmu == MP_PREC else nmu % MP_PREC == 0 && nmu - 64 <= xu < nmu - 32
  }

  /** Exactly when it happens.  The reciprocal has um + 1 digits, or one more if the modulus is a power of the
      radix, and x has at most 2 um. */
  lemma SpillsWhen(xu: nat, um: nat, nmu: nat)
    requires um > 0 && um + 1 <= nmu <= um + 2 && xu <= 2 * um
    ensures Spills(xu, um, nmu) <==>
              && um <= Pow(2, DIGIT_BIT - 1) && FastHigh(TopDigits(xu, um), nmu)
              && (if xu < um then MeetsShort(xu, nmu) else 15 <= um && xu == Edge(um, nmu))
  {
    hide Pow, FastHigh;
    var n := TopDigits(xu, um);
    if xu > MP_PREC {
      PaddedMeets(xu, nmu);
      assert xu >= um ==> n + nmu <= xu + 3;
    }
  }

  lemma PaddedMeets(xu: nat, nmu: nat)
    ensures Padded(xu) == nmu <==> nmu % MP_PREC == 0 && nmu - 64 <= xu < nmu - 32
  {
    assert xu == xu / 32 * 32 + xu % 32;
    assert Padded(xu) == (xu / 32 + 2) * 32;
  }

  /** An ordinary case: a modulus of 15 digits and a number of 30. */
  lemma FifteenDigits()
    requires MP_WARRAY > 33 && COLUMNS > 16
    ensures Spills(30, 15, 16)
  {
    HalfRadix();
  }

  /** The number of digits of the reciprocal. */
  ghost function RecipLen(m: nat, um: nat): nat
    requires um > 0
  {
    if m == P(um - 1) then um + 2 else um + 1
  }

  lemma RecipDigits(mu: MpInt, m: MpInt)
    requires Reciprocal(mu, m) && m.used > 0
    ensures mu.used == RecipLen(m.Mag(), m.used)
  {
    hide P, V, Quot, Mod;
    var um, v, w := m.used, m.Mag(), mu.Mag();
    SignOf(mu);
    MagZero(mu);
    VTop(m.dp, um);
    VBound(m.dp, um);
    PAdd(um - 1, um + 1);
    PAdd(um, um);
    assert um - 1 + (um + 1) == 2 * um && um + um == 2 * um;
    QuotMod(P(2 * um), v);
    LongReciprocal(w, v, P(um), Mod(P(2 * um), v));
    UsedIsLen(mu);
    if v == P(um - 1) {
      MulSwap(1, P(um + 1), v);
      ModIs(P(2 * um), v, P(um + 1), 0);
      PNext(um + 1);
      MulMonotone(128, B, P(um + 1));
      LenIs(mu.Val(), um + 2);
    } else {
      ShortReciprocal(w, v, P(um - 1), P(um + 1), Mod(P(2 * um), v));
      LenIs(mu.Val(), um + 1);
    }
  }

  lemma ShortReciprocal(w: nat, v: nat, p: nat, q: nat, r: nat)
    requires p * q == w * v + r && p < v && q > 0
    ensures w < q
  {
    if w >= q {
      MulMonotone(q, w, v);
      MulMonotone(p + 1, v, q);
      MulDistribute(p, 1, q);
    }
  }

  /** The same from the values: reducing x by m stores outside the array. */
  ghost predicate SpillsOn(x: nat, m: nat, um: nat)
    requires um > 0
  {
    Spills(Len(x), um, RecipLen(m, um))
  }

  /** The moduli for which that happens to some product of two remainders. */
  ghost predicate Spilling(m: nat, um: nat)
    requires um > 0 && m > 0
  {
    var nmu := RecipLen(m, um);
    var t := Edge(um, nmu);
    && um <= Pow(2, DIGIT_BIT - 1)
    && (|| (nmu % MP_PREC == 0 && nmu != 64 && FastHigh(0, nmu))
        || (15 <= um <= t && FastHigh(MP_PREC - nmu, nmu) && (um == 15 ==> (m - 1) * (m - 1) >= P(t - 1))))
  }

  /** For the others it never does. */
  lemma NeverSpills(x: nat, m: nat, um: nat)
    requires um > 0 && P(um - 1) <= m < P(um) && x <= (m - 1) * (m - 1) && SpillsOn(x, m, um)
    ensures Spilling(m, um)
  {
    hide Pow, P, FastHigh, Len, Spills;
    var nmu := RecipLen(m, um);
    var t, xu := Edge(um, nmu), Len(x);
    PAdd(um, um);
    assert um + um == 2 * um;
    LessProduct(m - 1, m - 1, P(um), P(um));
    ShortLen(x, 2 * um);
    SpillsWhen(xu, um, nmu);
    if xu >= um && x < P(t - 1) {
      ShortLen(x, t - 1);
    }
  }

  /** For these there is a remainder whose square does. */
  lemma SomeSquareSpills(m: nat, um: nat) returns (v: nat)
    requires um > 0 && P(um - 1) <= m < P(um) && Spilling(m, um)
    ensures v < m && v * v >= 0 && SpillsOn(v * v, m, um)
  {
    hide Pow, P, FastHigh, Len, Spills, SpillsOn;
    var nmu := RecipLen(m, um);
    var t := Edge(um, nmu);
    if nmu % MP_PREC == 0 && nmu != 64 && FastHigh(0, nmu) {
      v := ShortSquare(m, um);
    } else if um == 15 {
      v := m - 1;
      LongSquare(m);
    } else {
      v := MiddleSquare(m, um);
    }
  }

  /** A short square where the reciprocal fills an allocation. */
  lemma ShortSquare(m: nat, um: nat) returns (v: nat)
    requires um > 0 && P(um - 1) <= m && um <= Pow(2, DIGIT_BIT - 1)
    requires var nmu := RecipLen(m, um); nmu % MP_PREC == 0 && nmu != 64 && FastHigh(0, nmu)
    ensures v < m && v * v >= 0 && SpillsOn(v * v, m, um)
  {
    hide Pow, P, FastHigh, Len, Spills;
    var nmu := RecipLen(m, um);
    if nmu == MP_PREC {
      v := 0;
      LenIs(0, 0);
      SpillsWhen(0, um, nmu);
    } else {
      var c := nmu / 2 - 32;
      v := P(c);
      PAdd(c, c);
      PNext(c + c);
      MulMonotone(128, B, P(c + c));
      LenIs(v * v, c + c + 1);
      SpillsWhen(c + c + 1, um, nmu);
      PMonotone(c + 1, um - 1);
      PNext(c);
      MulMonotone(128, B, P(c));
    }
  }

  /** The largest square modulo a number of 15 digits. */
  lemma LongSquare(m: nat)
    requires P(14) <= m < P(15) && 15 <= Pow(2, DIGIT_BIT - 1)
    requires var nmu := RecipLen(m, 15); FastHigh(MP_PREC - nmu, nmu) && (m - 1) * (m - 1) >= P(Edge(15, nmu) - 1)
    ensures (m - 1) * (m - 1) >= 0 && SpillsOn((m - 1) * (m - 1), m, 15)
  {
    hide Pow, P, FastHigh, Len, Spills;
    PAdd(14, 14);
    PAdd(15, 15);
    LessProduct(m - 1, m - 1, m, m);
    MulMonotone(m, P(15), m);
    MulMonotone(m, P(15), P(15));
    LenIs((m - 1) * (m - 1), 30);
    SpillsWhen(30, 15, 16);
  }

  /** A square of just the right length below a longer modulus. */
  lemma MiddleSquare(m: nat, um: nat) returns (v: nat)
    requires um > 0 && P(um - 1) <= m && um <= Pow(2, DIGIT_BIT - 1)
    requires var nmu := RecipLen(m, um); 16 <= um <= Edge(um, nmu) && FastHigh(MP_PREC - nmu, nmu)
    ensures v < m && v * v >= 0 && SpillsOn(v * v, m, um)
  {
    hide Pow, P, FastHigh, Len, Spills;
    var nmu := RecipLen(m, um);
    PAdd(14, 14);
    PNext(14);
    PNext(28);
    PNext(29);
    PMonotone(15, um - 1);
    MulMonotone(128, B, P(14));
    MulMonotone(128, B, P(28));
    if nmu == um + 2 {
      v := P(14);
      LenIs(v * v, 29);
      SpillsWhen(29, um, nmu);
    } else {
      v := (B - 1) * P(14);
      MulDistribute(B, 1, P(14));
      SquareLength(P(14), P(28));
      LenIs(v * v, 30);
      SpillsWhen(30, um, nmu);
    }
  }

  lemma SquareLength(p: nat, q: nat)
    requires p * p == q
    ensures var v := (B - 1) * p; B * q <= v * v <= B * (B * q) && (q > 0 ==> v * v < B * (B * q))
  {
    var v := (B - 1) * p;
    var c := (B - 1) * (B - 1);
    assert v * v == c * q by {
      MulSwap(B - 1, p, v);
      MulSwap(B - 1, B - 1, p);
      assert p * v == (B - 1) * q by { MulSwap(B - 1, p, p); }
      MulSwap(B - 1, B - 1, q);
    }
    MulMonotone(126, B - 2, B);
    assert B <= c < B * B;
    MulMonotone(B, c, q);
    MulMonotone(c + 1, B * B, q);
    MulDistribute(c, 1, q);
    MulSwap(B, B, q);
  }

  /** q := an estimate of x / m */
  method Quotient(x: MpInt, m: MpInt, mu: MpInt) returns (q: MpInt, ghost e: nat)
    requires x.Valid() && !x.neg && m.used > 0 && Reciprocal(mu, m) && x.Mag() < P(2 * m.used)
    requires !Spills(x.used, m.used, mu.used)
    ensures fresh(q) && q.Valid() && !q.neg && (q.used > 0 ==> m.used + 1 < |q.dp|)
    ensures e + 3 <= B && Near(q.Mag(), x.Mag(), m.Mag(), e) && m.Mag() < P(m.used)
  {
    hide P, V, Quot, Mod, Near;
    var um := m.used;
    MagZero(mu);
    Weights(m.dp, um, mu.dp, mu.used, x.dp, x.used);
    q := InitCopy(x);
    Rshd(q, um - 1);
    ghost var q1 := q.Mag();
    e := Scale(q, mu, um);
    Rshd(q, um + 1);
    NearQuotient(x.Mag(), m.Mag(), mu.Mag(), q1, q.Mag(), e, um);
  }

  /** What the estimate leaves fits in um + 1 digits. */
  lemma LeftOver(q: nat, x: nat, m: nat, e: nat, um: nat)
    requires Near(q, x, m, e) && e + 3 <= B && m < P(um)
    ensures 0 <= x - q * m < P(um + 1)
  {
    PNext(um);
    hide P;
    MulDistribute(q, 3 + e, m);
    MulMonotone(3 + e, B, m);
    MulMonotone(m, P(um), B);
  }

  /** A difference that fits is found from the remainders. */
  lemma Difference(x: nat, y: nat, p: nat)
    requires p > 0 && 0 <= x - y < p
    ensures var d := Mod(x, p) - Mod(y, p);
            x - y == if d < 0 then d + p else d
  {
    hide Mod, Quot;
    QuotMod(x, p);
    QuotMod(y, p);
    MulDistribute(Quot(x, p), Quot(y, p), p);
    WithinOne(x - y, Quot(x, p) - Quot(y, p), p, Mod(x, p) - Mod(y, p));
  }

  lemma WithinOne(d: int, t: int, p: int, i: int)
    requires d == t * p + i && 0 <= d < p && -p < i < p
    ensures d == if i < 0 then i + p else i
  {
    if t >= 2 {
      MulMonotone(2, t, p);
    } else if t < 0 {
      MulMonotone(t, -1, p);
    }
  }

  /** x := x - q * m, computed modulo P(um + 1) */
  method Remainder(x: MpInt, q: MpInt, m: MpInt)
    requires x != q && x != m && q != m && x.Valid() && !x.neg && q.Valid() && !q.neg && m.Valid()
    requires q.used > 0 ==> m.used + 1 < |q.dp|
    requires 0 <= x.Mag() - q.Mag() * m.Mag() < P(m.used + 1)
    modifies x, q
    ensures x.Valid() && x.Val() == old(x.Mag()) - old(q.Mag()) * m.Mag()
  {
    hide P, V, Mod, Pow;
    var um := m.used;
    WeightIs(um + 1);
    ghost var x0, y0 := x.Mag(), q.Mag() * m.Mag();
    Difference(x0, y0, P(um + 1));
    Mod2d(x, DIGIT_BIT * (um + 1), x);
    MulDigs(q, m, q, um + 1);
    Sub(x, q, x);
    SignOf(x);
    if x.neg {
      AddWeight(x, q, um + 1);
    }
  }

  /** x := x + P(k) */
  method AddWeight(x: MpInt, q: MpInt, k: nat)
    requires x != q && x.Valid() && MP_PREC <= |q.dp|
    modifies x, q
    ensures x.Valid() && x.Val() == old(x.Val()) + P(k)
  {
    hide P, V;
    Set(q, 1);
    SignOf(q);
    MagZero(q);
    Lshd(q, k);
    SignOf(q);
    Add(x, q, x);
  }

  /** mp_reduce: x := x mod m, unless the high product leaves its array */
  method Reduce(x: MpInt, m: MpInt, mu: MpInt)
    requires x != m && x != mu && x.Valid() && !x.neg && m.used > 0 && !m.neg && Reciprocal(mu, m)
    requires x.Mag() < P(2 * m.used)
    requires !Spills(x.used, m.used, mu.used)
    modifies x
    ensures x.Valid() && m.Mag() > 0 && x.Val() == Mod(old(x.Mag()), m.Mag())
  {
    hide P, V, Mod, Near, Quot;
    var q, e := Quotient(x, m, mu);
    ghost var X := x.Mag();
    LeftOver(q.Mag(), X, m.Mag(), e, m.used);
    ghost var t: int := q.Mag();
    Remainder(x, q, m);
    SignOf(x);
    var r := Cmp(x, m);
    while r != LT
      invariant x.Valid() && !x.neg && r == Compare(x.Mag(), m.Mag())
      invariant X == t * m.Mag() + x.Mag()
      modifies x
      decreases x.Mag()
    {
      UsedOrder(x, m);
      SSub(x, m, x);
      MulDistribute(t, 1, m.Mag());
      t := t + 1;
      SignOf(x);
      r := Cmp(x, m);
    }
    ModIs(X, m.Mag(), t, x.Mag());
  }
}

/** Multiplication: by columns (comba), by rows (HAC 14.12), Karatsuba and Toom-Cook. */
module MpMultiply {
  import opened Radix
  import opened Digits
  import opened Columns
  import opened MpCore
  import opened MpAdd
  import opened MpShift

  function Min(x: int, y: int): int {
    if x < y then x else y
  }

  // ----- by columns

  /** The largest product of two digits, and a bound on the carry out of a column. */
  ghost function MaxProduct(): nat {
    (B - 1) * (B - 1)
  }

  ghost function CarryBound(): nat {
    COLUMNS * B
  }

  /** A column accumulator never overflows: n products of digits on top of an incoming carry. */
  lemma ColumnFits(w: nat, n: nat, x: nat)
    requires w < CarryBound() && n <= COLUMNS && x <= w + n * MaxProduct()
    ensures Word(x) == x && High(x) < CarryBound()
  {
    WordModulus();
    MulMonotone(n, COLUMNS, (B - 1) * (B - 1));
    ColumnPoly(COLUMNS, B);
    MulMonotone(1, COLUMNS, B - 1);
    ModSmall(x, WORD_MODULUS);
    HighBound(x, COLUMNS * B);
  }

  lemma ColumnPoly(c: nat, b: nat)
    requires b > 0
    ensures c * b + c * ((b - 1) * (b - 1)) + c * (b - 1) == c * (b * b)
    ensures c * (b * b) == (c * b) * b
  {}

  lemma ProductStep(x: MpDigit, y: MpDigit, n: nat)
    ensures 0 <= x * y <= MaxProduct() && (n + 1) * MaxProduct() == n * MaxProduct() + MaxProduct()
  {
    MulMonotone(x, B - 1, y);
    MulMonotone(y, B - 1, B - 1);
    MulDistribute(n, 1, MaxProduct());
  }

  /** Add column ix of the product to the accumulator w. */
  method ColumnSum(a: MpInt, b: MpInt, ix: nat, w: nat) returns (r: nat)
    requires a.Wf() && b.Wf() && w < CarryBound()
    requires Min(a.used, b.used) <= COLUMNS
    ensures r == w + Col(a.dp, a.used, b.dp, b.used, ix) && High(r) < CarryBound()
  {
    hide P, Word, V, High, MaxProduct, CarryBound;
    var ty: int := if b.used - 1 < ix then b.used - 1 else ix;
    var tx: nat := ix - ty;
    var iy: int := if a.used - tx < ty + 1 then a.used - tx else ty + 1;
    r := w;
    if iy <= 0 {
      ColumnFits(w, 0, w);
      ColEmpty(a.dp, a.used, b.dp, b.used, ix);
      return;
    }
    ColBefore(a.dp, tx, b.dp, b.used, ix);
    var iz := 0;
    while iz < iy
      invariant 0 <= iz <= iy
      invariant r == w + Col(a.dp, tx + iz, b.dp, b.used, ix)
      invariant r <= w + iz * MaxProduct()
    {
      var x: nat, y: nat := a.dp[tx + iz], b.dp[ty - iz];
      ProductStep(x, y, iz);
      ColumnFits(w, iz + 1, r + x * y);
      r := Word(r + x * y);
      iz := iz + 1;
    }
    ColumnFits(w, iy, r);
    ColAfter(a.dp, tx + iy, a.used, b.dp, b.used, ix);
  }

  // Whether the one cell that is copied although nothing assigns it happens to hold zero.
  const CLEAN_CELL: bool

  /** The work array of the multiplier, of which n cells will be assigned. */
  method WorkArray(n: nat) returns (W: array<MpDigit>)
    requires n < MP_WARRAY
    ensures fresh(W) && W.Length == MP_WARRAY
    ensures CLEAN_CELL ==> W[n] == 0
  {
    W := new MpDigit[MP_WARRAY];
    if CLEAN_CELL {
      W[n] := 0;
    }
  }

  /** The first n columns with carries resolved, in a work array whose other cells stay unassigned. */
  method Comba(a: MpInt, b: MpInt, n: nat) returns (W: array<MpDigit>)
    requires a.Wf() && b.Wf() && Min(a.used, b.used) <= COLUMNS && n < MP_WARRAY
    ensures fresh(W) && W.Length == MP_WARRAY
    ensures V(W[..], n) == Mod(a.Mag() * b.Mag(), P(n))
    ensures CLEAN_CELL ==> W[n] == 0
  {
    hide P, Word, Low, High, CarryBound, V, Mod;
    W := WorkArray(n);
    VEmpty(W[..]);
    PNext(0);
    RowsNone(a.dp, a.used, b.dp, b.used);
    CarryPositive();
    var w: nat := 0;
    var ix := 0;
    while ix < n
      invariant 0 <= ix <= n && w < CarryBound()
      invariant V(W[..], ix) + w * P(ix) == Rows(a.dp, a.used, b.dp, b.used, ix)
      invariant CLEAN_CELL ==> W[n] == 0
    {
      var r := ColumnSum(a, b, ix, w);
      ghost var before := W[..];
      W[ix] := Low(r);
      assert W[..] == before[ix := Low(r)];
      w := High(r);
      ColumnStep(a.dp, a.used, b.dp, b.used, before, ix, r - Col(a.dp, a.used, b.dp, b.used, ix), r);
      ix := ix + 1;
    }
    Truncate(a.dp, a.used, b.dp, b.used, W[..], n, w);
  }

  lemma CarryPositive()
    ensures CarryBound() > 0
  {
    WordModulus();
    MulMonotone(1, COLUMNS, B);
  }

  lemma ColumnStep(a: seq<nat>, na: nat, b: seq<nat>, nb: nat, W: seq<MpDigit>, ix: nat, w: nat, r: nat)
    requires na <= |a| && nb <= |b| && ix < |W|
    requires V(W, ix) + w * P(ix) == Rows(a, na, b, nb, ix) && r == w + Col(a, na, b, nb, ix)
    ensures V(W[ix := Low(r)], ix + 1) + High(r) * P(ix + 1) == Rows(a, na, b, nb, ix + 1)
  {
    hide P, Low, High, Rows, Col;
    RowsNext(a, na, b, nb, ix);
    LowHigh(r);
    VUpdate(W, ix, Low(r));
    Carry(Low(r), High(r), r, ix);
    MulDistribute(w, Col(a, na, b, nb, ix), P(ix));
  }

  lemma Truncate(a: seq<nat>, na: nat, b: seq<nat>, nb: nat, W: seq<MpDigit>, n: nat, w: nat)
    requires na <= |a| && nb <= |b| && n <= |W|
    requires V(W, n) + w * P(n) == Rows(a, na, b, nb, n)
    ensures V(W, n) == Mod(V(a, na) * V(b, nb), P(n))
  {
    hide P, V, Rows, Mod;
    var k := RowsCut(a, na, b, nb, n);
    VBound(W, n);
    RemainderOf(V(a, na) * V(b, nb), Rows(a, na, b, nb, n), V(W, n), w, k, P(n));
  }

  lemma RemainderOf(x: int, r: int, v: nat, w: int, k: int, p: nat)
    requires x == r + k * p && r == v + w * p && v < p
    ensures v == Mod(x, p)
  {
    MulDistribute(w, k, p);
    ModIs(x, p, w + k, v);
  }

  /** fast_s_mp_mul_digs: c := |a| * |b| mod B^digs.  The copy out of the work array takes one cell more
      than was computed, so the digit at position `used` before clamping is arbitrary. */
  method MulDigsFast(a: MpInt, b: MpInt, c: MpInt, digs: nat)
    requires a.Wf() && b.Wf() && c.used <= |c.dp| && MP_PREC <= |c.dp|
    requires digs < MP_WARRAY && Min(a.used, b.used) <= COLUMNS
    requires digs <= a.used + b.used ==> digs < |c.dp|
    modifies c
    ensures c.Valid() && c.Mag() == Mod(old(a.Mag()) * old(b.Mag()), P(digs))
    ensures c.neg == (old(c.neg) && c.Mag() != 0)
    ensures c.used <= digs && c.used <= old(a.used) + old(b.used)
    ensures CLEAN_CELL && old(c.Zeroed()) ==> c.Zeroed()
  {
    hide P, V, Mod;
    var pa := Min(digs, a.used + b.used);
    ProductBound(a.dp, a.used, b.dp, b.used, digs);
    Grow(c, digs);
    VSame(a.dp, old(a.dp), a.used);
    VSame(b.dp, old(b.dp), b.used);
    var W := Comba(a, b, pa);
    StoreCells(c, W, pa);
    Clamp(c);
  }

  /** Copy the computed cells and the one behind them, and clear what the old value held above. */
  method StoreCells(c: MpInt, W: array<MpDigit>, pa: nat)
    requires c.used <= |c.dp| && MP_PREC <= |c.dp| && pa < |c.dp| && pa < W.Length
    modifies c
    ensures c.Wf() && c.used == pa && c.neg == old(c.neg) && c.Mag() == V(W[..], pa)
    ensures W[pa] == 0 && old(c.Zeroed()) ==> c.Zeroed()
  {
    hide P, V;
    ghost var cells := W[..];
    var olduse := c.used;
    c.used := pa;
    var ix := 0;
    while ix < pa + 1
      invariant 0 <= ix <= pa + 1 <= |c.dp| && c.used == pa && c.neg == old(c.neg) && olduse <= |c.dp|
      invariant MP_PREC <= |c.dp| && W[..] == cells
      invariant forall k | 0 <= k < ix :: c.dp[k] == cells[k]
      invariant old(c.Zeroed()) ==> forall k | ix <= k < |c.dp| && olduse <= k :: c.dp[k] == 0
    {
      c.dp := c.dp[ix := W[ix]];
      ix := ix + 1;
    }
    VSame(c.dp, cells, pa);
    ClearAbove(c, ix, olduse);
  }

  method ClearAbove(c: MpInt, i: nat, n: nat)
    requires c.Wf() && c.used <= i <= |c.dp| && n <= |c.dp|
    modifies c`dp
    ensures c.Wf() && c.Mag() == old(c.Mag()) && |c.dp| == old(|c.dp|)
    ensures forall k | 0 <= k < |c.dp| :: c.dp[k] == if i <= k < n then 0 else old(c.dp)[k]
  {
    var ix := i;
    while ix < n
      invariant i <= ix && |c.dp| == old(|c.dp|) && (ix <= n || ix == i)
      invariant forall k | 0 <= k < |c.dp| :: c.dp[k] == if i <= k < ix then 0 else old(c.dp)[k]
    {
      c.dp := c.dp[ix := 0];
      ix := ix + 1;
    }
    VSame(c.dp, old(c.dp), c.used);
  }

  /** A product has at most as many digits as its factors together. */
  lemma ProductBound(a: seq<MpDigit>, na: nat, b: seq<MpDigit>, nb: nat, n: nat)
    requires na <= |a| && nb <= |b|
    ensures V(a, na) * V(b, nb) < P(na + nb)
    ensures na + nb <= n ==> Mod(V(a, na) * V(b, nb), P(n)) == V(a, na) * V(b, nb)
    ensures na + nb <= n ==> Mod(V(a, na) * V(b, nb), P(na + nb)) == V(a, na) * V(b, nb)
  {
    hide P, V, Mod;
    VBound(a, na);
    VBound(b, nb);
    PAdd(na, nb);
    LessProduct(V(a, na), V(b, nb), P(na), P(nb));
    ModIs(V(a, na) * V(b, nb), P(na + nb), 0, V(a, na) * V(b, nb));
    if na + nb <= n {
      PMonotone(na + nb, n);
      ModIs(V(a, na) * V(b, nb), P(n), 0, V(a, na) * V(b, nb));
    }
  }

  lemma LessProduct(x: nat, y: nat, p: nat, q: nat)
    requires x < p && y < q
    ensures 0 <= x * y < p * q
  {
    MulMonotone(x, p - 1, y);
    MulMonotone(y + 1, q, p);
    MulDistribute(p, 1, y);
  }

  // ----- by rows

  lemma RowStep(t: seq<MpDigit>, n: nat, x: MpDigit, b: seq<MpDigit>, ix: nat, iy: nat, u: MpDigit, s: int)
    requires ix + iy < n <= |t| && iy < |b|
    requires V(t, n) + u * P(ix + iy) == s + x * P(ix) * V(b, iy)
    ensures var r := Word(t[ix + iy] + x * b[iy] + u);
            && High(r) < B
            && V(t[ix + iy := Low(r)], n) + High(r) * P(ix + iy + 1) == s + x * P(ix) * V(b, iy + 1)
  {
    hide P, Word, Low, High;
    var pos := ix + iy;
    var m: nat, y: nat, w: nat, z: nat := t[pos], b[iy], u, x;
    AddProduct(m, z, y, w, pos);
    VSet(t, pos, Low(Word(m + z * y + w)), n);
    PAdd(ix, iy);
    RowAlgebra(z, P(ix), V(b, iy), y, P(iy));
  }

  /** Adding a product and a carry to the digit m at position i. */
  lemma AddProduct(m: nat, x: nat, y: nat, u: nat, i: nat)
    requires m < B && x < B && y < B && u < B
    ensures var r := Word(m + x * y + u);
            High(r) < B && (Low(r) - m) * P(i) + High(r) * P(i + 1) == (x * y) * P(i) + u * P(i)
  {
    hide P, Word, Low, High;
    ProductWord(x, y, u, m);
    var r := Word(m + x * y + u);
    LowHigh(r);
    Carry(Low(r), High(r), r, i);
    RowSum(Low(r), High(r) * P(i + 1), r, m, x * y, u, P(i));
  }

  lemma RowSum(lo: int, hi: int, r: int, m: int, xy: int, u: int, p: int)
    requires lo * p + hi == r * p && r == m + xy + u
    ensures (lo - m) * p + hi == xy * p + u * p
  {
    MulDistribute(lo, m, p);
    MulDistribute(m, xy + u, p);
    MulDistribute(xy, u, p);
  }

  /** t := t + x * b * B^ix, keeping only the digits below digs. */
  method MulRow(t: MpInt, x: MpDigit, b: MpInt, ix: nat, digs: nat) returns (ghost k: nat)
    requires t.Wf() && b.Wf() && t != b && t.used == digs
    requires forall j | ix + b.used <= j < digs :: t.dp[j] == 0
    modifies t`dp
    ensures t.Wf() && |t.dp| == old(|t.dp|)
    ensures forall j | ix + 1 + b.used <= j < digs :: t.dp[j] == 0
    ensures t.Mag() + k * P(digs) == old(t.Mag()) + x * P(ix) * b.Mag()
    ensures old(t.Zeroed()) ==> t.Zeroed()
  {
    hide P, V, Word, Low, High;
    var pb := Min(b.used, digs - ix);
    VEmpty(b.dp);
    var u: MpDigit := 0;
    var iy := 0;
    while iy < pb
      invariant 0 <= iy && (iy <= pb || iy == 0) && |t.dp| == old(|t.dp|) && (iy == 0 ==> u == 0)
      invariant forall j | ix + b.used <= j < digs :: t.dp[j] == 0
      invariant V(t.dp, digs) + u * P(ix + iy) == old(t.Mag()) + x * P(ix) * V(b.dp, iy)
      invariant old(t.Zeroed()) ==> t.Zeroed()
    {
      var r := Word(t.dp[ix + iy] + x * b.dp[iy] + u);
      RowStep(t.dp, digs, x, b.dp, ix, iy, u, old(t.Mag()));
      t.dp := t.dp[ix + iy := Low(r)];
      u := High(r);
      iy := iy + 1;
    }
    k := RowEnd(V(t.dp, digs), u, x, b.dp, b.used, ix, iy, digs, old(t.Mag()));
    if ix + iy < digs {
      VSet(t.dp, ix + iy, u, digs);
      t.dp := t.dp[ix + iy := u];
    }
  }

  /** The final carry of a row is either stored or falls outside the digits kept. */
  lemma RowEnd(v: nat, u: nat, x: nat, b: seq<nat>, nb: nat, ix: nat, iy: nat, n: nat, s: nat) returns (k: nat)
    requires nb <= |b| && iy == Reach(n, ix, nb) && (iy == 0 ==> u == 0)
    requires v + u * P(ix + iy) == s + x * P(ix) * V(b, iy)
    ensures ix + iy < n ==> k == 0 && v + u * P(ix + iy) + k * P(n) == s + x * P(ix) * V(b, nb)
    ensures ix + iy >= n ==> v + k * P(n) == s + x * P(ix) * V(b, nb)
  {
    hide P, V, Mod;
    var k' := RowCut(x, ix, b, nb, n);
    k := k' + (if ix + iy < n then 0 else u);
    MulDistribute(k', u, P(n));
  }

  /** s_mp_mul_digs: c := |a| * |b| mod B^digs */
  method MulDigs(a: MpInt, b: MpInt, c: MpInt, digs: nat)
    requires a.Wf() && b.Wf() && c.used <= |c.dp| && MP_PREC <= |c.dp|
    requires digs <= a.used + b.used ==> digs < |c.dp|
    modifies c
    ensures c.Valid() && c.Mag() == Mod(old(a.Mag()) * old(b.Mag()), P(digs))
    ensures c.neg ==> old(c.neg)
    ensures CLEAN_CELL && old(c.Zeroed()) ==> c.Zeroed()
  {
    hide P, V, Mod;
    if digs < MP_WARRAY && Min(a.used, b.used) < COLUMNS {
      MulDigsFast(a, b, c, digs);
      return;
    }
    var t := MulRows(a, b, digs);
    Clamp(t);
    Exch(t, c);
  }

  method MulRows(a: MpInt, b: MpInt, digs: nat) returns (t: MpInt)
    requires a.Wf() && b.Wf()
    ensures fresh(t) && t.Wf() && t.Zeroed() && !t.neg && t.Mag() == Mod(a.Mag() * b.Mag(), P(digs))
  {
    hide P, V, Mod;
    t := new MpInt.Sized(digs);
    VEmpty(t.dp);
    VZeros(t.dp, 0, digs);
    t.used := digs;
    ghost var K := 0;
    VEmpty(a.dp);
    var ix := 0;
    while ix < a.used
      invariant 0 <= ix <= a.used && t.Wf() && t.Zeroed() && t.used == digs && !t.neg && K >= 0
      invariant forall j | ix + b.used <= j < digs :: t.dp[j] == 0
      invariant t.Mag() + K * P(digs) == V(a.dp, ix) * b.Mag()
      modifies t
    {
      ghost var k := MulRow(t, a.dp[ix], b, ix, digs);
      RowAdds(a.dp, ix, b.Mag());
      MulDistribute(K, k, P(digs));
      K := K + k;
      ix := ix + 1;
    }
    VBound(t.dp, digs);
    RemainderOf(a.Mag() * b.Mag(), t.Mag(), t.Mag(), 0, K, P(digs));
  }

  lemma RowAdds(a: seq<nat>, i: nat, v: nat)
    requires i < |a|
    ensures V(a, i + 1) * v == V(a, i) * v + a[i] * P(i) * v
  {
    hide P;
    MulDistribute(V(a, i), a[i] * P(i), v);
  }
}

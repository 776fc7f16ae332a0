/** Squaring: by columns, by rows (HAC 14.16), Karatsuba and Toom-Cook. */
module MpSquare {
  import opened Radix
  import opened Digits
  import opened Columns
  import opened MpCore
  import opened MpAdd
  import opened MpShift
  import opened MpMultiply
  import opened MpToom
  import opened MpProduct

  // ----- by columns

  lemma TermSymmetric(a: seq<nat>, n: nat, i: nat, j: nat)
    requires n <= |a| && i < n && j < n
    ensures Term(a, i, a, n, i + j) == a[i] * a[j] == Term(a, j, a, n, i + j)
  {}

  /** The first and the last iz of the terms tx to ty of column tx + ty. */
  ghost function Ends(a: seq<nat>, n: nat, tx: nat, ty: int, iz: nat): int
    requires n <= |a| && tx <= ty + 1 <= n && 2 * iz <= ty - tx + 1 && tx + ty >= 0
  {
    var k := tx + ty;
    Col(a, tx + iz, a, n, k) - Col(a, tx, a, n, k) + Col(a, ty + 1, a, n, k) - Col(a, ty + 1 - iz, a, n, k)
  }

  lemma EndsNone(a: seq<nat>, n: nat, tx: nat, ty: int)
    requires n <= |a| && tx <= ty + 1 <= n && tx + ty >= 0
    ensures Ends(a, n, tx, ty, 0) == 0
  {}

  /** Two more symmetric terms of a column, one from each end. */
  lemma EndsNext(a: seq<nat>, n: nat, tx: nat, ty: nat, iz: nat)
    requires n <= |a| && tx <= ty < n && 2 * iz < ty - tx
    ensures Ends(a, n, tx, ty, iz + 1) == Ends(a, n, tx, ty, iz) + 2 * (a[tx + iz] * a[ty - iz])
  {
    TermSymmetric(a, n, tx + iz, ty - iz);
  }

  /** The diagonal term of column n: the square of its middle digit, in even columns only. */
  ghost function Diagonal(a: seq<nat>, n: nat): nat
    requires n % 2 == 0 ==> n / 2 < |a|
  {
    if n % 2 == 0 then a[n / 2] * a[n / 2] else 0
  }

  /** A column is twice its half plus its diagonal. */
  lemma TwoHalves(a: seq<nat>, n: nat, tx: nat, ty: int, iy: nat, w: nat)
    requires n <= |a| && 0 <= tx <= ty + 1 <= n && iy == (ty - tx + 1) / 2
    requires (tx == 0 || ty == n - 1) && (tx <= ty || tx + ty == 2 * n - 1) && tx + ty >= 0
    requires 2 * w == Ends(a, n, tx, ty, iy)
    ensures 2 * w + Diagonal(a, tx + ty) == Col(a, n, a, n, tx + ty)
  {
    var k := tx + ty;
    ColBefore(a, tx, a, n, k);
    ColAfter(a, ty + 1, n, a, n, k);
    if k % 2 == 0 {
      assert tx + iy == k / 2 && ty + 1 - iy == k / 2 + 1;
      TermSymmetric(a, n, k / 2, k / 2);
    } else {
      assert tx + iy == ty + 1 - iy;
    }
  }

  /** Half of the off-diagonal part of column ix. */
  method HalfColumn(a: MpInt, ix: nat) returns (w: nat)
    requires a.Wf() && ix < 2 * a.used && a.used <= COLUMNS
    ensures 2 * w + Diagonal(a.dp, ix) == Col(a.dp, a.used, a.dp, a.used, ix)
    ensures 2 * w <= a.used * MaxProduct()
  {
    hide Word, MaxProduct, V, P, CarryBound, Col, Diagonal, Ends;
    CarryPositive();
    var ty: int := if a.used - 1 < ix then a.used - 1 else ix;
    var tx: int := ix - ty;
    var iy: int := if a.used - tx < ty + 1 then a.used - tx else ty + 1;
    iy := if iy < (ty - tx + 1) / 2 then iy else (ty - tx + 1) / 2;
    w := 0;
    EndsNone(a.dp, a.used, tx, ty);
    var iz := 0;
    while iz < iy
      invariant 0 <= iz <= iy
      invariant 2 * w == Ends(a.dp, a.used, tx, ty, iz)
      invariant w <= iz * MaxProduct()
    {
      var x: nat, y: nat := a.dp[tx + iz], a.dp[ty - iz];
      ProductStep(x, y, iz);
      EndsNext(a.dp, a.used, tx, ty, iz);
      ColumnFits(0, iz + 1, w + x * y);
      w := Word(w + x * y);
      iz := iz + 1;
    }
    TwoHalves(a.dp, a.used, tx, ty, iy, w);
    MulMonotone(2 * iy, a.used, MaxProduct());
    MulSwap(2, iy, MaxProduct());
  }

  /** Column ix of the square on top of the carry w. */
  method SquareColumn(a: MpInt, ix: nat, w: nat) returns (r: nat)
    requires a.Wf() && ix < 2 * a.used && a.used < COLUMNS && w < CarryBound()
    ensures r == w + Col(a.dp, a.used, a.dp, a.used, ix) && High(r) < CarryBound()
  {
    hide Word, MaxProduct, V, P, CarryBound, Col, High;
    r := HalfColumn(a, ix);
    ColumnFits(w, a.used, r + r + w);
    ghost var h := r;
    r := Word(r + r + w);
    if ix % 2 == 0 {
      var x: nat := a.dp[ix / 2];
      ProductStep(x, x, a.used);
      ColumnFits(w, a.used + 1, r + x * x);
      r := Word(r + x * x);
    }
  }

  /** fast_s_mp_sqr: b := |a|^2 */
  method SqrFast(a: MpInt, b: MpInt)
    requires a.Wf() && b.used <= |b.dp| && MP_PREC <= |b.dp|
    requires 2 * a.used + 1 < MP_WARRAY && a.used < COLUMNS
    modifies b
    ensures b.Valid() && b.Mag() == old(a.Mag()) * old(a.Mag())
    ensures b.neg == (old(b.neg) && b.Mag() != 0)
    ensures old(b.Zeroed()) ==> b.Zeroed()
  {
    hide P, V, Mod;
    var pa := a.used + a.used;
    Grow(b, pa);
    VSame(a.dp, old(a.dp), a.used);
    ProductBound(a.dp, a.used, a.dp, a.used, pa);
    var W := SquareColumns(a);
    ghost var cells := W[..];
    var olduse := b.used;
    b.used := pa;
    var ix := 0;
    while ix < pa
      invariant 0 <= ix <= pa <= |b.dp| && b.used == pa && b.neg == old(b.neg) && olduse <= |b.dp|
      invariant MP_PREC <= |b.dp| && W[..] == cells
      invariant forall k | 0 <= k < ix :: b.dp[k] == cells[k]
      invariant old(b.Zeroed()) ==> forall k | ix <= k < |b.dp| && olduse <= k :: b.dp[k] == 0
    {
      b.dp := b.dp[ix := W[ix]];
      ix := ix + 1;
    }
    VSame(b.dp, cells, pa);
    ClearAbove(b, ix, olduse);
    Clamp(b);
  }

  method SquareColumns(a: MpInt) returns (W: array<MpDigit>)
    requires a.Wf() && a.used < COLUMNS && 2 * a.used + 1 < MP_WARRAY
    ensures fresh(W) && W.Length == MP_WARRAY
    ensures V(W[..], 2 * a.used) == Mod(a.Mag() * a.Mag(), P(2 * a.used))
  {
    hide P, Word, Low, High, CarryBound, V, Mod;
    W := new MpDigit[MP_WARRAY];
    VEmpty(W[..]);
    PNext(0);
    RowsNone(a.dp, a.used, a.dp, a.used);
    CarryPositive();
    var w: nat := 0;
    var ix := 0;
    while ix < 2 * a.used
      invariant 0 <= ix <= 2 * a.used && w < CarryBound()
      invariant V(W[..], ix) + w * P(ix) == Rows(a.dp, a.used, a.dp, a.used, ix)
    {
      var r := SquareColumn(a, ix, w);
      ghost var before := W[..];
      W[ix] := Low(r);
      assert W[..] == before[ix := Low(r)];
      ColumnStep(a.dp, a.used, a.dp, a.used, before, ix, w, r);
      w := High(r);
      ix := ix + 1;
    }
    Truncate(a.dp, a.used, a.dp, a.used, W[..], 2 * a.used, w);
  }

  // ----- by rows

  /** t plus twice a product of digits plus a carry below 2B still fits a word, with a carry below 2B. */
  lemma DoubleProduct(m: nat, x: nat, y: nat, u: nat, i: nat)
    requires m < B && x < B && y < B && u < 2 * B
    ensures var r := Word(m + x * y + x * y + u);
            High(r) < 2 * B && (Low(r) - m) * P(i) + High(r) * P(i + 1) == (2 * (x * y)) * P(i) + u * P(i)
  {
    hide P, Word, Low, High;
    DoubleFits(m, x, y, u);
    var s := x * y + x * y;
    WordExact(m + s + u);
    var r := Word(m + s + u);
    LowHigh(r);
    HighBound(r, 2 * B);
    Carry(Low(r), High(r), r, i);
    RowSum(Low(r), High(r) * P(i + 1), r, m, s, u, P(i));
  }

  lemma DoubleFits(m: nat, x: nat, y: nat, u: nat)
    requires m < B && x < B && y < B && u < 2 * B
    ensures 0 <= m + (x * y + x * y) + u < 2 * (B * B) && 2 * (B * B) == (2 * B) * B
  {
    ProductFits(x, y, 0, 0);
    DoubleBound(x, y);
  }

  lemma DoubleBound(x: nat, y: nat)
    requires x < B && y < B
    ensures x * y + 2 * B <= B * B + 1
  {
    MulMonotone(x, B - 1, y);
    MulMonotone(y, B - 1, B - 1);
    MulDistribute(B, 1, B - 1);
  }

  /** Adding a carry below 2B to a digit. */
  lemma CarryDigit(m: nat, u: nat, i: nat)
    requires m < B && u < 2 * B
    ensures var r := Word(m + u); High(r) < 2 * B && (Low(r) - m) * P(i) + High(r) * P(i + 1) == u * P(i)
    ensures m + u < 2 * B ==> High(Word(m + u)) <= 1
  {
    hide P, Word, Low, High;
    MulMonotone(128, B, B);
    WordExact(m + u);
    var r := Word(m + u);
    LowHigh(r);
    HighBound(r, 3);
    if m + u < 2 * B {
      HighBound(r, 2);
    }
    Carry(Low(r), High(r), r, i);
    RowSum(Low(r), High(r) * P(i + 1), r, m, 0, u, P(i));
  }

  /** Twice digit ix times the digits below iy. */
  ghost function RowPart(a: seq<nat>, ix: nat, iy: nat): int
    requires ix < |a| && iy <= |a|
  {
    2 * (a[ix] * P(ix)) * V(a, iy)
  }

  lemma SqrStep(t: seq<MpDigit>, N: nat, a: seq<MpDigit>, ix: nat, iy: nat, u: nat, s: int)
    requires ix + iy < N <= |t| && ix < iy < |a| && u < 2 * B
    requires V(t, N) + u * P(ix + iy) == s + RowPart(a, ix, iy)
    ensures var r := Word(t[ix + iy] + a[ix] * a[iy] + a[ix] * a[iy] + u);
            && High(r) < 2 * B
            && V(t[ix + iy := Low(r)], N) + High(r) * P(ix + iy + 1) == s + RowPart(a, ix, iy + 1)
  {
    hide P, Word, Low, High;
    var pos := ix + iy;
    var m: nat, x: nat, y: nat := t[pos], a[ix], a[iy];
    DoubleProduct(m, x, y, u, pos);
    VSet(t, pos, Low(Word(m + x * y + x * y + u)), N);
    PAdd(ix, iy);
    SqrAlgebra(x, y, P(ix), P(iy), V(a, iy));
  }

  lemma SqrAlgebra(x: int, y: int, p: int, q: int, v: int)
    ensures 2 * (x * p) * (v + y * q) == 2 * (x * p) * v + (2 * (x * y)) * (p * q)
  {}

  lemma FirstSquare(t: seq<MpDigit>, N: nat, ix: nat, x: MpDigit)
    requires 2 * ix < N <= |t|
    ensures var r := Word(t[2 * ix] + x * x);
            High(r) < B && V(t[2 * ix := Low(r)], N) + High(r) * P(2 * ix + 1) == V(t, N) + (x * x) * P(2 * ix)
  {
    hide P, Word, Low, High;
    AddProduct(t[2 * ix], x, x, 0, 2 * ix);
    var r := Word(t[2 * ix] + x * x);
    VSet(t, 2 * ix, Low(r), N);
  }

  /** The contribution of row ix to the square: all products whose smaller index is ix. */
  ghost function SqrRowValue(a: seq<nat>, n: nat, ix: nat): int
    requires ix < n <= |a|
  {
    var d := a[ix] * P(ix);
    d * d + 2 * d * (V(a, n) - V(a, ix + 1))
  }

  /** Rows below ix add up to everything but the square of the part above. */
  lemma SqrRowsNext(a: seq<nat>, n: nat, ix: nat)
    requires ix < n <= |a|
    ensures var h, h' := V(a, n) - V(a, ix), V(a, n) - V(a, ix + 1);
            h * h - h' * h' == SqrRowValue(a, n, ix)
  {
    hide P;
    Difference(V(a, n) - V(a, ix + 1), a[ix] * P(ix));
  }

  lemma Difference(h: int, d: int)
    ensures (h + d) * (h + d) - h * h == d * d + 2 * d * h
  {}

  /** Push the last carry of a row upwards. */
  method Propagate(t: MpInt, pos: nat, u: nat, ghost total: nat)
    requires t.Wf() && u < 2 * B && t.Mag() + u * P(pos) == total && total < P(t.used)
    modifies t`dp
    ensures t.Wf() && |t.dp| == old(|t.dp|) && t.Mag() == total
    ensures old(t.Zeroed()) ==> t.Zeroed()
  {
    hide P, Word, Low, High, V;
    var p: nat, w: nat := pos, u;
    while w != 0
      invariant t.Wf() && |t.dp| == old(|t.dp|) && w < 2 * B && V(t.dp, t.used) + w * P(p) == total
      invariant p >= pos && (old(t.Zeroed()) ==> t.Zeroed())
      decreases if w == 0 then 0 else 1 + (if p < t.used then t.used - p else 0)
    {
      CarryInside(V(t.dp, t.used), w, p, t.used, total);
      var r := Word(t.dp[p] + w);
      CarryDigit(t.dp[p], w, p);
      VSet(t.dp, p, Low(r), t.used);
      t.dp := t.dp[p := Low(r)];
      w := High(r);
      p := p + 1;
    }
  }

  /** A nonzero carry beyond the last digit would exceed the total. */
  lemma CarryInside(v: nat, w: nat, p: nat, n: nat, total: nat)
    requires v + w * P(p) == total && total < P(n) && w > 0
    ensures p < n
  {
    hide P;
    MulMonotone(1, w, P(p));
    WeightOrder(p, n);
  }

  method SqrRow(t: MpInt, a: MpInt, ix: nat)
    requires t.Wf() && a.Wf() && t != a && ix < a.used && t.used == 2 * a.used + 1
    requires t.Mag() + SqrRowValue(a.dp, a.used, ix) < P(t.used)
    modifies t`dp
    ensures t.Wf() && |t.dp| == old(|t.dp|)
    ensures t.Mag() == old(t.Mag()) + SqrRowValue(a.dp, a.used, ix)
    ensures old(t.Zeroed()) ==> t.Zeroed()
  {
    hide P, Word, Low, High, V, RowPart, SqrRowValue;
    var n := a.used;
    var x: nat := a.dp[ix];
    FirstSquare(t.dp, t.used, ix, x);
    var r := Word(t.dp[2 * ix] + x * x);
    t.dp := t.dp[2 * ix := Low(r)];
    var u: nat := High(r);
    ghost var s := old(t.Mag()) + (x * x) * P(2 * ix) - RowPart(a.dp, ix, ix + 1);
    var iy := ix + 1;
    while iy < n
      invariant ix < iy <= n && t.Wf() && |t.dp| == old(|t.dp|) && u < 2 * B
      invariant V(t.dp, t.used) + u * P(ix + iy) == s + RowPart(a.dp, ix, iy)
      invariant old(t.Zeroed()) ==> t.Zeroed()
    {
      r := Word(t.dp[ix + iy] + x * a.dp[iy] + x * a.dp[iy] + u);
      SqrStep(t.dp, t.used, a.dp, ix, iy, u, s);
      t.dp := t.dp[ix + iy := Low(r)];
      u := High(r);
      iy := iy + 1;
    }
    SqrRowTotal(a.dp, n, ix);
    Propagate(t, ix + n, u, old(t.Mag()) + SqrRowValue(a.dp, n, ix));
  }

  lemma SqrRowTotal(a: seq<nat>, n: nat, ix: nat)
    requires ix < n <= |a|
    ensures SqrRowValue(a, n, ix) == (a[ix] * a[ix]) * P(2 * ix) - RowPart(a, ix, ix + 1) + RowPart(a, ix, n)
  {
    hide P, V;
    PAdd(ix, ix);
    assert ix + ix == 2 * ix;
    var x, p := a[ix], P(ix);
    assert (x * p) * (x * p) == (x * x) * (p * p);
    MulDistribute(V(a, n), V(a, ix + 1), 2 * (x * p));
  }

  /** s_mp_sqr: b := |a|^2 */
  method SqrRows(a: MpInt, b: MpInt)
    requires a.Wf() && b.used <= |b.dp| && MP_PREC <= |b.dp|
    modifies b
    ensures b.Valid() && b.Mag() == old(a.Mag()) * old(a.Mag()) && !b.neg && b.Zeroed()
  {
    hide P, V, SqrRowValue;
    var pa := a.used;
    var t := new MpInt.Sized(2 * pa + 1);
    VEmpty(t.dp);
    VZeros(t.dp, 0, 2 * pa + 1);
    VEmpty(a.dp);
    t.used := 2 * pa + 1;
    ghost var A := a.Mag();
    var ix := 0;
    while ix < pa
      invariant 0 <= ix <= pa && t.Wf() && t.Zeroed() && t.used == 2 * pa + 1 && !t.neg
      invariant t.Mag() == A * A - (A - V(a.dp, ix)) * (A - V(a.dp, ix))
      modifies t
    {
      SqrRowsNext(a.dp, pa, ix);
      SqrBelow(a.dp, pa, ix + 1);
      SqrRow(t, a, ix);
      ix := ix + 1;
    }
    Clamp(t);
    Exch(t, b);
  }

  lemma SqrBelow(a: seq<MpDigit>, n: nat, i: nat)
    requires i <= n <= |a|
    ensures var h := V(a, n) - V(a, i); V(a, n) * V(a, n) - h * h < P(2 * n + 1)
  {
    hide P, V;
    ProductBound(a, n, a, n, 2 * n);
    assert n + n == 2 * n;
    PMonotone(2 * n, 2 * n + 1);
    NonNegSquare(V(a, n) - V(a, i));
  }

  lemma NonNegSquare(h: int)
    ensures h * h >= 0
  {}

  // ----- dispatch

  const KARATSUBA_SQR_CUTOFF: Cutoff
  const TOOM_SQR_CUTOFF: Cutoff

  /** mp_sqr: b := a * a */
  method Sqr(a: MpInt, b: MpInt)
    requires a.Valid() && b.used <= |b.dp| && MP_PREC <= |b.dp|
    modifies b
    ensures b.Valid() && !b.neg && b.Val() == old(a.Val()) * old(a.Val())
    ensures old(b.Zeroed()) ==> b.Zeroed()
    decreases a.used, 4
  {
    hide V;
    SignRule(a.neg, a.neg, a.Mag(), a.Mag());
    if a.used >= TOOM_SQR_CUTOFF {
      ToomSqr(a, b);
    } else if a.used >= KARATSUBA_SQR_CUTOFF {
      KaratsubaSqr(a, b);
    } else if 2 * a.used + 1 < MP_WARRAY && 2 * a.used < COLUMNS {
      SqrFast(a, b);
    } else {
      SqrRows(a, b);
    }
    b.neg := false;
  }

  method KaratsubaSqr(a: MpInt, b: MpInt)
    requires a.Valid() && b.used <= |b.dp| && MP_PREC <= |b.dp| && KARATSUBA_SQR_CUTOFF <= a.used
    modifies b
    ensures b.Valid() && b.Mag() == old(a.Mag()) * old(a.Mag())
    ensures old(b.Zeroed()) ==> b.Zeroed()
    decreases a.used, 2
  {
    hide V, P;
    var n := a.used / 2;
    var x0, x1 := KaratsubaSplit(a, n);
    ghost var u0, u1 := x0.Mag(), x1.Mag();
    var x0x0, x1x1, t := KaratsubaSquares(x0, x1, a.used);
    var t2 := new MpInt();
    KaratsubaSigns(u0, u1, u0, u1);
    KaratsubaMiddle(t2, x0x0, x1x1, t);
    KaratsubaJoin(x0x0, t, x1x1, n, b);
    KaratsubaTotal(u0, u1, u0, u1, n);
    SignOf(b);
  }

  method KaratsubaSquares(x0: MpInt, x1: MpInt, ghost bound: nat) returns (x0x0: MpInt, x1x1: MpInt, t: MpInt)
    requires x0.Valid() && x1.Valid() && !x0.neg && !x1.neg && x0.used <= x1.used && x1.used + 1 < bound
    ensures fresh(x0x0) && fresh(x1x1) && fresh(t) && x0x0 != x1x1 && x0x0 != t && x1x1 != t
    ensures x0x0.Valid() && x1x1.Valid() && t.Valid() && !x0x0.neg && !x1x1.neg && !t.neg
    ensures x0x0.Val() == x0.Mag() * x0.Mag() && x1x1.Val() == x1.Mag() * x1.Mag()
    ensures t.Val() == (x1.Mag() + x0.Mag()) * (x1.Mag() + x0.Mag())
    decreases bound, 1
  {
    hide V;
    x0x0 := new MpInt();
    Sqr(x0, x0x0);
    x1x1 := new MpInt();
    Sqr(x1, x1x1);
    t := new MpInt();
    SquareOfSum(x0, x1, t, bound);
  }

  method SquareOfSum(x0: MpInt, x1: MpInt, t: MpInt, ghost bound: nat)
    requires x0.Valid() && x1.Valid() && t.Valid() && !t.neg && x0 != t && x1 != t
    requires x0.used <= x1.used && x1.used + 1 < bound
    modifies t
    ensures t.Valid() && !t.neg && t.Val() == (x1.Mag() + x0.Mag()) * (x1.Mag() + x0.Mag())
    decreases bound, 0
  {
    hide V;
    SAdd(x1, x0, t);
    Sqr(t, t);
  }

  /** The five squares and what is made of them; nothing is dropped, as no coefficient is negative. */
  method ToomSqr(a: MpInt, b: MpInt)
    requires a.Valid() && b.used <= |b.dp| && MP_PREC <= |b.dp| && TOOM_SQR_CUTOFF <= a.used
    modifies b
    ensures b.Valid() && b.Mag() == old(a.Mag()) * old(a.Mag())
    ensures old(b.Zeroed()) ==> b.Zeroed()
    decreases a.used, 3
  {
    hide V, P, Part, CoeffTotal, Excess, Faulty;
    var n := a.used / 3;
    var a0, a1, a2 := Split(a, n);
    MagZero(a2);
    ghost var x := a.Val();
    ToomResult(x, x, n);
    CoeffSum(x, x, n);
    ProductMag(a, a);
    ToomSqrWork(a0, a1, a2, n, b, x, a.used);
    SignOf(b);
  }

  method ToomSqrWork(a0: MpInt, a1: MpInt, a2: MpInt, n: nat, b: MpInt, ghost x: int, ghost bound: nat)
    requires a0.Valid() && a1.Valid() && a2.Valid() && n > 0 && b.used <= |b.dp| && MP_PREC <= |b.dp|
    requires a0.used + 4 < bound && a1.used + 4 < bound && a2.used + 4 < bound
    requires a0.Val() == Part(x, n, 0) && a1.Val() == Part(x, n, 1) && a2.Val() == Part(x, n, 2) && a2.Val() != 0
    modifies b
    ensures b.Valid() && b.Val() == CoeffTotal(x, x, n) + Excess(x, x, n)
    ensures old(b.Zeroed()) ==> b.Zeroed()
    decreases bound, 2
  {
    hide V, P, Part, CoeffTotal, Excess, ProductsOf, Times;
    var w0, w4 := OuterSquares(a0, a2, bound);
    var w1, w3 := InnerSquares(a0, a1, a2, bound);
    var w2 := new MpInt();
    SqrSum(a2, a1, a0, w2, bound);
    PointsEvaluate(x, x, n);
    ToomFinish(w0, w1, w2, w3, w4, n, b, x, x);
  }

  method OuterSquares(a0: MpInt, a2: MpInt, ghost bound: nat) returns (w0: MpInt, w4: MpInt)
    requires a0.Valid() && a2.Valid() && a0.used < bound && a2.used < bound
    ensures fresh(w0) && fresh(w4) && w0 != w4 && w0.Valid() && w4.Valid()
    ensures w0.Val() == Times(a0.Val(), a0.Val()) && w4.Val() == Times(a2.Val(), a2.Val())
    decreases bound, 1
  {
    hide V;
    w0 := new MpInt();
    Sqr(a0, w0);
    w4 := new MpInt();
    Sqr(a2, w4);
  }

  method InnerSquares(a0: MpInt, a1: MpInt, a2: MpInt, ghost bound: nat) returns (w1: MpInt, w3: MpInt)
    requires a0.Valid() && a1.Valid() && a2.Valid()
    requires a0.used + 4 < bound && a1.used + 4 < bound && a2.used + 4 < bound
    ensures fresh(w1) && fresh(w3) && w1 != w3 && w1.Valid() && w3.Valid()
    ensures w1.Val() == Times(4 * a0.Val() + 2 * a1.Val() + a2.Val(), 4 * a0.Val() + 2 * a1.Val() + a2.Val())
    ensures w3.Val() == Times(4 * a2.Val() + 2 * a1.Val() + a0.Val(), 4 * a2.Val() + 2 * a1.Val() + a0.Val())
    decreases bound, 1
  {
    hide V, Times;
    w1 := new MpInt();
    SqrEval(a0, a1, a2, w1, bound);
    w3 := new MpInt();
    SqrEval(a2, a1, a0, w3, bound);
  }

  /** w := (4 * x + 2 * y + z)^2 */
  method SqrEval(x: MpInt, y: MpInt, z: MpInt, w: MpInt, ghost bound: nat)
    requires x.Valid() && y.Valid() && z.Valid() && w.Valid() && w != x && w != y && w != z
    requires x.used + 4 < bound && y.used + 4 < bound && z.used + 4 < bound
    modifies w
    ensures w.Valid() && w.Val() == Times(4 * x.Val() + 2 * y.Val() + z.Val(), 4 * x.Val() + 2 * y.Val() + z.Val())
    decreases bound, 0
  {
    hide V;
    var t := new MpInt();
    Eval(x, y, z, t);
    Sqr(t, w);
  }

  method SqrSum(x: MpInt, y: MpInt, z: MpInt, w: MpInt, ghost bound: nat)
    requires x.Valid() && y.Valid() && z.Valid() && w.Valid() && w != x && w != y && w != z
    requires x.used + 4 < bound && y.used + 4 < bound && z.used + 4 < bound
    modifies w
    ensures w.Valid() && w.Val() == Times(x.Val() + y.Val() + z.Val(), x.Val() + y.Val() + z.Val())
    decreases bound, 0
  {
    hide V;
    var t := new MpInt();
    Sum3(x, y, z, t);
    Sqr(t, w);
  }
}

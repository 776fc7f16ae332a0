/** Montgomery reduction in its two forms: by rows, and by columns whose carries are resolved late. */
module MpRedc {
  import opened Radix
  import opened Digits
  import opened Columns
  import opened MpCore
  import opened MpAdd
  import opened MpShift
  import opened MpMultiply

  /** rho is the negated inverse of the lowest digit of n. */
  ghost predicate Companion(n0: nat, rho: nat) {
    Mod(n0 * rho + 1, B) == 0
  }

  /** r is x divided by P(k) modulo n, in lowest terms. */
  ghost predicate Reduced(r: nat, x: nat, n: nat, k: nat)
    requires n > 0
  {
    r < n && Mod(r * P(k), n) == Mod(x, n)
  }

  // ----- one digit

  lemma Cancels(low: int, ht: int, n0: int, hn: int, rho: int, mu: int, q: int, z: int, b: int)
    requires low * rho == mu + b * q && n0 * rho + 1 == b * z
    ensures (low + b * ht) + mu * (n0 + b * hn) == b * (ht + mu * hn + low * z - q * n0)
  {
    assert low * (n0 * rho + 1) == low * (b * z);
    assert low * (n0 * rho) == (low * rho) * n0;
    assert (mu + b * q) * n0 == mu * n0 + b * (q * n0);
    assert low * (b * z) == b * (low * z);
    assert mu * (b * hn) == b * (mu * hn);
    assert b * (ht + mu * hn + low * z - q * n0) == b * ht + b * (mu * hn) + b * (low * z) - b * (q * n0);
  }

  /** Adding the right multiple of the modulus clears the lowest digit. */
  lemma ClearDigit(low: MpDigit, ht: nat, n0: MpDigit, hn: nat, rho: MpDigit, mu: nat) returns (t': nat)
    requires Companion(n0, rho) && mu == Low(low * rho)
    ensures (low + B * ht) + mu * (n0 + B * hn) == B * t'
  {
    var l: nat, m: nat, r: nat := low, n0, rho;
    var q, z := High(l * r), (m * r + 1) / B;
    LowHigh(l * r);
    assert m * r + 1 == B * z + (m * r + 1) % B;
    Cancels(l, ht, m, hn, r, mu, q, z, B);
    var y := ht + mu * hn + l * z - q * m;
    NonNegative(l + B * ht, mu, m + B * hn, y);
    t' := y;
  }

  lemma NonNegative(t: nat, mu: nat, n: nat, y: int)
    requires t + mu * n == B * y
    ensures y >= 0
  {
    MulMonotone(0, mu, n);
    if y < 0 {
      MulMonotone(y, -1, B);
    }
  }

  lemma NextWeight(x: int, n: int, m: int, t: int, mu: int, t': int, p: int, b: int)
    requires x + n * m == t * p && t + mu * n == b * t'
    ensures x + n * (m + mu * p) == t' * (b * p)
  {
    assert n * (m + mu * p) == n * m + (mu * n) * p;
    MulDistribute(t, mu * n, p);
    assert (b * t') * p == t' * (b * p);
  }

  /** x + n * m == t * P(ix), advanced by one digit. */
  lemma Advance(x: nat, n: nat, m: nat, t: nat, mu: MpDigit, t': nat, ix: nat)
    requires x + n * m == t * P(ix) && t + mu * n == B * t' && m < P(ix)
    ensures 0 <= m + mu * P(ix) < P(ix + 1)
    ensures x + n * (m + mu * P(ix)) == t' * P(ix + 1)
  {
    PNext(ix);
    hide P;
    var u: nat := mu;
    NextWeight(x, n, m, t, u, t', P(ix), B);
    BoundStep(u, m, P(ix));
  }

  // ----- the end

  lemma QuotientSmall(x: nat, n: nat, m: nat, t: nat, p: nat)
    requires x + n * m == t * p && x < n * p && m < p
    ensures t < 2 * n
  {
    MulMonotone(m, p, n);
    if t >= 2 * n {
      MulMonotone(2 * n, t, p);
      MulSwap(2, n, p);
    }
  }

  /** Twice the product of an n-digit number and P(n) fits in 2n + 1 digits; its half in n + 1. */
  lemma Room(d: seq<MpDigit>, n: nat)
    requires n <= |d|
    ensures 2 * V(d, n) < P(n + 1)
    ensures 2 * (V(d, n) * P(n)) < P(2 * n + 1)
  {
    VBound(d, n);
    PNext(n);
    PAdd(n + 1, n);
    assert n + 1 + n == 2 * n + 1;
    hide P, V;
    MulMonotone(2, B, P(n));
    LessProduct(2 * V(d, n), P(n) - 1, P(n + 1), P(n));
    MulSwap(2, V(d, n), P(n));
    MulMonotone(2 * V(d, n) + 1, P(n + 1), P(n));
  }

  lemma IsReduced(r: nat, x: nat, n: nat, m: nat, t: nat, k: nat)
    requires n > 0 && r < n && (r == t || r + n == t)
    requires x + n * m == t * P(k)
    ensures Reduced(r, x, n, k)
  {
    hide P;
    var p := P(k);
    if r == t {
      ModEqual(r * p, x, m, n);
    } else {
      MulDistribute(r, n, p);
      MulDistribute(m, p, n);
      ModEqual(r * p, x, m - p, n);
    }
  }

  /** The common tail: subtract the modulus once if it still fits. */
  method SubtractOnce(x: MpInt, n: MpInt, ghost X: nat, ghost M: nat)
    requires x != n && x.Valid() && n.Valid() && n.used > 0
    requires X + n.Mag() * M == x.Mag() * P(n.used) && X < n.Mag() * P(n.used) && M < P(n.used)
    modifies x
    ensures x.Valid() && n.Mag() > 0 && Reduced(x.Mag(), X, n.Mag(), n.used)
    ensures x.neg == (old(x.neg) && x.Mag() != 0) && x.Mag() <= old(x.Mag())
    ensures old(x.Zeroed()) ==> x.Zeroed()
    ensures |x.dp| >= old(|x.dp|)
  {
    hide P, V, Reduced;
    MagZero(x);
    MagZero(n);
    ghost var T := x.Mag();
    QuotientSmall(X, n.Mag(), M, T, P(n.used));
    var r := CmpMag(x, n);
    UsedOrder(x, n);
    if r != LT {
      SSub(x, n, x);
    }
    IsReduced(x.Mag(), X, n.Mag(), M, T, n.used);
  }

  // ----- by rows

  /** What the row form reads: all digits below 2 n.used + 1, whether in use or not. */
  ghost function Exposed(d: seq<nat>, k: nat): nat {
    V(d, if |d| < k then |d| else k)
  }

  /** A number divisible by P(ix) has zero digits below ix; this is what stands above them. */
  lemma DigitsAbove(d: seq<MpDigit>, ix: nat, n: nat, t: nat)
    requires ix < n <= |d| && V(d, n) == t * P(ix)
    ensures t == d[ix] + B * H(d, ix + 1, n)
  {
    hide P, V;
    VSplit(d, ix, n);
    VBound(d, ix);
    HStep(d, ix, n);
    MulSwap(1, P(ix), V(d[ix..], n - ix));
    DivModUnique(V(d, n), P(ix), t, 0);
    DivModUnique(V(d, n), P(ix), V(d[ix..], n - ix), V(d, ix));
  }

  /** Adding a carry to a digit. */
  lemma CarryStep(m: nat, u: nat, i: nat)
    requires m < B && u < B
    ensures var r := Digit(m + u); High(r) < B && (Low(r) - m) * P(i) + High(r) * P(i + 1) == u * P(i)
  {
    hide P, Digit, Low, High;
    DigitExact(m + u);
    var r := Digit(m + u);
    LowHigh(r);
    HighBound(r, 2);
    Carry(Low(r), High(r), r, i);
    RowSum(Low(r), High(r) * P(i + 1), r, m, 0, u, P(i));
  }

  lemma CarryInside(v: nat, w: nat, p: nat, n: nat, total: nat)
    requires v + w * P(p) == total && total < P(n) && w > 0
    ensures p < n
  {
    hide P;
    MulMonotone(1, w, P(p));
    WeightOrder(p, n);
  }

  method Ripple(x: MpInt, pos: nat, u: MpDigit, ghost total: nat)
    requires x.Wf() && V(x.dp, x.used) + u * P(pos) == total && total < P(x.used)
    modifies x`dp
    ensures x.Wf() && |x.dp| == old(|x.dp|) && x.Mag() == total
    ensures old(x.Zeroed()) ==> x.Zeroed()
  {
    hide P, V, Digit, Low, High;
    var p: nat, w: nat := pos, u;
    while w != 0
      invariant x.Wf() && |x.dp| == old(|x.dp|) && w < B && V(x.dp, x.used) + w * P(p) == total
      invariant old(x.Zeroed()) ==> x.Zeroed()
      decreases if w == 0 then 0 else 1 + (if p < x.used then x.used - p else 0)
    {
      CarryInside(V(x.dp, x.used), w, p, x.used, total);
      var r := Digit(x.dp[p] + w);
      CarryStep(x.dp[p], w, p);
      VSet(x.dp, p, Low(r), x.used);
      x.dp := x.dp[p := Low(r)];
      w := High(r);
      p := p + 1;
    }
  }

  /** x := x + mu * n * P(ix) */
  method AddRow(x: MpInt, mu: MpDigit, n: MpInt, ix: nat)
    requires x != n && x.Wf() && n.Wf() && ix + n.used < x.used
    requires x.Mag() + mu * P(ix) * n.Mag() < P(x.used)
    modifies x`dp
    ensures x.Wf() && |x.dp| == old(|x.dp|)
    ensures x.Mag() == old(x.Mag()) + mu * P(ix) * n.Mag()
    ensures old(x.Zeroed()) ==> x.Zeroed()
  {
    hide P, V, Word, Low, High;
    VEmpty(n.dp);
    var u: MpDigit := 0;
    var iy := 0;
    while iy < n.used
      invariant 0 <= iy <= n.used && |x.dp| == old(|x.dp|)
      invariant V(x.dp, x.used) + u * P(ix + iy) == old(x.Mag()) + mu * P(ix) * V(n.dp, iy)
      invariant old(x.Zeroed()) ==> x.Zeroed()
    {
      var r := Word(x.dp[ix + iy] + mu * n.dp[iy] + u);
      RowStep(x.dp, x.used, mu, n.dp, ix, iy, u, old(x.Mag()));
      x.dp := x.dp[ix + iy := Low(r)];
      u := High(r);
      iy := iy + 1;
    }
    Ripple(x, ix + iy, u, old(x.Mag()) + mu * P(ix) * n.Mag());
  }

  lemma ProductExact(x: nat, y: nat)
    requires x < B && y < B
    ensures Word(x * y) == x * y
  {
    ProductWord(x, y, 0, 0);
  }

  /** One round of the reduction: the digit to add is found and the partial quotient advances. */
  lemma Round(d: seq<MpDigit>, used: nat, n: seq<MpDigit>, nu: nat, rho: MpDigit, ix: nat, X: nat, M: nat, t: nat)
    returns (t': nat)
    requires 0 < nu <= |n| && ix < used <= |d| && Companion(n[0], rho)
    requires V(d, used) == t * P(ix) == X + V(n, nu) * M && M < P(ix)
    ensures var mu := Low(Word(d[ix] * rho));
            && 0 <= M + mu * P(ix) < P(ix + 1)
            && X + V(n, nu) * (M + mu * P(ix)) == t' * P(ix + 1)
            && V(d, used) + mu * P(ix) * V(n, nu) == t' * P(ix + 1)
  {
    hide P, V, Companion, Word, Low;
    var x: nat, r: nat := d[ix], rho;
    ProductExact(x, r);
    DigitsAbove(d, ix, used, t);
    HEnds(n, nu);
    HStep(n, 0, nu);
    var mu := Low(x * r);
    t' := ClearDigit(d[ix], H(d, ix + 1, used), n[0], H(n, 1, nu), rho, mu);
    Advance(X, V(n, nu), M, t, mu, t', ix);
    SameTotal(X, V(n, nu), M, mu, P(ix), V(d, used));
  }

  lemma SameTotal(x: int, n: int, m: int, mu: int, p: int, v: int)
    requires v == x + n * m
    ensures v + mu * p * n == x + n * (m + mu * p)
  {}

  /** The running total never leaves the digits reserved for it. */
  lemma TotalFits(x: nat, n: seq<MpDigit>, nu: nat, m: nat, k: nat)
    requires nu <= |n| && x < V(n, nu) * P(nu) && m < P(k) && k <= nu
    ensures x + V(n, nu) * m < P(2 * nu + 1)
  {
    hide P, V;
    Room(n, nu);
    PMonotone(k, nu);
    MulMonotone(m, P(nu), V(n, nu));
  }

  /** The row form of mp_montgomery_reduce. */
  method ReduceRows(x: MpInt, n: MpInt, rho: MpDigit)
    requires x != n && x.Wf() && n.Valid() && n.used > 0 && Companion(n.dp[0], rho)
    requires Exposed(x.dp, 2 * n.used + 1) < n.Mag() * P(n.used)
    modifies x
    ensures x.Valid() && n.Mag() > 0
    ensures Reduced(x.Mag(), old(Exposed(x.dp, 2 * n.used + 1)), n.Mag(), n.used)
    ensures x.neg == (old(x.neg) && x.Mag() != 0)
    ensures old(x.Zeroed()) && old(x.used) <= 2 * n.used + 1 ==> x.Zeroed()
  {
    hide P, V, Companion, Word, Low, Reduced, Quot;
    var nu, digs := n.used, 2 * n.used + 1;
    ghost var N := n.Mag();
    Grow(x, digs);
    ghost var X := ExposedGrown(old(x.dp), x.dp, digs);
    x.used := digs;
    PNext(0);
    ghost var M: nat, t: nat := 0, X;
    assert N * M == 0;
    var ix := 0;
    while ix < nu
      invariant 0 <= ix <= nu && x.Wf() && x.used == digs && x.neg == old(x.neg)
      invariant x.Mag() == t * P(ix) == X + N * M && M < P(ix)
      invariant old(x.Zeroed()) && old(x.used) <= digs ==> x.Zeroed()
      modifies x`dp
    {
      var mu: MpDigit := Low(Word(x.dp[ix] * rho));
      ghost var t' := Round(x.dp, digs, n.dp, nu, rho, ix, X, M, t);
      TotalFits(X, n.dp, nu, M + mu * P(ix), ix + 1);
      AddRow(x, mu, n, ix);
      M, t := M + mu * P(ix), t';
      ix := ix + 1;
    }
    Clamp(x);
    ModIs(x.Mag(), P(nu), t, 0);
    MulMonotone(if t > 0 then 1 else 0, t, P(nu));
    Rshd(x, nu);
    SubtractOnce(x, n, X, M);
  }

  lemma ExposedGrown(d: seq<MpDigit>, e: seq<MpDigit>, k: nat) returns (x: nat)
    requires d <= e && k <= |e| && forall i | |d| <= i < |e| :: e[i] == 0
    ensures x == V(e, k) == Exposed(d, k)
  {
    x := V(e, k);
    var m := if |d| < k then |d| else k;
    VZeros(e, m, k);
    VSame(d, e, m);
  }

  // ----- by columns

  /** The largest total of m products. */
  ghost function Cap(m: nat): nat {
    m * MaxProduct()
  }

  lemma CellFits(c: nat, m: nat, x: nat)
    requires c < CarryBound() && m <= COLUMNS && x <= c + Cap(m)
    ensures Word(x) == x && High(x) < CarryBound()
  {
    hide MaxProduct, CarryBound, Word, High;
    ColumnFits(c, m, x);
  }

  lemma CapNext(x: MpDigit, y: MpDigit, m: nat)
    ensures 0 <= x * y && x * y + Cap(m) <= Cap(m + 1)
    ensures Cap(m) <= Cap(m + 1)
  {
    ProductStep(x, y, m);
  }

  lemma CapDigit(x: MpDigit)
    ensures x <= Cap(1)
  {
    MulMonotone(1, B - 1, B - 1);
  }

  /** Cells from ix on hold at most m products each, and the first `done` of them one more;
      cell ix also holds a carry c. */
  ghost predicate Cells(w: seq<nat>, ix: nat, done: nat, top: nat, c: nat, m: nat)
    requires top <= |w|
  {
    forall k | ix <= k < top ::
      w[k] <= (if k == ix then c else 0) + (if k < ix + done then Cap(m + 1) else Cap(m))
  }

  lemma HSet(w: seq<nat>, ix: nat, k: nat, x: nat, top: nat)
    requires ix <= k < top <= |w|
    ensures H(w[k := x], ix, top) == H(w, ix, top) + (x - w[k]) * P(k - ix)
  {
    hide P, V;
    assert w[k := x][ix..] == w[ix..][k - ix := x];
    VSet(w[ix..], k - ix, x, top - ix);
  }

  /** Cell ix + iy receives one product. */
  lemma CellStep(w: seq<nat>, ix: nat, iy: nat, top: nat, c: nat, m: nat, mu: MpDigit, n: seq<MpDigit>)
    requires ix + iy < top <= |w| && iy < |n| && Cells(w, ix, iy, top, c, m)
    requires c < CarryBound() && m < COLUMNS
    ensures var x := w[ix + iy] + mu * n[iy];
            && Word(x) == x
            && Cells(w[ix + iy := x], ix, iy + 1, top, c, m)
            && H(w[ix + iy := x], ix, top) + mu * V(n, iy) == H(w, ix, top) + mu * V(n, iy + 1)
  {
    hide P, V, H, Cap, CarryBound, Word, High;
    var u: nat, y: nat := mu, n[iy];
    CapNext(u, y, m);
    var x: nat := w[ix + iy] + u * y;
    CellFits(if iy == 0 then c else 0, m + 1, x);
    HSet(w, ix, ix + iy, x, top);
    VNext(n, iy);
    CellAlgebra(u, y, P(iy), V(n, iy));
  }

  lemma VNext(d: seq<nat>, i: nat)
    requires i < |d|
    ensures V(d, i + 1) == V(d, i) + d[i] * P(i)
  {}

  lemma CellAlgebra(u: int, y: int, p: int, v: int)
    ensures (u * y) * p + u * v == u * (v + y * p)
  {}

  /** The inner loop: add mu * n at column ix without resolving carries. */
  method AddColumns(W: array<nat>, mu: MpDigit, n: MpInt, ix: nat, ghost c: nat)
    requires n.Wf() && ix < n.used && 2 * n.used + 1 <= W.Length && ix + 1 < COLUMNS
    requires c < CarryBound() && Cells(W[..], ix, 0, 2 * n.used + 1, c, ix + 1)
    modifies W
    ensures Cells(W[..], ix, n.used, 2 * n.used + 1, c, ix + 1)
    ensures H(W[..], ix, 2 * n.used + 1) == old(H(W[..], ix, 2 * n.used + 1)) + mu * n.Mag()
  {
    hide P, V, H, Cells, CarryBound, Word;
    VEmpty(n.dp);
    assert mu * 0 == 0;
    var iy := 0;
    while iy < n.used
      invariant 0 <= iy <= n.used
      invariant Cells(W[..], ix, iy, 2 * n.used + 1, c, ix + 1)
      invariant H(W[..], ix, 2 * n.used + 1) == old(H(W[..], ix, 2 * n.used + 1)) + mu * V(n.dp, iy)
    {
      ghost var w := W[..];
      CellStep(w, ix, iy, 2 * n.used + 1, c, ix + 1, mu, n.dp);
      var y: nat := W[ix + iy] + mu * n.dp[iy];
      W[ix + iy] := Word(y);
      assert W[..] == w[ix + iy := y];
      iy := iy + 1;
    }
  }

  /** After a round the low digit of cell ix is zero and its carry moves up. */
  lemma ColumnRound(w: seq<nat>, ix: nat, top: nat, c: nat, m: nat, done: nat, t': nat)
    requires ix + 1 < top <= |w| && Cells(w, ix, done, top, c, m) && c < CarryBound() && m < COLUMNS && done > 0
    requires H(w, ix, top) == B * t'
    ensures High(w[ix]) < CarryBound()
    ensures var x := w[ix + 1] + High(w[ix]);
            && Word(x) == x
            && Cells(w[ix + 1 := x], ix + 1, 0, top, High(w[ix]), m + 1)
            && H(w[ix + 1 := x], ix + 1, top) == t'
  {
    hide P, V, H, Word, High, CarryBound, Cap;
    CapNext(0, 0, m);
    CellFits(c, m + 1, w[ix]);
    var h := High(w[ix]);
    var x := w[ix + 1] + h;
    CellFits(h, m + 1, x);
    HStep(w, ix, top);
    LowHigh(w[ix]);
    WholeCarry(Low(w[ix]), h, H(w, ix + 1, top), t');
    HSet(w, ix + 1, ix + 1, x, top);
    PNext(0);
  }

  lemma WholeCarry(lo: MpDigit, h: nat, rest: nat, t': nat)
    requires lo + h * B + B * rest == B * t'
    ensures h + rest == t'
  {
    DivModUnique(B * t', B, t', 0);
    DivModUnique(B * t', B, h + rest, lo);
  }

  /** The digit to add, from the low part of cell ix. */
  lemma ColumnDigit(w: seq<nat>, ix: nat, top: nat, n: seq<MpDigit>, nu: nat, rho: MpDigit) returns (t': nat)
    requires ix < top <= |w| && 0 < nu <= |n| && Companion(n[0], rho)
    ensures H(w, ix, top) + Low(Word(Low(w[ix]) * rho)) * V(n, nu) == B * t'
  {
    hide P, V, H, Companion, Word, Low, High;
    var lo: nat, r: nat := Low(w[ix]), rho;
    ProductExact(lo, r);
    LowHigh(w[ix]);
    HStep(w, ix, top);
    HEnds(n, nu);
    HStep(n, 0, nu);
    t' := ClearDigit(Low(w[ix]), High(w[ix]) + H(w, ix + 1, top), n[0], H(n, 1, nu), rho, Low(lo * r));
  }

  /** The outer loop: clear the low n.used columns. */
  method ClearColumns(W: array<nat>, n: MpInt, rho: MpDigit, ghost X: nat) returns (ghost M: nat, ghost c: nat)
    requires n.Wf() && n.used > 0 && Companion(n.dp[0], rho)
    requires 2 * n.used + 1 <= W.Length && n.used < COLUMNS
    requires Cells(W[..], 0, 0, 2 * n.used + 1, 0, 1) && V(W[..], 2 * n.used + 1) == X
    modifies W
    ensures c < CarryBound() && Cells(W[..], n.used, 0, 2 * n.used + 1, c, n.used + 1)
    ensures M < P(n.used)
    ensures X + n.Mag() * M == H(W[..], n.used, 2 * n.used + 1) * P(n.used)
  {
    hide P, V, H, Cells, CarryBound, Word, Low, High, Companion;
    var top := 2 * n.used + 1;
    ghost var N := n.Mag();
    HEnds(W[..], top);
    PNext(0);
    CarryPositive();
    M, c := 0, 0;
    assert N * M == 0;
    var ix := 0;
    while ix < n.used
      invariant 0 <= ix <= n.used && c < CarryBound() && M < P(ix)
      invariant Cells(W[..], ix, 0, top, c, ix + 1)
      invariant X + N * M == H(W[..], ix, top) * P(ix)
    {
      ghost var t' := ColumnDigit(W[..], ix, top, n.dp, n.used, rho);
      var mu: MpDigit := Low(Word(Low(W[ix]) * rho));
      Advance(X, N, M, H(W[..], ix, top), mu, t', ix);
      AddColumns(W, mu, n, ix, c);
      ghost var w := W[..];
      ColumnRound(w, ix, top, c, ix + 1, n.used, t');
      var y: nat := W[ix + 1] + High(W[ix]);
      c := High(W[ix]);
      W[ix + 1] := Word(y);
      assert W[..] == w[ix + 1 := y];
      M := M + mu * P(ix);
      ix := ix + 1;
    }
  }

  /** The digits of cells from..to, once their carries are resolved. */
  ghost function Lows(w: seq<nat>, from: nat, to: nat): (r: seq<MpDigit>)
    requires from <= to <= |w|
    ensures |r| == to - from
  {
    seq<MpDigit>(to - from, i requires 0 <= i < to - from => Low(w[from + i]))
  }

  /** Cell ix passes its carry to the cell above. */
  lemma CarryCell(w: seq<nat>, from: nat, ix: nat, top: nat, c: nat, m: nat, t: nat)
    requires from <= ix && ix + 1 < top <= |w| && c < CarryBound() && m <= COLUMNS && Cells(w, ix, 0, top, c, m)
    requires V(Lows(w, from, ix), ix - from) + H(w, ix, top) * P(ix - from) == t
    ensures High(w[ix]) < CarryBound()
    ensures var x := w[ix + 1] + High(w[ix]);
            && Word(x) == x
            && Cells(w[ix + 1 := x], ix + 1, 0, top, High(w[ix]), m)
            && V(Lows(w[ix + 1 := x], from, ix + 1), ix + 1 - from)
                + H(w[ix + 1 := x], ix + 1, top) * P(ix + 1 - from) == t
  {
    hide P, V, H, Word, High, CarryBound, Cap, Low;
    CellFits(c, m, w[ix]);
    var h := High(w[ix]);
    var x := w[ix + 1] + h;
    CellFits(h, m, x);
    HStep(w, ix, top);
    LowHigh(w[ix]);
    HSet(w, ix + 1, ix + 1, x, top);
    PNext(0);
    var L, L' := Lows(w, from, ix), Lows(w[ix + 1 := x], from, ix + 1);
    VSame(L, L', ix - from);
    VNext(L', ix - from);
    PNext(ix - from);
    CarryAlgebra(Low(w[ix]), h, H(w, ix + 1, top), P(ix - from), B);
  }

  lemma CarryAlgebra(lo: int, h: int, rest: int, p: int, b: int)
    ensures (lo + h * b + b * rest) * p == lo * p + (rest + h) * (b * p)
  {
    MulDistribute(lo, b * (h + rest), p);
    MulSwap(b, h + rest, p);
  }

  /** The second carry loop.  Its last step adds to a cell that was never assigned. */
  method ResolveCarries(W: array<nat>, nu: nat, ghost c: nat, ghost t: nat)
    requires 0 < nu < COLUMNS && 2 * nu + 1 < W.Length
    requires c < CarryBound() && Cells(W[..], nu, 0, 2 * nu + 1, c, nu + 1)
    requires t == H(W[..], nu, 2 * nu + 1) && t < P(nu + 1)
    modifies W
    ensures V(Lows(W[..], nu, 2 * nu + 1), nu + 1) == t
  {
    hide P, V, H, Cells, CarryBound, Word, Low, High, Lows;
    var top := 2 * nu + 1;
    ghost var carry: nat := c;
    LowsEmpty(W[..], nu);
    var ix := nu + 1;
    while ix < top
      invariant nu + 1 <= ix <= top && carry < CarryBound()
      invariant Cells(W[..], ix - 1, 0, top, carry, nu + 1)
      invariant V(Lows(W[..], nu, ix - 1), ix - 1 - nu) + H(W[..], ix - 1, top) * P(ix - 1 - nu) == t
    {
      ghost var w := W[..];
      CarryCell(w, nu, ix - 1, top, carry, nu + 1, t);
      var y: nat := W[ix] + High(W[ix - 1]);
      carry := High(W[ix - 1]);
      W[ix] := Word(y);
      assert W[..] == w[ix := y];
      ix := ix + 1;
    }
    ghost var w := W[..];
    LastCarry(w, nu, t);
    W[ix] := Word(W[ix] + High(W[ix - 1]));
    LowsSame(w, W[..], nu, top);
  }

  lemma LowsSame(w: seq<nat>, w': seq<nat>, from: nat, to: nat)
    requires from <= to <= |w| && to <= |w'| && forall k | from <= k < to :: w[k] == w'[k]
    ensures Lows(w, from, to) == Lows(w', from, to)
  {}

  lemma LowsEmpty(w: seq<nat>, from: nat)
    requires from <= |w|
    ensures V(Lows(w, from, from), 0) == 0 && P(0) == 1
  {}

  /** There is no carry out of the last column. */
  lemma LastCarry(w: seq<nat>, nu: nat, t: nat)
    requires 2 * nu + 1 <= |w| && t < P(nu + 1)
    requires V(Lows(w, nu, 2 * nu), nu) + H(w, 2 * nu, 2 * nu + 1) * P(nu) == t
    ensures V(Lows(w, nu, 2 * nu + 1), nu + 1) == t
  {
    hide P, V, H, Low, High;
    var top := 2 * nu + 1;
    HStep(w, 2 * nu, top);
    HEnds(w, top);
    LowHigh(w[2 * nu]);
    var L, L' := Lows(w, nu, 2 * nu), Lows(w, nu, top);
    VSame(L, L', nu);
    VNext(L', nu);
    PNext(nu);
    CarryAlgebra(Low(w[2 * nu]), High(w[2 * nu]), 0, P(nu), B);
    if High(w[2 * nu]) > 0 {
      MulMonotone(1, High(w[2 * nu]), P(nu + 1));
    }
  }

  /** Copy the digits of x into the low cells and clear the others that take part. */
  method Load(x: MpInt, top: nat) returns (W: array<nat>)
    requires x.Wf() && x.used <= top < MP_WARRAY
    ensures fresh(W) && W.Length == MP_WARRAY
    ensures V(W[..], top) == x.Mag() && Cells(W[..], 0, 0, top, 0, 1)
  {
    hide P, V, Cap;
    W := new nat[MP_WARRAY];
    var ix := 0;
    while ix < x.used
      invariant 0 <= ix <= x.used && forall k | 0 <= k < ix :: W[k] == x.dp[k]
    {
      W[ix] := x.dp[ix];
      ix := ix + 1;
    }
    while ix < top
      invariant x.used <= ix <= top && forall k | 0 <= k < ix :: W[k] == if k < x.used then x.dp[k] else 0
    {
      W[ix] := 0;
      ix := ix + 1;
    }
    VSame(W[..], x.dp, x.used);
    VZeros(W[..], x.used, top);
    forall k | 0 <= k < top ensures W[k] <= Cap(1) {
      CapDigit(W[k]);
    }
  }

  /** Copy the resolved digits back and clear what the old value held above them. */
  method Store(x: MpInt, W: array<nat>, nu: nat, ghost t: nat)
    requires x.Wf() && nu + 1 <= |x.dp| && 2 * nu + 1 <= W.Length
    requires V(Lows(W[..], nu, 2 * nu + 1), nu + 1) == t
    modifies x
    ensures x.Valid() && x.Mag() == t && x.neg == (old(x.neg) && t != 0)
    ensures |x.dp| == old(|x.dp|)
    ensures old(x.Zeroed()) ==> x.Zeroed()
  {
    hide P, V, Low;
    var olduse := x.used;
    ghost var L := Lows(W[..], nu, 2 * nu + 1);
    var ix := 0;
    while ix < nu + 1
      invariant 0 <= ix <= nu + 1 && |x.dp| == old(|x.dp|) && x.used == olduse && x.neg == old(x.neg)
      invariant forall k | 0 <= k < ix :: x.dp[k] == L[k]
      invariant forall k | ix <= k < |x.dp| :: x.dp[k] == old(x.dp)[k]
    {
      x.dp := x.dp[ix := Low(W[nu + ix])];
      ix := ix + 1;
    }
    VSame(x.dp, L, nu + 1);
    x.used := nu + 1;
    Finish(x, olduse);
  }

  /** A number below the modulus times P(nu) has at most 2 nu digits. */
  lemma DigitCount(x: seq<nat>, xu: nat, n: seq<MpDigit>, nu: nat)
    requires xu <= |x| && nu <= |n| && (xu > 0 ==> x[xu - 1] > 0) && V(x, xu) < V(n, nu) * P(nu)
    ensures xu <= 2 * nu
  {
    if xu > 0 {
      VTop(x, xu);
      VBound(n, nu);
      PAdd(nu, nu);
      assert nu + nu == 2 * nu;
      hide P, V;
      MulMonotone(V(n, nu), P(nu), P(nu));
      WeightOrder(xu - 1, 2 * nu);
    }
  }

  /** fast_mp_montgomery_reduce */
  method ReduceFast(x: MpInt, n: MpInt, rho: MpDigit)
    requires x != n && x.Valid() && n.Valid() && n.used > 0 && Companion(n.dp[0], rho)
    requires 2 * n.used + 1 < MP_WARRAY && n.used < COLUMNS
    requires x.Mag() < n.Mag() * P(n.used)
    modifies x
    ensures x.Valid() && n.Mag() > 0
    ensures Reduced(x.Mag(), old(x.Mag()), n.Mag(), n.used)
    ensures x.neg == (old(x.neg) && x.Mag() != 0)
    ensures old(x.Zeroed()) ==> x.Zeroed()
  {
    hide P, V, H, Companion, Reduced, Cells, Lows, CarryBound;
    var nu := n.used;
    ghost var X := x.Mag();
    DigitCount(x.dp, x.used, n.dp, nu);
    Grow(x, nu + 1);
    VSame(x.dp, old(x.dp), x.used);
    var W := Load(x, 2 * nu + 1);
    ghost var M, c := ClearColumns(W, n, rho, X);
    ghost var t := H(W[..], nu, 2 * nu + 1);
    QuotientSmall(X, n.Mag(), M, t, P(nu));
    Room(n.dp, nu);
    ResolveCarries(W, nu, c, t);
    Store(x, W, nu, t);
    SubtractOnce(x, n, X, M);
  }

  /** With zeros above the digits in use, the row form reads the number itself. */
  lemma ExposedIsMag(x: MpInt, k: nat)
    requires x.Wf() && x.Zeroed() && x.used <= k
    ensures Exposed(x.dp, k) == x.Mag()
  {
    VZeros(x.dp, x.used, if |x.dp| < k then |x.dp| else k);
  }

  /** The result is right exactly when what was read is congruent to the number. */
  lemma ReadRight(r: nat, e: nat, x: nat, n: nat, k: nat)
    requires n > 0 && Reduced(r, e, n, k)
    ensures Reduced(r, x, n, k) <==> Mod(e, n) == Mod(x, n)
  {}

  /** mp_montgomery_reduce: x := x / P(n.used) mod n.  The row form also takes in unused digits: it returns
      that exactly when they do not change the number modulo n, in particular when they are zero. */
  method Reduce(x: MpInt, n: MpInt, rho: MpDigit)
    requires x != n && x.Valid() && n.Valid() && n.used > 0 && Companion(n.dp[0], rho)
    requires x.Mag() < n.Mag() * P(n.used)
    requires n.used >= COLUMNS && !x.Zeroed() ==> Exposed(x.dp, 2 * n.used + 1) < n.Mag() * P(n.used)
    modifies x
    ensures x.Valid() && n.Mag() > 0
    ensures n.used < COLUMNS || old(x.Zeroed()) ==> Reduced(x.Mag(), old(x.Mag()), n.Mag(), n.used)
    ensures n.used >= COLUMNS ==>
              && Reduced(x.Mag(), old(Exposed(x.dp, 2 * n.used + 1)), n.Mag(), n.used)
              && (Reduced(x.Mag(), old(x.Mag()), n.Mag(), n.used)
                  <==> Mod(old(Exposed(x.dp, 2 * n.used + 1)), n.Mag()) == Mod(old(x.Mag()), n.Mag()))
    ensures x.neg == (old(x.neg) && x.Mag() != 0)
    ensures old(x.Zeroed()) ==> x.Zeroed()
  {
    hide P, V, Companion, Reduced, Exposed, Mod;
    var digs := n.used * 2 + 1;
    if digs < MP_WARRAY && n.used < COLUMNS {
      ReduceFast(x, n, rho);
    } else {
      DigitCount(x.dp, x.used, n.dp, n.used);
      if x.Zeroed() {
        ExposedIsMag(x, digs);
      }
      ghost var e, v := Exposed(x.dp, digs), x.Mag();
      ReduceRows(x, n, rho);
      ReadRight(x.Mag(), e, v, n.Mag(), n.used);
    }
  }
}

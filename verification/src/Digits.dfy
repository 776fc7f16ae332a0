/** Numbers written as little-endian sequences of digits.  Entries need not be below the radix, so the
    same evaluation also reads a row of column accumulators whose carries are still pending. */
module Digits {
  import opened Radix

  /** The weight of position i. */
  ghost function P(i: nat): (r: nat)
    ensures r > 0
  {
    PowPositive(B, i);
    Pow(B, i)
  }

  lemma PNext(i: nat)
    ensures P(i + 1) == B * P(i)
    ensures P(0) == 1
  {}

  lemma PAdd(i: nat, j: nat)
    ensures P(i + j) == P(i) * P(j)
  {
    PowAdd(B, i, j);
  }

  lemma PMonotone(i: nat, j: nat)
    requires i <= j
    ensures P(i) <= P(j)
  {
    PowMonotone(B, i, j);
  }

  lemma WeightOrder(i: nat, j: nat)
    requires P(i) < P(j)
    ensures i < j
  {
    if j <= i {
      PMonotone(j, i);
    }
  }

  /** The number denoted by the first n entries of d. */
  ghost function V(d: seq<nat>, n: nat): nat
    requires n <= |d|
  {
    if n == 0 then 0 else V(d, n - 1) + d[n - 1] * P(n - 1)
  }

  lemma {:induction false} VSame(d: seq<nat>, e: seq<nat>, n: nat)
    requires n <= |d| && n <= |e|
    requires forall i | 0 <= i < n :: d[i] == e[i]
    ensures V(d, n) == V(e, n)
  {
    if n > 0 {
      VSame(d, e, n - 1);
    }
  }

  /** Digits from i on contribute the same amount wherever they stand. */
  lemma {:induction false} VTail(d: seq<nat>, e: seq<nat>, i: nat, n: nat)
    requires i <= n <= |d| && n <= |e|
    requires forall k | i <= k < n :: d[k] == e[k]
    ensures V(d, n) - V(d, i) == V(e, n) - V(e, i)
  {
    if i < n {
      VTail(d, e, i, n - 1);
    }
  }

  lemma VEmpty(d: seq<nat>)
    ensures V(d, 0) == 0
  {}

  lemma VUpdate(d: seq<nat>, i: nat, x: nat)
    requires i < |d|
    ensures V(d[i := x], i) == V(d, i)
    ensures V(d[i := x], i + 1) == V(d, i) + x * P(i)
  {
    VSame(d[i := x], d, i);
  }

  lemma {:induction false} VSet(d: seq<nat>, k: nat, x: nat, n: nat)
    requires k < n <= |d|
    ensures V(d[k := x], n) == V(d, n) + (x - d[k]) * P(k)
  {
    if n == k + 1 {
      VUpdate(d, k, x);
      MulDistribute(x, d[k], P(k));
    } else {
      VSet(d, k, x, n - 1);
    }
  }

  lemma BoundStep(x: nat, v: nat, p: nat)
    requires x < B && v < p
    ensures v + x * p < B * p
  {
    MulMonotone(x + 1, B, p);
  }

  lemma {:induction false} VBound(d: seq<MpDigit>, n: nat)
    requires n <= |d|
    ensures V(d, n) < P(n)
  {
    if n > 0 {
      VBound(d, n - 1);
      PNext(n - 1);
      BoundStep(d[n - 1], V(d, n - 1), P(n - 1));
    }
  }

  lemma {:induction false} VMonotone(d: seq<nat>, i: nat, n: nat)
    requires i <= n <= |d|
    ensures V(d, i) <= V(d, n)
  {
    if i < n {
      VMonotone(d, i, n - 1);
    }
  }

  /** A run of zero entries adds nothing. */
  lemma {:induction false} VZeros(d: seq<nat>, i: nat, n: nat)
    requires i <= n <= |d|
    requires forall k | i <= k < n :: d[k] == 0
    ensures V(d, n) == V(d, i)
  {
    if i < n {
      VZeros(d, i, n - 1);
    }
  }

  lemma SplitStep(p: nat, q: nat, x: nat, v: nat)
    ensures p * (v + x * q) == p * v + x * (p * q)
  {}

  /** The low i digits and the digits above them. */
  lemma {:induction false} VSplit(d: seq<nat>, i: nat, n: nat)
    requires i <= n <= |d|
    ensures V(d, n) == V(d, i) + P(i) * V(d[i..], n - i)
  {
    if i < n {
      VSplit(d, i, n - 1);
      PAdd(i, n - 1 - i);
      SplitStep(P(i), P(n - 1 - i), d[n - 1], V(d[i..], n - 1 - i));
    }
  }

  /** A number with a nonzero top digit is at least as large as its top weight. */
  lemma VTop(d: seq<nat>, n: nat)
    requires 0 < n <= |d| && d[n - 1] > 0
    ensures V(d, n) >= P(n - 1)
  {
    MulMonotone(1, d[n - 1], P(n - 1));
  }

  /** More digits means a larger number, once leading zeros are excluded. */
  lemma VLonger(d: seq<MpDigit>, n: nat, e: seq<nat>, m: nat)
    requires n <= |d| && m <= |e| && n < m && e[m - 1] > 0
    ensures V(d, n) < V(e, m)
  {
    VBound(d, n);
    PMonotone(n, m - 1);
    VTop(e, m);
  }

  /** The highest differing digit decides the comparison. */
  lemma {:induction false} VCompare(d: seq<MpDigit>, e: seq<MpDigit>, i: nat, n: nat)
    requires i < n <= |d| && n <= |e|
    requires forall k | i < k < n :: d[k] == e[k]
    requires d[i] < e[i]
    ensures V(d, n) < V(e, n)
    decreases n
  {
    if i == n - 1 {
      VBound(d, i);
      MulMonotone(d[i] + 1, e[i], P(i));
      assert (d[i] + 1) * P(i) == d[i] * P(i) + P(i);
    } else {
      VCompare(d, e, i, n - 1);
    }
  }

  /** One carry step at position i: lo is the digit written and hi the carry passed on. */
  lemma Carry(lo: int, hi: int, x: int, i: nat)
    requires lo + hi * B == x
    ensures lo * P(i) + hi * P(i + 1) == x * P(i)
  {
    PNext(i);
    hide P;
    var p := P(i);
    assert (lo + hi * B) * p == lo * p + hi * (B * p);
  }

  /** The number denoted by the entries from x up to n. */
  ghost function H(d: seq<nat>, x: nat, n: nat): nat
    requires x <= n <= |d|
  {
    V(d[x..], n - x)
  }

  lemma HStep(d: seq<nat>, x: nat, n: nat)
    requires x < n <= |d|
    ensures H(d, x, n) == d[x] + B * H(d, x + 1, n)
  {
    VSplit(d[x..], 1, n - x);
    PNext(0);
    VSame(d[x..][1..], d[x + 1..], n - x - 1);
  }

  lemma HEnds(d: seq<nat>, n: nat)
    requires n <= |d|
    ensures H(d, n, n) == 0 && H(d, 0, n) == V(d, n)
  {
    VSame(d[0..], d, n);
  }

  lemma HSame(d: seq<nat>, e: seq<nat>, x: nat, n: nat)
    requires x <= n <= |d| && n <= |e|
    requires forall k | x <= k < n :: d[k] == e[k]
    ensures H(d, x, n) == H(e, x, n)
  {
    VSame(d[x..], e[x..], n - x);
  }

  /** One step of dividing from the top: t and w are quotient and remainder of the running
      remainder extended by the next digit. */
  lemma ShortDivStep(a: seq<nat>, q: seq<nat>, x: nat, n: nat, b: nat, w: nat, t: nat, w': nat)
    requires x < n <= |a| && n <= |q|
    requires H(q, x + 1, n) * b + w == H(a, x + 1, n)
    requires w * B + a[x] == t * b + w'
    ensures H(q[x := t], x, n) * b + w' == H(a, x, n)
  {
    hide H;
    HStep(a, x, n);
    HStep(q[x := t], x, n);
    HSame(q[x := t], q, x + 1, n);
    var hq, ha := H(q, x + 1, n), H(a, x + 1, n);
    ShortDivAlgebra(hq, ha, a[x], b, w, t, w');
  }

  lemma ShortDivAlgebra(hq: nat, ha: nat, d: nat, b: nat, w: nat, t: nat, w': nat)
    requires hq * b + w == ha && w * B + d == t * b + w'
    ensures (t + B * hq) * b + w' == d + B * ha
  {
    assert (t + B * hq) * b == t * b + B * (hq * b);
    assert B * (hq * b + w) == B * (hq * b) + w * B;
  }
}

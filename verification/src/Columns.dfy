/** The product of two digit sequences, cut into rows and into columns. */
module Columns {
  import opened Radix
  import opened Digits

  /** How many of b's nb digits, shifted up by i, lie below position n. */
  ghost function Reach(n: nat, i: nat, nb: nat): (m: nat)
    ensures m <= nb
  {
    if n <= i then 0 else if n - i < nb then n - i else nb
  }

  /** The part of a * b that lies in rows below na and columns below n. */
  ghost function Rows(a: seq<nat>, na: nat, b: seq<nat>, nb: nat, n: nat): nat
    requires na <= |a| && nb <= |b|
  {
    if na == 0 then 0
    else Rows(a, na - 1, b, nb, n) + a[na - 1] * P(na - 1) * V(b, Reach(n, na - 1, nb))
  }

  ghost function Term(a: seq<nat>, i: nat, b: seq<nat>, nb: nat, n: nat): nat
    requires i < |a| && nb <= |b|
  {
    if 0 <= n - i < nb then a[i] * b[n - i] else 0
  }

  /** Column n of the product, restricted to rows below na. */
  ghost function Col(a: seq<nat>, na: nat, b: seq<nat>, nb: nat, n: nat): nat
    requires na <= |a| && nb <= |b|
  {
    if na == 0 then 0 else Col(a, na - 1, b, nb, n) + Term(a, na - 1, b, nb, n)
  }

  /** One more column. */
  lemma {:induction false} RowsNext(a: seq<nat>, na: nat, b: seq<nat>, nb: nat, n: nat)
    requires na <= |a| && nb <= |b|
    ensures Rows(a, na, b, nb, n + 1) == Rows(a, na, b, nb, n) + Col(a, na, b, nb, n) * P(n)
  {
    if na > 0 {
      RowsNext(a, na - 1, b, nb, n);
      RowNext(a, na - 1, b, nb, n);
      MulDistribute(Col(a, na - 1, b, nb, n), Term(a, na - 1, b, nb, n), P(n));
    }
  }

  lemma RowNext(a: seq<nat>, i: nat, b: seq<nat>, nb: nat, n: nat)
    requires i < |a| && nb <= |b|
    ensures a[i] * P(i) * V(b, Reach(n + 1, i, nb)) == a[i] * P(i) * V(b, Reach(n, i, nb)) + Term(a, i, b, nb, n) * P(n)
  {
    hide P;
    if 0 <= n - i < nb {
      PAdd(i, n - i);
      RowAlgebra(a[i], P(i), V(b, n - i), b[n - i], P(n - i));
    }
  }

  lemma RowAlgebra(x: nat, p: nat, v: nat, y: nat, q: nat)
    ensures x * p * (v + y * q) == x * p * v + (x * y) * (p * q)
  {}

  lemma {:induction false} RowsNone(a: seq<nat>, na: nat, b: seq<nat>, nb: nat)
    requires na <= |a| && nb <= |b|
    ensures Rows(a, na, b, nb, 0) == 0
  {
    if na > 0 {
      RowsNone(a, na - 1, b, nb);
    }
  }

  /** What lies beyond column n is a multiple of its weight. */
  lemma {:induction false} RowsCut(a: seq<nat>, na: nat, b: seq<nat>, nb: nat, n: nat) returns (k: nat)
    requires na <= |a| && nb <= |b|
    ensures V(a, na) * V(b, nb) == Rows(a, na, b, nb, n) + k * P(n)
    ensures na + nb <= n ==> k == 0
  {
    if na == 0 {
      k := 0;
    } else {
      var k0 := RowsCut(a, na - 1, b, nb, n);
      var k1 := RowCut(a[na - 1], na - 1, b, nb, n);
      k := k0 + k1;
      hide P;
      MulDistribute(V(a, na - 1), a[na - 1] * P(na - 1), V(b, nb));
      MulDistribute(k0, k1, P(n));
    }
  }

  lemma RowCut(x: nat, i: nat, b: seq<nat>, nb: nat, n: nat) returns (k: nat)
    requires nb <= |b|
    ensures x * P(i) * V(b, nb) == x * P(i) * V(b, Reach(n, i, nb)) + k * P(n)
    ensures i + nb <= n ==> k == 0
  {
    hide P;
    var m := Reach(n, i, nb);
    if m == nb {
      k := 0;
    } else {
      VSplit(b, m, nb);
      var h := V(b[m..], nb - m);
      if n <= i {
        VEmpty(b);
        PAdd(n, i - n);
        PNext(0);
        k := x * P(i - n) * h;
        CutHigh(x, P(n), P(i - n), h);
      } else {
        PAdd(i, n - i);
        k := x * h;
        RowAlgebra(x, P(i), V(b, m), h, P(n - i));
      }
    }
  }

  lemma CutHigh(x: nat, p: nat, q: nat, h: nat)
    ensures x * (p * q) * (0 + 1 * h) == (x * q * h) * p
  {}

  /** Rows before the first that reaches column n, and rows after the last, contribute nothing. */
  lemma {:induction false} ColBefore(a: seq<nat>, i: nat, b: seq<nat>, nb: nat, n: nat)
    requires i <= |a| && nb <= |b| && (i == 0 || nb + i <= n + 1)
    ensures Col(a, i, b, nb, n) == 0
  {
    if i > 0 {
      ColBefore(a, i - 1, b, nb, n);
    }
  }

  lemma {:induction false} ColAfter(a: seq<nat>, i: nat, na: nat, b: seq<nat>, nb: nat, n: nat)
    requires i <= na <= |a| && nb <= |b| && (n < i || nb == 0 || i == na)
    ensures Col(a, na, b, nb, n) == Col(a, i, b, nb, n)
  {
    if i < na {
      ColAfter(a, i, na - 1, b, nb, n);
    }
  }

  lemma ColEmpty(a: seq<nat>, na: nat, b: seq<nat>, nb: nat, n: nat)
    requires na <= |a| && nb <= |b| && (na == 0 || nb == 0 || na + nb <= n + 1)
    ensures Col(a, na, b, nb, n) == 0
  {
    if na + nb <= n + 1 {
      ColBefore(a, na, b, nb, n);
    } else if na > 0 {
      ColAfter(a, 0, na, b, nb, n);
    }
  }
}

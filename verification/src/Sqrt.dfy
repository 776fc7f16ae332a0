/** Integer square root by Newton's iteration. */
module MpSqrt {
  import opened Radix
  import opened Digits
  import opened MpCore
  import opened MpAdd
  import opened MpShift
  import opened MpDivide

  ghost predicate IsRoot(r: nat, n: nat) {
    r * r <= n < (r + 1) * (r + 1)
  }

  lemma RootExists(n: nat) returns (r: nat)
    ensures IsRoot(r, n)
  {
    r := 0;
    while (r + 1) * (r + 1) <= n
      invariant r * r <= n
      decreases n - r
    {
      Grows(r + 1);
      r := r + 1;
    }
  }

  lemma Grows(r: nat)
    ensures r <= r * r
  {
    if r > 0 {
      MulMonotone(1, r, r);
    }
  }

  lemma SquareMonotone(x: nat, y: nat)
    requires x <= y
    ensures x * x <= y * y
  {
    MulMonotone(x, y, x);
    MulMonotone(x, y, y);
  }

  /** The root is the only one. */
  lemma RootUnique(r: nat, s: nat, n: nat)
    requires IsRoot(r, n) && IsRoot(s, n)
    ensures r == s
  {
    if r < s {
      SquareMonotone(r + 1, s);
    } else if s < r {
      SquareMonotone(s + 1, r);
    }
  }

  /** A product of two numbers is largest when they are equal. */
  lemma EvenSplit(t: int, c: int)
    ensures t * (2 * c - t) == c * c - (c - t) * (c - t)
    ensures (c - t) * (c - t) >= 0
  {
    assert (c - t) * (c - t) == c * c - 2 * (c * t) + t * t;
    assert t * (2 * c - t) == 2 * (c * t) - t * t;
    if c - t >= 0 {
      MulMonotone(0, c - t, c - t);
    } else {
      MulMonotone(0, t - c, t - c);
      assert (t - c) * (t - c) == (c - t) * (c - t);
    }
  }

  lemma OnlyZero(x: int)
    requires x * x == 0
    ensures x == 0
  {
    if x > 0 {
      MulMonotone(1, x, x);
    } else if x < 0 {
      MulMonotone(1, -x, -x);
    }
  }

  /** Averaging t and n / t never falls below the root, and lands on it with n just below the next
      square only from the number above the root. */
  lemma Average(n: nat, t: nat, q: nat, r: nat)
    requires t > 0 && q == n / t && IsRoot(r, n)
    ensures (t + q) / 2 >= r
    ensures (t + q) / 2 == r && n == r * r + 2 * r ==> t == r + 1 && q == r
  {
    var s := (t + q) / 2;
    QuotientAbove(n, t, q);
    AverageSquare(n, t, q, s);
    SquareNext(r);
    if s < r {
      SquareMonotone(s + 1, r);
    }
  }

  lemma QuotientAbove(n: nat, t: nat, q: nat)
    requires t > 0 && q == n / t
    ensures n < t * (q + 1)
  {
    assert n == t * q + n % t;
    MulDistribute(q, 1, t);
  }

  lemma AverageSquare(n: int, t: int, q: int, s: int)
    requires t > 0 && n < t * (q + 1) && 2 * s <= t + q <= 2 * s + 1
    ensures n < (s + 1) * (s + 1)
    ensures n == (s + 1) * (s + 1) - 1 ==> t == s + 1 && q == s
  {
    EvenSplit(t, s + 1);
    MulMonotone(q + 1, 2 * (s + 1) - t, t);
    if n == (s + 1) * (s + 1) - 1 {
      OnlyZero(s + 1 - t);
      if q < s {
        MulMonotone(q + 1, s, t);
        MulDistribute(s, 1, t);
      }
    }
  }

  /** The iterate is not below the root, and not the root itself when n is just below the next square. */
  ghost predicate Good(t: nat, n: nat, r: nat) {
    t >= r && t > 0 && (t == r ==> n < r * r + 2 * r)
  }

  /** The first average is good: the starting point is n with the lower half of its digits dropped. */
  lemma FirstGood(n: nat, p: nat, t: nat, q: nat, r: nat)
    requires p > 0 && n > 0 && t == n / p > 0 && q == n / t && IsRoot(r, n)
    ensures Good((t + q) / 2, n, r)
  {
    Average(n, t, q, r);
    SquareNext(r);
    if r == 0 {
      assert false;
    }
    if (t + q) / 2 == r && n == r * r + 2 * r {
      var s := r + 1;
      assert n == p * t + n % p;
      assert s * s == n + 1;
      MulDistribute(s, 1, p);
      if p <= r {
        SquareSplit(s, p);
      } else {
        MulMonotone(s, p, s);
      }
    }
  }

  lemma SquareNext(r: int)
    ensures (r + 1) * (r + 1) == r * r + 2 * r + 1
  {}

  lemma SquareSplit(s: int, p: int)
    requires 0 < p <= s - 1
    ensures (s + 1) * p <= s * s - 1
  {
    MulMonotone(p, s - 1, s + 1);
    assert (s - 1) * (s + 1) == s * s - 1;
  }

  /** One step from a good iterate: it stops at the root or goes on with a smaller good iterate. */
  lemma NextGood(n: nat, t: nat, q: nat, r: nat)
    requires Good(t, n, r) && q == n / t && IsRoot(r, n)
    ensures var s := (t + q) / 2;
            if s > q then Good(s, n, r) && s < t else s == r
  {
    var s := (t + q) / 2;
    Average(n, t, q, r);
    SquareNext(r);
    if s <= q {
      QuotientBelow(n, t, q, r);
    }
  }

  lemma QuotientBelow(n: nat, t: nat, q: nat, r: nat)
    requires Good(t, n, r) && q == n / t && IsRoot(r, n)
    ensures q <= r || (t == r && q <= r + 1)
  {
    assert n == t * q + n % t;
    if t > r {
      if q > r {
        MulMonotone(r + 1, t, q);
        MulMonotone(r + 1, q, r + 1);
      }
    } else if q > r + 1 {
      MulMonotone(r + 2, q, r);
      MulDistribute(r, 2, r);
    }
  }

  lemma PlainQuotient(a: nat, b: nat)
    requires b > 0
    ensures TDiv(a, b) == Quot(a, b) && Quot(a, b) == a / b
  {}

  /** t1 := (t1 + n / t1) / 2, with the quotient left in t2 */
  method Improve(arg: MpInt, t1: MpInt, t2: MpInt)
    requires arg != t1 && arg != t2 && t1 != t2 && arg.Valid() && !arg.neg
    requires t1.Valid() && !t1.neg && t1.Mag() > 0 && t2.Wf()
    modifies t1, t2
    ensures t1.Valid() && !t1.neg && t2.Valid() && !t2.neg
    ensures t2.Mag() == Quot(arg.Mag(), old(t1.Mag())) && t1.Mag() == (old(t1.Mag()) + t2.Mag()) / 2
  {
    hide V, TDiv, TMod, Quot;
    PlainQuotient(arg.Mag(), t1.Mag());
    var _ := Div(arg, t1, t2, null);
    SignOf(t2);
    Add(t1, t2, t1);
    SignOf(t1);
    Div2(t1, t1);
  }

  /** The starting point, improved once. */
  method FirstGuess(arg: MpInt, ghost r: nat) returns (t1: MpInt, t2: MpInt)
    requires arg.Valid() && !arg.neg && arg.used > 0 && IsRoot(r, arg.Mag())
    ensures fresh(t1) && fresh(t2) && t1 != t2 && t1.Valid() && !t1.neg && t2.Valid()
    ensures Good(t1.Mag(), arg.Mag(), r)
  {
    hide V, P, Quot, Good, IsRoot;
    MagZero(arg);
    ghost var n := arg.Mag();
    t1 := InitCopy(arg);
    t2 := new MpInt();
    Rshd(t1, t1.used / 2);
    MagZero(t1);
    PlainQuotient(n, P(arg.used / 2));
    PlainQuotient(n, t1.Mag());
    FirstGood(n, P(arg.used / 2), t1.Mag(), Quot(n, t1.Mag()), r);
    Improve(arg, t1, t2);
  }

  /** One turn of the loop. */
  method Step(arg: MpInt, t1: MpInt, t2: MpInt, ghost r: nat) returns (again: bool)
    requires arg != t1 && arg != t2 && t1 != t2 && arg.Valid() && !arg.neg && t1.Valid() && !t1.neg && t2.Wf()
    requires Good(t1.Mag(), arg.Mag(), r) && IsRoot(r, arg.Mag())
    modifies t1, t2
    ensures t1.Valid() && !t1.neg && t2.Valid()
    ensures if again then Good(t1.Mag(), arg.Mag(), r) && t1.Mag() < old(t1.Mag()) else t1.Mag() == r
  {
    hide V, Quot, IsRoot;
    PlainQuotient(arg.Mag(), t1.Mag());
    NextGood(arg.Mag(), t1.Mag(), Quot(arg.Mag(), t1.Mag()), r);
    Improve(arg, t1, t2);
    var c := CmpMag(t1, t2);
    again := c == GT;
  }

  /** mp_sqrt: ret := the largest number whose square does not exceed arg */
  method Sqrt(arg: MpInt, ret: MpInt) returns (ok: bool)
    requires arg.Valid() && ret.Wf()
    modifies ret
    ensures ok <==> !old(arg.neg)
    ensures !ok ==> unchanged(ret)
    ensures ok ==> ret.Valid() && !ret.neg && IsRoot(ret.Mag(), old(arg.Mag()))
  {
    if arg.neg {
      return false;
    }
    ok := true;
    MagZero(arg);
    if arg.used == 0 {
      Zero(ret);
      return;
    }
    hide V, Good, IsRoot;
    ghost var r := RootExists(arg.Mag());
    var t1, t2 := FirstGuess(arg, r);
    var again := true;
    while again
      invariant arg.Valid() && !arg.neg && t1.Valid() && !t1.neg && t2.Valid()
      invariant if again then Good(t1.Mag(), arg.Mag(), r) else t1.Mag() == r
      modifies t1, t2
      decreases again, t1.Mag()
    {
      again := Step(arg, t1, t2, r);
    }
    Exch(t1, ret);
  }
}

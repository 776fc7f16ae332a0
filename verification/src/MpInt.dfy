/** The mp_int structure and its linear-time routines: comparison, addition, subtraction and copying.
    Arguments may be the same object, as in the library, unless a contract says otherwise. */
module MpCore {
  import opened Radix
  import opened Digits

  const MP_PREC := 32

  datatype Order = LT | EQ | GT

  function Compare(x: int, y: int): Order {
    if x < y then LT else if x == y then EQ else GT
  }

  /** A signed integer: `used` digits of `dp` give the magnitude; |dp| is the allocated length. */
  class MpInt {
    var used: nat
    var neg: bool
    var dp: seq<MpDigit>

    /** Well formed, but perhaps with leading zero digits. */
    ghost predicate Wf()
      reads this
    {
      used <= |dp| && MP_PREC <= |dp|
    }

    /** The form every public routine leaves behind: no leading zero digit and no negative zero. */
    ghost predicate Valid()
      reads this
    {
      Wf() && (used > 0 ==> dp[used - 1] > 0) && (used == 0 ==> !neg)
    }

    /** Digits at and above `used` are zero.  Most routines keep this; the comba ones do not. */
    ghost predicate Zeroed()
      reads this
    {
      forall i | used <= i < |dp| :: dp[i] == 0
    }

    ghost function Mag(): nat
      requires used <= |dp|
      reads this
    {
      V(dp, used)
    }

    ghost function Val(): int
      requires used <= |dp|
      reads this
    {
      if neg then 0 - Mag() else Mag()
    }

    constructor ()
      ensures Valid() && Zeroed() && Val() == 0 && used == 0 && |dp| == MP_PREC
    {
      used, neg := 0, false;
      dp := seq(MP_PREC, _ => 0);
    }

    /** Initialise with room for n digits. */
    constructor Sized(n: nat)
      ensures Valid() && Zeroed() && Val() == 0 && used == 0 && |dp| == Padded(n) > n
    {
      used, neg := 0, false;
      dp := seq(Padded(n), _ => 0);
    }
  }

  /** What is allocated for `size` digits: more than MP_PREC of them to spare. */
  function Padded(size: nat): (r: nat)
    ensures r > size + MP_PREC
  {
    size + MP_PREC * 2 - size % MP_PREC
  }

  /** Reallocate so that at least `size` digits fit; the new digits are zero. */
  method Grow(a: MpInt, size: nat)
    modifies a`dp
    ensures |a.dp| == if old(|a.dp|) < size then Padded(size) else old(|a.dp|)
    ensures |a.dp| >= size && |a.dp| >= old(|a.dp|)
    ensures old(a.dp) <= a.dp
    ensures forall i | old(|a.dp|) <= i < |a.dp| :: a.dp[i] == 0
  {
    if |a.dp| < size {
      a.dp := a.dp + seq(Padded(size) - |a.dp|, _ => 0);
    }
  }

  lemma MagZero(a: MpInt)
    requires a.Valid()
    ensures a.Mag() == 0 <==> a.used == 0
  {
    if a.used > 0 {
      VTop(a.dp, a.used);
    }
  }

  lemma SignOf(a: MpInt)
    requires a.Valid()
    ensures a.neg <==> a.Val() < 0
  {
    MagZero(a);
  }

  /** Drop leading zero digits and reset the sign of zero. */
  method Clamp(a: MpInt)
    requires a.Wf()
    modifies a`used, a`neg
    ensures a.Valid() && a.Mag() == old(a.Mag())
    ensures a.neg == (old(a.neg) && a.Mag() != 0)
    ensures a.used <= old(a.used)
    ensures old(a.Zeroed()) ==> a.Zeroed()
    ensures forall k | a.used <= k < old(a.used) :: a.dp[k] == 0
  {
    while a.used > 0 && a.dp[a.used - 1] == 0
      invariant a.Wf() && a.used <= old(a.used) && a.Mag() == old(a.Mag()) && a.neg == old(a.neg)
      invariant forall k | a.used <= k < old(a.used) :: a.dp[k] == 0
    {
      a.used := a.used - 1;
    }
    if a.used == 0 {
      a.neg := false;
    }
    MagZero(a);
  }

  /** Compare by number of digits first, then by the digits from the top. */
  method CmpMag(a: MpInt, b: MpInt) returns (r: Order)
    requires a.Wf() && b.Wf()
    ensures r == if a.used != b.used then Compare(a.used, b.used) else Compare(a.Mag(), b.Mag())
    ensures a.Valid() && b.Valid() ==> r == Compare(a.Mag(), b.Mag())
  {
    if a.used > b.used {
      if a.Valid() { VLonger(b.dp, b.used, a.dp, a.used); }
      return GT;
    }
    if a.used < b.used {
      if b.Valid() { VLonger(a.dp, a.used, b.dp, b.used); }
      return LT;
    }
    var n := a.used;
    while n > 0
      invariant 0 <= n <= a.used
      invariant forall k | n <= k < a.used :: a.dp[k] == b.dp[k]
    {
      n := n - 1;
      if a.dp[n] > b.dp[n] {
        VCompare(b.dp, a.dp, n, a.used);
        return GT;
      }
      if a.dp[n] < b.dp[n] {
        VCompare(a.dp, b.dp, n, a.used);
        return LT;
      }
    }
    VSame(a.dp, b.dp, a.used);
    return EQ;
  }

  method Cmp(a: MpInt, b: MpInt) returns (r: Order)
    requires a.Valid() && b.Valid()
    ensures r == Compare(a.Val(), b.Val())
  {
    MagZero(a);
    MagZero(b);
    if a.neg != b.neg {
      return if a.neg then LT else GT;
    }
    if a.neg {
      r := CmpMag(b, a);
    } else {
      r := CmpMag(a, b);
    }
  }

  method Zero(a: MpInt)
    requires |a.dp| >= MP_PREC
    modifies a
    ensures a.Valid() && a.Zeroed() && a.Val() == 0 && a.used == 0 && |a.dp| == old(|a.dp|)
  {
    a.neg := false;
    a.used := 0;
    a.dp := seq(|a.dp|, _ => 0);
  }

  method Set(a: MpInt, b: MpDigit)
    requires |a.dp| >= MP_PREC
    modifies a
    ensures a.Valid() && a.Zeroed() && a.Val() == b && |a.dp| == old(|a.dp|)
  {
    Zero(a);
    a.dp := a.dp[0 := b];
    a.used := if a.dp[0] != 0 then 1 else 0;
    PNext(0);
    assert V(a.dp, 0) == 0;
  }

  /** b := a */
  method Copy(a: MpInt, b: MpInt)
    requires a.Wf() && b.used <= |b.dp| && |b.dp| >= MP_PREC
    modifies b
    ensures b.Wf() && b.Val() == old(a.Val()) && b.neg == old(a.neg) && b.used == old(a.used)
    ensures b.dp[..b.used] == old(a.dp[..a.used])
    ensures old(b.Zeroed()) ==> b.Zeroed()
    ensures |b.dp| == if old(|b.dp|) < old(a.used) then Padded(old(a.used)) else old(|b.dp|)
    ensures |b.dp| >= old(|b.dp|)
    ensures old(a.Valid()) ==> b.Valid()
  {
    if a == b {
      return;
    }
    Grow(b, a.used);
    ghost var room := |b.dp|;
    var n := 0;
    while n < a.used
      invariant 0 <= n <= a.used <= |b.dp| == room && b.used <= |b.dp|
      invariant b.dp[..n] == a.dp[..n]
      invariant old(b.Zeroed()) ==> forall i | n <= i < |b.dp| && b.used <= i :: b.dp[i] == 0
    {
      b.dp := b.dp[n := a.dp[n]];
      n := n + 1;
    }
    while n < b.used
      invariant a.used <= n <= |b.dp| == room && b.used <= |b.dp|
      invariant b.dp[..a.used] == a.dp[..a.used]
      invariant forall i | a.used <= i < n :: b.dp[i] == 0 || b.used <= i
      invariant old(b.Zeroed()) ==> forall i | b.used <= i < |b.dp| && a.used <= i :: b.dp[i] == 0
    {
      b.dp := b.dp[n := 0];
      n := n + 1;
    }
    b.used := a.used;
    b.neg := a.neg;
    assert forall i | 0 <= i < a.used :: b.dp[i] == b.dp[..a.used][i] == a.dp[..a.used][i];
    VSame(b.dp, a.dp, a.used);
  }

  /** mp_init_copy: a fresh copy. */
  method InitCopy(a: MpInt) returns (c: MpInt)
    requires a.Wf()
    ensures fresh(c) && c.Wf() && c.Zeroed() && c.Val() == a.Val() && c.neg == a.neg && c.used == a.used
    ensures c.dp[..c.used] == a.dp[..a.used]
    ensures |c.dp| == if a.used <= MP_PREC then MP_PREC else Padded(a.used)
    ensures a.Valid() ==> c.Valid()
  {
    c := new MpInt();
    Copy(a, c);
  }

  /** mp_exch: swap two numbers. */
  method Exch(a: MpInt, b: MpInt)
    modifies a, b
    ensures a.used == old(b.used) && a.neg == old(b.neg) && a.dp == old(b.dp)
    ensures b.used == old(a.used) && b.neg == old(a.neg) && b.dp == old(a.dp)
  {
    a.used, a.neg, a.dp, b.used, b.neg, b.dp := b.used, b.neg, b.dp, a.used, a.neg, a.dp;
  }
}

/** ASPack's canonical Huffman codes.  Code values are kept left-justified in 24 bits; the codes of one
    length are assigned to their symbols in order. */
module Huffman {
  import opened Radix
  import opened Wire
  import opened BitWindow

  const FULL: nat := 0x100_0000

  /** How many of the first n symbols have code length l. */
  function Count(a: seq<Byte>, n: nat, l: nat): (c: nat)
    requires n <= |a|
    ensures c <= n
  {
    if n == 0 then 0 else Count(a, n - 1, l) + (if a[n - 1] == l then 1 else 0)
  }

  function Unit(l: nat): (u: nat)
    requires l <= 24
    ensures u > 0
  {
    PowPositive(2, 24 - l);
    Pow(2, 24 - l)
  }

  /** The space taken by all codes of length at most l; for l = 15, the Kraft sum. */
  ghost function Space(a: seq<Byte>, l: nat): nat
    requires l <= 15
  {
    if l == 0 then 0 else MulMonotone(0, Count(a, |a|, l), Unit(l)); Space(a, l - 1) + Count(a, |a|, l) * Unit(l)
  }

  ghost predicate Complete(a: seq<Byte>) {
    (forall i | 0 <= i < |a| :: a[i] <= 15) && Space(a, 15) == FULL
  }

  /** The code of symbol s: its length is a[s] and this is its value. */
  ghost function Code(a: seq<Byte>, s: nat): nat
    requires s < |a| && 0 < a[s] <= 15
  {
    Space(a, a[s] - 1) + Count(a, s, a[s]) * Unit(a[s])
  }

  /** The code of s is a prefix of the 24 bits w. */
  ghost predicate IsPrefix(a: seq<Byte>, s: nat, w: nat)
    requires s < |a|
  {
    0 < a[s] <= 15 && Code(a, s) <= w < Code(a, s) + Unit(a[s])
  }

  lemma {:induction false} SpaceMonotone(a: seq<Byte>, k: nat, l: nat)
    requires k <= l <= 15
    ensures Space(a, k) <= Space(a, l)
  {
    if k < l {
      SpaceMonotone(a, k, l - 1);
      MulMonotone(0, Count(a, |a|, l), Unit(l));
    }
  }

  lemma {:induction false} CountMonotone(a: seq<Byte>, m: nat, n: nat, l: nat)
    requires m <= n <= |a|
    ensures Count(a, m, l) <= Count(a, n, l)
  {
    if m < n {
      CountMonotone(a, m, n - 1, l);
    }
  }

  /** A code and all that start with it lie within the space of its length. */
  lemma CodeInSpace(a: seq<Byte>, s: nat)
    requires s < |a| && 0 < a[s] <= 15
    ensures Space(a, a[s] - 1) <= Code(a, s) && Code(a, s) + Unit(a[s]) <= Space(a, a[s])
  {
    var l: nat := a[s];
    hide Unit;
    CountMonotone(a, s + 1, |a|, l);
    MulMonotone(Count(a, s, l) + 1, Count(a, |a|, l), Unit(l));
    MulDistribute(Count(a, s, l), 1, Unit(l));
    MulMonotone(0, Count(a, s, l), Unit(l));
  }

  /** No code is a prefix of another: at most one code starts any 24 bits. */
  lemma PrefixUnique(a: seq<Byte>, s: nat, t: nat, w: nat)
    requires s < |a| && t < |a| && IsPrefix(a, s, w) && IsPrefix(a, t, w)
    ensures s == t
  {
    CodeInSpace(a, s);
    CodeInSpace(a, t);
    var k: nat, l: nat := a[s], a[t];
    if k < l {
      SpaceMonotone(a, k, l - 1);
    } else if l < k {
      SpaceMonotone(a, l, k - 1);
    } else {
      SameLength(a, s, t, w);
    }
  }

  lemma SameLength(a: seq<Byte>, s: nat, t: nat, w: nat)
    requires s < |a| && t < |a| && a[s] == a[t] && IsPrefix(a, s, w) && IsPrefix(a, t, w)
    ensures s == t
  {
    var l: nat := a[s];
    hide Unit, Space;
    var c, d := Count(a, s, l), Count(a, t, l);
    if c < d {
      MulMonotone(c + 1, d, Unit(l));
      MulDistribute(c, 1, Unit(l));
    } else if d < c {
      MulMonotone(d + 1, c, Unit(l));
      MulDistribute(d, 1, Unit(l));
    }
    if s < t {
      CountMonotone(a, s + 1, t, l);
    } else if t < s {
      CountMonotone(a, t + 1, s, l);
    }
  }

  /** The k-th symbol with length l. */
  lemma {:induction false} Nth(a: seq<Byte>, n: nat, l: nat, k: nat) returns (s: nat)
    requires n <= |a| && k < Count(a, n, l)
    ensures s < n && a[s] == l && Count(a, s, l) == k
  {
    if a[n - 1] == l && Count(a, n - 1, l) == k {
      s := n - 1;
    } else {
      s := Nth(a, n - 1, l, k);
    }
  }

  /** l is the length of the code that starts w. */
  ghost predicate LengthOf(a: seq<Byte>, w: nat, l: nat) {
    0 < l <= 15 && Space(a, l - 1) <= w < Space(a, l)
  }

  /** The symbol found from the length: w lies in the space of its length, as many codes in as symbols
      of that length come before it. */
  lemma SymbolAt(a: seq<Byte>, w: nat, l: nat) returns (s: nat)
    requires LengthOf(a, w, l)
    ensures s < |a| && a[s] == l && IsPrefix(a, s, w)
    ensures Count(a, s, l) == (w - Space(a, l - 1)) / Unit(l)
  {
    hide Unit;
    var d := w - Space(a, l - 1);
    var k := d / Unit(l);
    assert d == k * Unit(l) + d % Unit(l);
    if k >= Count(a, |a|, l) {
      MulMonotone(Count(a, |a|, l), k, Unit(l));
    }
    s := Nth(a, |a|, l, k);
  }

  /** Every 24 bits start with a code when the codes fill the space. */
  lemma {:induction false} LengthExists(a: seq<Byte>, w: nat, l: nat) returns (k: nat)
    requires l <= 15 && w < Space(a, l)
    ensures LengthOf(a, w, k) && k <= l
  {
    if w >= Space(a, l - 1) {
      k := l;
    } else {
      k := LengthExists(a, w, l - 1);
    }
  }

  /** In bits: the next a[s] bits are the code of s. */
  lemma PrefixBits(a: seq<Byte>, s: nat, input: seq<Byte>, c: nat)
    requires s < |a| && c + 24 <= 8 * |input| && IsPrefix(a, s, NextBits(input, c, 24))
    ensures c + a[s] <= 8 * |input| && NextBits(input, c, a[s]) == Code(a, s) / Unit(a[s])
    ensures Code(a, s) % Unit(a[s]) == 0
  {
    var l: nat := a[s];
    var q := SpaceMultiple(a, l - 1, l);
    FewerBits(input, c, l, 24 - l);
    hide Unit, Space, NextBits;
    PrefixAlgebra(q, Count(a, s, l), Unit(l), NextBits(input, c, 24));
  }

  lemma PrefixAlgebra(q: nat, n: nat, u: nat, w: nat)
    requires u > 0 && q * u + n * u <= w < q * u + n * u + u
    ensures (q * u + n * u) / u == q + n == w / u && (q * u + n * u) % u == 0
  {
    MulDistribute(q, n, u);
    DivModUnique(q * u + n * u, u, q + n, 0);
    DivModUnique(w, u, q + n, w - (q * u + n * u));
  }

  lemma {:induction false} SpaceMultiple(a: seq<Byte>, k: nat, l: nat) returns (q: nat)
    requires k <= l <= 15
    ensures Space(a, k) == q * Unit(l)
  {
    if k == 0 {
      q := 0;
    } else {
      var p := SpaceMultiple(a, k - 1, l);
      PowAdd(2, l - k, 24 - l);
      assert Unit(k) == Pow(2, l - k) * Unit(l);
      assert Space(a, k) == Space(a, k - 1) + Count(a, |a|, k) * Unit(k);
      hide Unit, Pow, Space, Count;
      var n := Count(a, |a|, k);
      MulSwap(n, Pow(2, l - k), Unit(l));
      MulDistribute(p, n * Pow(2, l - k), Unit(l));
      MulMonotone(0, n, Pow(2, l - k));
      q := p + n * Pow(2, l - k);
    }
  }

  /** Where the symbols of length l start in the table of symbols; those without a code come first. */
  ghost function Offset(a: seq<Byte>, l: nat): nat {
    if l == 0 then 0 else Offset(a, l - 1) + Count(a, |a|, l - 1)
  }

  ghost function Slot(a: seq<Byte>, s: nat): nat
    requires s < |a|
  {
    Offset(a, a[s]) + Count(a, s, a[s])
  }

  lemma {:induction false} OffsetMonotone(a: seq<Byte>, k: nat, l: nat)
    requires k <= l
    ensures Offset(a, k) <= Offset(a, l)
  {
    if k < l {
      OffsetMonotone(a, k, l - 1);
    }
  }

  lemma SlotInRange(a: seq<Byte>, s: nat)
    requires s < |a|
    ensures var l: nat := a[s]; Offset(a, l) <= Slot(a, s) < Offset(a, l + 1)
  {
    CountMonotone(a, s + 1, |a|, a[s]);
  }

  lemma SlotDistinct(a: seq<Byte>, s: nat, t: nat)
    requires s < t < |a|
    ensures Slot(a, s) != Slot(a, t)
  {
    SlotInRange(a, s);
    SlotInRange(a, t);
    var k: nat, l: nat := a[s], a[t];
    if k < l {
      OffsetMonotone(a, k + 1, l);
    } else if l < k {
      OffsetMonotone(a, l + 1, k);
    } else {
      CountMonotone(a, s + 1, t, k);
    }
  }

  /** How many symbols have a length below l. */
  ghost function Below(a: seq<Byte>, n: nat, l: nat): (c: nat)
    requires n <= |a|
    ensures c <= n
  {
    if n == 0 then 0 else Below(a, n - 1, l) + (if a[n - 1] < l then 1 else 0)
  }

  lemma {:induction false} BelowNext(a: seq<Byte>, n: nat, l: nat)
    requires n <= |a|
    ensures Below(a, n, l + 1) == Below(a, n, l) + Count(a, n, l)
    ensures Below(a, n, 0) == 0
  {
    if n > 0 {
      BelowNext(a, n - 1, l);
    }
  }

  lemma {:induction false} OffsetIsBelow(a: seq<Byte>, l: nat)
    ensures Offset(a, l) == Below(a, |a|, l) <= |a|
  {
    if l > 0 {
      OffsetIsBelow(a, l - 1);
      BelowNext(a, |a|, l - 1);
    } else {
      BelowNext(a, |a|, 0);
    }
  }
}

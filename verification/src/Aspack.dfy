/** The decoding tables of ASPack: built from code lengths, and used to decode one symbol at a time. */
module Aspack {
  import opened Radix
  import opened Wire
  import opened BitWindow
  import opened Huffman

  /** Every shift and sum of the table builder stays within 32 bits. */
  ghost predicate Exact(a: seq<Byte>) {
    |a| < 512 || Space(a, 15) == FULL
  }

  /** The sums of the table builder, which are taken in 32 bits. */
  ghost function Wrapped(a: seq<Byte>, l: nat): nat
    requires l <= 15
  {
    Space(a, l) % WORD
  }

  /** The turn of the builder's loop for length i + 1 does not give up. */
  ghost predicate Step(a: seq<Byte>, i: nat)
    requires i <= 14
  {
    Wrapped(a, i + 1) <= FULL && (i < 8 ==> Wrapped(a, i) / 0x1_0000 <= Wrapped(a, i + 1) / 0x1_0000)
  }

  /** The sets of lengths that are accepted: for them the Kraft sum is right modulo 2^32. */
  ghost predicate Accepts(a: seq<Byte>) {
    (forall i | 0 <= i < |a| :: a[i] <= 17) && (forall i | 0 <= i <= 14 :: Step(a, i)) && Wrapped(a, 15) == FULL
  }

  // The four dictionaries have 721, 28, 8 and 19 symbols.
  type TableSize = n: nat | n < WORD witness 0

  class Dict {
    const size: TableSize
    const d3: array<nat>       // decarray3: the space up to each length
    const d4: array<nat>       // decarray4: the first slot of each length
    const starts: array<nat>   // the symbol in each slot
    const ends: array<nat>     // the code length from the first eight bits, where they decide it

    ghost predicate Valid()
      reads this
    {
      && d3.Length == 24 && d4.Length == 24 && starts.Length == size && ends.Length == 0x100
      && d3 != d4 && d3 != starts && d3 != ends && d4 != starts && d4 != ends && starts != ends
    }

    constructor (n: TableSize)
      ensures Valid() && size == n && fresh(d3) && fresh(d4) && fresh(starts) && fresh(ends)
    {
      size := n;
      d3 := new nat[24];
      d4 := new nat[24];
      starts := new nat[n];
      ends := new nat[0x100];
    }

    /** The first l entries of the two numeric tables. */
    ghost predicate Lengths(a: seq<Byte>, l: nat)
      requires Valid() && l <= 15
      reads this, d3, d4
    {
      (forall k | 0 <= k <= l :: d3[k] == Space(a, k)) && (forall k | 0 <= k <= l :: d4[k] == Offset(a, k))
    }

    /** The shortcut agrees with the table of spaces. */
    ghost predicate Shortcut(a: seq<Byte>, l: nat)
      requires Valid() && l <= 8
      reads this, ends
    {
      && Space(a, l) <= FULL
      && forall x | 0 <= x < Space(a, l) / 0x1_0000 ::
           0 < ends[x] <= l && Space(a, ends[x] - 1) / 0x1_0000 <= x < Space(a, ends[x]) / 0x1_0000
    }

    ghost predicate Symbols(a: seq<Byte>, n: nat)
      requires Valid() && |a| == size && n <= |a|
      reads this, starts
    {
      forall s | 0 <= s < n && a[s] > 0 :: Slot(a, s) < size && starts[Slot(a, s)] == s
    }

    ghost predicate Tables(a: seq<Byte>)
      requires Valid() && |a| == size
      reads this, d3, d4, starts, ends
    {
      Lengths(a, 15) && Shortcut(a, 8) && Symbols(a, |a|)
    }

    /** Count the code lengths. */
    method CountLengths(a: seq<Byte>) returns (ok: bool, bus: array<nat>)
      requires |a| == size
      ensures fresh(bus) && bus.Length == 18
      ensures ok <==> forall i | 0 <= i < |a| :: a[i] <= 17
      ensures ok ==> forall l | 0 <= l < 18 :: bus[l] == Count(a, |a|, l)
    {
      bus := new nat[18](_ => 0);
      var i := 0;
      while i < size
        invariant 0 <= i <= size && forall k | 0 <= k < i :: a[k] <= 17
        invariant forall l | 0 <= l < 18 :: bus[l] == Count(a, i, l)
      {
        if a[i] > 17 {
          return false, bus;
        }
        bus[a[i]] := bus[a[i]] + 1;
        i := i + 1;
      }
      return true, bus;
    }

    /** memset of the shortcut entries that the codes of length l decide */
    method Mark(from: nat, endoff: nat, l: nat)
      requires Valid() && from <= endoff <= 0x100
      modifies ends
      ensures forall x | 0 <= x < 0x100 :: ends[x] == if from <= x < endoff then l else old(ends[x])
    {
      var x := from;
      while x < endoff
        invariant from <= x <= endoff
        invariant forall y | 0 <= y < 0x100 :: ends[y] == if from <= y < x then l else old(ends[y])
      {
        ends[x] := l;
        x := x + 1;
      }
    }

    /** One turn of the loop over code lengths: the entries for length i + 1. */
    method AddLength(a: seq<Byte>, bus: array<nat>, dict: array<nat>, i: nat, sum: nat) returns (ok: bool, sum': nat)
      requires Valid() && |a| == size && i <= 14 && bus.Length == 18 && dict.Length == 18
      requires dict != d3 && dict != d4 && dict != ends && dict != bus && bus != d3 && bus != d4 && bus != ends
      requires forall l | 0 <= l < 18 :: bus[l] == Count(a, |a|, l)
      requires d3[i] == sum == Wrapped(a, i) <= FULL && d4[i] == Offset(a, i)
      requires Exact(a) ==> Lengths(a, i) && Shortcut(a, if i < 8 then i else 8)
      modifies d3, d4, ends, dict
      ensures Exact(a) ==> (ok <==> Space(a, i + 1) <= FULL)
      ensures ok <==> Step(a, i)
      ensures ok ==> d3[i + 1] == sum' == Wrapped(a, i + 1) <= FULL && d4[i + 1] == Offset(a, i + 1)
      ensures ok && Exact(a) ==> Lengths(a, i + 1) && Shortcut(a, if i + 1 < 8 then i + 1 else 8)
      ensures forall l | 0 <= l < 18 && l != i + 1 :: dict[l] == old(dict[l])
      ensures ok ==> dict[i + 1] == Offset(a, i + 1)
    {
      hide Count, Space, Exact, NewSum, Wrapped;
      var counter := 23 - i;
      NextSpace(a, i, sum);
      NextWrapped(a, i);
      sum' := NewSum(sum, bus[i + 1], counter);
      if sum' > FULL {
        return false, sum';
      }
      assert d4[i] + bus[i] == Offset(a, i + 1);
      d3[i + 1] := sum';
      d4[i + 1] := bus[i] + d4[i];
      dict[i + 1] := bus[i] + d4[i];
      ok := true;
      if counter >= 0x10 {
        ok := ExtendShortcut(a, i);
      }
    }

    method ExtendShortcut(a: seq<Byte>, i: nat) returns (ok: bool)
      requires Valid() && i <= 7 && d3[i] == Wrapped(a, i) <= FULL && d3[i + 1] == Wrapped(a, i + 1) <= FULL
      requires Exact(a) ==> Lengths(a, i + 1) && Shortcut(a, i)
      modifies ends
      ensures Exact(a) ==> ok && Shortcut(a, i + 1)
      ensures ok <==> Step(a, i)
    {
      hide Exact, Wrapped;
      if Exact(a) {
        SpaceMonotone(a, i, i + 1);
      }
      hide Space;
      var from, endoff := d3[i] / 0x1_0000, d3[i + 1] / 0x1_0000;
      if from != endoff {
        if from > endoff {
          return false;
        }
        Mark(from, endoff, i + 1);
      }
      return true;
    }

    /** What the running slots are before symbol n is placed. */
    ghost predicate Running(a: seq<Byte>, dict: array<nat>, n: nat)
      requires dict.Length == 18 && n <= |a|
      reads dict
    {
      && (forall l | 1 <= l <= 15 :: dict[l] == Offset(a, l) + Count(a, n, l))
      && dict[16] == Count(a, n, 16) && dict[17] == Count(a, n, 17)
    }

    method PlaceOne(a: seq<Byte>, dict: array<nat>, i: nat) returns (ok: bool)
      requires Valid() && |a| == size && dict.Length == 18 && dict != starts && i < |a| && 0 < a[i] <= 17
      modifies starts, dict
      ensures old(Running(a, dict, i)) ==> ok && Running(a, dict, i + 1)
      ensures a[i] <= 15 && old(Running(a, dict, i) && Symbols(a, i)) ==> Symbols(a, i + 1)
    {
      hide Offset;
      ghost var l: nat := a[i];
      if dict[a[i]] >= size {
        if a[i] <= 15 {
          SlotRoom(a, i);
        }
        return false;
      }
      forall s | 0 <= s < i ensures Slot(a, s) != Slot(a, i) {
        SlotDistinct(a, s, i);
      }
      starts[dict[a[i]]] := i;
      dict[a[i]] := dict[a[i]] + 1;
      return true;
    }

    /** The table of symbols, each length in order. */
    method PlaceSymbols(a: seq<Byte>, dict: array<nat>) returns (ok: bool)
      requires Valid() && |a| == size && dict.Length == 18 && dict != starts && Running(a, dict, 0)
      modifies starts, dict
      ensures ok <==> forall i | 0 <= i < |a| :: a[i] <= 17
      ensures (forall i | 0 <= i < |a| :: a[i] <= 15) ==> Symbols(a, |a|)
    {
      hide Slot, Running;
      ghost var good := forall i | 0 <= i < |a| :: a[i] <= 15;
      var i := 0;
      while i < size
        invariant 0 <= i <= size && Running(a, dict, i) && forall k | 0 <= k < i :: a[k] <= 17
        invariant good ==> Symbols(a, i)
      {
        if a[i] != 0 {
          if a[i] > 17 {
            return false;
          }
          ok := PlaceOne(a, dict, i);
          if !ok {
            return;
          }
        } else {
          SkipOne(a, dict, i);
        }
        i := i + 1;
      }
      return true;
    }

    lemma SkipOne(a: seq<Byte>, dict: array<nat>, i: nat)
      requires dict.Length == 18 && i < |a| && a[i] == 0
      ensures Running(a, dict, i) ==> Running(a, dict, i + 1)
    {}

    /** build_decrypt_array: it accepts every complete set of lengths, and short tables only those. */
    method Build(a: seq<Byte>) returns (ok: bool)
      requires Valid() && |a| == size
      modifies d3, d4, starts, ends
      ensures ok <==> Accepts(a)
      ensures Complete(a) ==> ok
      ensures ok && |a| < 512 ==> Space(a, 15) == FULL
      ensures ok && Complete(a) ==> Tables(a)
    {
      var bus;
      ok, bus := CountLengths(a);
      if !ok {
        return;
      }
      var dict := new nat[18](_ => 0);
      d3[0], d4[0] := 0, 0;
      var sum := 0;
      ok, sum := AllLengths(a, bus, dict);
      if !ok || sum != FULL {
        return false;
      }
      NoneCounted(a);
      ok := PlaceSymbols(a, dict);
    }

    method AllLengths(a: seq<Byte>, bus: array<nat>, dict: array<nat>) returns (ok: bool, sum: nat)
      requires Valid() && |a| == size && bus.Length == 18 && dict.Length == 18 && d3[0] == 0 && d4[0] == 0
      requires dict != d3 && dict != d4 && dict != ends && dict != bus && bus != d3 && bus != d4 && bus != ends
      requires forall l | 0 <= l < 18 :: bus[l] == Count(a, |a|, l)
      modifies d3, d4, ends, dict
      ensures Exact(a) ==> (ok && sum == FULL <==> Space(a, 15) == FULL)
      ensures ok && Exact(a) ==> Lengths(a, 15) && Shortcut(a, 8)
      ensures ok <==> forall k | 0 <= k <= 14 :: Step(a, k)
      ensures ok ==> sum == Wrapped(a, 15)
      ensures ok ==> (forall l | 1 <= l <= 15 :: dict[l] == Offset(a, l)) && dict[16] == old(dict[16]) && dict[17] == old(dict[17])
    {
      hide Count, Exact, Step;
      sum := 0;
      NoSpace(a);
      var i := 0;
      while i < 15
        invariant 0 <= i <= 15 && d3[i] == sum == Wrapped(a, i) <= FULL && d4[i] == Offset(a, i)
        invariant (forall k | 0 <= k < i :: Step(a, k)) && dict[16] == old(dict[16]) && dict[17] == old(dict[17])
        invariant Exact(a) ==> Lengths(a, i) && Shortcut(a, if i < 8 then i else 8)
        invariant forall l | 1 <= l <= i :: dict[l] == Offset(a, l)
      {
        ok, sum := AddLength(a, bus, dict, i, sum);
        if !ok {
          SpaceMonotone(a, i + 1, 15);
          return;
        }
        i := i + 1;
      }
      ok := true;
    }

    ghost predicate Good(a: seq<Byte>)
      requires Valid()
      reads this, d3, d4, starts, ends
    {
      |a| == size && Complete(a) && Tables(a)
    }

    /** The code length, from the shortcut or by comparing with the spaces from nine bits on. */
    method FindLength(ret: nat, ghost a: seq<Byte>) returns (ok: bool, pos: nat)
      requires Valid() && ret < FULL
      ensures ok ==> 0 < pos < 24
      ensures Good(a) ==> ok && LengthOf(a, ret, pos)
    {
      hide Space, Complete, Tables;
      if Good(a) {
        SpacesKnown(a);
      }
      if ret < d3[8] {
        // The window has 24 bits, so the index below is in range whatever the tables hold.
        if Good(a) {
          ShortcutRight(a, ret);
        }
        pos := ends[ret / 0x1_0000];
        return 0 < pos < 24, pos;
      }
      if ret < d3[10] {
        pos := if ret < d3[9] then 9 else 10;
      } else if ret < d3[11] {
        pos := 11;
      } else if ret < d3[12] {
        pos := 12;
      } else if ret < d3[13] {
        pos := 13;
      } else if ret < d3[14] {
        pos := 14;
      } else {
        pos := 15;
      }
      ok := true;
    }

    lemma SpacesKnown(a: seq<Byte>)
      requires Valid() && Good(a)
      ensures forall k | 0 <= k <= 15 :: d3[k] == Space(a, k)
      ensures Space(a, 15) == FULL && Shortcut(a, 8)
    {}

    /** The first eight bits decide every code of up to eight bits. */
    lemma ShortcutRight(a: seq<Byte>, ret: nat)
      requires Valid() && Shortcut(a, 8) && ret < Space(a, 8)
      ensures ret / 0x1_0000 < 0x100 && LengthOf(a, ret, ends[ret / 0x1_0000])
    {
      var x := ret / 0x1_0000;
      hide Space, Unit;
      UnitEight();
      var q := SpaceMultiple(a, 8, 8);
      WholeUnits(q, ret, 0);
      var l := ends[x];
      var q0 := SpaceMultiple(a, l, 8);
      var q1 := SpaceMultiple(a, l - 1, 8);
      WholeUnits(q0, ret, q1);
    }

    /** getdec: the one symbol whose code comes next, and its code is used up.  Tables that were not built
        from a complete set of lengths lead to some symbol or a failure. */
    method GetDec(r: Reader, ghost a: seq<Byte>) returns (ok: bool, sym: nat)
      requires Valid() && r.Valid()
      modifies r
      ensures r.Valid()
      ensures ok ==> old(r.Used()) / 8 + 4 <= |r.input|
      ensures Good(a) ==> (ok <==> old(r.Used()) / 8 + 4 <= |r.input|)
      ensures Good(a) && ok ==> sym < |a| && old(r.Used()) + 24 <= 8 * |r.input|
      ensures Good(a) && ok ==>
                IsPrefix(a, sym, NextBits(r.input, old(r.Used()), 24)) && r.Used() == old(r.Used()) + a[sym]
    {
      hide NextBits, Space, Complete, Loaded, Tables;
      sym := 0;
      ok := r.Fill();
      if !ok {
        return;
      }
      var w := r.Window();
      WindowBound(r.input, r.Used());
      var ret := w - w % 0x200;
      var pos;
      ok, pos := FindLength(ret, a);
      if !ok {
        return;
      }
      r.bitpos := r.bitpos + pos;
      ok, sym := Symbol(ret, pos, a, w);
    }

    /** The symbol, from the place of the code among those of its length. */
    method Symbol(ret: nat, pos: nat, ghost a: seq<Byte>, ghost w: nat) returns (ok: bool, sym: nat)
      requires Valid() && ret == w - w % 0x200 && w < FULL && 0 < pos < 24
      requires Good(a) ==> LengthOf(a, ret, pos)
      ensures Good(a) ==> ok && sym < |a| && a[sym] == pos && IsPrefix(a, sym, w)
    {
      hide Space, Complete, Tables;
      UnitIs(pos);
      var i := ((ret - d3[pos - 1]) % WORD / Pow(2, 24 - pos) + d4[pos]) % WORD;
      if Good(a) {
        ghost var s := SymbolAt(a, ret, pos);
        LookUp(a, s, ret, pos);
        MaskedPrefix(a, s, w);
        NoWrap(ret - d3[pos - 1], Unit(pos), d4[pos], size);
      }
      if i >= size {
        return false, 0;
      }
      return true, starts[i];
    }

    lemma LookUp(a: seq<Byte>, s: nat, ret: nat, l: nat)
      requires Valid() && Good(a) && LengthOf(a, ret, l) && ret < FULL
      requires s < |a| && a[s] == l && Count(a, s, l) == (ret - Space(a, l - 1)) / Unit(l)
      ensures d3[l - 1] == Space(a, l - 1) <= ret && d4[l] == Offset(a, l)
      ensures (ret - d3[l - 1]) / Unit(l) + d4[l] < size && starts[(ret - d3[l - 1]) / Unit(l) + d4[l]] == s
    {
      hide Space, Unit, Count;
      assert Slot(a, s) == Offset(a, l) + Count(a, s, l);
    }
  }

  lemma WindowBound(input: seq<Byte>, c: nat)
    requires c + 24 <= 8 * |input|
    ensures NextBits(input, c, 24) < FULL
  {
    FewerBits(input, c, 24, 0);
    TwoPowers(0);
  }

  lemma NoWrap(d: nat, u: nat, o: nat, size: nat)
    requires u > 0 && d < FULL && d / u + o < size <= WORD
    ensures (d % WORD / u + o) % WORD == d / u + o
  {
    ModSmall(d, WORD);
    ModSmall(d / u + o, WORD);
  }

  lemma UnitIs(l: nat)
    requires l <= 24
    ensures Pow(2, 24 - l) == Unit(l) > 0
  {}

  /** Between whole units only the unit counts. */
  lemma WholeUnits(q: nat, w: nat, p: nat)
    ensures q * 0x1_0000 / 0x1_0000 == q && p * 0x1_0000 / 0x1_0000 == p
    ensures w < q * 0x1_0000 <==> w / 0x1_0000 < q
    ensures p * 0x1_0000 <= w <==> p <= w / 0x1_0000
  {}

  lemma UnitEight()
    ensures Unit(8) == 0x1_0000
  {
    EightBits();
    PowAdd(2, 8, 8);
  }

  /** Masking the low nine bits of the window does not change the symbol. */
  lemma MaskedPrefix(a: seq<Byte>, s: nat, w: nat)
    requires s < |a| && IsPrefix(a, s, w - w % 0x200)
    ensures IsPrefix(a, s, w)
  {
    hide Unit, Pow, Space, Count;
    var l: nat := a[s];
    var q := SpaceMultiple(a, l - 1, l);
    LongUnit(l);
    MaskedBound(w, q, Count(a, s, l), Pow(2, 15 - l), Unit(l));
  }

  /** The space of a code is a multiple of the nine bits that the mask drops. */
  lemma LongUnit(l: nat)
    requires l <= 15
    ensures Unit(l) == Pow(2, 15 - l) * 0x200
  {
    PowAdd(2, 15 - l, 9);
    EightBits();
    assert Pow(2, 9) == 2 * Pow(2, 8);
  }

  lemma MaskedBound(w: nat, q: nat, n: nat, p: nat, u: nat)
    requires u == p * 0x200 && q * u + n * u <= w - w % 0x200 < q * u + n * u + u
    ensures q * u + n * u <= w < q * u + n * u + u
  {
    MulSwap(q, p, 0x200);
    MulSwap(n, p, 0x200);
    RoundUp(w, q * p + n * p + p);
  }

  lemma RoundUp(w: nat, k: int)
    ensures w - w % 0x200 < k * 0x200 ==> w < k * 0x200
  {}

  lemma NoSpace(a: seq<Byte>)
    ensures Space(a, 0) == 0 && Offset(a, 0) == 0
  {}

  lemma NoneCounted(a: seq<Byte>)
    ensures forall l :: Count(a, 0, l) == 0
  {}

  /** A slot is within the table. */
  lemma SlotRoom(a: seq<Byte>, s: nat)
    requires s < |a|
    ensures Slot(a, s) < |a|
  {
    var l: nat := a[s];
    SlotInRange(a, s);
    OffsetIsBelow(a, l + 1);
  }

  /** sum + (b << counter) in 32 bits */
  function NewSum(sum: nat, b: nat, counter: nat): nat {
    PowPositive(2, counter);
    (sum + b * Pow(2, counter) % WORD) % WORD
  }

  /** The space up to the next length, without overflow. */
  lemma NextSpace(a: seq<Byte>, i: nat, sum: nat)
    requires i <= 14 && sum <= FULL && (Exact(a) ==> sum == Space(a, i))
    ensures Exact(a) && Space(a, 15) == FULL ==> Space(a, i + 1) <= FULL
    ensures Exact(a) ==> NewSum(sum, Count(a, |a|, i + 1), 23 - i) == Space(a, i + 1)
  {
    if Exact(a) {
      SpaceMonotone(a, i + 1, 15);
      TermSmall(a, i);
      assert Pow(2, 23 - i) == Unit(i + 1);
      assert Space(a, i + 1) == Space(a, i) + Count(a, |a|, i + 1) * Unit(i + 1);
      hide Unit, Space, Count, Pow;
      var t := Count(a, |a|, i + 1) * Unit(i + 1);
      MulMonotone(0, Count(a, |a|, i + 1), Unit(i + 1));
      ModSmall(t, WORD);
      ModSmall(sum + t, WORD);
    }
  }

  /** Taking the sums in 32 bits only wraps them. */
  lemma NextWrapped(a: seq<Byte>, i: nat)
    requires i <= 14
    ensures NewSum(Wrapped(a, i), Count(a, |a|, i + 1), 23 - i) == Wrapped(a, i + 1)
  {
    assert Pow(2, 23 - i) == Unit(i + 1);
    assert Space(a, i + 1) == Space(a, i) + Count(a, |a|, i + 1) * Unit(i + 1);
    hide Unit, Space, Count, Pow;
    var t := Count(a, |a|, i + 1) * Unit(i + 1);
    MulMonotone(0, Count(a, |a|, i + 1), Unit(i + 1));
    WrapSum(Space(a, i), t);
  }

  lemma WrapSum(s: nat, t: nat)
    ensures (s % WORD + t % WORD) % WORD == (s + t) % WORD
  {}

  lemma TermSmall(a: seq<Byte>, i: nat)
    requires i <= 14 && Exact(a) && Space(a, i) <= FULL
    ensures Space(a, i) + Count(a, |a|, i + 1) * Unit(i + 1) < WORD
  {
    SpaceMonotone(a, i + 1, 15);
    if Space(a, 15) != FULL {
      SmallUnit(i);
      hide Unit;
      MulMonotone(Count(a, |a|, i + 1), 511, Unit(i + 1));
    }
  }

  lemma SmallUnit(i: nat)
    requires i <= 14
    ensures Unit(i + 1) <= 0x80_0000 && (i > 0 ==> Unit(i + 1) <= 0x40_0000)
  {
    PowMonotone(2, 23 - i, 23);
    EightBits();
    PowAdd(2, 8, 8);
    PowAdd(2, 7, 16);
    assert Pow(2, 8) == 2 * Pow(2, 7) && Pow(2, 23) == 2 * Pow(2, 22);
    if i > 0 {
      PowMonotone(2, 23 - i, 22);
    }
  }

  /** What a complete code gives: every 24 bits start with the code of exactly one symbol, and a table
      built from it decodes that symbol. */
  lemma CompleteDecodes(a: seq<Byte>, w: nat) returns (s: nat)
    requires Complete(a) && w < FULL
    ensures s < |a| && IsPrefix(a, s, w)
    ensures forall t | 0 <= t < |a| && IsPrefix(a, t, w) :: t == s
  {
    var l := LengthExists(a, w, 15);
    s := SymbolAt(a, w, l);
    forall t | 0 <= t < |a| && IsPrefix(a, t, w) ensures t == s {
      PrefixUnique(a, s, t, w);
    }
  }

  // ----- a set of lengths that wraps around

  /** A table as long as the largest dictionary in which 514 symbols claim a code of one bit. */
  const CROWDED: seq<Byte> := seq(721, i => if i < 514 then 1 else 0)

  lemma {:induction false} CrowdedCount(n: nat, l: nat)
    requires n <= 721 && l > 0
    ensures Count(CROWDED, n, l) == if l > 1 then 0 else if n < 514 then n else 514
  {
    if n > 0 {
      CrowdedCount(n - 1, l);
    }
  }

  lemma UnitOneBit()
    ensures Unit(1) == 0x80_0000
  {
    PowAdd(2, 11, 12);
    PowAdd(2, 6, 6);
    PowAdd(2, 5, 6);
    assert Pow(2, 6) == 64 && Pow(2, 5) == 32;
  }

  lemma {:induction false} CrowdedSpace(l: nat)
    requires l <= 15
    ensures Space(CROWDED, l) == if l == 0 then 0 else WORD + FULL
  {
    if l > 0 {
      CrowdedSpace(l - 1);
      CrowdedCount(721, l);
      UnitOneBit();
      hide Unit, Count;
      assert Space(CROWDED, l) == Space(CROWDED, l - 1) + Count(CROWDED, 721, l) * Unit(l);
    }
  }

  /** It is accepted although its Kraft sum is 257 times too large. */
  lemma WrapAccepted()
    ensures |CROWDED| == 721 && Accepts(CROWDED) && Space(CROWDED, 15) == 257 * FULL
  {
    hide Space;
    CrowdedSpace(0);
    forall i | 0 <= i <= 14 ensures Step(CROWDED, i) {
      CrowdedSpace(i);
      CrowdedSpace(i + 1);
    }
    CrowdedSpace(15);
  }
}

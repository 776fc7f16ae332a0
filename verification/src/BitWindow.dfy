/** ASPack's bit reader: a 32-bit window over the input, most significant bit first. */
module BitWindow {
  import opened Radix
  import opened Wire

  const WORD: nat := 0x1_0000_0000

  /** Bit k of the input, counting from the top bit of the first byte. */
  function Bit(input: seq<Byte>, k: nat): nat
    requires k < 8 * |input|
  {
    PowPositive(2, 7 - k % 8);
    input[k / 8] / Pow(2, 7 - k % 8) % 2
  }

  /** The first k bits as a number. */
  ghost function FirstBits(input: seq<Byte>, k: nat): nat
    requires k <= 8 * |input|
  {
    if k == 0 then 0 else 2 * FirstBits(input, k - 1) + Bit(input, k - 1)
  }

  /** The n bits from bit c on as a number. */
  ghost function NextBits(input: seq<Byte>, c: nat, n: nat): nat
    requires c + n <= 8 * |input|
  {
    PowPositive(2, n);
    FirstBits(input, c + n) % Pow(2, n)
  }

  lemma {:induction false} TopBits(x: nat, n: nat)
    requires n < 8
    ensures Pow(2, 7 - n) > 0 && Pow(2, 8 - n) > 0
    ensures x / Pow(2, 7 - n) == 2 * (x / Pow(2, 8 - n)) + x / Pow(2, 7 - n) % 2
  {
    PowPositive(2, 7 - n);
    PowPositive(2, 8 - n);
    assert Pow(2, 8 - n) == 2 * Pow(2, 7 - n);
    hide Pow;
    HalfQuotient(x, Pow(2, 7 - n));
  }

  lemma HalfQuotient(x: nat, p: nat)
    requires p > 0
    ensures x / p == 2 * (x / (2 * p)) + x / p % 2
  {
    var q := x / p;
    assert x == q * p + x % p;
    MulSwap(q / 2, 2, p);
    MulDistribute(2 * (q / 2), q % 2, p);
    MulMonotone(q % 2, 1, p);
    DivModUnique(x, 2 * p, q / 2, (q % 2) * p + x % p);
  }

  /** Part of a byte. */
  lemma {:induction false} PartialByte(input: seq<Byte>, p: nat, n: nat)
    requires p < |input| && n <= 8
    ensures Pow(2, n) > 0 && Pow(2, 8 - n) > 0
    ensures FirstBits(input, 8 * p + n) == FirstBits(input, 8 * p) * Pow(2, n) + input[p] / Pow(2, 8 - n)
  {
    PowPositive(2, n);
    PowPositive(2, 8 - n);
    if n == 0 {
      EightBits();
      ModSmall(input[p], 256);
    } else {
      PartialByte(input, p, n - 1);
      TopBits(input[p], n - 1);
      assert Pow(2, n) == 2 * Pow(2, n - 1);
      var k := 8 * p + n - 1;
      assert k / 8 == p && k % 8 == n - 1;
      hide Pow;
      MulSwap(FirstBits(input, 8 * p), 2, Pow(2, n - 1));
    }
  }

  lemma EightBits()
    ensures Pow(2, 8) == 256 && Pow(2, 0) == 1
  {
    assert Pow(2, 4) == 16;
    PowAdd(2, 4, 4);
  }

  lemma WholeByte(input: seq<Byte>, p: nat)
    requires p < |input|
    ensures FirstBits(input, 8 * p + 8) == FirstBits(input, 8 * p) * 256 + input[p]
  {
    hide FirstBits, Pow;
    EightBits();
    PartialByte(input, p, 8);
    ModIs(input[p], 1, input[p], 0);
  }

  /** Dropping low bits gives an earlier prefix. */
  lemma {:induction false} DropBits(input: seq<Byte>, k: nat, j: nat)
    requires k + j <= 8 * |input|
    ensures Pow(2, j) > 0 && FirstBits(input, k + j) / Pow(2, j) == FirstBits(input, k)
  {
    PowPositive(2, j);
    if j > 0 {
      DropBits(input, k, j - 1);
      assert Pow(2, j) == 2 * Pow(2, j - 1);
      PowPositive(2, j - 1);
      var x, b := FirstBits(input, k + j - 1), Bit(input, k + j - 1);
      hide Pow;
      assert (2 * x + b) / 2 == x;
      NestedHalf(2 * x + b, Pow(2, j - 1));
    }
  }

  lemma NestedHalf(x: nat, p: nat)
    requires p > 0
    ensures x / (2 * p) == x / 2 / p
  {
    var h := x / 2;
    var q := h / p;
    assert h == q * p + h % p;
    MulSwap(q, 2, p);
    DivModUnique(x, 2 * p, q, 2 * (h % p) + x % 2);
  }

  /** The next few bits are the top of the next many. */
  lemma FewerBits(input: seq<Byte>, c: nat, n: nat, j: nat)
    requires c + n + j <= 8 * |input|
    ensures Pow(2, j) > 0 && NextBits(input, c, n + j) / Pow(2, j) == NextBits(input, c, n)
    ensures NextBits(input, c, n) < Pow(2, n)
  {
    DropBits(input, c + n, j);
    PowAdd(2, n, j);
    PowPositive(2, n);
    PowPositive(2, j);
    assert c + (n + j) == c + n + j;
    hide Pow;
    ModThenDrop(FirstBits(input, c + n + j), Pow(2, n), Pow(2, j));
  }

  lemma ModThenDrop(x: nat, a: nat, b: nat)
    requires a > 0 && b > 0
    ensures a * b > 0 && x % (a * b) / b == x / b % a
  {
    MulMonotone(1, a, b);
    var q, r := x / b, x % b;
    assert x == q * b + r;
    var h, l := q / a, q % a;
    assert q == h * a + l;
    MulDistribute(h * a, l, b);
    MulSwap(h, a, b);
    MulMonotone(l + 1, a, b);
    MulDistribute(l, 1, b);
    DivModUnique(x, a * b, h, l * b + r);
    DivModUnique(l * b + r, b, l, r);
  }

  /** The window after n bytes have been shifted in behind whatever it held. */
  ghost function Loaded(input: seq<Byte>, start: nat, n: nat): nat
    requires n <= |input|
  {
    (start * Pow(256, n) + FirstBits(input, 8 * n)) % WORD
  }

  lemma LoadedNext(input: seq<Byte>, start: nat, n: nat)
    requires n < |input|
    ensures Loaded(input, start, n + 1) == Loaded(input, start, n) * 256 % WORD + input[n]
  {
    hide FirstBits, Pow;
    WholeByte(input, n);
    NextPlace(start, n);
    LoadByte(start * Pow(256, n) + FirstBits(input, 8 * n), Loaded(input, start, n), input[n]);
  }

  class Reader {
    const input: seq<Byte>
    const start: nat    // whatever the window held before
    var next: nat       // how much of the input has been loaded
    var hash: nat       // the last four bytes loaded
    var bitpos: nat

    /** How many bits have been used. */
    ghost function Used(): int
      reads this
    {
      8 * next + bitpos - 32
    }

    ghost predicate Valid()
      reads this
    {
      && next <= |input| && Used() >= 0
      && hash == Loaded(input, start, next)
    }

    constructor (bytes: seq<Byte>, h: nat)
      requires h < WORD
      ensures Valid() && Used() == 0 && input == bytes
    {
      input, start, next, hash, bitpos := bytes, h, 0, h, 0x20;
      ModSmall(h, WORD);
    }

    /** readstream: load until fewer than eight bits of the window are used up */
    method Fill() returns (ok: bool)
      requires Valid()
      modifies this`next, this`hash, this`bitpos
      ensures Valid() && Used() == old(Used())
      ensures ok <==> Used() / 8 + 4 <= |input|
      ensures ok ==> bitpos < 8 && next >= 4
    {
      hide Loaded;
      while bitpos >= 8
        invariant Valid() && Used() == old(Used())
        decreases bitpos
      {
        if next >= |input| {
          return false;
        }
        LoadedNext(input, start, next);
        hash := (hash * 256 % WORD) + input[next];
        next := next + 1;
        bitpos := bitpos - 8;
      }
      return true;
    }

    /** The 24 bits of the window that come next. */
    method Window() returns (w: nat)
      requires Valid() && bitpos < 8 && next >= 4
      ensures Used() + 24 <= 8 * |input| && w == NextBits(input, Used(), 24)
    {
      PowPositive(2, 8 - bitpos);
      StartGone(start, next, FirstBits(input, 8 * next));
      w := hash / Pow(2, 8 - bitpos) % 0x100_0000;
      WindowIs(input, next, bitpos);
    }

    /** getbits: of more than eight bits the low eight */
    method GetBits(num: nat) returns (ok: bool, v: nat)
      requires Valid() && num <= 24
      modifies this`next, this`hash, this`bitpos
      ensures Valid()
      ensures ok <==> old(Used()) / 8 + 4 <= |input|
      ensures ok ==> Used() == old(Used()) + num && old(Used()) + num <= 8 * |input|
      ensures ok ==> v == NextBits(input, old(Used()), num) % 256
      ensures !ok ==> Used() == old(Used())
    {
      hide Loaded, Pow, NextBits;
      v := 0;
      ok := Fill();
      if ok {
        var w := Window();
        FewerBits(input, Used(), num, 24 - num);
        v := w / Pow(2, 24 - num) % 256;
        bitpos := bitpos + num;
      }
    }
  }

  /** Shifting in a byte, in 32 bits. */
  lemma LoadByte(x: nat, h: nat, b: Byte)
    requires h == x % WORD
    ensures (h * 256 % WORD) + b == (x * 256 + b) % WORD
  {
    var q, q2, r := x / WORD, h / 0x100_0000, h % 0x100_0000;
    DivModUnique(h * 256, WORD, q2, r * 256);
    DivModUnique(x * 256 + b, WORD, q * 256 + q2, r * 256 + b);
  }

  lemma NextPlace(s: nat, n: nat)
    ensures s * Pow(256, n + 1) == s * Pow(256, n) * 256
  {
    MulSwap(s, 256, Pow(256, n));
    MulSwap(s, Pow(256, n), 256);
  }

  /** After four bytes nothing is left of what was there before. */
  lemma StartGone(s: nat, n: nat, f: nat)
    requires n >= 4
    ensures (s * Pow(256, n) + f) % WORD == f % WORD
  {
    PowAdd(256, n - 4, 4);
    PowAdd(256, 2, 2);
    assert Pow(256, 2) == 0x1_0000;
    hide Pow;
    MulSwap(s, Pow(256, n - 4), WORD);
    ModEqual(s * Pow(256, n) + f, f, s * Pow(256, n - 4), WORD);
  }

  lemma WindowIs(input: seq<Byte>, p: nat, b: nat)
    requires 4 <= p <= |input| && b < 8
    ensures var c := 8 * p + b - 32;
            && c + 24 <= 8 * |input| && Pow(2, 8 - b) > 0
            && FirstBits(input, 8 * p) % WORD / Pow(2, 8 - b) % 0x100_0000 == NextBits(input, c, 24)
  {
    var c := 8 * p + b - 32;
    DropBits(input, c + 24, 8 - b);
    assert c + 24 + (8 - b) == 8 * p;
    TwoPowers(b);
    PowPositive(2, 8 - b);
    PowPositive(2, 24 + b);
    hide Pow;
    ModThenDrop(FirstBits(input, 8 * p), Pow(2, 24 + b), Pow(2, 8 - b));
    var y := FirstBits(input, c + 24);
    ModMod(y, Pow(2, b), 0x100_0000);
  }

  lemma TwoPowers(b: nat)
    requires b < 8
    ensures Pow(2, 24) == 0x100_0000 && Pow(2, 24 + b) * Pow(2, 8 - b) == WORD
    ensures Pow(2, 24 + b) == Pow(2, b) * Pow(2, 24) && Pow(2, b) > 0
  {
    EightBits();
    PowAdd(2, 8, 8);
    PowAdd(2, 8, 16);
    PowAdd(2, 8, 24);
    PowAdd(2, 24 + b, 8 - b);
    PowAdd(2, b, 24);
    PowPositive(2, b);
  }

  lemma ModMod(y: nat, a: nat, m: nat)
    requires a > 0 && m > 0
    ensures a * m > 0 && y % (a * m) % m == y % m
  {
    MulMonotone(1, a, m);
    var q := y / (a * m);
    assert y == q * (a * m) + y % (a * m);
    MulSwap(q, a, m);
    ModEqual(y, y % (a * m), q * a, m);
  }
}

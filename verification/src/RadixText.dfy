/** Numbers as text in a radix between 2 and 64. */
module MpText {
  import opened Radix
  import opened Digits
  import opened MpCore
  import opened MpAdd
  import opened MpShift
  import opened MpShort
  import opened MpRedc

  type Base = r: nat | 2 <= r <= 64 witness 10

  /** The digits in order: figures, capitals, small letters, plus and slash. */
  function DigitChar(d: nat): char
    requires d < 64
  {
    if d < 10 then ('0' as int + d) as char
    else if d < 36 then ('A' as int + (d - 10)) as char
    else if d < 62 then ('a' as int + (d - 36)) as char
    else if d == 62 then '+' else '/'
  }

  const DIGITS: string :=
    "0123456789" + "ABCDEFGHIJKLM" + "NOPQRSTUVWXYZ" + "abcdefghijklm" + "nopqrstuvwxyz" + "+/"

  /** mp_s_rmap, written out. */
  lemma DigitsAre(d: nat)
    requires d < 64
    ensures |DIGITS| == 64 && DigitChar(d) == DIGITS[d]
  {}

  lemma DigitCharDistinct(d: nat, e: nat)
    requires d < 64 && e < 64 && DigitChar(d) == DigitChar(e)
    ensures d == e
  {}

  function ToUpper(c: char): char {
    if 'a' <= c <= 'z' then (c as int - 'a' as int + 'A' as int) as char else c
  }

  /** v written in radix r without leading zeros; nothing at all for zero. */
  function Numeral(v: nat, r: Base): string {
    if v == 0 then "" else
      assert v % r < 64 && v / r < v by { Smaller(v, r); }
      Numeral(v / r, r) + [DigitChar(v % r)]
  }

  lemma Smaller(v: nat, r: nat)
    requires v > 0 && r >= 2
    ensures 0 <= v % r < r && 0 <= v / r < v
  {
    var q := v / r;
    assert v == q * r + v % r;
    if q >= v {
      MulMonotone(v, q, r);
      MulMonotone(2, r, v);
      MulSwap(1, r, v);
    }
  }

  function Text(v: int, r: Base): string {
    if v == 0 then "0" else if v < 0 then "-" + Numeral(-v, r) else Numeral(v, r)
  }

  /** The digit a character stands for, or none. */
  ghost predicate IsDigit(c: char, r: Base, d: nat) {
    d < r && DigitChar(d) == if r < 36 then ToUpper(c) else c
  }

  ghost predicate HasDigit(c: char, r: Base) {
    exists d: nat :: IsDigit(c, r, d)
  }

  ghost function DigitOf(c: char, r: Base): (d: nat)
    requires HasDigit(c, r)
    ensures IsDigit(c, r, d)
  {
    var d: nat :| IsDigit(c, r, d);
    d
  }

  /** Read digits onto acc until something else comes. */
  ghost function Horner(acc: nat, s: string, r: Base): nat
    decreases |s|
  {
    if s == "" || !HasDigit(s[0], r) then acc else Horner(acc * r + DigitOf(s[0], r), s[1..], r)
  }

  ghost function Parse(s: string, r: Base): int {
    if s != "" && s[0] == '-' then 0 - Horner(0, s[1..], r) else Horner(0, s, r)
  }

  /** What a character stands for: below radix 36 small letters count as capitals. */
  function CharValue(c: char, r: Base): nat {
    if '0' <= c <= '9' then c as int - '0' as int
    else if 'A' <= c <= 'Z' then 10 + c as int - 'A' as int
    else if 'a' <= c <= 'z' then (if r < 36 then 10 else 36) + c as int - 'a' as int
    else if c == '+' then 62 else if c == '/' then 63 else 64
  }

  /** The digits of every radix, character by character. */
  lemma CharMeaning(c: char, r: Base)
    ensures HasDigit(c, r) <==> CharValue(c, r) < r
    ensures HasDigit(c, r) ==> DigitOf(c, r) == CharValue(c, r)
  {
    if CharValue(c, r) < r {
      assert IsDigit(c, r, CharValue(c, r));
    }
    if HasDigit(c, r) {
      CharOnly(c, r, DigitOf(c, r));
    }
  }

  lemma CharOnly(c: char, r: Base, d: nat)
    requires IsDigit(c, r, d)
    ensures d == CharValue(c, r)
  {}

  lemma DigitReads(d: nat, r: Base)
    requires d < r
    ensures HasDigit(DigitChar(d), r) && DigitOf(DigitChar(d), r) == d && DigitChar(d) != '-'
  {
    assert IsDigit(DigitChar(d), r, d);
    var e := DigitOf(DigitChar(d), r);
    DigitCharDistinct(d, e);
  }

  lemma HornerStep(acc: nat, d: nat, rest: string, r: Base)
    requires d < r
    ensures Horner(acc, [DigitChar(d)] + rest, r) == Horner(acc * r + d, rest, r)
  {
    DigitReads(d, r);
    assert ([DigitChar(d)] + rest)[1..] == rest;
  }

  lemma {:induction false} NumeralReads(v: nat, rest: string, r: Base)
    ensures Horner(0, Numeral(v, r) + rest, r) == Horner(v, rest, r)
  {
    hide Horner, DigitChar;
    if v == 0 {
      assert Numeral(v, r) + rest == rest;
    } else {
      Smaller(v, r);
      var c := DigitChar(v % r);
      NumeralReads(v / r, [c] + rest, r);
      HornerStep(v / r, v % r, rest, r);
      assert Numeral(v, r) + rest == Numeral(v / r, r) + ([c] + rest);
      DivisionIs(v, r);
    }
  }

  lemma DivisionIs(v: nat, r: nat)
    requires r > 0
    ensures v / r * r + v % r == v
  {}

  lemma {:induction false} NumeralUnsigned(v: nat, r: Base)
    requires v > 0
    ensures Numeral(v, r) != "" && Numeral(v, r)[0] != '-'
  {
    Smaller(v, r);
    if v / r > 0 {
      NumeralUnsigned(v / r, r);
    } else {
      DigitReads(v % r, r);
    }
  }

  /** Reading back what was written gives the number again, in every radix. */
  lemma RoundTrip(v: int, r: Base)
    ensures Parse(Text(v, r), r) == v
  {
    if v == 0 {
      DigitReads(0, r);
      assert Horner(0, "0", r) == Horner(0, "0"[1..], r);
    } else {
      var m := if v < 0 then -v else v;
      NumeralReads(m, "", r);
      NumeralUnsigned(m, r);
      assert Numeral(m, r) + "" == Numeral(m, r);
      if v < 0 {
        assert Text(v, r)[1..] == Numeral(m, r);
      }
    }
  }

  // ----- reading

  /** The first position in the table, or 64. */
  method FindDigit(ch: char) returns (y: nat)
    ensures y <= 64 && (y < 64 ==> DigitChar(y) == ch)
    ensures y == 64 ==> forall d | 0 <= d < 64 :: DigitChar(d) != ch
  {
    y := 0;
    while y < 64
      invariant 0 <= y <= 64 && forall d | 0 <= d < y :: DigitChar(d) != ch
    {
      if ch == DigitChar(y) {
        return;
      }
      y := y + 1;
    }
  }

  lemma Found(c: char, ch: char, r: Base, y: nat)
    requires ch == if r < 36 then ToUpper(c) else c
    requires y <= 64 && (y < 64 ==> DigitChar(y) == ch) && (y == 64 ==> forall d | 0 <= d < 64 :: DigitChar(d) != ch)
    ensures y < r <==> HasDigit(c, r)
    ensures y < r ==> DigitOf(c, r) == y
  {
    if y < r {
      assert IsDigit(c, r, y);
      DigitCharDistinct(y, DigitOf(c, r));
    } else if d: nat :| IsDigit(c, r, d) {
      if y < 64 {
        DigitCharDistinct(y, d);
      }
    }
  }

  /** mp_add_d in place.  A negative number smaller than the digit comes out wrong: its sign is reset, as
      that of the result, before it is tested, so its magnitude is added to b and not subtracted. */
  method AddD(a: MpInt, b: MpDigit)
    requires a.Valid() && a.Zeroed()
    modifies a
    ensures a.Valid() && a.Zeroed()
    ensures a.Val() == if old(a.neg) && old(a.Mag()) < b then old(a.Mag()) + b else old(a.Val()) + b
  {
    hide P, V;
    Grow(a, a.used + 1);
    VSame(a.dp, old(a.dp), a.used);
    MagZero(a);
    if a.used > 0 {
      OneDigit(a, b);
    }
    if a.neg && (a.used > 1 || a.dp[0] >= b) {
      a.neg := false;
      SubD(a, b);
      a.neg := true;
      Clamp(a);
      return;
    }
    a.neg := false;
    AddDigit(a, b);
    SignOf(a);
  }

  /** It is right exactly when the number is not negative or not smaller than the digit. */
  lemma AddDRight(neg: bool, m: nat, b: nat)
    requires neg ==> m > 0
    ensures var v := if neg then 0 - m else m;
            (if neg && m < b then m + b else v + b) == v + b <==> !(neg && m < b)
  {}

  lemma OneDigit(a: MpInt, b: MpDigit)
    requires a.Valid() && a.used > 0
    ensures (a.used > 1 || a.dp[0] >= b) <==> a.Mag() >= b
  {
    if a.used > 1 {
      VTop(a.dp, a.used);
      PNext(0);
      PMonotone(1, a.used - 1);
    } else {
      PNext(0);
      assert V(a.dp, 1) == V(a.dp, 0) + a.dp[0] * P(0);
    }
  }

  /** mp_sub_d in place, from a number that is not smaller. */
  method SubD(a: MpInt, b: MpDigit)
    requires a.Valid() && !a.neg && a.Zeroed() && a.used > 0 && b <= a.Mag()
    modifies a
    ensures a.Valid() && !a.neg && a.Zeroed() && a.Mag() == old(a.Mag()) - b
  {
    hide P, V, Digit, Low, TopBit;
    ghost var A := a.dp;
    VEmpty(A);
    PNext(0);
    var mu: nat := b;
    var ix: nat := 0;
    while ix < a.used
      invariant 0 <= ix <= a.used && |a.dp| == |A| && a.used == old(a.used) && !a.neg && mu < B
      invariant V(a.dp, ix) == V(A, ix) - b + mu * P(ix)
      invariant forall k | ix <= k < |A| :: a.dp[k] == A[k]
      decreases a.used - ix
    {
      SubDigitStep(A, a.dp, ix, mu, b);
      var t := Digit(a.dp[ix] - mu);
      a.dp := a.dp[ix := Low(t)];
      mu := TopBit(t);
      ix := ix + 1;
    }
    VBound(a.dp, a.used);
    MulMonotone(if mu > 0 then 1 else 0, mu, P(a.used));
    Clamp(a);
  }

  lemma SubDigitStep(A: seq<MpDigit>, c: seq<MpDigit>, ix: nat, mu: nat, b: nat)
    requires ix < |A| == |c| && c[ix] == A[ix] && mu < B && V(c, ix) == V(A, ix) - b + mu * P(ix)
    ensures var t := Digit(c[ix] - mu);
            TopBit(t) < B && V(c[ix := Low(t)], ix + 1) == V(A, ix + 1) - b + TopBit(t) * P(ix + 1)
  {
    hide Digit, Low, TopBit, P;
    var x: int := c[ix];
    SubStep(c, ix, x, mu, V(A, ix) - b);
  }

  /** The loop of mp_add_d for numbers that are not negative. */
  method AddDigit(a: MpInt, b: MpDigit)
    requires a.Valid() && !a.neg && a.Zeroed() && a.used < |a.dp|
    modifies a
    ensures a.Valid() && !a.neg && a.Zeroed() && a.Mag() == old(a.Mag()) + b
  {
    hide P, V, Digit, Low, High;
    ghost var A, n := a.dp, if a.used == 0 then 1 else a.used;
    VZeros(A, a.used, n);
    VEmpty(A);
    var oldused := a.used;
    VEmpty(a.dp);
    PNext(0);
    var mu: nat := b;
    var ix: nat := 0;
    while ix < 1 || ix < a.used
      invariant 0 <= ix <= n && |a.dp| == |A| && a.used == oldused && !a.neg && mu < B
      invariant V(a.dp, ix) + mu * P(ix) == V(A, ix) + b
      invariant forall k | ix <= k < |A| :: a.dp[k] == A[k]
      decreases n - ix
    {
      AddDigitStep(A, a.dp, ix, mu, b);
      var t := Digit(a.dp[ix] + mu);
      a.dp := a.dp[ix := Low(t)];
      mu := High(t);
      ix := ix + 1;
    }
    AddDigitEnd(a.dp, A, n, mu, b);
    a.dp := a.dp[ix := mu];
    a.used := oldused + 1;
    Clamp(a);
  }

  lemma AddDigitStep(A: seq<MpDigit>, c: seq<MpDigit>, ix: nat, mu: nat, b: nat)
    requires ix < |A| == |c| && c[ix] == A[ix] && mu < B && V(c, ix) + mu * P(ix) == V(A, ix) + b
    ensures var t := Digit(c[ix] + mu);
            High(t) < B && V(c[ix := Low(t)], ix + 1) + High(t) * P(ix + 1) == V(A, ix + 1) + b
  {
    hide Digit, Low, High, P;
    var t := Digit(c[ix] + mu);
    CarryStep(c[ix], mu, ix);
    VUpdate(c, ix, Low(t));
    MulDistribute(Low(t), c[ix], P(ix));
  }

  lemma AddDigitEnd(c: seq<MpDigit>, A: seq<MpDigit>, n: nat, mu: nat, b: nat)
    requires n < |c| && n <= |A| && mu < B && V(c, n) + mu * P(n) == V(A, n) + b
    ensures V(c[n := mu], n + 1) == V(A, n) + b
    ensures n == 1 && V(A, 1) == 0 && b < B ==> mu == 0 && V(c[n := mu], 1) == b
  {
    VUpdate(c, n, mu);
    PNext(0);
    hide P, V;
    if n == 1 && V(A, 1) == 0 && b < B && mu > 0 {
      MulMonotone(1, mu, P(1));
    }
  }

  /** mp_read_radix: the longest run of digits, after an optional minus sign */
  method ReadRadix(a: MpInt, str: string, radix: int) returns (ok: bool)
    requires MP_PREC <= |a.dp|
    modifies a
    ensures ok <==> 2 <= radix <= 64
    ensures a.Valid() && a.Val() == if ok then Parse(str, radix) else 0
  {
    hide V, HasDigit, DigitOf, DigitChar, Horner;
    Zero(a);
    if radix < 2 || radix > 64 {
      return false;
    }
    ok := true;
    var neg := false;
    var i := 0;
    if str != "" && str[0] == '-' {
      i := 1;
      neg := true;
    }
    assert str[0..] == str;
    Zero(a);
    ReadDigits(a, str, i, radix);
    MagZero(a);
    if a.used != 0 {
      a.neg := neg;
    }
  }

  method ReadDigits(a: MpInt, str: string, from: nat, radix: Base)
    requires from <= |str| && a.Valid() && !a.neg && a.Zeroed() && a.Mag() == 0
    modifies a
    ensures a.Valid() && !a.neg && a.Mag() == Horner(0, str[from..], radix)
  {
    hide V, HasDigit, DigitOf, DigitChar, Horner;
    var i := from;
    while i < |str|
      invariant from <= i <= |str| && a.Valid() && !a.neg && a.Zeroed()
      invariant Horner(a.Mag(), str[i..], radix) == Horner(0, str[from..], radix)
    {
      var ch := if radix < 36 then ToUpper(str[i]) else str[i];
      var y := FindDigit(ch);
      Found(str[i], ch, radix, y);
      HornerNext(a.Mag(), str[i..], radix);
      if y < radix {
        MulD(a, radix, a);
        SignOf(a);
        AddD(a, y);
        SignOf(a);
      } else {
        return;
      }
      assert str[i..][1..] == str[i + 1..];
      i := i + 1;
    }
    HornerDone(a.Mag(), radix);
    assert str[i..] == "";
  }

  lemma HornerDone(acc: nat, r: Base)
    ensures Horner(acc, "", r) == acc
  {}

  lemma HornerNext(acc: nat, s: string, r: Base)
    requires s != ""
    ensures Horner(acc, s, r) == if HasDigit(s[0], r) then Horner(acc * r + DigitOf(s[0], r), s[1..], r) else acc
  {}

  // ----- writing

  function Reversed(s: string): (t: string)
    ensures |t| == |s|
  {
    seq(|s|, i requires 0 <= i < |s| => s[|s| - 1 - i])
  }

  /** bn_reverse on len characters from off */
  method Reverse(s: array<char>, off: nat, len: nat)
    requires off + len <= s.Length
    modifies s
    ensures s[off..off + len] == Reversed(old(s[off..off + len]))
    ensures s[..off] == old(s[..off]) && s[off + len..] == old(s[off + len..])
  {
    ghost var S, top := s[..], 2 * off + len - 1;
    var lo: int, hi: int := off, off + len - 1;
    while lo < hi
      invariant off <= lo && lo + hi == top
      invariant forall k | off <= k < off + len && (k < lo || hi < k) :: s[k] == S[top - k]
      invariant forall k | 0 <= k < s.Length && (lo <= k <= hi || k < off || off + len <= k) :: s[k] == S[k]
    {
      s[lo], s[hi] := s[hi], s[lo];
      lo := lo + 1;
      hi := hi - 1;
    }
    ghost var before := S[off..off + len];
    forall k | 0 <= k < len ensures s[off..off + len][k] == Reversed(before)[k] {
      assert s[off + k] == S[top - (off + k)];
    }
  }

  lemma ReversedAppend(s: string, c: char)
    ensures Reversed(s + [c]) == [c] + Reversed(s)
  {}

  /** The digits of t, lowest first, from position off. */
  method WriteDigits(t: MpInt, str: array<char>, off: nat, radix: Base) returns (digs: nat)
    requires t.Valid() && !t.neg && off + |Numeral(t.Mag(), radix)| <= str.Length
    modifies t, str
    ensures digs == |Numeral(old(t.Mag()), radix)|
    ensures Reversed(str[off..off + digs]) == Numeral(old(t.Mag()), radix)
    ensures str[..off] == old(str[..off])
  {
    hide V, Numeral, DigitChar, Reversed;
    ghost var N := Numeral(t.Mag(), radix);
    digs := 0;
    MagZero(t);
    assert str[off..off] == "";
    NoneReversed(Numeral(t.Mag(), radix));
    while t.used != 0
      invariant t.Valid() && !t.neg && off + digs <= str.Length && (t.used == 0 <==> t.Mag() == 0)
      invariant N == Numeral(t.Mag(), radix) + Reversed(str[off..off + digs])
      invariant str[..off] == old(str[..off])
      decreases t.Mag()
    {
      ghost var v, before := t.Mag(), str[off..off + digs];
      var _, d := DivD(t, radix, t);
      NumeralSplit(v, radix, t.Mag(), d);
      ReversedAppend(before, DigitChar(d));
      str[off + digs] := DigitChar(d);
      assert str[off..off + (digs + 1)] == before + [DigitChar(d)];
      digs := digs + 1;
      MagZero(t);
    }
    NumeralZero(radix);
  }

  lemma NumeralZero(r: Base)
    ensures Numeral(0, r) == ""
  {}

  lemma NoneReversed(n: string)
    ensures n == n + Reversed("")
  {}

  lemma NumeralSplit(v: nat, r: Base, q: nat, d: nat)
    requires v > 0 && v == q * r + d && d < r
    ensures d < 64 && q < v && Numeral(v, r) == Numeral(q, r) + [DigitChar(d)]
  {
    DivModUnique(v, r, q, d);
    Smaller(v, r);
  }

  /** The digits of a positive number from off on, and the end of the string. */
  method WriteNumeral(t: MpInt, str: array<char>, off: nat, radix: Base)
    requires t.Valid() && !t.neg && off + |Numeral(t.Mag(), radix)| < str.Length
    modifies t, str
    ensures var w := Numeral(old(t.Mag()), radix);
            str[..off + |w|] == old(str[..off]) + w && str[off + |w|] == '\0'
  {
    hide V, Numeral, Reversed;
    var digs := WriteDigits(t, str, off, radix);
    ghost var sign := str[..off];
    Reverse(str, off, digs);
    str[off + digs] := '\0';
    assert str[..off + digs] == sign + str[off..off + digs];
  }

  /** mp_toradix: the text of a, followed by a terminator */
  method ToRadix(a: MpInt, str: array<char>, radix: int) returns (ok: bool)
    requires a.Valid() && (2 <= radix <= 64 ==> |Text(a.Val(), radix)| < str.Length)
    modifies str
    ensures ok <==> 2 <= radix <= 64
    ensures ok ==> var t := Text(a.Val(), radix); str[..|t|] == t && str[|t|] == '\0'
  {
    hide V, Numeral, Reversed;
    if radix < 2 || radix > 64 {
      return false;
    }
    ok := true;
    SignOf(a);
    MagZero(a);
    if a.used == 0 {
      str[0] := '0';
      str[1] := '\0';
      return;
    }
    var t := InitCopy(a);
    var off := 0;
    if t.neg {
      str[0] := '-';
      off := 1;
      t.neg := false;
    }
    WriteNumeral(t, str, off, radix);
  }

  // ----- there and back

  ghost predicate Prints(s: string) {
    forall i | 0 <= i < |s| :: s[i] != '\0'
  }

  lemma {:induction false} NumeralPrints(v: nat, r: Base)
    ensures Prints(Numeral(v, r))
    decreases v
  {
    if v > 0 {
      Smaller(v, r);
      var d, q := v % r, v / r;
      DigitPrints(d);
      NumeralPrints(q, r);
      assert Numeral(v, r) == Numeral(q, r) + [DigitChar(d)];
      hide Numeral, DigitChar;
    }
  }

  lemma DigitPrints(d: nat)
    requires d < 64
    ensures DigitChar(d) != '\0'
  {}

  lemma TextPrints(v: int, r: Base)
    ensures Prints(Text(v, r))
  {
    hide Numeral;
    if v != 0 {
      NumeralPrints(if v < 0 then -v else v, r);
    }
  }

  /** The text up to its terminator. */
  method CString(str: array<char>, ghost t: string) returns (s: string)
    requires |t| < str.Length && str[..|t|] == t && str[|t|] == '\0' && Prints(t)
    ensures s == t
  {
    var i := 0;
    while str[i] != '\0'
      invariant 0 <= i <= |t|
      decreases |t| - i
    {
      assert i < |t|;
      i := i + 1;
    }
    s := str[..i];
  }

  /** Writing a number and reading the text back gives the number. */
  method WriteRead(a: MpInt, b: MpInt, str: array<char>, radix: Base)
    requires a.Valid() && a != b && MP_PREC <= |b.dp| && |Text(a.Val(), radix)| < str.Length
    modifies str, b
    ensures b.Valid() && b.Val() == a.Val()
  {
    hide V, Text, Parse;
    ghost var v := a.Val();
    var wrote := ToRadix(a, str, radix);
    TextPrints(v, radix);
    var s := CString(str, Text(v, radix));
    RoundTrip(v, radix);
    var done := ReadRadix(b, s, radix);
  }
}

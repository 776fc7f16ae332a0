/** BinHex 4.0 (Appendix A of RFC 1741) in three passes: characters to six-bit values, six-bit values to
    bytes, and runs of bytes expanded.  An encoder shows that decoding loses nothing. */
module BinHexSpec {
  import opened Wire

  const NEWLINE: Byte := 10
  const RETURN: Byte := 13
  const COLON: Byte := 58
  const RUN: Byte := 0x90

  type Six = b: nat | b < 64 witness 0

  datatype Value = NoValue | Value(six: Six)

  /** hqxtbl */
  function SixOf(c: Byte): Value {
    if 0x21 <= c <= 0x2d then Value(c - 0x21)
    else if 0x30 <= c <= 0x36 then Value(c - 0x30 + 13)
    else if 0x38 <= c <= 0x39 then Value(c - 0x38 + 20)
    else if 0x40 <= c <= 0x4e then Value(c - 0x40 + 22)
    else if 0x50 <= c <= 0x56 then Value(c - 0x50 + 37)
    else if 0x58 <= c <= 0x5b then Value(c - 0x58 + 44)
    else if 0x60 <= c <= 0x66 then Value(c - 0x60 + 48)
    else if 0x68 <= c <= 0x6d then Value(c - 0x68 + 55)
    else if 0x70 <= c <= 0x72 then Value(c - 0x70 + 61)
    else NoValue
  }

  // ----- first pass

  /** Up to the first line end everything is skipped; then a colon must come; from there on line ends and
      colons are skipped and any other character without a value ends the reading. */
  datatype Scan = Scan(inData: bool, started: bool, broken: bool, six: seq<Six>)

  function ScanChar(s: Scan, c: Byte): Scan {
    if s.broken then s
    else if c == RETURN || c == NEWLINE then s.(inData := true)
    else if !s.inData then s
    else if !s.started && c != COLON then s.(broken := true)
    else if c == COLON then s.(started := true)
    else if SixOf(c).NoValue? then s.(broken := true)
    else s.(six := s.six + [SixOf(c).six])
  }

  function ScanAll(input: seq<Byte>): Scan {
    if input == [] then Scan(false, false, false, [])
    else ScanChar(ScanAll(input[..|input| - 1]), input[|input| - 1])
  }

  // ----- second pass

  function First(a: Six, b: Six): Byte { a * 4 + b / 16 }

  function Second(b: Six, c: Six): Byte { b % 16 * 16 + c / 4 }

  function Third(c: Six, d: Six): Byte { c % 4 * 64 + d }

  /** Four values make three bytes; an incomplete group makes as many as it can. */
  function Unpack(s: seq<Six>): seq<Byte> {
    if |s| < 2 then []
    else if |s| == 2 then [First(s[0], s[1])]
    else if |s| == 3 then [First(s[0], s[1]), Second(s[1], s[2])]
    else [First(s[0], s[1]), Second(s[1], s[2]), Third(s[2], s[3])] + Unpack(s[4..])
  }

  /** The byte that one more value completes. */
  function Completed(s: seq<Six>, b: Six): seq<Byte> {
    var n := |s|;
    if n % 4 == 0 then []
    else if n % 4 == 1 then [First(s[n - 1], b)]
    else if n % 4 == 2 then [Second(s[n - 1], b)]
    else [Third(s[n - 1], b)]
  }

  function Group(s: seq<Six>): seq<Byte>
    requires |s| >= 4
  {
    [First(s[0], s[1]), Second(s[1], s[2]), Third(s[2], s[3])]
  }

  lemma {:induction false} UnpackGroup(s: seq<Six>)
    requires |s| >= 4
    ensures Unpack(s) == Group(s) + Unpack(s[4..])
  {}

  lemma {:induction false} UnpackMore(s: seq<Six>, b: Six)
    ensures Unpack(s + [b]) == Unpack(s) + Completed(s, b)
    decreases |s|
  {
    var t := s + [b];
    if |s| >= 4 {
      UnpackMore(s[4..], b);
      hide Unpack, First, Second, Third;
      assert t[4..] == s[4..] + [b];
      UnpackGroup(s);
      UnpackGroup(t);
      assert Group(t) == Group(s);
      SameCompleted(s, b);
      Regroup(Group(s), Unpack(s[4..]), Completed(s, b));
    } else {
      UnpackShort(s, b);
    }
  }

  lemma SameCompleted(s: seq<Six>, b: Six)
    requires |s| >= 4
    ensures Completed(s[4..], b) == Completed(s, b)
  {
    hide First, Second, Third;
    assert |s[4..]| % 4 == |s| % 4;
  }

  lemma Regroup(a: seq<Byte>, b: seq<Byte>, c: seq<Byte>)
    ensures a + (b + c) == (a + b) + c
  {}

  lemma {:induction false} UnpackShort(s: seq<Six>, b: Six)
    requires |s| < 4
    ensures Unpack(s + [b]) == Unpack(s) + Completed(s, b)
  {
    hide First, Second, Third;
    var t := s + [b];
    if |s| == 0 {
      assert |t| == 1;
    } else if |s| == 1 {
      assert Unpack(t) == [First(s[0], b)];
    } else if |s| == 2 {
      assert Unpack(t) == [First(s[0], s[1]), Second(s[1], b)];
    } else {
      UnpackGroup(t);
      assert t[4..] == [] && Unpack([]) == [];
      assert Group(t) == [First(s[0], s[1]), Second(s[1], s[2])] + [Third(s[2], b)];
    }
  }

  // ----- third pass

  /** A run mark is followed by a count: zero stands for the mark itself, n for n - 1 more of the last byte. */
  datatype Runs = Runs(out: seq<Byte>, last: Byte, inRun: bool)

  function Copies(b: Byte, n: nat): (s: seq<Byte>)
    ensures |s| == n
  {
    seq(n, _ => b)
  }

  function RunByte(r: Runs, b: Byte): Runs {
    if r.inRun then
      if b == 0 then Runs(r.out + [RUN], RUN, false)
      else Runs(r.out + Copies(r.last, b - 1), r.last, false)
    else if b == RUN then r.(inRun := true)
    else Runs(r.out + [b], b, false)
  }

  function RunOn(r: Runs, s: seq<Byte>): Runs {
    if s == [] then r else RunByte(RunOn(r, s[..|s| - 1]), s[|s| - 1])
  }

  function RunAll(s: seq<Byte>): Runs {
    RunOn(Runs([], 0, false), s)
  }

  lemma {:induction false} RunMore(s: seq<Byte>, b: Byte)
    ensures RunAll(s + [b]) == RunByte(RunAll(s), b)
  {
    assert (s + [b])[..|s + [b]| - 1] == s;
  }

  lemma {:induction false} RunOnAppend(r: Runs, s: seq<Byte>, t: seq<Byte>)
    ensures RunOn(r, s + t) == RunOn(RunOn(r, s), t)
    decreases |t|
  {
    hide RunByte;
    if t == [] {
      assert s + t == s;
    } else {
      var n := |t|;
      assert (s + t)[..|s + t| - 1] == s + t[..n - 1];
      RunOnAppend(r, s, t[..n - 1]);
    }
  }

  /** The three passes together. */
  function Decoded(input: seq<Byte>): seq<Byte> {
    RunAll(Unpack(ScanAll(input).six)).out
  }

  // ----- the passes in one

  /** The variables of the decoding loop. */
  datatype Loop = Loop(inData: bool, started: bool, broken: bool, offset: nat, spare: nat, inRun: bool, last: Byte,
                       out: seq<Byte>)

  /** One turn of the loop on the character c. */
  function LoopChar(l: Loop, c: Byte): Loop {
    if l.broken then l
    else if c == RETURN || c == NEWLINE then l.(inData := true)
    else if !l.inData then l
    else if !l.started && c != COLON then l.(broken := true)
    else if c == COLON then l.(started := true)
    else if SixOf(c).NoValue? then l.(broken := true)
    else LoopValue(l, SixOf(c).six)
  }

  /** Six more bits. */
  function LoopValue(l: Loop, six: Six): Loop {
    var b: nat := six;
    var k := l.(offset := (l.offset + 1) % 256);
    if l.offset % 4 == 0 then k.(spare := b * 4)
    else if l.offset % 4 == 1 then LoopByte(k.(spare := b % 16 * 16), l.spare + b / 16)
    else if l.offset % 4 == 2 then LoopByte(k.(spare := b % 4 * 64), l.spare + b / 4)
    else LoopByte(k, l.spare + b)
  }

  function LoopByte(l: Loop, x: nat): Loop {
    var b: Byte := if x < 256 then x else 0;
    var r := RunByte(Runs(l.out, l.last, l.inRun), b);
    l.(inRun := r.inRun, last := r.last, out := r.out)
  }

  const BEGIN := Loop(false, false, false, 0, 0, false, 0, [])

  function LoopAll(input: seq<Byte>): Loop {
    if input == [] then BEGIN else LoopChar(LoopAll(input[..|input| - 1]), input[|input| - 1])
  }

  /** The bits of the last value that have not gone into a byte. */
  function Spare(s: seq<Six>): nat {
    var n := |s|;
    if n % 4 == 0 then 0
    else
      var b: nat := s[n - 1];
      if n % 4 == 1 then b * 4 else if n % 4 == 2 then b % 16 * 16 else b % 4 * 64
  }

  /** The loop is where the three passes are. */
  ghost predicate Same(l: Loop, s: Scan) {
    && l.inData == s.inData && l.started == s.started && l.broken == s.broken
    && l.offset == |s.six| % 256 && (|s.six| % 4 != 0 ==> l.spare == Spare(s.six))
    && Runs(l.out, l.last, l.inRun) == RunAll(Unpack(s.six))
  }

  lemma SameChar(l: Loop, s: Scan, c: Byte)
    requires Same(l, s)
    ensures Same(LoopChar(l, c), ScanChar(s, c))
  {
    if !l.broken && c != RETURN && c != NEWLINE && l.inData && c != COLON && l.started && SixOf(c).Value? {
      hide SixOf, Unpack, RunAll;
      SameValue(l, s, SixOf(c).six);
    }
  }

  /** The byte assembled from the spare bits is the one that the value completes. */
  lemma Assembled(s: seq<Six>, b: Six)
    requires |s| % 4 != 0
    ensures |Completed(s, b)| == 1
    ensures |s| % 4 == 1 ==> Spare(s) + b / 16 == Completed(s, b)[0]
    ensures |s| % 4 == 2 ==> Spare(s) + b / 4 == Completed(s, b)[0]
    ensures |s| % 4 == 3 ==> Spare(s) + b == Completed(s, b)[0]
  {}

  lemma Residues(n: nat)
    ensures n % 256 % 4 == n % 4 && (n % 256 + 1) % 256 == (n + 1) % 256
    ensures (n + 1) % 4 == (n % 4 + 1) % 4
  {}

  lemma SpareNext(s: seq<Six>, b: Six)
    ensures |s| % 4 == 0 ==> Spare(s + [b]) == b * 4
    ensures |s| % 4 == 1 ==> Spare(s + [b]) == b % 16 * 16
    ensures |s| % 4 == 2 ==> Spare(s + [b]) == b % 4 * 64
  {}

  lemma {:induction false} SameValue(l: Loop, s: Scan, b: Six)
    requires Same(l, s)
    ensures Same(LoopValue(l, b), s.(six := s.six + [b]))
  {
    hide RunByte, RunAll, RunOn, Unpack, Completed, First, Second, Third, Spare;
    SpareNext(s.six, b);
    UnpackMore(s.six, b);
    Residues(|s.six|);
    if |s.six| % 4 == 0 {
      assert Completed(s.six, b) == [] by { NothingCompleted(s.six, b); }
      assert Unpack(s.six) + [] == Unpack(s.six);
    } else {
      Assembled(s.six, b);
      assert Completed(s.six, b) == [Completed(s.six, b)[0]];
      RunMore(Unpack(s.six), Completed(s.six, b)[0]);
    }
  }

  lemma NothingCompleted(s: seq<Six>, b: Six)
    requires |s| % 4 == 0
    ensures Completed(s, b) == []
  {}

  /** The one-pass loop computes the three passes. */
  lemma {:induction false} OnePass(input: seq<Byte>)
    ensures Same(LoopAll(input), ScanAll(input))
    ensures LoopAll(input).out == Decoded(input)
  {
    if input != [] {
      OnePass(input[..|input| - 1]);
      SameChar(LoopAll(input[..|input| - 1]), ScanAll(input[..|input| - 1]), input[|input| - 1]);
    }
  }

  // ----- an encoder

  function CharOf(v: Six): (c: Byte)
    ensures SixOf(c) == Value(v) && c != NEWLINE && c != RETURN && c != COLON
  {
    if v < 13 then v + 0x21
    else if v < 20 then v - 13 + 0x30
    else if v < 22 then v - 20 + 0x38
    else if v < 37 then v - 22 + 0x40
    else if v < 44 then v - 37 + 0x50
    else if v < 48 then v - 44 + 0x58
    else if v < 55 then v - 48 + 0x60
    else if v < 61 then v - 55 + 0x68
    else v - 61 + 0x70
  }

  /** The alphabet of Appendix A of RFC 1741, in order. */
  const ALPHABET: string := SIGNS + CAPITALS + SMALL_LETTERS

  const SIGNS: string := "!\"#$%&'()*+,-" + "0123456" + "89"
  const CAPITALS: string := "@ABCDEFG" + "HIJKLMN" + "PQRSTUV" + "XYZ["
  const SMALL_LETTERS: string := "`abcdef" + "hijklm" + "pqr"

  lemma SignAt(v: Six)
    requires v < 22
    ensures |SIGNS| == 22 && SIGNS[v] as int == CharOf(v)
  {}

  lemma CapitalAt(v: Six)
    requires 22 <= v < 48
    ensures |CAPITALS| == 26 && CAPITALS[v - 22] as int == CharOf(v)
  {}

  lemma SmallAt(v: Six)
    requires 48 <= v
    ensures |SMALL_LETTERS| == 16 && SMALL_LETTERS[v - 48] as int == CharOf(v)
  {}

  lemma AlphabetAt(v: Six)
    ensures |ALPHABET| == 64 && ALPHABET[v] as int == CharOf(v)
  {
    SignAt(if v < 22 then v else 0);
    CapitalAt(if 22 <= v < 48 then v else 22);
    SmallAt(if 48 <= v then v else 48);
    hide SIGNS, CAPITALS, SMALL_LETTERS, CharOf;
  }

  lemma OneValue(c: Byte, v: Six)
    ensures SixOf(c) == Value(v) <==> c == CharOf(v)
  {}

  /** Exactly the 64 characters of the alphabet have a value, and it is their place. */
  lemma AlphabetIs(c: Byte, v: Six)
    ensures |ALPHABET| == 64 && (SixOf(c) == Value(v) <==> ALPHABET[v] as int == c)
  {
    hide *;
    AlphabetAt(v);
    OneValue(c, v);
  }

  /** Three bytes make four values; fewer make one value more than they are. */
  function Pack(s: seq<Byte>): seq<Six> {
    if |s| == 0 then []
    else if |s| == 1 then [s[0] / 4, s[0] % 4 * 16]
    else if |s| == 2 then [s[0] / 4, s[0] % 4 * 16 + s[1] / 16, s[1] % 16 * 4]
    else [s[0] / 4, s[0] % 4 * 16 + s[1] / 16, s[1] % 16 * 4 + s[2] / 64, s[2] % 64] + Pack(s[3..])
  }

  lemma {:induction false} UnpackPack(s: seq<Byte>)
    ensures Unpack(Pack(s)) == s
    decreases |s|
  {
    hide First, Second, Third;
    if |s| > 2 {
      UnpackPack(s[3..]);
      PackGroup(s);
    } else if |s| > 0 {
      PackShort(s);
    }
  }

  lemma {:induction false} PackGroup(s: seq<Byte>)
    requires |s| > 2 && Unpack(Pack(s[3..])) == s[3..]
    ensures Unpack(Pack(s)) == s
  {
    hide First, Second, Third;
    SplitByte(s[0], s[1], s[2]);
    var p := Pack(s);
    assert p[4..] == Pack(s[3..]);
    UnpackGroup(p);
    hide Unpack, Pack;
    assert Group(p) == [s[0], s[1], s[2]];
    assert [s[0], s[1], s[2]] + s[3..] == s;
  }

  lemma {:induction false} PackShort(s: seq<Byte>)
    requires 0 < |s| <= 2
    ensures Unpack(Pack(s)) == s
  {
    hide First, Second, Third;
    SplitByte(s[0], if |s| == 2 then s[1] else 0, 0);
    var p := Pack(s);
    if |s| == 1 {
      assert |p| == 2;
    } else {
      assert |p| == 3;
    }
  }

  lemma SplitByte(a: Byte, b: Byte, c: Byte)
    ensures First(a / 4, a % 4 * 16 + b / 16) == a && First(a / 4, a % 4 * 16) == a
    ensures Second(a % 4 * 16 + b / 16, b % 16 * 4 + c / 64) == b && Second(a % 4 * 16 + b / 16, b % 16 * 4) == b
    ensures Third(b % 16 * 4 + c / 64, c % 64) == c
  {}

  function Escape(b: Byte): seq<Byte> {
    if b == RUN then [RUN, 0] else [b]
  }

  /** How many equal bytes s starts with, up to 255. */
  function Lead(s: seq<Byte>, n: nat): (k: nat)
    requires 0 < n <= |s| && n <= 255 && forall i | 0 <= i < n :: s[i] == s[0]
    ensures n <= k <= |s| && k <= 255 && forall i | 0 <= i < k :: s[i] == s[0]
    decreases |s| - n
  {
    if n < |s| && n < 255 && s[n] == s[0] then Lead(s, n + 1) else n
  }

  /** Runs of four and more are written with a count. */
  function Compress(s: seq<Byte>): seq<Byte>
    decreases |s|
  {
    if s == [] then []
    else
      var k := Lead(s, 1);
      if k >= 4 then Escape(s[0]) + [RUN, k] + Compress(s[k..]) else Escape(s[0]) + Compress(s[1..])
  }

  lemma EscapeRuns(r: Runs, b: Byte)
    requires !r.inRun
    ensures RunOn(r, Escape(b)) == Runs(r.out + [b], b, false)
  {
    if b == RUN {
      assert [RUN, 0][..1] == [RUN] && [RUN][..0] == [];
      assert RunOn(r, [RUN]) == r.(inRun := true);
    } else {
      assert [b][..0] == [];
    }
  }

  lemma CountRuns(r: Runs, k: Byte)
    requires !r.inRun && k > 0
    ensures RunOn(r, [RUN, k]) == Runs(r.out + Copies(r.last, k - 1), r.last, false)
  {
    assert [RUN, k][..1] == [RUN] && [RUN][..0] == [];
    assert RunOn(r, [RUN]) == r.(inRun := true);
  }

  lemma ExpandOne(r: Runs, b: Byte, rest: seq<Byte>)
    requires !r.inRun
    ensures RunOn(r, Escape(b) + rest) == RunOn(Runs(r.out + [b], b, false), rest)
  {
    hide RunOn, Escape;
    EscapeRuns(r, b);
    RunOnAppend(r, Escape(b), rest);
  }

  lemma ExpandRun(r: Runs, b: Byte, k: Byte, rest: seq<Byte>)
    requires !r.inRun && k > 0
    ensures RunOn(r, Escape(b) + [RUN, k] + rest) == RunOn(Runs(r.out + Copies(b, k), b, false), rest)
  {
    hide RunOn, Escape;
    assert Escape(b) + [RUN, k] + rest == Escape(b) + ([RUN, k] + rest);
    ExpandOne(r, b, [RUN, k] + rest);
    var r1 := Runs(r.out + [b], b, false);
    RunOnAppend(r1, [RUN, k], rest);
    CountRuns(r1, k);
    assert (r.out + [b]) + Copies(b, k - 1) == r.out + Copies(b, k);
  }

  lemma {:induction false} ExpandCompress(r: Runs, s: seq<Byte>)
    requires !r.inRun
    ensures RunOn(r, Compress(s)).out == r.out + s
    decreases |s|
  {
    hide RunOn, Escape, Lead, Copies;
    if s == [] {
      NoBytes(r);
    } else {
      var k := Lead(s, 1);
      if k >= 4 {
        ExpandRun(r, s[0], k, Compress(s[k..]));
        ExpandCompress(Runs(r.out + Copies(s[0], k), s[0], false), s[k..]);
        LeadSplit(s, k);
        Regroup(r.out, Copies(s[0], k), s[k..]);
      } else {
        ExpandOne(r, s[0], Compress(s[1..]));
        ExpandCompress(Runs(r.out + [s[0]], s[0], false), s[1..]);
        assert s == [s[0]] + s[1..];
        Regroup(r.out, [s[0]], s[1..]);
      }
    }
  }

  lemma LeadSplit(s: seq<Byte>, k: nat)
    requires 0 < k <= |s| && forall i | 0 <= i < k :: s[i] == s[0]
    ensures s == Copies(s[0], k) + s[k..]
  {}

  lemma NoBytes(r: Runs)
    ensures RunOn(r, []) == r && Compress([]) == [] && r.out + [] == r.out
  {}

  function Chars(v: seq<Six>): (s: seq<Byte>)
    ensures |s| == |v|
  {
    seq(|v|, i requires 0 <= i < |v| => CharOf(v[i]))
  }

  /** A BinHex file for the decoded bytes s. */
  function Encode(s: seq<Byte>): seq<Byte> {
    [NEWLINE, COLON] + Chars(Pack(Compress(s))) + [COLON]
  }

  lemma {:induction false} ScanChars(v: seq<Six>)
    ensures ScanAll([NEWLINE, COLON] + Chars(v)) == Scan(true, true, false, v)
    decreases |v|
  {
    var head: seq<Byte> := [NEWLINE, COLON];
    if v == [] {
      assert head + Chars(v) == head;
      assert head[..1] == [NEWLINE] && [NEWLINE][..0] == [];
      assert ScanAll([NEWLINE]) == Scan(true, false, false, []);
    } else {
      var n := |v|;
      ScanChars(v[..n - 1]);
      var all := head + Chars(v);
      assert all[..|all| - 1] == head + Chars(v[..n - 1]);
      assert all[|all| - 1] == CharOf(v[n - 1]);
      assert v[..n - 1] + [v[n - 1]] == v;
    }
  }

  /** Decoding undoes encoding. */
  lemma DecodeEncode(s: seq<Byte>)
    ensures Decoded(Encode(s)) == s && !ScanAll(Encode(s)).broken
  {
    hide RunOn, Compress, Pack, Unpack, Chars;
    var v := Pack(Compress(s));
    ScanChars(v);
    var all := Encode(s);
    assert all[..|all| - 1] == [NEWLINE, COLON] + Chars(v);
    UnpackPack(Compress(s));
    ExpandCompress(Runs([], 0, false), s);
    assert [] + s == s;
  }
}

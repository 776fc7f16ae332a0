/** Whole BinHex files: what a writer puts together, the extractor takes apart. */
module BinHexFile {
  import opened Wire
  import opened BinHexSpec
  import opened BinHex

  /** A file with both its forks (Appendix A of RFC 1741).  The checksums are never looked at. */
  datatype File = File(
    name: seq<Byte>,
    version: Byte,
    kind: seq<Byte>,
    creator: seq<Byte>,
    flags: seq<Byte>,
    data: seq<Byte>,
    res: seq<Byte>,
    headerSum: seq<Byte>,
    dataSum: seq<Byte>,
    resSum: seq<Byte>)
  {
    ghost predicate Valid() {
      && |name| < 256 && |kind| == 4 && |creator| == 4 && |flags| == 2
      && |data| < UINT32 && |res| < UINT32
      && |headerSum| == 2 && |dataSum| == 2 && |resSum| == 2
    }
  }

  /** The header in front of the two lengths. */
  ghost function Heading(f: File): seq<Byte>
    requires f.Valid()
  {
    [|f.name|] + f.name + [f.version] + f.kind + f.creator + f.flags
  }

  ghost function Write(f: File): seq<Byte>
    requires f.Valid()
  {
    Heading(f) + (Be32(|f.data|) + (Be32(|f.res|) + (f.headerSum + (f.data + (f.dataSum + (f.res + f.resSum))))))
  }

  /** Where the parts of a file are. */
  lemma Parts(f: File)
    requires f.Valid()
    ensures var d, h := Write(f), |Heading(f)| + 10;
            && |Heading(f)| == |f.name| + 12 && d != [] && d[0] == |f.name|
            && |d| == h + |f.data| + 2 + |f.res| + 2
            && d[h - 10..h - 6] == Be32(|f.data|) && d[h - 6..h - 2] == Be32(|f.res|)
            && Slice(d, h, |f.data|) == f.data
            && Slice(d, h + |f.data| + 2, |f.res|) == f.res
  {
    hide Be32;
    var a := Heading(f);
    assert a[0] == |f.name|;
    Lies(a, Be32(|f.data|), Be32(|f.res|), f.headerSum, f.data, f.dataSum, f.res, f.resSum);
  }

  lemma Lies(a: seq<Byte>, n: seq<Byte>, m: seq<Byte>, s: seq<Byte>, x: seq<Byte>, t: seq<Byte>, y: seq<Byte>, u: seq<Byte>)
    requires a != []
    ensures var d := a + (n + (m + (s + (x + (t + (y + u))))));
            && d != [] && d[0] == a[0] && |d| == |a| + |n| + |m| + |s| + |x| + |t| + |y| + |u|
            && Slice(d, |a|, |n|) == n && Slice(d, |a| + |n|, |m|) == m
            && Slice(d, |a| + |n| + |m| + |s|, |x|) == x
            && Slice(d, |a| + |n| + |m| + |s| + |x| + |t|, |y|) == y
  {
    hide Slice;
    var d5 := t + (y + u);
    var d4 := x + d5;
    var d3 := m + (s + d4);
    var d2 := n + d3;
    Leads(y, u);
    Behind(t, y + u, 0, |y|);
    Behind(x, d5, |t|, |y|);
    Behind(s, d4, |x| + |t|, |y|);
    Behind(m, s + d4, |s| + |x| + |t|, |y|);
    Behind(n, d3, |m| + |s| + |x| + |t|, |y|);
    Behind(a, d2, |n| + |m| + |s| + |x| + |t|, |y|);
    Leads(x, d5);
    Behind(s, d4, 0, |x|);
    Behind(m, s + d4, |s|, |x|);
    Behind(n, d3, |m| + |s|, |x|);
    Behind(a, d2, |n| + |m| + |s|, |x|);
    Leads(m, s + d4);
    Behind(n, d3, 0, |m|);
    Behind(a, d2, |n|, |m|);
    Leads(n, d3);
    Behind(a, d2, 0, |n|);
  }

  lemma Leads(x: seq<Byte>, b: seq<Byte>)
    ensures Slice(x + b, 0, |x|) == x
  {}

  lemma Behind(a: seq<Byte>, b: seq<Byte>, k: nat, n: nat)
    ensures Slice(a + b, |a| + k, n) == Slice(b, k, n)
  {}

  /** What the extractor makes of a written file, whatever its name, type, creator and flags: the data fork unless it
      is over the limit, and then the resource fork if it has at least five bytes, is not over the limit and the
      data fork was found clean. */
  lemma Forks(f: File, limit: nat, infected: bool)
    requires f.Valid()
    ensures DataFork(Write(f), limit) == if |f.data| <= limit then f.data else []
    ensures ResourceFork(Write(f), limit, infected)
         == if |f.data| <= limit && !infected && 5 <= |f.res| <= limit then f.res else []
  {
    Parts(f);
    HeaderIs(f, limit);
    hide Be32, Write, Heading, HasHeader, HeaderLength, DataLength, ResourceLength, Slice;
  }

  lemma HeaderIs(f: File, limit: nat)
    requires f.Valid()
    ensures var d := Write(f);
            && HasHeader(d) && HeaderLength(d) == |Heading(f)| + 10 && DataLength(d) == |f.data|
            && ResourceLength(d, limit) == if |f.res| <= limit then |f.res| else 0
  {
    Parts(f);
    Be32RoundTrip(|f.data|);
    Be32RoundTrip(|f.res|);
    hide Be32, FromBe32, Write, Heading;
  }

  // ----- any layout

  predicate LineEnd(c: Byte) {
    c == RETURN || c == NEWLINE
  }

  /** A character of the encoded part: one of the alphabet, or one that is skipped. */
  predicate Belongs(c: Byte) {
    LineEnd(c) || c == COLON || SixOf(c).Value?
  }

  function Values(body: seq<Byte>): seq<Six> {
    if body == [] then []
    else
      var c := body[|body| - 1];
      Values(body[..|body| - 1]) + (if LineEnd(c) || c == COLON || SixOf(c).NoValue? then [] else [SixOf(c).six])
  }

  /** Text without a line end, one or more line ends, a colon, and the encoded part broken into lines at will. */
  ghost predicate Laid(banner: seq<Byte>, breaks: seq<Byte>, body: seq<Byte>) {
    && (forall i | 0 <= i < |banner| :: !LineEnd(banner[i]))
    && breaks != [] && (forall i | 0 <= i < |breaks| :: LineEnd(breaks[i]))
    && (forall i | 0 <= i < |body| :: Belongs(body[i]))
  }

  function Layout(banner: seq<Byte>, breaks: seq<Byte>, body: seq<Byte>): seq<Byte> {
    banner + breaks + [COLON] + body
  }

  lemma ScanNext(a: seq<Byte>, c: Byte)
    ensures ScanAll(a + [c]) == ScanChar(ScanAll(a), c)
  {
    assert (a + [c])[..|a|] == a;
  }

  lemma {:induction false} BannerScans(banner: seq<Byte>)
    requires forall i | 0 <= i < |banner| :: !LineEnd(banner[i])
    ensures ScanAll(banner) == Scan(false, false, false, [])
    decreases |banner|
  {
    if banner != [] {
      BannerScans(banner[..|banner| - 1]);
    }
  }

  lemma {:induction false} BreaksScan(banner: seq<Byte>, breaks: seq<Byte>)
    requires Laid(banner, breaks, [])
    ensures ScanAll(banner + breaks) == Scan(true, false, false, [])
    decreases |breaks|
  {
    hide ScanAll;
    var n := |breaks| - 1;
    ScanNext(banner + breaks[..n], breaks[n]);
    assert banner + breaks[..n] + [breaks[n]] == banner + breaks;
    if n == 0 {
      assert banner + breaks[..n] == banner;
      BannerScans(banner);
    } else {
      BreaksScan(banner, breaks[..n]);
    }
  }

  lemma {:induction false} BodyScans(banner: seq<Byte>, breaks: seq<Byte>, body: seq<Byte>)
    requires Laid(banner, breaks, body)
    ensures ScanAll(Layout(banner, breaks, body)) == Scan(true, true, false, Values(body))
    decreases |body|
  {
    hide ScanAll, SixOf;
    if body == [] {
      BreaksScan(banner, breaks);
      ScanNext(banner + breaks, COLON);
      assert Layout(banner, breaks, body) == banner + breaks + [COLON];
    } else {
      var n := |body| - 1;
      BodyScans(banner, breaks, body[..n]);
      ScanNext(Layout(banner, breaks, body[..n]), body[n]);
      assert Layout(banner, breaks, body) == Layout(banner, breaks, body[..n]) + [body[n]];
    }
  }

  /** Whatever precedes the encoded part and wherever its lines end, what was packed is decoded. */
  lemma AnyLayout(banner: seq<Byte>, breaks: seq<Byte>, body: seq<Byte>, s: seq<Byte>)
    requires Laid(banner, breaks, body) && Values(body) == Pack(Compress(s))
    ensures var input := Layout(banner, breaks, body); !ScanAll(input).broken && Decoded(input) == s
  {
    hide ScanAll, RunOn, Compress, Pack, Unpack, Values, Laid, Layout;
    BodyScans(banner, breaks, body);
    UnpackPack(Compress(s));
    ExpandCompress(Runs([], 0, false), s);
    assert [] + s == s;
  }

  /** Without the colon nothing is decoded. */
  lemma NoColon(banner: seq<Byte>, breaks: seq<Byte>, c: Byte, rest: seq<Byte>)
    requires Laid(banner, breaks, []) && c != COLON && !LineEnd(c)
    ensures var input := banner + breaks + [c] + rest; ScanAll(input).broken && Decoded(input) == []
  {
    hide ScanAll;
    BreaksScan(banner, breaks);
    ScanNext(banner + breaks, c);
    BrokenOn(banner + breaks + [c], rest);
  }

  lemma {:induction false} BrokenOn(a: seq<Byte>, rest: seq<Byte>)
    requires ScanAll(a).broken
    ensures ScanAll(a + rest) == ScanAll(a)
    decreases |rest|
  {
    hide ScanAll;
    if rest == [] {
      assert a + rest == a;
    } else {
      var n := |rest| - 1;
      BrokenOn(a, rest[..n]);
      ScanNext(a + rest[..n], rest[n]);
      assert a + rest[..n] + [rest[n]] == a + rest;
    }
  }

  /** Three bytes are the 24 bits of four values, in order; fewer bytes the leading ones. */
  lemma GroupIs(a: Six, b: Six, c: Six, d: Six)
    ensures Number(Unpack([a, b, c, d])) == ((a * 64 + b) * 64 + c) * 64 + d && |Unpack([a, b, c, d])| == 3
    ensures Number(Unpack([a, b, c])) == ((a * 64 + b) * 64 + c) / 4 && |Unpack([a, b, c])| == 2
    ensures Number(Unpack([a, b])) == (a * 64 + b) / 16 && |Unpack([a, b])| == 1
  {
    Grouped(a, b, c, d);
    hide Unpack, First, Second, Third;
    Numbers(First(a, b), Second(b, c), Third(c, d));
    Bytes(a, b, c, d);
  }

  function Number(s: seq<Byte>): nat {
    if s == [] then 0 else Number(s[..|s| - 1]) * 256 + s[|s| - 1]
  }

  lemma Numbers(x: Byte, y: Byte, z: Byte)
    ensures Number([x]) == x && Number([x, y]) == x * 256 + y && Number([x, y, z]) == (x * 256 + y) * 256 + z
  {
    assert [x, y, z][..2] == [x, y] && [x, y][..1] == [x] && [x][..0] == [];
  }

  lemma Grouped(a: Six, b: Six, c: Six, d: Six)
    ensures Unpack([a, b, c, d]) == [First(a, b), Second(b, c), Third(c, d)]
    ensures Unpack([a, b]) == [First(a, b)] && Unpack([a, b, c]) == [First(a, b), Second(b, c)]
  {
    hide First, Second, Third;
    assert [a, b, c, d][4..] == [];
  }

  lemma Bytes(a: Six, b: Six, c: Six, d: Six)
    ensures First(a, b) == (a * 64 + b) / 16
    ensures First(a, b) * 256 + Second(b, c) == ((a * 64 + b) * 64 + c) / 4
    ensures (First(a, b) * 256 + Second(b, c)) * 256 + Third(c, d) == ((a * 64 + b) * 64 + c) * 64 + d
  {
    Bits(a, b / 16, b % 16, c / 4, c % 4, d);
  }

  lemma Bits(a: nat, p: nat, q: nat, r: nat, s: nat, d: nat)
    requires a < 64 && p < 4 && q < 16 && r < 16 && s < 4 && d < 64
    ensures (a * 64 + (p * 16 + q)) / 16 == a * 4 + p
    ensures ((a * 64 + (p * 16 + q)) * 64 + (r * 4 + s)) / 4 == (a * 4 + p) * 256 + (q * 16 + r)
    ensures ((a * 4 + p) * 256 + (q * 16 + r)) * 256 + (s * 64 + d) == ((a * 64 + (p * 16 + q)) * 64 + (r * 4 + s)) * 64 + d
  {}

  /** A byte followed by the mark and a count stands for that many of it; a count of zero for the mark itself. */
  lemma RunIs(b: Byte, n: Byte)
    requires b != RUN
    ensures RunAll([b, RUN, n]).out == if n == 0 then [b, RUN] else Copies(b, n)
  {
    assert [b, RUN, n][..2] == [b, RUN] && [b, RUN][..1] == [b] && [b][..0] == [];
    assert RunOn(Runs([], 0, false), []) == Runs([], 0, false) && [] + [b] == [b];
    assert RunAll([b]) == Runs([b], b, false);
    assert RunAll([b, RUN]) == Runs([b], b, true);
    if n > 0 {
      assert [b] + Copies(b, n - 1) == Copies(b, n);
    }
  }

  // ----- whole files

  /** Written, encoded in any layout, and extracted again. */
  method Restore(ghost f: File, banner: seq<Byte>, breaks: seq<Byte>, body: seq<Byte>, limit: nat, verdict: bool)
    returns (data: seq<Byte>, res: seq<Byte>)
    requires f.Valid() && Laid(banner, breaks, body) && Values(body) == Pack(Compress(Write(f)))
    ensures data == if |f.data| <= limit then f.data else []
    ensures res == if |f.data| <= limit && !verdict && 5 <= |f.res| <= limit then f.res else []
  {
    hide Write, Decoded, ScanAll, DataFork, ResourceFork, Laid, Values, Pack, Compress;
    var x := new Extractor(limit, verdict);
    x.Extract(Layout(banner, breaks, body));
    AnyLayout(banner, breaks, body, Write(f));
    Forks(f, limit, verdict);
    data, res := x.data, x.res;
  }
}

/** clamdscan's side of the conversation: framing a file and taking replies apart into lines. */
module Clamdscan {
  import opened Wire
  import opened Session
  import opened Server
  import opened Milter

  const BUFSIZ: nat := 8192

  const INSTREAM: seq<Byte> := Ascii("INSTREAM")

  /** send_stream: `pieces` is what successive reads of the file return, and `failed` tells whether the last
      of them failed rather than found the end. */
  method SendStream(pieces: seq<seq<Byte>>, failed: bool, maxstream: nat)
    returns (ok: bool, wire: seq<Byte>, ghost frames: seq<seq<Byte>>)
    requires forall i | 0 <= i < |pieces| :: 0 < |pieces[i]| <= BUFSIZ - 4
    ensures ok <==> !failed || (|Concat(pieces)| >= maxstream && pieces != [])
    ensures forall i | 0 <= i < |frames| :: 0 < |frames[i]| < UINT32
    ensures maxstream > 0 ==> Concat(frames) == Concat(pieces)[..Min(maxstream, |Concat(pieces)|)]
    ensures maxstream > 0 ==> wire == [LETTER_Z] + INSTREAM + [0] + Frames(frames) + (if ok then Be32(0) else [])
    ensures maxstream == 0 && pieces != [] ==> wire == [LETTER_Z] + INSTREAM + [0] + Be32(0) + Be32(0)
  {
    hide Frames, Concat, Be32, Ascii;
    var head: seq<Byte> := [LETTER_Z] + INSTREAM + [0];
    wire, frames := head, [];
    var todo := maxstream;
    var i := 0;
    ConcatNone();
    FramesNone();
    ConcatPrefix(pieces, 0);
    var more := true;
    while more && i < |pieces|
      invariant 0 <= i <= |pieces| && forall k | 0 <= k < |frames| :: 0 < |frames[k]| < UINT32
      invariant maxstream > 0 ==> wire == head + Frames(frames)
      invariant maxstream > 0 ==> Concat(frames) == Concat(pieces[..i])[..Min(maxstream, |Concat(pieces[..i])|)]
      invariant maxstream > 0 ==> todo == maxstream - |Concat(frames)| && (more <==> todo > 0)
      invariant maxstream == 0 ==> todo == 0 && wire == (if more then head else head + Be32(0)) && (more <==> i == 0)
    {
      var p := pieces[i];
      var len: nat := if |p| > todo then todo else |p|;
      ConcatPrefix(pieces, i);
      FramesAppendMaybe(frames, p[..len]);
      wire := wire + Be32(len) + p[..len];
      if maxstream > 0 {
        ConcatAppend(frames, p[..len]);
        frames := frames + [p[..len]];
      }
      todo := todo - len;
      if todo == 0 {
        more := false;
      }
      i := i + 1;
    }
    ConcatLength(pieces, i);
    assert pieces[..|pieces|] == pieces;
    if more && failed {
      return false, wire, frames;
    }
    ok := true;
    wire := wire + Be32(0);
  }

  lemma FramesNone()
    ensures Frames([]) == []
  {}

  lemma ConcatPrefix(pieces: seq<seq<Byte>>, i: nat)
    requires i <= |pieces|
    ensures i < |pieces| ==> Concat(pieces[..i + 1]) == Concat(pieces[..i]) + pieces[i]
    ensures i == 0 ==> Concat(pieces[..i]) == []
  {
    if i < |pieces| {
      assert pieces[..i + 1] == pieces[..i] + [pieces[i]];
      ConcatAppend(pieces[..i], pieces[i]);
    }
    if i == 0 {
      assert pieces[..i] == [];
    }
  }

  lemma FramesAppendMaybe(parts: seq<seq<Byte>>, p: seq<Byte>)
    requires (forall i | 0 <= i < |parts| :: 0 < |parts[i]| < UINT32) && |p| < UINT32
    ensures p != [] ==> Frames(parts + [p]) == Frames(parts) + Be32(|p|) + p
  {
    if p != [] {
      FramesAppend(parts, p);
      assert Frames(parts) + Be32(|p|) + p == Frames(parts) + Frame(p);
    }
  }

  /** A longer prefix has a longer concatenation. */
  lemma {:induction false} ConcatLength(pieces: seq<seq<Byte>>, i: nat)
    requires i <= |pieces|
    ensures |Concat(pieces[..i])| <= |Concat(pieces)| && Concat(pieces[..i]) == Concat(pieces)[..|Concat(pieces[..i])|]
    decreases |pieces| - i
  {
    if i == |pieces| {
      assert pieces[..i] == pieces;
    } else {
      ConcatLength(pieces, i + 1);
      ConcatPrefix(pieces, i);
    }
  }

  lemma ClassifyInstream()
    ensures Classify(INSTREAM, 0) == Instream
  {
    assert Spells(INSTREAM, 14);
    Meaning(INSTREAM);
  }

  /** A file sent by clamdscan is handed on whole, or up to maxstream bytes of it. */
  lemma {:induction false} StreamArrives(frames: seq<seq<Byte>>, env: Env)
    requires (forall i | 0 <= i < |frames| :: 0 < |frames[i]| < UINT32) && |Concat(frames)| <= env.limit
    ensures var d := Decode(START, [LETTER_Z] + INSTREAM + [0] + Frames(frames) + Be32(0), env);
            d.out == [Handed(0, Instream, INSTREAM), Streamed(0, Concat(frames))] && d.rest == []
  {
    hide Step, Frames, Concat, Be32, Classify, Ascii, Decode;
    var body := Frames(frames) + Be32(0);
    assert [LETTER_Z] + INSTREAM + [0] + Frames(frames) + Be32(0) == HEAD + body;
    HeadDecode(body, env);
    FramesArrive(Streaming(env), frames, env);
  }

  const HEAD: seq<Byte> := [LETTER_Z] + INSTREAM + [0]

  lemma HeadStep(rest: seq<Byte>, env: Env)
    ensures Step(START, HEAD + rest, env) == Next(Streaming(env), 10, [Handed(0, Instream, INSTREAM)])
    ensures (HEAD + rest)[10..] == rest
  {
    var b := HEAD + rest;
    assert |INSTREAM| == 8;
    NoNulInside();
    FirstZero(b, 9);
    assert b[1..9] == INSTREAM && b[10..] == rest;
    ClassifyInstream();
    hide Ascii, Classify, EndAt;
    assert Prefixed(b) && Unchomped(b, 9);
  }

  lemma HeadDecode(rest: seq<Byte>, env: Env)
    ensures var d := Decode(Streaming(env), rest, env);
            Decode(START, HEAD + rest, env) == Result(d.state, [Handed(0, Instream, INSTREAM)] + d.out, d.rest)
  {
    hide Step, Ascii;
    HeadStep(rest, env);
  }

  lemma NoNulInside()
    ensures forall i | 0 <= i < |INSTREAM| :: INSTREAM[i] != 0
  {}

  lemma FirstZero(b: seq<Byte>, n: nat)
    requires n < |b| && b[n] == 0 && forall i | 0 <= i < n :: b[i] != 0
    ensures EndAt(b, 0) == n
  {}

  /** A limit of zero sends two end marks.  The first ends the connection, so the second is never looked at,
      whether it comes in the same read or not. */
  lemma EmptyArrives(pieces: seq<seq<Byte>>, env: Env)
    requires Concat(pieces) == HEAD + Be32(0) + Be32(0) && pieces != []
    ensures Feed(Result(START, [], []), pieces, env).out == [Handed(0, Instream, INSTREAM), Streamed(0, [])]
  {
    hide Feed, Decode, Concat, Ascii, Late, Step;
    assert HEAD + Be32(0) + Be32(0) == HEAD + (Be32(0) + Be32(0));
    HeadDecode(Be32(0) + Be32(0), env);
    EmptyStream(env);
    Segmentation(START, pieces, env);
  }

  lemma EmptyStream(env: Env)
    ensures var d := Decode(Streaming(env), Be32(0) + Be32(0), env);
            !d.state.open && d.state.mode == Done && d.out == [Streamed(0, [])]
  {
    var b := Be32(0) + Be32(0);
    assert b[..4] == Be32(0);
    Be32RoundTrip(0);
    var t := Step(Streaming(env), b, env).state;
    assert Decode(t, b[4..], env) == Result(t, [], b[4..]);
  }

  /** clamdscan and a server: the file goes out, arrives in reads of any size, and comes out as one stream. */
  method Upload(pieces: seq<seq<Byte>>, maxstream: nat, c: Connection)
    requires maxstream > 0 && forall i | 0 <= i < |pieces| :: 0 < |pieces[i]| <= BUFSIZ - 4
    requires c.Valid() && c.St() == START && c.out == [] && c.off == 0 && c.buffer.Length > 10
    requires c.env.limit >= Min(maxstream, |Concat(pieces)|)
    modifies c, c.buffer
    ensures var m := Concat(pieces);
            c.out == [Handed(0, Instream, INSTREAM), Streamed(0, m[..Min(maxstream, |m|)])]
  {
    hide Step, Decode, Frames, Concat, Be32, Ascii, FitsBuffer;
    var ok, wire, frames := SendStream(pieces, false, maxstream);
    StreamArrives(frames, c.env);
    forall rest {
      HeadDecode(rest, c.env);
    }
    assert wire == HEAD + (Frames(frames) + Be32(0));
    RequestFits(HEAD, Frames(frames) + Be32(0), c.env, c.buffer.Length - 1);
    TwoActions(INSTREAM, Concat(frames));
    ServeAll(c, wire);
  }

  // ----- reply lines

  /** A connection on which `incoming` is still to arrive.  Each recv returns some of it, at least one byte
      and at most as many as there is room for; nothing means that the peer has closed. */
  class Socket {
    var incoming: seq<Byte>

    method Recv(room: nat) returns (data: seq<Byte>)
      requires room > 0
      modifies this
      ensures |data| <= room && old(incoming) == data + incoming
      ensures data == [] <==> old(incoming) == []
    {
      if incoming == [] {
        return [];
      }
      var n: nat :| 0 < n <= room && n <= |incoming|;
      data := incoming[..n];
      incoming := incoming[n..];
    }
  }

  class Rcvln {
    const sock: Socket
    const buf: array<Byte>
    var bol: nat    // where the current line begins
    var cur: nat    // where scanning goes on
    var r: nat      // bytes received from cur on

    ghost predicate Valid()
      reads this
    {
      && buf.Length > 0 && bol <= cur && cur + r <= buf.Length
      && (r == 0 ==> bol == 0 && cur < buf.Length) && (r > 0 ==> bol == cur)
    }

    /** No terminator has been seen in the part already scanned. */
    ghost predicate Scanned()
      requires bol <= cur <= buf.Length
      reads this, buf
    {
      forall i | bol <= i < cur :: buf[i] != 0
    }

    /** All bytes not yet returned as part of a line. */
    ghost function Unread(): seq<Byte>
      requires bol <= cur + r <= buf.Length
      reads this, buf, sock
    {
      buf[bol..cur + r] + sock.incoming
    }

    /** recvlninit */
    constructor (s: Socket, size: nat)
      requires size > 0
      ensures sock == s && buf.Length == size && fresh(buf) && Valid() && Scanned() && Unread() == s.incoming
    {
      sock := s;
      buf := new Byte[size];
      bol, cur, r := 0, 0, 0;
      new;
      assert buf[0..0] == [];
    }

    /** Copy what was received behind cur. */
    method Append(bytes: seq<Byte>)
      requires bol <= cur && cur + |bytes| <= buf.Length
      modifies buf
      ensures buf[bol..cur + |bytes|] == old(buf[bol..cur]) + bytes
    {
      ghost var before := buf[bol..cur];
      var i := 0;
      while i < |bytes|
        invariant 0 <= i <= |bytes| && buf[bol..cur + i] == before + bytes[..i]
      {
        ghost var now := buf[bol..cur + i];
        buf[cur + i] := bytes[i];
        assert buf[bol..cur + (i + 1)] == now + [bytes[i]];
        assert bytes[..i + 1] == bytes[..i] + [bytes[i]];
        i := i + 1;
      }
    }

    /** Receive into the room behind cur. */
    method Receive() returns (got: nat)
      requires Valid() && Scanned() && r == 0
      modifies this`r, buf, sock
      ensures got == r && bol <= cur && cur + r <= buf.Length && Scanned() && Unread() == old(Unread())
      ensures got == 0 <==> old(sock.incoming) == []
      ensures got == 0 ==> Valid()
    {
      ghost var before := buf[bol..cur];
      var data := sock.Recv(buf.Length - cur);
      Append(data);
      forall k | bol <= k < cur ensures buf[k] != 0 {
        assert buf[k] == buf[bol..cur + |data|][k - bol] == before[k - bol];
      }
      r := |data|;
      got := r;
      Regroup(before, data, sock.incoming);
    }

    /** memchr from cur */
    method FindEnd() returns (found: bool, eol: nat)
      requires bol <= cur && cur + r <= buf.Length && Scanned()
      ensures found ==> cur <= eol < cur + r && NulAt(buf[bol..cur + r]) == eol - bol
      ensures !found ==> forall i | bol <= i < cur + r :: buf[i] != 0
    {
      eol := cur;
      while eol < cur + r && buf[eol] != 0
        invariant cur <= eol <= cur + r && forall i | bol <= i < eol :: buf[i] != 0
      {
        eol := eol + 1;
      }
      found := eol < cur + r;
      if found {
        FirstZero(buf[bol..cur + r], eol - bol);
      }
    }

    /** Move the incomplete line to the front of the buffer. */
    method ToFront(len: nat)
      requires bol + len <= buf.Length
      modifies this`bol, buf
      ensures bol == 0 && buf[..len] == old(buf[bol..bol + len])
    {
      ghost var line := buf[bol..bol + len];
      if bol != 0 {
        var i := 0;
        while i < len
          invariant 0 <= i <= len && buf[..i] == line[..i] && buf[bol + i..bol + len] == line[i..]
          modifies buf
        {
          assert buf[bol + i] == line[i];
          buf[i] := buf[bol + i];
          assert buf[..i + 1] == line[..i + 1];
          i := i + 1;
        }
        bol := 0;
      }
    }

    /** Cut the line that ends at eol off the front. */
    method TakeLine(eol: nat) returns (ret: int, line: seq<Byte>)
      requires bol <= cur <= eol < cur + r <= buf.Length && NulAt(buf[bol..cur + r]) == eol - bol
      modifies this
      ensures var s := old(Unread());
              && NulAt(s) == eol - old(bol) < |s| && ret == NulAt(s) + 1 == |line| && line == s[..ret]
              && Valid() && Scanned() && Unread() == s[ret..]
    {
      hide NulAt;
      ghost var s := Unread();
      NulAtFound(buf[bol..cur + r], sock.incoming);
      ghost var rest := buf[eol + 1..cur + r];
      line := buf[bol..eol + 1];
      ret := eol + 1 - bol;
      assert s == line + (rest + sock.incoming);
      r := r - (eol + 1 - cur);
      if r > 0 {
        bol, cur := eol + 1, eol + 1;
      } else {
        bol, cur := 0, 0;
        assert rest == [] && buf[0..0] == [];
      }
    }

    /** Keep an incomplete line and make room behind it, unless it fills the buffer. */
    method KeepPartial() returns (full: bool)
      requires bol <= cur && 0 < r && cur + r <= buf.Length && forall i | bol <= i < cur + r :: buf[i] != 0
      modifies this, buf
      ensures full <==> old(cur + r - bol) == buf.Length
      ensures !full ==> Valid() && Scanned() && r == 0 && Unread() == old(Unread())
    {
      ghost var partial := buf[bol..cur + r];
      r := r + (cur - bol);
      if r == buf.Length {
        return true;
      }
      ToFront(r);
      cur := bol + r;
      r := 0;
      assert buf[bol..cur + r] == partial;
      forall i | bol <= i < cur ensures buf[i] != 0 {
        assert buf[i] == buf[bol..cur + r][i] == partial[i];
      }
      return false;
    }

    /** recvln: the length of the next line and the line with its terminator; 0 at the end, -1 on error */
    method Next() returns (ret: int, line: seq<Byte>)
      requires Valid() && Scanned()
      modifies this, buf, sock
      ensures var s := old(Unread());
              if NulAt(s) < |s| && NulAt(s) < buf.Length then
                && ret == NulAt(s) + 1 == |line| && line == s[..ret]
                && Valid() && Scanned() && Unread() == s[ret..]
              else ret == if s == [] then 0 else -1
    {
      hide NulAt;
      ghost var s := Unread();
      while true
        invariant Valid() && Scanned() && Unread() == s
        decreases |sock.incoming|, r
      {
        if r == 0 {
          var got := Receive();
          if got == 0 {
            assert s == buf[bol..cur];
            NoneBefore(s, |s|);
            return if cur != 0 then -1 else 0, [];
          }
        }
        var found, eol := FindEnd();
        if found {
          ret, line := TakeLine(eol);
          return;
        }
        ghost var partial := buf[bol..cur + r];
        assert s == partial + sock.incoming;
        var full := KeepPartial();
        if full {
          NoneBefore(s, |partial|);
          return -1, [];
        }
      }
    }
  }

  lemma NoneBefore(s: seq<Byte>, n: nat)
    requires n <= |s| && forall i | 0 <= i < n :: s[i] != 0
    ensures NulAt(s) >= n
  {}

  /** The terminated lines of s, as long as each has at most max bytes with its terminator. */
  function Lines(s: seq<Byte>, max: nat): seq<seq<Byte>>
    decreases |s|
  {
    var n := NulAt(s);
    if n < |s| && n < max then [s[..n + 1]] + Lines(s[n + 1..], max) else []
  }

  /** s has been taken apart into `lines`, up to `rest`. */
  ghost predicate Apart(s: seq<Byte>, lines: seq<seq<Byte>>, rest: seq<Byte>, max: nat) {
    s == Concat(lines) + rest && Lines(s, max) == lines + Lines(rest, max)
  }

  lemma {:induction false} ApartNext(s: seq<Byte>, lines: seq<seq<Byte>>, rest: seq<Byte>, max: nat)
    requires Apart(s, lines, rest, max)
    ensures var n := NulAt(rest);
            if n < |rest| && n < max then Apart(s, lines + [rest[..n + 1]], rest[n + 1..], max)
            else Lines(s, max) == lines
  {
    hide Concat, NulAt, Lines;
    var n := NulAt(rest);
    LinesNext(rest, max);
    if n < |rest| && n < max {
      var line, after := rest[..n + 1], rest[n + 1..];
      ConcatAppend(lines, line);
      assert rest == line + after;
      Regroup(Concat(lines), line, after);
      Regroup(lines, [line], Lines(after, max));
    }
  }

  lemma Regroup<T>(a: seq<T>, b: seq<T>, c: seq<T>)
    ensures a + (b + c) == (a + b) + c
  {}

  lemma {:induction false} LinesNext(s: seq<Byte>, max: nat)
    ensures var n := NulAt(s);
            Lines(s, max) == if n < |s| && n < max then [s[..n + 1]] + Lines(s[n + 1..], max) else []
  {
    hide NulAt;
  }

  lemma {:induction false} ApartStart(s: seq<Byte>, max: nat)
    ensures Apart(s, [], s, max)
  {}

  method OneLine(rc: Rcvln, lines: seq<seq<Byte>>, ghost s: seq<Byte>, ghost rest: seq<Byte>)
    returns (lines': seq<seq<Byte>>, last: int, ghost rest': seq<Byte>)
    requires rc.Valid() && rc.Scanned() && rest == rc.Unread() && Apart(s, lines, rest, rc.buf.Length)
    modifies rc, rc.buf, rc.sock
    ensures Apart(s, lines', rest', rc.buf.Length)
    ensures last > 0 ==> rc.Valid() && rc.Scanned() && rest' == rc.Unread() && |rest'| < |rest|
    ensures last <= 0 ==> Lines(s, rc.buf.Length) == lines' && (last == 0 ==> rest' == [])
  {
    hide NulAt, Apart, Lines;
    ApartNext(s, lines, rest, rc.buf.Length);
    var line;
    last, line := rc.Next();
    if last > 0 {
      return lines + [line], last, rest[last..];
    }
    return lines, last, rest;
  }

  /** Calling recvln until it fails returns the lines of the byte stream, in order, however it arrives. */
  method AllLines(rc: Rcvln) returns (lines: seq<seq<Byte>>, last: int)
    requires rc.Valid() && rc.Scanned()
    modifies rc, rc.buf, rc.sock
    ensures lines == Lines(old(rc.Unread()), rc.buf.Length) && last <= 0
    ensures last == 0 ==> Concat(lines) == old(rc.Unread())
  {
    hide NulAt, Apart, Lines;
    ghost var s, rest := rc.Unread(), rc.Unread();
    lines := [];
    last := 1;
    ApartStart(s, rc.buf.Length);
    while last > 0
      invariant Apart(s, lines, rest, rc.buf.Length)
      invariant if last > 0 then rc.Valid() && rc.Scanned() && rest == rc.Unread()
                else Lines(s, rc.buf.Length) == lines && (last == 0 ==> rest == [])
      decreases last > 0, |rest|
    {
      lines, last, rest := OneLine(rc, lines, s, rest);
    }
    ApartEnd(s, lines, rest, rc.buf.Length);
  }

  lemma {:induction false} ApartEnd(s: seq<Byte>, lines: seq<seq<Byte>>, rest: seq<Byte>, max: nat)
    requires Apart(s, lines, rest, max)
    ensures rest == [] ==> Concat(lines) == s
  {}
}

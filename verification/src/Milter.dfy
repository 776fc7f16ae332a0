/** The sending side: how clamav-milter and clamdscan frame a message for clamd. */
module Milter {
  import opened Wire
  import opened Session
  import opened Server

  const CLAMFIBUFSZ: nat := 1424

  const PREAMBLE: seq<Byte> := Ascii("From clamav-milter\n")

  function Min(x: nat, y: nat): nat {
    if x < y then x else y
  }

  /** What is sent of the message `all` under the limit max.  The preamble is sent while the count is one
      ahead, so a limit below twenty cuts it one byte short. */
  function Expected(max: nat, all: seq<Byte>): seq<Byte> {
    if all == [] || max == 0 then []
    else
      var m := PREAMBLE[..Min(|PREAMBLE|, max - 1)] + all;
      m[..Min(max, |m|)]
  }

  /** With room for the preamble and one more byte, that is the start of preamble and message. */
  lemma ExpectedIsPrefix(max: nat, all: seq<Byte>)
    requires max >= 20 && all != []
    ensures var m := PREAMBLE + all; Expected(max, all) == m[..Min(max, |m|)]
  {
    assert |PREAMBLE| == 19;
    assert PREAMBLE[..19] == PREAMBLE;
  }

  /** Below that it is so exactly when the first byte of the message continues the preamble. */
  lemma ExpectedIsNoPrefix(max: nat, all: seq<Byte>)
    requires 0 < max < 20 && all != []
    ensures var m := PREAMBLE + all;
            Expected(max, all) == m[..Min(max, |m|)] <==> all[0] == PREAMBLE[max - 1]
  {
    assert |PREAMBLE| == 19;
    var e, p := Expected(max, all), (PREAMBLE + all)[..max];
    assert e == PREAMBLE[..max - 1] + [all[0]];
    assert p == PREAMBLE[..max - 1] + [PREAMBLE[max - 1]];
    assert e[max - 1] == all[0] && p[max - 1] == PREAMBLE[max - 1];
  }

  class Clamfi {
    const maxfilesize: nat
    const buffer: array<Byte>
    var totsz: nat
    var bufsz: nat
    var wire: seq<Byte>
    ghost var frames: seq<seq<Byte>>

    ghost predicate Valid()
      reads this, buffer
    {
      && maxfilesize < UINT32 && buffer.Length == CLAMFIBUFSZ && bufsz < CLAMFIBUFSZ
      && (forall i | 0 <= i < |frames| :: 0 < |frames[i]| < UINT32)
      && wire == Frames(frames)
    }

    /** Everything taken over so far, sent or not. */
    ghost function Payload(): seq<Byte>
      requires bufsz <= buffer.Length
      reads this, buffer
    {
      Concat(frames) + buffer[..bufsz]
    }

    constructor (max: nat)
      requires max < UINT32
      ensures Valid() && Payload() == [] && totsz == 0 && maxfilesize == max && fresh(buffer)
    {
      maxfilesize := max;
      buffer := new Byte[CLAMFIBUFSZ];
      totsz, bufsz, wire, frames := 0, 0, [], [];
    }

    /** nc_send of a length and as many bytes */
    method SendFrame(p: seq<Byte>)
      requires Valid() && 0 < |p| < UINT32
      modifies this`wire, this`frames
      ensures Valid() && frames == old(frames) + [p] && Concat(frames) == old(Concat(frames)) + p
    {
      wire := wire + Be32(|p|) + p;
      FramesAppend(frames, p);
      ConcatAppend(frames, p);
      frames := frames + [p];
      assert wire == old(wire) + Frame(p);
    }

    method Fill(p: seq<Byte>)
      requires buffer.Length == CLAMFIBUFSZ && bufsz + |p| <= CLAMFIBUFSZ
      modifies buffer
      ensures buffer[..bufsz + |p|] == old(buffer[..bufsz]) + p
    {
      var i := 0;
      while i < |p|
        invariant 0 <= i <= |p| && buffer[..bufsz + i] == old(buffer[..bufsz]) + p[..i]
      {
        ghost var before := buffer[..bufsz + i];
        buffer[bufsz + i] := p[i];
        assert buffer[..bufsz + (i + 1)] == before + [p[i]];
        assert p[..i + 1] == p[..i] + [p[i]];
        i := i + 1;
      }
    }

    /** Fill the buffer up, send it and keep the rest. */
    method Overflow(p: seq<Byte>)
      requires Valid() && CLAMFIBUFSZ - bufsz <= |p| < CLAMFIBUFSZ
      modifies this`bufsz, this`wire, this`frames, buffer
      ensures Valid() && Payload() == old(Payload()) + p
    {
      hide Frames, Concat;
      ghost var before, sent := Payload(), Concat(frames);
      var room := CLAMFIBUFSZ - bufsz;
      Fill(p[..room]);
      assert buffer[..] == buffer[..bufsz + room];
      SendFrame(buffer[..]);
      assert Concat(frames) == before + p[..room];
      bufsz := 0;
      Fill(p[room..]);
      bufsz := |p| - room;
      assert buffer[..bufsz] == p[room..];
      assert (before + p[..room]) + p[room..] == before + p;
    }

    /** Too long for the buffer: send what was collected and then this. */
    method SendBoth(p: seq<Byte>)
      requires Valid() && 0 < |p| < UINT32
      modifies this`bufsz, this`wire, this`frames
      ensures Valid() && Payload() == old(Payload()) + p
    {
      hide Frames, Concat;
      ghost var before := Payload();
      if bufsz > 0 {
        SendFrame(buffer[..bufsz]);
      }
      assert Concat(frames) == before;
      SendFrame(p);
      bufsz := 0;
      assert buffer[..0] == [];
      assert Payload() == Concat(frames);
    }

    /** The streaming half of sendchunk: collect, fill up and send, or send at once. */
    method Put(p: seq<Byte>)
      requires Valid() && 0 < |p| < UINT32
      modifies this`bufsz, this`wire, this`frames, buffer
      ensures Valid() && Payload() == old(Payload()) + p
    {
      hide Frames, Concat;
      ghost var before := Payload();
      if |p| < CLAMFIBUFSZ - bufsz {
        Fill(p);
        bufsz := bufsz + |p|;
        assert Payload() == before + p;
      } else if |p| < CLAMFIBUFSZ {
        Overflow(p);
      } else {
        SendBoth(p);
      }
    }

    /** sendchunk on a connection to a remote clamd.  `seen` is the message before this fragment. */
    method SendChunk(body: seq<Byte>, ghost seen: seq<Byte>)
      requires Valid() && Payload() == Expected(maxfilesize, seen) && totsz == |Payload()|
      requires seen == [] ==> totsz == 0
      modifies this`totsz, this`bufsz, this`wire, this`frames, buffer
      ensures Valid() && Payload() == Expected(maxfilesize, seen + body) && totsz == |Payload()|
    {
      hide Frames, Concat, Expected, Ascii;
      ExpectedGrows(maxfilesize, seen, body);
      SomethingSent(maxfilesize, seen);
      if totsz >= maxfilesize || |body| == 0 {
        assert |body| == 0 ==> seen + body == seen;
        return;
      }
      if totsz == 0 {
        totsz := 1;
        Nested(PREAMBLE);
        totsz := totsz - 1;
        assert Payload() == PREAMBLE[..Min(|PREAMBLE|, maxfilesize - 1)];
      }
      Rest(body);
    }

    /** What sendchunk does once the preamble is out of the way. */
    method Rest(body: seq<Byte>)
      requires Valid() && totsz < maxfilesize && body != []
      modifies this`totsz, this`bufsz, this`wire, this`frames, buffer
      ensures Valid() && totsz == Min(old(totsz) + |body|, maxfilesize)
      ensures Payload() == old(Payload()) + body[..totsz - old(totsz)]
    {
      hide Frames, Concat;
      var len := if totsz + |body| > maxfilesize then maxfilesize - totsz else |body|;
      totsz := totsz + len;
      Put(body[..len]);
    }

    /** The call of sendchunk for the preamble. */
    method Nested(body: seq<Byte>)
      requires Valid() && totsz > 0 && body != []
      modifies this`totsz, this`bufsz, this`wire, this`frames, buffer
      ensures Valid()
      ensures totsz == if old(totsz) >= maxfilesize then old(totsz) else Min(old(totsz) + |body|, maxfilesize)
      ensures Payload() == old(Payload()) + body[..totsz - old(totsz)]
    {
      hide Frames, Concat;
      if totsz >= maxfilesize || |body| == 0 {
        assert Payload() == Payload() + body[..0];
        return;
      }
      Rest(body);
    }

    /** The flush in clamfi_eom: what is still buffered, and the end mark. */
    method EndOfMessage()
      requires Valid() && totsz > 0
      modifies this`wire, this`frames, this`bufsz
      ensures (forall i | 0 <= i < |frames| :: 0 < |frames[i]| < UINT32)
      ensures Concat(frames) == old(Payload()) && wire == Frames(frames) + Be32(0)
    {
      if bufsz > 0 {
        SendFrame(buffer[..bufsz]);
      } else {
        assert buffer[..0] == [];
      }
      wire := wire + Be32(0);
    }
  }

  lemma {:induction false} FramesAppend(parts: seq<seq<Byte>>, p: seq<Byte>)
    requires (forall i | 0 <= i < |parts| :: 0 < |parts[i]| < UINT32) && 0 < |p| < UINT32
    ensures Frames(parts + [p]) == Frames(parts) + Frame(p)
  {
    if parts == [] {
      assert (parts + [p])[1..] == [];
      assert Frames([p]) == Frame(p) + Frames([p][1..]);
    } else {
      FramesAppend(parts[1..], p);
      assert (parts + [p])[1..] == parts[1..] + [p];
    }
  }

  lemma SomethingSent(max: nat, seen: seq<Byte>)
    ensures max > 0 && seen != [] ==> Expected(max, seen) != []
    ensures Expected(max, []) == []
  {
    if max > 0 && seen != [] {
      assert |PREAMBLE[..Min(|PREAMBLE|, max - 1)] + seen| > 0;
    }
  }

  /** One more fragment: nothing once the limit is reached, else what fits. */
  lemma ExpectedGrows(max: nat, seen: seq<Byte>, body: seq<Byte>)
    ensures |Expected(max, seen)| <= max
    ensures |Expected(max, seen)| == max ==> Expected(max, seen + body) == Expected(max, seen)
    ensures seen != [] && |Expected(max, seen)| < max ==>
              Expected(max, seen + body)
                == Expected(max, seen) + body[..Min(max - |Expected(max, seen)|, |body|)]
    ensures seen == [] && body != [] && max > 0 ==>
              var p := PREAMBLE[..Min(|PREAMBLE|, max - 1)];
              Expected(max, seen + body) == p + body[..Min(max - |p|, |body|)]
  {
  }

  // ----- end to end

  /** The stream reader of clamd, waiting for the first length. */
  ghost predicate Waiting(s: State) {
    s.open && s.mode == Stream && s.chunk == 0 && s.dump == []
  }

  lemma DecodeEnd(s: State, env: Env)
    requires s.open && s.mode == Stream && s.chunk == 0
    ensures Decode(s, Be32(0), env).out == [Streamed(s.id, s.dump)] && Decode(s, Be32(0), env).rest == []
  {
    assert Be32(0)[..4] == Be32(0) && Be32(0)[4..] == [];
    Be32RoundTrip(0);
    var t := Step(s, Be32(0), env).state;
    assert Decode(t, [], env) == Result(t, [], []);
  }

  /** What was framed arrives: clamd hands on one stream, the concatenation of the chunks. */
  lemma FramesArrive(s: State, frames: seq<seq<Byte>>, env: Env)
    requires Waiting(s) && (forall i | 0 <= i < |frames| :: 0 < |frames[i]| < UINT32) && |Concat(frames)| <= s.quota
    ensures var d := Decode(s, Frames(frames) + Be32(0), env); d.out == [Streamed(s.id, Concat(frames))] && d.rest == []
  {
    hide Decode, Frames, Concat, Be32;
    RunFrames(s, frames, Be32(0), env);
    var t := s.(quota := s.quota - |Concat(frames)|, dump := s.dump + Concat(frames));
    assert [] + Concat(frames) == Concat(frames);
    DecodeEnd(t, env);
  }

  const REQUEST: seq<Byte> := [LETTER_N] + Ascii("INSTREAM") + [NEWLINE]

  /** What INSTREAM leaves a new connection waiting for. */
  function Streaming(env: Env): State {
    START.(mode := Stream, quota := env.limit, dump := [])
  }

  /** The request in front of the frames, sent when the connection is made. */
  lemma RequestStep(rest: seq<Byte>, env: Env)
    ensures Step(START, REQUEST + rest, env) == Next(Streaming(env), 10, [Handed(0, Instream, Ascii("INSTREAM"))])
    ensures (REQUEST + rest)[10..] == rest
  {
    var b, p := REQUEST + rest, Ascii("INSTREAM");
    assert |p| == 8;
    assert forall i | 0 <= i < 8 :: b[i + 1] == p[i];
    assert forall i | 0 <= i < 8 :: p[i] >= 65;
    assert forall i | 1 <= i < 9 :: b[i] == p[i - 1] >= 65;
    EndIs(b, NEWLINE, 9);
    NoNul(b[..9]);
    assert b[1..9] == p;
    assert Spells(p, 14);
    Meaning(p);
    hide Ascii, Classify, EndAt, NulAt;
    assert Prefixed(b) && Unchomped(b, 9);
  }

  lemma {:induction false} NoNul(b: seq<Byte>)
    requires forall i | 0 <= i < |b| :: b[i] != 0
    ensures NulAt(b) == |b|
  {}

  /** The fragments of a message, sent one by one and ended. */
  method SendMessage(cf: Clamfi, fragments: seq<seq<Byte>>)
    requires cf.Valid() && cf.totsz == 0 && cf.Payload() == []
    requires Expected(cf.maxfilesize, Concat(fragments)) != []
    modifies cf, cf.buffer
    ensures (forall i | 0 <= i < |cf.frames| :: 0 < |cf.frames[i]| < UINT32)
    ensures cf.wire == Frames(cf.frames) + Be32(0) && Concat(cf.frames) == Expected(cf.maxfilesize, Concat(fragments))
  {
    hide Frames, Concat, Expected;
    ghost var seen: seq<Byte> := [];
    ConcatNone();
    SomethingSent(cf.maxfilesize, []);
    var i := 0;
    while i < |fragments|
      invariant 0 <= i <= |fragments| && seen == Concat(fragments[..i])
      invariant cf.Valid() && cf.Payload() == Expected(cf.maxfilesize, seen) && cf.totsz == |cf.Payload()|
      modifies cf, cf.buffer
    {
      assert fragments[..i + 1] == fragments[..i] + [fragments[i]];
      ConcatAppend(fragments[..i], fragments[i]);
      cf.SendChunk(fragments[i], seen);
      seen := seen + fragments[i];
      i := i + 1;
    }
    assert fragments[..i] == fragments;
    cf.EndOfMessage();
  }

  lemma ConcatNone()
    ensures Concat([]) == []
  {}

  /** INSTREAM from end to end: whatever fragments the message comes in and however its bytes are split into
      reads, clamd hands on one stream, the first maxfilesize bytes of preamble and message. */
  lemma EndToEnd(frames: seq<seq<Byte>>, max: nat, all: seq<Byte>, pieces: seq<seq<Byte>>, env: Env)
    requires forall i | 0 <= i < |frames| :: 0 < |frames[i]| < UINT32
    requires Concat(frames) == Expected(max, all) && max >= 20 && all != []
    requires env.limit >= Min(max, |PREAMBLE + all|)
    requires Concat(pieces) == REQUEST + (Frames(frames) + Be32(0)) && pieces != []
    ensures var m := PREAMBLE + all;
            Feed(Result(START, [], []), pieces, env).out
              == [Handed(0, Instream, Ascii("INSTREAM")), Streamed(0, m[..Min(max, |m|)])]
  {
    hide Step, Decode, Frames, Concat, Be32, Feed, Ascii, Expected;
    ExpectedIsPrefix(max, all);
    RequestArrives(frames, env);
    AnySplit(START, pieces, env);
  }

  /** A stream waits for fewer than four bytes. */
  lemma {:induction false} StreamWaits(s: State, b: seq<Byte>, env: Env)
    requires s.mode == Stream && !s.session
    ensures var d := Decode(s, b, env); d.state.open ==> |d.rest| < 4
    decreases |b|
  {
    match if s.open then Step(s, b, env) else More {
      case More =>
      case Next(t, used, out) =>
        if t.open {
          StreamWaits(t, b[used..], env);
        }
    }
  }

  /** A connection on which a request of ten bytes comes first never has ten bytes waiting. */
  lemma RequestFits(head: seq<Byte>, body: seq<Byte>, env: Env, size: nat)
    requires size >= 10 && |head| == 10
    requires forall rest {:trigger head + rest} ::
               var d, e := Decode(START, head + rest, env), Decode(Streaming(env), rest, env);
               d.state == e.state && d.rest == e.rest
    ensures FitsBuffer(head + body, env, size)
  {
    hide Decode;
    var wire := head + body;
    forall k | 0 <= k <= |wire| ensures var d := Decode(START, wire[..k], env); d.state.open ==> |d.rest| < size {
      if k < 10 {
        assert |Decode(START, wire[..k], env).rest| <= k;
      } else {
        assert wire[..k] == head + wire[10..k];
        StreamWaits(Streaming(env), wire[10..k], env);
      }
    }
  }

  lemma RequestDecode(rest: seq<Byte>, env: Env)
    ensures var d := Decode(Streaming(env), rest, env);
            Decode(START, REQUEST + rest, env)
              == Result(d.state, [Handed(0, Instream, Ascii("INSTREAM"))] + d.out, d.rest)
  {
    hide Step, Ascii;
    RequestStep(rest, env);
  }

  lemma RequestArrives(frames: seq<seq<Byte>>, env: Env)
    requires (forall i | 0 <= i < |frames| :: 0 < |frames[i]| < UINT32) && |Concat(frames)| <= env.limit
    ensures var d := Decode(START, REQUEST + (Frames(frames) + Be32(0)), env);
            d.out == [Handed(0, Instream, Ascii("INSTREAM")), Streamed(0, Concat(frames))] && d.rest == []
  {
    hide Step, Decode, Frames, Concat, Be32, Ascii;
    RequestDecode(Frames(frames) + Be32(0), env);
    FramesArrive(Streaming(env), frames, env);
  }

  /** A milter and a server: the fragments go out, arrive in reads of any size, and come out as one stream. */
  method Deliver(cf: Clamfi, fragments: seq<seq<Byte>>, c: Connection)
    requires cf.Valid() && cf.totsz == 0 && cf.Payload() == [] && cf.maxfilesize >= 20 && Concat(fragments) != []
    requires c.Valid() && c.St() == START && c.out == [] && c.off == 0 && c.buffer != cf.buffer && c.buffer.Length > 10
    requires c.env.limit >= Min(cf.maxfilesize, |PREAMBLE + Concat(fragments)|)
    modifies cf, cf.buffer, c, c.buffer
    ensures var m := PREAMBLE + Concat(fragments);
            c.out == [Handed(0, Instream, Ascii("INSTREAM")), Streamed(0, m[..Min(cf.maxfilesize, |m|)])]
  {
    hide Step, Decode, Frames, Concat, Be32, Ascii, Expected, FitsBuffer;
    ghost var all := Concat(fragments);
    ExpectedIsPrefix(cf.maxfilesize, all);
    SendMessage(cf, fragments);
    RequestArrives(cf.frames, c.env);
    forall rest {
      RequestDecode(rest, c.env);
    }
    RequestFits(REQUEST, cf.wire, c.env, c.buffer.Length - 1);
    TwoActions(Ascii("INSTREAM"), Concat(cf.frames));
    ServeAll(c, REQUEST + cf.wire);
  }

  lemma TwoActions(text: seq<Byte>, data: seq<Byte>)
    ensures NoForeign([Handed(0, Instream, text), Streamed(0, data)])
  {}
}

/** What a client may count on: the requests of a session are handed on as they were made, numbered in order. */
module SessionLaw {
  import opened Wire
  import opened Session
  import opened Server

  // ----- commands by name

  /** The text is a command of this kind; the names are spelled out. */
  ghost predicate Says(text: seq<Byte>, k: Kind) {
    match k
    case Ping => text == Ascii("PING")
    case Version => text == Ascii("VERSION")
    case Commands => text == Ascii("VERSIONCOMMANDS")
    case Stats => text == Ascii("STATS")
    case Reload => text == Ascii("RELOAD")
    case Shutdown => text == Ascii("SHUTDOWN") || text == Ascii("QUIT")
    case StreamCmd => text == Ascii("STREAM")
    case Instream => text == Ascii("INSTREAM")
    case Fildes => text == Ascii("FILDES")
    case Idsession => text == Ascii("IDSESSION")
    case End => text == Ascii("END")
    case Scan => Ascii("SCAN") < text
    case Contscan => Ascii("CONTSCAN") < text
    case Multiscan => Ascii("MULTISCAN") < text
    case Unknown => Classify(text, 0) == Unknown
  }

  lemma SpelledSays(text: seq<Byte>, i: nat)
    requires i < |TABLE| && Spells(text, i)
    ensures Says(text, TABLE[i].kind)
  {
    hide Ascii, Classify;
    var row := TABLE[i];
    assert row.needArg ==> Ascii(row.name) < text;
    assert !row.needArg ==> text == Ascii(row.name);
  }

  lemma SaysSpelled(text: seq<Byte>, k: Kind) returns (i: nat)
    requires k != Unknown && Says(text, k)
    ensures i < |TABLE| && Spells(text, i) && TABLE[i].kind == k
  {
    hide Ascii, Classify;
    i := match k
      case Scan => 0
      case Shutdown => if text == Ascii("QUIT") then 1 else 9
      case Reload => 2
      case Ping => 3
      case Contscan => 4
      case Commands => 5
      case Version => 6
      case StreamCmd => 7
      case End => 8
      case Multiscan => 10
      case Fildes => 11
      case Stats => 12
      case Idsession => 13
      case Instream => 14;
  }

  /** A text is classified as the command it says, and as no other. */
  lemma SaysIs(text: seq<Byte>, k: Kind)
    ensures Says(text, k) <==> Classify(text, 0) == k
  {
    hide Ascii, Classify;
    Meaning(text);
    if k != Unknown {
      if Says(text, k) {
        var i := SaysSpelled(text, k);
      } else if Classify(text, 0) == k {
        var i :| 0 <= i < |TABLE| && Spells(text, i);
        SpelledSays(text, i);
      }
    }
  }

  // ----- lines

  /** A command on the wire, ended by a newline or by a zero byte. */
  function LineOf(text: seq<Byte>, newline: bool): seq<Byte> {
    if newline then [LETTER_N] + text + [NEWLINE] else [LETTER_Z] + text + [0]
  }

  predicate Clean(text: seq<Byte>, newline: bool) {
    && 0 !in text
    && (newline ==> NEWLINE !in text && (text != [] ==> text[|text| - 1] != RETURN))
  }

  lemma LineStep(s: State, text: seq<Byte>, k: Kind, newline: bool, rest: seq<Byte>, env: Env)
    requires s.mode == Command && Clean(text, newline) && Says(text, k)
    ensures var (t, out) := Execute(s, text, k, env);
            Step(s, LineOf(text, newline) + rest, env) == Next(t, |text| + 2, out)
    ensures (LineOf(text, newline) + rest)[|text| + 2..] == rest
  {
    hide Classify, Execute, NulAt, Says;
    var b, n := LineOf(text, newline) + rest, |text| + 1;
    SaysIs(text, k);
    assert forall i | 1 <= i < n :: b[i] == text[i - 1];
    EndIs(b, Terminator(b), n);
    assert b[1..n] == text;
    if newline {
      assert forall i | 0 <= i < n :: b[..n][i] != 0;
      NoZero(b[..n]);
    }
  }

  lemma NoZero(b: seq<Byte>)
    requires forall i | 0 <= i < |b| :: b[i] != 0
    ensures NulAt(b) == |b|
  {}

  /** A line decodes to what its command does. */
  lemma LineDecodes(s: State, text: seq<Byte>, k: Kind, newline: bool, rest: seq<Byte>, env: Env)
    requires s.open && s.mode == Command && Clean(text, newline) && Says(text, k)
    ensures var (t, out) := Execute(s, text, k, env);
            var d := Decode(t, rest, env);
            Decode(s, LineOf(text, newline) + rest, env) == Result(d.state, out + d.out, d.rest)
  {
    hide Step, Execute, Says, Decode, LineOf;
    LineStep(s, text, k, newline, rest, env);
    DecodeNext(s, LineOf(text, newline) + rest, env);
  }

  // ----- outside a session

  /** A command outside a session is handed on, and closes the connection: for a reply if it is one that a worker
      carries out.  What follows it is left. */
  lemma OneShot(text: seq<Byte>, k: Kind, newline: bool, rest: seq<Byte>, env: Env)
    requires Clean(text, newline) && Says(text, k) && k !in {Idsession, Instream, Fildes}
    ensures var d := Decode(START, LineOf(text, newline) + rest, env);
            && d.out == [Handed(0, k, text)] && d.rest == rest && !d.state.open
            && d.state.mode == if k in {StreamCmd, Multiscan, Contscan, Stats, Scan} then Reply else Command
  {
    hide Step, Decode, LineOf, Says;
    LineDecodes(START, text, k, newline, rest, env);
    DecodeStops(Execute(START, text, k, env).0, rest, env);
  }

  // ----- requests

  datatype Request =
    | Line(text: seq<Byte>, kind: Kind, newline: bool)
    | Upload(chunks: seq<seq<Byte>>, newline: bool)

  /** The commands that a session survives. */
  ghost predicate Allowed(k: Kind) {
    k in {Ping, Version, Commands, Scan, Stats}
  }

  ghost predicate Proper(r: Request, limit: nat) {
    match r
    case Line(text, kind, newline) => Clean(text, newline) && Says(text, kind) && Allowed(kind)
    case Upload(chunks, newline) => (forall i | 0 <= i < |chunks| :: 0 < |chunks[i]| < UINT32) && |Concat(chunks)| <= limit
  }

  const INSTREAM: seq<Byte> := Ascii("INSTREAM")

  ghost function OnWire(r: Request, limit: nat): seq<Byte>
    requires Proper(r, limit)
  {
    match r
    case Line(text, kind, newline) => LineOf(text, newline)
    case Upload(chunks, newline) => LineOf(INSTREAM, newline) + (Frames(chunks) + Be32(0))
  }

  /** What should be handed on for the request with this number. */
  function Answer(r: Request, id: nat): seq<Action> {
    match r
    case Line(text, kind, newline) => [Handed(id, kind, text)]
    case Upload(chunks, newline) => [Handed(id, Instream, INSTREAM), Streamed(id, Concat(chunks))]
  }

  ghost function AllOnWire(rs: seq<Request>, limit: nat): seq<Byte>
    requires forall i | 0 <= i < |rs| :: Proper(rs[i], limit)
  {
    if rs == [] then [] else OnWire(rs[0], limit) + AllOnWire(rs[1..], limit)
  }

  function Answers(rs: seq<Request>, id: nat): seq<Action> {
    if rs == [] then [] else Answer(rs[0], id) + Answers(rs[1..], id + 1)
  }

  /** In a session, waiting for request number id. */
  ghost predicate Ready(s: State, id: nat) {
    s.open && s.mode == Command && s.session && s.id == id && s.chunk == 0
  }

  lemma LineAnswered(s: State, text: seq<Byte>, k: Kind, newline: bool, env: Env) returns (t: State)
    requires Ready(s, s.id) && Clean(text, newline) && Says(text, k) && Allowed(k)
    ensures Ready(t, s.id + 1) && Decode(s, LineOf(text, newline), env) == Result(t, [Handed(s.id, k, text)], [])
  {
    hide Step, Decode, LineOf, Says;
    t := Execute(s, text, k, env).0;
    LineDecodes(s, text, k, newline, [], env);
    assert LineOf(text, newline) + [] == LineOf(text, newline);
    DecodeStops(t, [], env);
  }

  lemma CleanStream(newline: bool)
    ensures Clean(INSTREAM, newline) && Says(INSTREAM, Instream)
  {
    assert forall i | 0 <= i < |INSTREAM| :: INSTREAM[i] >= 65;
  }

  /** The end mark inside a session: the stream is handed on and the session goes on. */
  lemma EndMark(s: State, env: Env)
    requires s.open && s.mode == Stream && s.session && s.chunk == 0
    ensures var t := s.(mode := Command, id := s.id + 1, dump := []);
            Decode(s, Be32(0), env) == Result(t, [Streamed(s.id, s.dump)], [])
  {
    Be32RoundTrip(0);
    hide FromBe32, Be32, Decode;
    var b, t := Be32(0), s.(mode := Command, id := s.id + 1, dump := []);
    assert b[..4] == b && b[4..] == [];
    DecodeNext(s, b, env);
    DecodeStops(t, [], env);
  }

  /** The state behind the INSTREAM of a session. */
  function Streaming(s: State, env: Env): State {
    s.(mode := Stream, quota := env.limit, dump := [])
  }

  lemma UploadAnswered(s: State, chunks: seq<seq<Byte>>, newline: bool, env: Env) returns (t: State)
    requires Ready(s, s.id) && Proper(Upload(chunks, newline), env.limit)
    ensures Ready(t, s.id + 1)
    ensures Decode(s, OnWire(Upload(chunks, newline), env.limit), env) == Result(t, Answer(Upload(chunks, newline), s.id), [])
  {
    hide Step, Decode, LineOf, Says, Frames, Be32, Concat, Clean, INSTREAM;
    CleanStream(newline);
    LineDecodes(s, INSTREAM, Instream, newline, Frames(chunks) + Be32(0), env);
    var u := Streaming(s, env);
    RunFrames(u, chunks, Be32(0), env);
    var v := u.(quota := u.quota - |Concat(chunks)|, dump := [] + Concat(chunks));
    EndMark(v, env);
    t := v.(mode := Command, id := v.id + 1, dump := []);
    assert [] + Concat(chunks) == Concat(chunks);
  }

  /** A stream is refused at the length of the chunk that exceeds the limit, and the connection is given up. */
  lemma TooMuch(s: State, chunks: seq<seq<Byte>>, n: nat, newline: bool, rest: seq<Byte>, env: Env)
    requires s.open && s.mode == Command && s.chunk == 0 && Proper(Upload(chunks, newline), env.limit)
    requires n < UINT32 && |Concat(chunks)| + n > env.limit
    ensures var d := Decode(s, LineOf(INSTREAM, newline) + (Frames(chunks) + (Be32(n) + rest)), env);
            && d.out == [Handed(s.id, Instream, INSTREAM), TooLong(s.id)] && d.rest == rest
            && !d.state.open && d.state.mode == Done
  {
    hide Decode, LineOf, Says, Frames, Be32, FromBe32, Concat, Clean, INSTREAM;
    CleanStream(newline);
    LineDecodes(s, INSTREAM, Instream, newline, Frames(chunks) + (Be32(n) + rest), env);
    var u := Streaming(s, env);
    RunFrames(u, chunks, Be32(n) + rest, env);
    var v, b := u.(quota := u.quota - |Concat(chunks)|, dump := [] + Concat(chunks)), Be32(n) + rest;
    Be32RoundTrip(n);
    assert b[..4] == Be32(n) && b[4..] == rest;
    DecodeNext(v, b, env);
    DecodeStops(Step(v, b, env).state, rest, env);
  }

  lemma Answered(s: State, r: Request, env: Env) returns (t: State)
    requires Ready(s, s.id) && Proper(r, env.limit)
    ensures Ready(t, s.id + 1) && Decode(s, OnWire(r, env.limit), env) == Result(t, Answer(r, s.id), [])
  {
    hide Decode, LineOf, Says, Frames, Be32, Concat, Clean, INSTREAM, Ready;
    match r {
      case Line(text, kind, newline) =>
        t := LineAnswered(s, text, kind, newline, env);
      case Upload(chunks, newline) =>
        t := UploadAnswered(s, chunks, newline, env);
    }
  }

  /** One decoding after another. */
  lemma Then(s: State, a: seq<Byte>, t: State, out: seq<Action>, b: seq<Byte>, env: Env)
    requires Decode(s, a, env) == Result(t, out, [])
    ensures var d := Decode(t, b, env); Decode(s, a + b, env) == Result(d.state, out + d.out, d.rest)
  {
    hide Decode;
    DecodeSplit(s, a, b, env);
    assert [] + b == b;
  }

  /** Requests in a session are handed on in order, with numbers that go up by one. */
  lemma {:induction false} AllAnswered(s: State, rs: seq<Request>, env: Env) returns (t: State)
    requires Ready(s, s.id) && forall i | 0 <= i < |rs| :: Proper(rs[i], env.limit)
    ensures Ready(t, s.id + |rs|) && Decode(s, AllOnWire(rs, env.limit), env) == Result(t, Answers(rs, s.id), [])
    decreases |rs|
  {
    hide Decode, OnWire, Answer, Proper;
    if rs == [] {
      t := s;
      DecodeStops(s, [], env);
    } else {
      var u := Answered(s, rs[0], env);
      t := AllAnswered(u, rs[1..], env);
      Then(s, OnWire(rs[0], env.limit), u, Answer(rs[0], s.id), AllOnWire(rs[1..], env.limit), env);
    }
  }

  const IDSESSION: seq<Byte> := Ascii("IDSESSION")

  /** A whole session: opened, any requests, and a command that ends it, be it END or one that has no place in a
      session. */
  ghost function Talk(rs: seq<Request>, last: seq<Byte>, newline: bool, limit: nat): seq<Byte>
    requires forall i | 0 <= i < |rs| :: Proper(rs[i], limit)
  {
    LineOf(IDSESSION, newline) + (AllOnWire(rs, limit) + LineOf(last, newline))
  }

  ghost predicate Closes(k: Kind) {
    !Allowed(k) && k != Instream && k != Fildes
  }

  lemma Opened(newline: bool, env: Env) returns (t: State)
    ensures Ready(t, 1) && Decode(START, LineOf(IDSESSION, newline), env) == Result(t, [Handed(0, Idsession, IDSESSION)], [])
  {
    assert forall i | 0 <= i < |IDSESSION| :: IDSESSION[i] >= 65;
    hide Step, Decode, LineOf, Ascii;
    t := Execute(START, IDSESSION, Idsession, env).0;
    LineDecodes(START, IDSESSION, Idsession, newline, [], env);
    assert LineOf(IDSESSION, newline) + [] == LineOf(IDSESSION, newline);
    DecodeStops(t, [], env);
  }

  lemma Closed(s: State, text: seq<Byte>, k: Kind, newline: bool, env: Env) returns (t: State)
    requires Ready(s, s.id) && Clean(text, newline) && Says(text, k) && Closes(k)
    ensures !t.open && t.mode == (if k == End && env.busy(s.id) then Reply else Command)
    ensures Decode(s, LineOf(text, newline), env) == Result(t, [Handed(s.id, k, text)], [])
  {
    hide Step, Decode, LineOf, Says;
    t := Execute(s, text, k, env).0;
    LineDecodes(s, text, k, newline, [], env);
    assert LineOf(text, newline) + [] == LineOf(text, newline);
    DecodeStops(t, [], env);
  }

  /** The session as it should be handed on. */
  function Transcript(rs: seq<Request>, last: seq<Byte>, k: Kind): seq<Action> {
    [Handed(0, Idsession, IDSESSION)] + (Answers(rs, 1) + [Handed(|rs| + 1, k, last)])
  }

  /** The law of sessions: commands and streams are handed on as they were sent, with ids 0, 1, 2 and so on, and the
      command that ends the session closes the connection, which waits for replies if the command is END and jobs of
      the session are still active. */
  lemma Law(rs: seq<Request>, last: seq<Byte>, k: Kind, newline: bool, env: Env)
    requires (forall i | 0 <= i < |rs| :: Proper(rs[i], env.limit)) && Clean(last, newline) && Says(last, k) && Closes(k)
    ensures var d := Decode(START, Talk(rs, last, newline, env.limit), env);
            && d.out == Transcript(rs, last, k) && !d.state.open && d.rest == []
            && d.state.mode == if k == End && env.busy(|rs| + 1) then Reply else Command
  {
    hide Decode, LineOf, AllOnWire, Answers, Says, Clean, Closes, Proper, IDSESSION;
    var s := Opened(newline, env);
    var t := AllAnswered(s, rs, env);
    var u := Closed(t, last, k, newline, env);
    var all := AllOnWire(rs, env.limit);
    Then(s, all, t, Answers(rs, 1), LineOf(last, newline), env);
    Then(START, LineOf(IDSESSION, newline), s, [Handed(0, Idsession, IDSESSION)], all + LineOf(last, newline), env);
  }

  /** And that for every split into reads. */
  lemma LawForAnySplit(rs: seq<Request>, last: seq<Byte>, k: Kind, newline: bool, pieces: seq<seq<Byte>>, env: Env)
    requires (forall i | 0 <= i < |rs| :: Proper(rs[i], env.limit)) && Clean(last, newline) && Says(last, k) && Closes(k)
    requires pieces != [] && Concat(pieces) == Talk(rs, last, newline, env.limit)
    ensures var f := Feed(Result(START, [], []), pieces, env); f.out == Transcript(rs, last, k) && !f.state.open
  {
    hide Decode, Talk, Transcript, Says, Clean, Closes, Proper, Feed, Concat;
    Law(rs, last, k, newline, env);
    AnySplit(START, pieces, env);
  }

  // ----- in reads of any size

  /** Fed with any part of b, a connection in state s never has as many as size bytes waiting. */
  ghost predicate Lean(s: State, b: seq<Byte>, env: Env, size: nat) {
    forall k | 0 <= k <= |b| :: var d := Decode(s, b[..k], env); d.state.open ==> |d.rest| < size
  }

  lemma LeanThen(s: State, a: seq<Byte>, t: State, out: seq<Action>, b: seq<Byte>, env: Env, size: nat)
    requires Lean(s, a, env, size) && Lean(t, b, env, size) && Decode(s, a, env) == Result(t, out, [])
    ensures Lean(s, a + b, env, size)
  {
    hide Decode;
    forall k | 0 <= k <= |a + b| ensures var d := Decode(s, (a + b)[..k], env); d.state.open ==> |d.rest| < size {
      if k <= |a| {
        assert (a + b)[..k] == a[..k];
      } else {
        assert (a + b)[..k] == a + b[..k - |a|];
        Then(s, a, t, out, b[..k - |a|], env);
      }
    }
  }

  /** Fewer bytes than there is room for. */
  lemma LeanShort(s: State, b: seq<Byte>, env: Env, size: nat)
    requires |b| < size
    ensures Lean(s, b, env, size)
  {
    hide Decode;
  }

  /** A line with its last byte leaves nothing. */
  lemma LeanLine(s: State, text: seq<Byte>, k: Kind, newline: bool, env: Env, size: nat)
    requires s.open && s.mode == Command && Clean(text, newline) && Says(text, k) && |text| + 1 < size
    ensures Lean(s, LineOf(text, newline), env, size)
  {
    hide Decode, Step, Says, Execute;
    var b := LineOf(text, newline);
    LineDecodes(s, text, k, newline, [], env);
    assert b + [] == b;
    DecodeStops(Execute(s, text, k, env).0, [], env);
    forall n | 0 <= n <= |b| ensures var d := Decode(s, b[..n], env); d.state.open ==> |d.rest| < size {
      if n == |b| {
        assert b[..n] == b;
      }
    }
  }

  lemma LeanData(s: State, p: seq<Byte>, env: Env, size: nat)
    requires s.open && s.mode == Stream && s.chunk >= |p| && size > 0
    ensures Lean(s, p, env, size)
  {
    hide Decode;
    forall k | 0 <= k <= |p| ensures Decode(s, p[..k], env).rest == [] {
      RunData(s, p[..k], [], env);
      assert p[..k] + [] == p[..k];
      DecodeStops(s.(chunk := s.chunk - k, dump := s.dump + p[..k]), [], env);
    }
  }

  lemma LeanFrame(s: State, p: seq<Byte>, env: Env, size: nat)
    requires s.open && s.mode == Stream && s.chunk == 0 && 0 < |p| <= s.quota && |p| < UINT32 && size > 4
    ensures Lean(s, Frame(p), env, size)
    ensures Decode(s, Frame(p), env) == Result(s.(quota := s.quota - |p|, dump := s.dump + p), [], [])
  {
    hide Decode, Be32, FromBe32;
    Be32RoundTrip(|p|);
    var b, t := Be32(|p|), s.(chunk := |p|, quota := s.quota - |p|);
    assert b[..4] == b && b[4..] == [];
    DecodeNext(s, b, env);
    DecodeStops(t, [], env);
    LeanShort(s, b, env, size);
    LeanData(t, p, env, size);
    LeanThen(s, b, t, [], p, env, size);
    RunFrame(s, p, [], env);
    assert Frame(p) + [] == Frame(p);
    DecodeStops(s.(quota := s.quota - |p|, dump := s.dump + p), [], env);
  }

  lemma {:induction false} LeanFrames(s: State, chunks: seq<seq<Byte>>, env: Env, size: nat)
    requires forall i | 0 <= i < |chunks| :: 0 < |chunks[i]| < UINT32
    requires s.open && s.mode == Stream && s.chunk == 0 && |Concat(chunks)| <= s.quota && size > 4
    ensures Lean(s, Frames(chunks) + Be32(0), env, size)
    decreases |chunks|
  {
    hide Decode, Frame, Be32, Lean, Step;
    if chunks == [] {
      assert Frames(chunks) + Be32(0) == Be32(0);
      LeanShort(s, Be32(0), env, size);
    } else {
      var p := chunks[0];
      var t := s.(quota := s.quota - |p|, dump := s.dump + p);
      LeanFrame(s, p, env, size);
      LeanFrames(t, chunks[1..], env, size);
      LeanThen(s, Frame(p), t, [], Frames(chunks[1..]) + Be32(0), env, size);
      assert Frames(chunks) + Be32(0) == Frame(p) + (Frames(chunks[1..]) + Be32(0));
    }
  }

  /** The commands of a request are shorter than the buffer. */
  predicate Short(r: Request, size: nat) {
    r.Line? ==> |r.text| + 1 < size
  }

  lemma LeanRequest(s: State, r: Request, env: Env, size: nat)
    requires Ready(s, s.id) && Proper(r, env.limit) && Short(r, size) && size > 10
    ensures Lean(s, OnWire(r, env.limit), env, size)
  {
    hide Decode, Step, LineOf, Says, Frames, Be32, Concat, Clean, Lean;
    match r {
      case Line(text, kind, newline) =>
        LeanLine(s, text, kind, newline, env, size);
      case Upload(chunks, newline) =>
        CleanStream(newline);
        var line, u := LineOf(INSTREAM, newline), Streaming(s, env);
        LeanLine(s, INSTREAM, Instream, newline, env, size);
        LineDecodes(s, INSTREAM, Instream, newline, [], env);
        assert line + [] == line;
        DecodeStops(u, [], env);
        LeanFrames(u, chunks, env, size);
        LeanThen(s, line, u, [Handed(s.id, Instream, INSTREAM)], Frames(chunks) + Be32(0), env, size);
    }
  }

  lemma {:induction false} LeanRequests(s: State, rs: seq<Request>, env: Env, size: nat)
    requires Ready(s, s.id) && size > 10
    requires forall i | 0 <= i < |rs| :: Proper(rs[i], env.limit) && Short(rs[i], size)
    ensures Lean(s, AllOnWire(rs, env.limit), env, size)
    decreases |rs|
  {
    hide Decode, OnWire, Answer, Proper, Lean;
    if rs == [] {
      LeanShort(s, [], env, size);
    } else {
      var u := Answered(s, rs[0], env);
      LeanRequest(s, rs[0], env, size);
      LeanRequests(u, rs[1..], env, size);
      LeanThen(s, OnWire(rs[0], env.limit), u, Answer(rs[0], s.id), AllOnWire(rs[1..], env.limit), env, size);
    }
  }

  lemma LeanTalk(rs: seq<Request>, last: seq<Byte>, k: Kind, newline: bool, env: Env, size: nat)
    requires forall i | 0 <= i < |rs| :: Proper(rs[i], env.limit) && Short(rs[i], size)
    requires Clean(last, newline) && Says(last, k) && Closes(k) && |last| + 1 < size && size > 10
    ensures Lean(START, Talk(rs, last, newline, env.limit), env, size)
  {
    assert forall i | 0 <= i < |IDSESSION| :: IDSESSION[i] >= 65;
    assert Clean(IDSESSION, newline) && Says(IDSESSION, Idsession) && |IDSESSION| == 9;
    hide Decode, LineOf, AllOnWire, Answers, Says, Clean, Closes, Proper, Short, IDSESSION, Lean;
    var s := Opened(newline, env);
    var t := AllAnswered(s, rs, env);
    var all, line := AllOnWire(rs, env.limit), LineOf(last, newline);
    LeanLine(START, IDSESSION, Idsession, newline, env, size);
    LeanRequests(s, rs, env, size);
    LeanLine(t, last, k, newline, env, size);
    LeanThen(s, all, t, Answers(rs, 1), line, env, size);
    LeanThen(START, LineOf(IDSESSION, newline), s, [Handed(0, Idsession, IDSESSION)], all + line, env, size);
  }

  lemma {:induction false} NoneForeign(rs: seq<Request>, id: nat)
    ensures NoForeign(Answers(rs, id))
    decreases |rs|
  {
    if rs != [] {
      NoneForeign(rs[1..], id + 1);
    }
  }

  /** A server, however its reads fall: a session comes out as it was meant. */
  method Converse(c: Connection, ghost rs: seq<Request>, last: seq<Byte>, ghost k: Kind, newline: bool, wire: seq<Byte>)
    requires c.Valid() && c.St() == START && c.out == [] && c.off == 0 && c.buffer.Length > 12
    requires forall i | 0 <= i < |rs| :: Proper(rs[i], c.env.limit) && Short(rs[i], c.buffer.Length - 1)
    requires Clean(last, newline) && Says(last, k) && Closes(k) && |last| + 2 < c.buffer.Length
    requires wire == Talk(rs, last, newline, c.env.limit)
    modifies c, c.buffer
    ensures c.out == Transcript(rs, last, k) && !c.open
  {
    hide Decode, Talk, Answers, Says, Clean, Closes, Proper, Short;
    Law(rs, last, k, newline, c.env);
    LeanTalk(rs, last, k, newline, c.env, c.buffer.Length - 1);
    NoneForeign(rs, 1);
    ServeAll(c, wire);
  }
}

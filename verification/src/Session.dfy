/** What a clamd connection makes of the bytes it receives: a decoder defined on the bytes alone. */
module Session {
  import opened Wire

  datatype Kind = Scan | Shutdown | Reload | Ping | Contscan | Commands | Version | StreamCmd | End
                | Multiscan | Fildes | Stats | Idsession | Instream | Unknown

  datatype Row = Row(name: string, kind: Kind, needArg: bool)

  const TABLE: seq<Row> := [
    Row("SCAN", Scan, true), Row("QUIT", Shutdown, false), Row("RELOAD", Reload, false), Row("PING", Ping, false),
    Row("CONTSCAN", Contscan, true), Row("VERSIONCOMMANDS", Commands, false), Row("VERSION", Version, false),
    Row("STREAM", StreamCmd, false), Row("END", End, false), Row("SHUTDOWN", Shutdown, false),
    Row("MULTISCAN", Multiscan, true), Row("FILDES", Fildes, false), Row("STATS", Stats, false),
    Row("IDSESSION", Idsession, false), Row("INSTREAM", Instream, false)]

  /** The text starts with the name of row i. */
  ghost predicate Starts(text: seq<Byte>, i: nat)
    requires i < |TABLE|
  {
    Ascii(TABLE[i].name) <= text
  }

  /** The text is the command of row i: its name, followed by something exactly if it takes an argument. */
  ghost predicate Spells(text: seq<Byte>, i: nat)
    requires i < |TABLE|
  {
    Starts(text, i) && TABLE[i].needArg == (|text| > |TABLE[i].name|)
  }

  /** The first row whose name starts the text decides. */
  function Classify(text: seq<Byte>, i: nat): Kind
    requires i <= |TABLE|
    decreases |TABLE| - i
  {
    if i == |TABLE| then Unknown
    else
      var name := Ascii(TABLE[i].name);
      if name <= text then
        if TABLE[i].needArg == (|text| > |name|) then TABLE[i].kind else Unknown
      else Classify(text, i + 1)
  }

  /** The first three letters of every name, as one number. */
  const KEYS: seq<nat> := [0x53_4341, 0x51_5549, 0x52_454C, 0x50_494E, 0x43_4F4E, 0x56_4552, 0x56_4552, 0x53_5452, 0x45_4E44, 0x53_4855, 0x4D_554C, 0x46_494C, 0x53_5441, 0x49_4453, 0x49_4E53]

  function Key(a: nat, b: nat, c: nat): nat {
    a * 0x1_0000 + b * 0x100 + c
  }

  lemma KeyOf(i: nat)
    requires i < |TABLE|
    ensures |KEYS| == |TABLE| && |TABLE[i].name| >= 3
    ensures var n := Ascii(TABLE[i].name); KEYS[i] == Key(n[0], n[1], n[2])
  {}

  /** Three letters tell any two names apart, but for VERSIONCOMMANDS and VERSION. */
  lemma NamesDiffer(i: nat, j: nat) returns (k: nat)
    requires i < j < |TABLE| && (i != 5 || j != 6)
    ensures k < |TABLE[i].name| && k < |TABLE[j].name| && Ascii(TABLE[i].name)[k] != Ascii(TABLE[j].name)[k]
  {
    KeyOf(i);
    KeyOf(j);
    KeysDiffer(i, j);
    hide Ascii;
    var x, y := Ascii(TABLE[i].name), Ascii(TABLE[j].name);
    k := if x[0] != y[0] then 0 else if x[1] != y[1] then 1 else 2;
  }

  lemma KeysDiffer(i: nat, j: nat)
    requires i < j < |KEYS| && (i != 5 || j != 6)
    ensures KEYS[i] != KEYS[j]
  {}

  /** Whatever row the text spells, no row before it starts the text: the order of the table does not matter. */
  lemma FirstDecides(text: seq<Byte>, i: nat, j: nat)
    requires i < j < |TABLE| && Spells(text, j)
    ensures !Starts(text, i)
  {
    if i == 5 && j == 6 {
      assert |text| == |TABLE[6].name| < |TABLE[5].name|;
    } else {
      var k := NamesDiffer(i, j);
      assert text[k] == Ascii(TABLE[j].name)[k];
    }
  }

  lemma {:induction false} ClassifySkips(text: seq<Byte>, n: nat)
    requires n <= |TABLE| && forall i | 0 <= i < n :: !Starts(text, i)
    ensures Classify(text, 0) == Classify(text, n)
  {
    if n > 0 {
      ClassifySkips(text, n - 1);
      assert !Starts(text, n - 1);
    }
  }

  /** What the search means, without the order of the table: a text is known exactly if it spells a command,
      and then it is that command. */
  lemma Meaning(text: seq<Byte>)
    ensures Classify(text, 0) != Unknown <==> exists i | 0 <= i < |TABLE| :: Spells(text, i)
    ensures forall i | 0 <= i < |TABLE| :: Spells(text, i) ==> Classify(text, 0) == TABLE[i].kind
  {
    forall i | 0 <= i < |TABLE| && Spells(text, i)
      ensures Classify(text, 0) == TABLE[i].kind
    {
      forall k | 0 <= k < i ensures !Starts(text, k) {
        FirstDecides(text, k, i);
      }
      ClassifySkips(text, i);
    }
    KnownSpells(text, 0);
    KnownKinds();
  }

  lemma KnownKinds()
    ensures forall i | 0 <= i < |TABLE| :: TABLE[i].kind != Unknown
  {}

  lemma {:induction false} KnownSpells(text: seq<Byte>, n: nat)
    requires n <= |TABLE|
    ensures Classify(text, n) != Unknown ==> exists i | n <= i < |TABLE| :: Spells(text, i)
    decreases |TABLE| - n
  {
    if n < |TABLE| {
      if Starts(text, n) {
        if Classify(text, n) != Unknown {
          assert Spells(text, n);
        }
      } else {
        KnownSpells(text, n + 1);
      }
    }
  }

  /** parse_command for terminated commands */
  method ParseCommand(text: seq<Byte>) returns (k: Kind)
    ensures k != Unknown <==> exists i | 0 <= i < |TABLE| :: Spells(text, i)
    ensures forall i | 0 <= i < |TABLE| :: Spells(text, i) ==> k == TABLE[i].kind
    ensures k == Classify(text, 0)
  {
    Meaning(text);
    var i := 0;
    while i < |TABLE|
      invariant 0 <= i <= |TABLE| && Classify(text, 0) == Classify(text, i)
    {
      var name := Ascii(TABLE[i].name);
      if name <= text {
        if TABLE[i].needArg {
          return if |text| == |name| then Unknown else TABLE[i].kind;
        } else {
          return if |text| > |name| then Unknown else TABLE[i].kind;
        }
      }
      i := i + 1;
    }
    return Unknown;
  }

  /** Reply stands for MODE_WAITREPLY, and Done for a connection that is not looked at again. */
  datatype Mode = Command | Stream | Reply | Done

  /** The part of fd_buf that outlives a command, without the bytes; `open` tells whether fd is still watched
      and `session` whether there is a job group. */
  datatype State = State(open: bool, mode: Mode, session: bool, id: nat, chunk: nat, quota: nat, dump: seq<Byte>)

  const START := State(true, Command, false, 0, 0, 0, [])

  /** What is handed on: a command, a complete stream, or the reason for giving up. */
  datatype Action =
    | Handed(id: nat, kind: Kind, text: seq<Byte>)
    | Streamed(id: nat, data: seq<Byte>)
    | TooLong(id: nat)
    | Garbage(id: nat)
    | Foreign(id: nat)

  /** StreamMaxLength, and whether jobs of the group are still active when command number id ends the session. */
  datatype Env = Env(limit: nat, busy: nat -> bool)

  predicate Immediate(k: Kind) {
    k == Version || k == Ping || k == Commands
  }

  predicate Dispatched(k: Kind) {
    k == StreamCmd || k == Multiscan || k == Contscan || k == Stats || k == Scan
  }

  /** Where a command leaves the connection.  Descriptor passing is not part of this model. */
  function Execute(s: State, text: seq<Byte>, k: Kind, env: Env): (State, seq<Action>) {
    if k == Fildes then (s.(open := false, mode := Done), [Foreign(s.id)])
    else if k == Instream then (s.(mode := Stream, quota := env.limit, dump := []), [Handed(s.id, k, text)])
    else
      var t :=
        if s.session then
          if Immediate(k) || k == Scan || k == Stats then s
          else if k == End && env.busy(s.id) then s.(open := false, mode := Reply)
          else s.(open := false, session := false)
        else if k == Idsession then s.(session := true)
        else s.(open := false, mode := if Dispatched(k) then Reply else s.mode);
      (if t.mode == Command then t.(id := s.id + 1) else t, [Handed(s.id, k, text)])
  }

  /** Which commands a connection survives. */
  lemma StaysOpen(s: State, text: seq<Byte>, k: Kind, env: Env)
    ensures Execute(s, text, k, env).0.open <==>
              && s.open
              && (k == Instream || (s.session && (Immediate(k) || k == Scan || k == Stats))
                  || (!s.session && k == Idsession))
  {}

  /** The first position of c in b. */
  function EndAt(b: seq<Byte>, c: Byte): (n: nat)
    ensures n <= |b| && (n < |b| ==> b[n] == c) && forall i | 0 <= i < n :: b[i] != c
  {
    if b == [] || b[0] == c then 0 else 1 + EndAt(b[1..], c)
  }

  function NulAt(b: seq<Byte>): (n: nat)
    ensures n <= |b| && (n < |b| ==> b[n] == 0) && forall i | 0 <= i < n :: b[i] != 0
  {
    EndAt(b, 0)
  }

  datatype Progress = More | Next(state: State, used: nat, out: seq<Action>)

  const LETTER_Z: Byte := 122
  const LETTER_N: Byte := 110
  const NEWLINE: Byte := 10
  const RETURN: Byte := 13

  predicate Prefixed(b: seq<Byte>) {
    b != [] && (b[0] == LETTER_Z || b[0] == LETTER_N)
  }

  function Terminator(b: seq<Byte>): Byte
    requires Prefixed(b)
  {
    if b[0] == LETTER_Z then 0 else NEWLINE
  }

  /** cli_chomp leaves a command that ends in a newline as it is. */
  predicate Unchomped(b: seq<Byte>, k: nat)
    requires 0 < k <= |b|
  {
    b[0] == LETTER_N ==> b[k - 1] != RETURN && NulAt(b[..k]) == k
  }

  /** The effect of the shortest prefix of b that has one.  Commands in the older style, and newline-terminated
      ones that cli_chomp shortens, are not part of this model.  Once the connection is closed, a command
      without a prefix letter is not even looked at, because it does not start the buffer. */
  function Step(s: State, b: seq<Byte>, env: Env): (r: Progress)
    ensures r.Next? ==> 0 < r.used <= |b|
  {
    if b == [] || s.mode == Done then More
    else if s.mode == Reply then Next(s.(mode := Done), 1, [Garbage(s.id)])
    else if s.mode == Command then
      if !Prefixed(b) then
        if s.open then Next(s.(open := false, mode := Done), 1, [Foreign(s.id)]) else More
      else
        var k := EndAt(b, Terminator(b));
        if k == |b| then More
        else if !Unchomped(b, k) then Next(s.(open := false, mode := Done), k + 1, [Foreign(s.id)])
        else
          var (t, out) := Execute(s, b[1..k], Classify(b[1..k], 0), env);
          Next(t, k + 1, out)
    else if s.chunk > 0 then
      Next(s.(chunk := s.chunk - 1, dump := s.dump + [b[0]], mode := if s.open || s.chunk > 1 then Stream else Done), 1, [])
    else if |b| < 4 then More
    else
      var n := FromBe32(b[..4]);
      if n == 0 then
        var on := s.open && s.session;
        Next(s.(open := on, mode := if on then Command else Done, id := s.id + 1, dump := []),
             4, [Streamed(s.id, s.dump)])
      else if n > s.quota then Next(s.(open := false, mode := Done, chunk := n), 4, [TooLong(s.id)])
      else Next(s.(chunk := n, quota := s.quota - n), 4, [])
  }

  datatype Result = Result(state: State, out: seq<Action>, rest: seq<Byte>)

  /** All that one read leads to: the loop goes on through the buffer even after a command has closed the
      connection. */
  function Run(s: State, b: seq<Byte>, env: Env): (r: Result)
    ensures |r.rest| <= |b|
    decreases |b|
  {
    match Step(s, b, env)
    case More => Result(s, [], b)
    case Next(t, used, out) =>
      var r := Run(t, b[used..], env);
      Result(r.state, out + r.out, r.rest)
  }

  /** The same, up to the command that closes the connection. */
  function Decode(s: State, b: seq<Byte>, env: Env): (r: Result)
    ensures |r.rest| <= |b|
    decreases |b|
  {
    match if s.open then Step(s, b, env) else More
    case More => Result(s, [], b)
    case Next(t, used, out) =>
      var r := Decode(t, b[used..], env);
      Result(r.state, out + r.out, r.rest)
  }

  // ----- independence of segmentation

  lemma {:induction false} EndAtFound(a: seq<Byte>, b: seq<Byte>, c: Byte)
    requires EndAt(a, c) < |a|
    ensures EndAt(a + b, c) == EndAt(a, c)
  {
    if a[0] != c {
      assert (a + b)[1..] == a[1..] + b;
      EndAtFound(a[1..], b, c);
    }
  }

  lemma NulAtFound(a: seq<Byte>, b: seq<Byte>)
    requires NulAt(a) < |a|
    ensures NulAt(a + b) == NulAt(a)
  {
    EndAtFound(a, b, 0);
  }

  /** More bytes behind a step do not change it. */
  lemma StepStable(s: State, a: seq<Byte>, b: seq<Byte>, env: Env)
    requires Step(s, a, env).Next?
    ensures Step(s, a + b, env) == Step(s, a, env)
  {
    hide Classify, Execute, NulAt;
    if s.mode == Command {
      if Prefixed(a) {
        EndAtFound(a, b, Terminator(a));
        var k := EndAt(a, Terminator(a));
        assert (a + b)[1..k] == a[1..k] && (a + b)[..k] == a[..k];
      }
    } else if s.mode == Stream && s.chunk == 0 {
      assert (a + b)[..4] == a[..4];
    }
  }

  /** Continue a decoding with further bytes. */
  function DecodeOn(r: Result, b: seq<Byte>, env: Env): Result {
    var n := Decode(r.state, r.rest + b, env);
    Result(n.state, r.out + n.out, n.rest)
  }

  lemma {:induction false} DecodeSplit(s: State, a: seq<Byte>, b: seq<Byte>, env: Env)
    ensures Decode(s, a + b, env) == DecodeOn(Decode(s, a, env), b, env)
    decreases |a|
  {
    hide Step;
    match if s.open then Step(s, a, env) else More {
      case More =>
      case Next(t, used, out) =>
        StepStable(s, a, b, env);
        assert (a + b)[used..] == a[used..] + b;
        DecodeSplit(t, a[used..], b, env);
        var r := Decode(t, a[used..], env);
        assert out + (r.out + Decode(r.state, r.rest + b, env).out)
            == (out + r.out) + Decode(r.state, r.rest + b, env).out;
    }
  }

  /** A read goes on from where the decoding up to the closing command stops. */
  lemma {:induction false} RunIsDecode(s: State, b: seq<Byte>, env: Env)
    ensures var d := Decode(s, b, env);
            var r := Run(d.state, d.rest, env);
            && Run(s, b, env) == Result(r.state, d.out + r.out, r.rest)
            && (d.state.open ==> r == Result(d.state, [], d.rest))
    decreases |b|
  {
    hide Step;
    match if s.open then Step(s, b, env) else More {
      case More =>
        assert [] + Run(s, b, env).out == Run(s, b, env).out;
      case Next(t, used, out) =>
        RunIsDecode(t, b[used..], env);
        var d := Decode(t, b[used..], env);
        var r := Run(d.state, d.rest, env);
        assert out + (d.out + r.out) == (out + d.out) + r.out;
    }
  }

  lemma {:induction false} StaysClosed(s: State, b: seq<Byte>, env: Env)
    requires !s.open
    ensures !Run(s, b, env).state.open
    decreases |b|
  {
    match Step(s, b, env) {
      case More =>
      case Next(t, used, out) =>
        ClosedStep(s, b, env);
        StaysClosed(t, b[used..], env);
    }
  }

  lemma ClosedStep(s: State, b: seq<Byte>, env: Env)
    requires !s.open && Step(s, b, env).Next?
    ensures !Step(s, b, env).state.open
  {
    hide Classify, EndAt, Unchomped;
  }

  /** One more read, if the connection is still open. */
  function Read(r: Result, piece: seq<Byte>, env: Env): Result {
    if !r.state.open then r
    else
      var n := Run(r.state, r.rest + piece, env);
      Result(n.state, r.out + n.out, n.rest)
  }

  /** What the server makes of the bytes, read by read. */
  function Feed(r: Result, pieces: seq<seq<Byte>>, env: Env): Result
    decreases |pieces|
  {
    if pieces == [] then r else Feed(Read(r, pieces[0], env), pieces[1..], env)
  }

  /** The closing command's state and what followed it in the same read, if there was such a command. */
  function Late(r: Result, pieces: seq<seq<Byte>>, env: Env): Result
    decreases |pieces|
  {
    if pieces == [] || !r.state.open then Result(START, [], [])
    else
      var n := Read(r, pieces[0], env);
      if n.state.open then Late(n, pieces[1..], env)
      else Decode(r.state, r.rest + pieces[0], env)
  }

  lemma DecodeTwice(r: Result, a: seq<Byte>, b: seq<Byte>, env: Env)
    ensures DecodeOn(DecodeOn(r, a, env), b, env) == DecodeOn(r, a + b, env)
  {
    hide Step, Decode;
    DecodeSplit(r.state, r.rest + a, b, env);
    assert r.rest + (a + b) == (r.rest + a) + b;
    var n := Decode(r.state, r.rest + a, env);
    var m := Decode(n.state, n.rest + b, env);
    assert (r.out + n.out) + m.out == r.out + (n.out + m.out);
  }

  lemma {:induction false} FeedClosed(r: Result, pieces: seq<seq<Byte>>, env: Env)
    requires !r.state.open
    ensures Feed(r, pieces, env) == r
    decreases |pieces|
  {
    if pieces != [] {
      FeedClosed(r, pieces[1..], env);
    }
  }

  lemma ReadIsDecode(r: Result, piece: seq<Byte>, env: Env)
    requires r.state.open
    ensures var n, d := Read(r, piece, env), DecodeOn(r, piece, env);
            && (n.state.open <==> d.state.open) && (n.state.open ==> n == d)
            && n.out == d.out + Run(d.state, d.rest, env).out
  {
    hide Step, Run, Decode;
    RunIsDecode(r.state, r.rest + piece, env);
    var d := Decode(r.state, r.rest + piece, env);
    var l := Run(d.state, d.rest, env);
    if !d.state.open {
      StaysClosed(d.state, d.rest, env);
    }
    assert r.out + (d.out + l.out) == (r.out + d.out) + l.out;
    assert d.out + [] == d.out;
  }

  lemma DecodeClosed(r: Result, b: seq<Byte>, env: Env)
    requires !r.state.open
    ensures DecodeOn(r, b, env) == Result(r.state, r.out, r.rest + b)
  {
    assert r.out + [] == r.out;
  }

  lemma {:induction false} FeedIsDecode(r: Result, pieces: seq<seq<Byte>>, env: Env)
    requires pieces != [] && r.state.open
    ensures var f, d, l := Feed(r, pieces, env), DecodeOn(r, Concat(pieces), env), Late(r, pieces, env);
            && (f.state.open <==> d.state.open) && (f.state.open ==> f == d)
            && f.out == d.out + Run(l.state, l.rest, env).out
            && (!d.state.open ==> l.state == d.state && l.rest <= d.rest)
            && (d.state.open ==> l.rest == [])
    decreases |pieces|
  {
    hide Run, Decode, DecodeOn, Concat, Read;
    var p := pieces[0];
    var n := Read(r, p, env);
    ReadIsDecode(r, p, env);
    ConcatFirst(pieces);
    DecodeTwice(r, p, Concat(pieces[1..]), env);
    NothingRun(START, env);
    if n.state.open {
      if |pieces| == 1 {
        assert pieces[1..] == [];
        assert p + [] == p;
        assert n.out + [] == n.out;
      } else {
        FeedIsDecode(n, pieces[1..], env);
      }
    } else {
      FeedClosed(n, pieces[1..], env);
      DecodeClosed(DecodeOn(r, p, env), Concat(pieces[1..]), env);
      LateNow(r, p, env);
    }
  }

  lemma NothingRun(s: State, env: Env)
    ensures Run(s, [], env) == Result(s, [], [])
  {}

  lemma LateNow(r: Result, p: seq<Byte>, env: Env)
    ensures Decode(r.state, r.rest + p, env).state == DecodeOn(r, p, env).state
    ensures Decode(r.state, r.rest + p, env).rest == DecodeOn(r, p, env).rest
  {}

  lemma ConcatFirst(pieces: seq<seq<Byte>>)
    requires pieces != []
    ensures Concat(pieces) == pieces[0] + Concat(pieces[1..])
    ensures |pieces| == 1 ==> Concat(pieces[1..]) == []
  {}

  /** Nothing comes of the bytes behind a closing command. */
  ghost predicate Quiet(s: State, b: seq<Byte>) {
    || b == [] || s.mode == Done
    || (s.mode == Command && (Prefixed(b) ==> EndAt(b, Terminator(b)) == |b|))
  }

  lemma QuietIs(s: State, b: seq<Byte>, env: Env)
    requires !s.open && s.mode != Stream
    ensures Run(s, b, env).out == [] <==> Quiet(s, b)
  {
    hide Classify, NulAt;
  }

  lemma {:induction false} ClosesWell(s: State, b: seq<Byte>, env: Env)
    requires s.open || s.mode != Stream
    ensures var d := Decode(s, b, env).state; d.open || d.mode != Stream
    decreases |b|
  {
    match if s.open then Step(s, b, env) else More {
      case More =>
      case Next(t, used, out) =>
        ClosingStep(s, b, env);
        ClosesWell(t, b[used..], env);
    }
  }

  lemma ClosingStep(s: State, b: seq<Byte>, env: Env)
    requires s.open && Step(s, b, env).Next?
    ensures var t := Step(s, b, env).state; t.open || t.mode != Stream
  {
    hide Classify, EndAt, Unchomped;
  }

  /** However the bytes are split into reads, what is handed on is what the bytes alone determine up to the
      command that closes the connection, followed by what the rest of that command's read leads to.  It is
      independent of the split exactly if that rest is quiet. */
  lemma Segmentation(s: State, pieces: seq<seq<Byte>>, env: Env)
    requires s.open && pieces != []
    ensures var f, d, l := Feed(Result(s, [], []), pieces, env), Decode(s, Concat(pieces), env),
                           Late(Result(s, [], []), pieces, env);
            && (f.state.open <==> d.state.open) && (f.state.open ==> f == d)
            && f.out == d.out + Run(l.state, l.rest, env).out
            && (!d.state.open ==> l.state == d.state && l.rest <= d.rest)
            && (d.state.open ==> l.rest == [])
            && (f.out == d.out <==> Quiet(l.state, l.rest))
  {
    hide Run, Decode, Quiet, Concat, Feed, Late;
    var r := Result(s, [], []);
    FeedIsDecode(r, pieces, env);
    assert [] + Concat(pieces) == Concat(pieces);
    var d, l := Decode(s, Concat(pieces), env), Late(r, pieces, env);
    assert [] + d.out == d.out;
    assert DecodeOn(r, Concat(pieces), env) == d;
    if d.state.open {
      NothingRun(l.state, env);
      QuietNone(l.state);
    } else {
      ClosesWell(s, Concat(pieces), env);
      QuietIs(l.state, l.rest, env);
    }
  }

  lemma QuietNone(s: State)
    ensures Quiet(s, [])
  {}

  /** A step does not need the bytes behind the ones it uses. */
  lemma CutStep(s: State, b: seq<Byte>, m: nat, env: Env)
    requires Step(s, b, env).Next? && Step(s, b, env).used <= m <= |b|
    ensures Step(s, b[..m], env) == Step(s, b, env)
  {
    assert b[..m] + b[m..] == b;
    assert Step(s, b[..m], env).Next? by {
      hide Classify, Execute, NulAt;
    }
    StepStable(s, b[..m], b[m..], env);
  }

  /** Nor does the decoding up to the closing command need the rest. */
  lemma {:induction false} CutDecode(s: State, b: seq<Byte>, env: Env)
    requires !Decode(s, b, env).state.open
    ensures var d := Decode(s, b, env);
            var n := |b| - |d.rest|;
            b == b[..n] + d.rest && Decode(s, b[..n], env) == Result(d.state, d.out, [])
    decreases |b|
  {
    hide Step, Decode;
    var st := Step(s, b, env);
    if s.open && st.Next? {
      DecodeNext(s, b, env);
      var d := Decode(st.state, b[st.used..], env);
      CutDecode(st.state, b[st.used..], env);
      var n := |b| - |d.rest|;
      CutStep(s, b, n, env);
      CutSlice(b, st.used, n, d.rest);
      DecodeNext(s, b[..n], env);
    } else {
      DecodeStops(s, b, env);
      DecodeStops(s, [], env);
      assert b[..0] == [] && b == [] + b;
    }
  }

  lemma CutSlice(b: seq<Byte>, used: nat, n: nat, rest: seq<Byte>)
    requires used <= n <= |b| && b[used..] == b[used..][..n - used] + rest
    ensures b == b[..n] + rest && b[..n][used..] == b[used..][..n - used]
  {
    assert b == b[..used] + b[used..];
    assert b[..n] == b[..used] + b[used..][..n - used];
  }

  lemma DecodeNext(s: State, b: seq<Byte>, env: Env)
    requires s.open && Step(s, b, env).Next?
    ensures var st := Step(s, b, env);
            var r := Decode(st.state, b[st.used..], env);
            Decode(s, b, env) == Result(r.state, st.out + r.out, r.rest)
  {}

  lemma DecodeStops(s: State, b: seq<Byte>, env: Env)
    requires !s.open || b == [] || Step(s, b, env) == More
    ensures Decode(s, b, env) == Result(s, [], b)
  {}

  lemma QuietPrefix(s: State, a: seq<Byte>, b: seq<Byte>)
    requires a <= b && Quiet(s, b)
    ensures Quiet(s, a)
  {
    if a != [] && Prefixed(b) {
      assert a[0] == b[0];
      var c := Terminator(b);
      var k := EndAt(a, c);
      if k < |a| {
        assert b[k] == a[k];
      }
    }
  }

  /** What is handed on does not depend on how these bytes are split. */
  ghost predicate AllAgree(s: State, all: seq<Byte>, env: Env) {
    forall p, q | p != [] && q != [] && Concat(p) == all && Concat(q) == all ::
      Feed(Result(s, [], []), p, env).out == Feed(Result(s, [], []), q, env).out
  }

  /** All splits agree if and only if no command closes the connection or the bytes behind it are quiet.  When they
      are not, one read of everything and two reads that part behind the closing command differ. */
  lemma SplitsAgree(s: State, all: seq<Byte>, env: Env)
    requires s.open
    ensures var d := Decode(s, all, env); AllAgree(s, all, env) <==> d.state.open || Quiet(d.state, d.rest)
  {
    hide Run, Decode, Quiet, Concat, Feed, Late;
    var d := Decode(s, all, env);
    if d.state.open || Quiet(d.state, d.rest) {
      forall p | p != [] && Concat(p) == all ensures Feed(Result(s, [], []), p, env).out == d.out {
        QuietSplit(s, p, env);
      }
    } else {
      Disagree(s, all, env);
    }
  }

  lemma QuietSplit(s: State, p: seq<seq<Byte>>, env: Env)
    requires s.open && p != []
    requires var d := Decode(s, Concat(p), env); d.state.open || Quiet(d.state, d.rest)
    ensures Feed(Result(s, [], []), p, env).out == Decode(s, Concat(p), env).out
  {
    hide Run, Decode, Quiet, Concat, Feed, Late;
    Segmentation(s, p, env);
    var d, l := Decode(s, Concat(p), env), Late(Result(s, [], []), p, env);
    if d.state.open {
      QuietNone(l.state);
    } else {
      QuietPrefix(d.state, l.rest, d.rest);
    }
  }

  lemma Disagree(s: State, all: seq<Byte>, env: Env)
    requires s.open
    requires var d := Decode(s, all, env); !d.state.open && !Quiet(d.state, d.rest)
    ensures !AllAgree(s, all, env)
  {
    hide Run, Decode, Quiet, Feed;
    var d := Decode(s, all, env);
    var n := |all| - |d.rest|;
    var r := Result(s, [], []);
    CutDecode(s, all, env);
    var one, two := [all], [all[..n], d.rest];
    assert Concat(one[1..]) == [] && Concat(one) == all;
    assert two[1..] == [d.rest] && [d.rest][1..] == [] && Concat(two[1..]) == d.rest;
    assert Concat(two) == all;
    LateFirst(s, all, [], env);
    LateFirst(s, all[..n], [d.rest], env);
    assert [all] + [] == one && [all[..n]] + [d.rest] == two;
    Segmentation(s, one, env);
    Segmentation(s, two, env);
    QuietNone(d.state);
  }

  /** If the closing command is in the first read, so is what counts as late. */
  lemma LateFirst(s: State, b: seq<Byte>, more: seq<seq<Byte>>, env: Env)
    requires s.open && !Decode(s, b, env).state.open
    ensures Late(Result(s, [], []), [b] + more, env) == Decode(s, b, env)
  {
    hide Run, Decode;
    var r := Result(s, [], []);
    assert [] + b == b;
    ReadIsDecode(r, b, env);
    assert DecodeOn(r, b, env).state == Decode(s, b, env).state;
  }

  /** If nothing follows the closing command, or none comes, every split gives the same result: in a session,
      the commands up to END are handed on alike however they arrive. */
  lemma AnySplit(s: State, pieces: seq<seq<Byte>>, env: Env)
    requires s.open && pieces != []
    requires var d := Decode(s, Concat(pieces), env); d.state.open || d.rest == []
    ensures var f, d := Feed(Result(s, [], []), pieces, env), Decode(s, Concat(pieces), env);
            (f.state.open <==> d.state.open) && f.out == d.out && (f.state.open ==> f == d)
  {
    hide Run, Decode, Quiet, Concat, Feed, Late;
    Segmentation(s, pieces, env);
    QuietNone(Late(Result(s, [], []), pieces, env).state);
  }

  const PING_Z: seq<Byte> := [LETTER_Z] + Ascii("PING") + [0]

  /** Outside a session the code does depend on the split: two PINGs in one read are both answered, the second
      of two PINGs in two reads is not. */
  lemma TwoPings(env: Env)
    ensures Feed(Result(START, [], []), [PING_Z + PING_Z], env).out
         == [Handed(0, Ping, Ascii("PING")), Handed(1, Ping, Ascii("PING"))]
    ensures Feed(Result(START, [], []), [PING_Z, PING_Z], env).out == [Handed(0, Ping, Ascii("PING"))]
  {
    hide Step, Run, Ascii, Feed, Read;
    var t, p := START.(open := false, id := 1), Ascii("PING");
    RunPing(START, [], env);
    RunPing(t, [], env);
    RunPing(START, PING_Z, env);
    NothingRun(t, env);
    NothingRun(t.(id := 2), env);
    assert PING_Z + [] == PING_Z;
    assert [Handed(0, Ping, p)] + ([Handed(1, Ping, p)] + []) == [Handed(0, Ping, p), Handed(1, Ping, p)];
    assert [Handed(0, Ping, p)] + [] == [Handed(0, Ping, p)];
    assert [PING_Z + PING_Z] + [] == [PING_Z + PING_Z] && [PING_Z] + [PING_Z] == [PING_Z, PING_Z];
    FirstRead(PING_Z + PING_Z, [], env);
    FirstRead(PING_Z, [PING_Z], env);
  }

  lemma RunPing(s: State, rest: seq<Byte>, env: Env)
    requires s.mode == Command && !s.session
    ensures var r := Run(s.(open := false, id := s.id + 1), rest, env);
            Run(s, PING_Z + rest, env) == Result(r.state, [Handed(s.id, Ping, Ascii("PING"))] + r.out, r.rest)
  {
    hide Step, Ascii;
    OnePing(s, rest, env);
  }

  /** A read that closes the connection is the last. */
  lemma FirstRead(b: seq<Byte>, more: seq<seq<Byte>>, env: Env)
    requires !Run(START, b, env).state.open
    ensures Feed(Result(START, [], []), [b] + more, env).out == Run(START, b, env).out
  {
    hide Run;
    var n := Read(Result(START, [], []), b, env);
    assert [] + b == b && [] + Run(START, b, env).out == Run(START, b, env).out;
    assert ([b] + more)[1..] == more;
    FeedClosed(n, more, env);
  }

  lemma OnePing(s: State, rest: seq<Byte>, env: Env)
    requires s.mode == Command && !s.session
    ensures Step(s, PING_Z + rest, env) == Next(s.(open := false, id := s.id + 1), 6, [Handed(s.id, Ping, Ascii("PING"))])
    ensures (PING_Z + rest)[6..] == rest
  {
    var b, p := PING_Z + rest, Ascii("PING");
    assert |p| == 4 && p[0] == 80 && p[1] == 73 && p[2] == 78 && p[3] == 71;
    assert b[0] == LETTER_Z && b[1] == 80 && b[2] == 73 && b[3] == 78 && b[4] == 71 && b[5] == 0;
    EndIs(b, 0, 5);
    assert b[1..5] == p;
    assert Spells(p, 3);
    Meaning(p);
  }

  lemma {:induction false} EndIs(b: seq<Byte>, c: Byte, n: nat)
    requires n < |b| && b[n] == c && forall i | 0 <= i < n :: b[i] != c
    ensures EndAt(b, c) == n
  {}

  // ----- the quota

  /** While a stream is read, what was written, what is promised and what is left add up to the limit. */
  ghost predicate WithinLimit(s: State, limit: nat) {
    s.mode == Stream ==> |s.dump| + s.chunk + s.quota == limit
  }

  lemma StepWithin(s: State, b: seq<Byte>, env: Env)
    requires WithinLimit(s, env.limit) && (s.mode == Command ==> s.chunk == 0) && Step(s, b, env).Next?
    ensures var t := Step(s, b, env).state; WithinLimit(t, env.limit) && (t.mode == Command ==> t.chunk == 0)
    ensures forall i | 0 <= i < |Step(s, b, env).out| ::
              Step(s, b, env).out[i].Streamed? ==> |Step(s, b, env).out[i].data| <= env.limit
  {
    hide Classify;
  }

  /** No stream that is handed on exceeds the limit, whatever lengths were announced. */
  lemma {:induction false} StreamsWithin(s: State, b: seq<Byte>, env: Env)
    requires WithinLimit(s, env.limit) && (s.mode == Command ==> s.chunk == 0)
    ensures forall i | 0 <= i < |Run(s, b, env).out| ::
              Run(s, b, env).out[i].Streamed? ==> |Run(s, b, env).out[i].data| <= env.limit
    ensures WithinLimit(Run(s, b, env).state, env.limit)
    decreases |b|
  {
    match Step(s, b, env) {
      case More =>
      case Next(t, used, out) =>
        StepWithin(s, b, env);
        StreamsWithin(t, b[used..], env);
    }
  }

  /** Between reads, a stream has fewer than four bytes of it undecoded. */
  lemma {:induction false} FewBytesLeft(s: State, b: seq<Byte>, env: Env)
    ensures var r := Run(s, b, env); r.state.mode == Stream ==> |r.rest| < 4
    decreases |b|
  {
    match Step(s, b, env) {
      case More =>
      case Next(t, used, out) =>
        FewBytesLeft(t, b[used..], env);
    }
  }

  // ----- framed streams

  lemma RunSilent(s: State, b: seq<Byte>, t: State, used: nat, env: Env)
    requires s.open && Step(s, b, env) == Next(t, used, [])
    ensures Decode(s, b, env) == Decode(t, b[used..], env)
  {
    hide Step;
    var r := Decode(t, b[used..], env);
    assert [] + r.out == r.out;
  }

  /** The bytes of a chunk go to the dump. */
  lemma {:induction false} RunData(s: State, p: seq<Byte>, rest: seq<Byte>, env: Env)
    requires s.open && s.mode == Stream && s.chunk >= |p|
    ensures Decode(s, p + rest, env) == Decode(s.(chunk := s.chunk - |p|, dump := s.dump + p), rest, env)
    decreases |p|
  {
    hide Decode;
    if p == [] {
      assert p + rest == rest && s.dump + p == s.dump;
    } else {
      var t := s.(chunk := s.chunk - 1, dump := s.dump + [p[0]]);
      RunSilent(s, p + rest, t, 1, env);
      assert (p + rest)[1..] == p[1..] + rest;
      RunData(t, p[1..], rest, env);
      assert t.dump + p[1..] == s.dump + p;
    }
  }

  lemma RunFrame(s: State, p: seq<Byte>, rest: seq<Byte>, env: Env)
    requires s.open && s.mode == Stream && s.chunk == 0 && 0 < |p| <= s.quota && |p| < UINT32
    ensures Decode(s, Frame(p) + rest, env) == Decode(s.(quota := s.quota - |p|, dump := s.dump + p), rest, env)
  {
    hide Decode, Be32, FromBe32;
    var b := Frame(p) + rest;
    assert b[..4] == Be32(|p|);
    Be32RoundTrip(|p|);
    var t := s.(chunk := |p|, quota := s.quota - |p|);
    RunSilent(s, b, t, 4, env);
    assert b[4..] == p + rest;
    RunData(t, p, rest, env);
  }

  function Frames(parts: seq<seq<Byte>>): seq<Byte>
    requires forall i | 0 <= i < |parts| :: 0 < |parts[i]| < UINT32
  {
    if parts == [] then [] else Frame(parts[0]) + Frames(parts[1..])
  }

  /** A framed stream with its end mark is handed on as the concatenation of its chunks. */
  lemma {:induction false} RunFrames(s: State, parts: seq<seq<Byte>>, rest: seq<Byte>, env: Env)
    requires forall i | 0 <= i < |parts| :: 0 < |parts[i]| < UINT32
    requires s.open && s.mode == Stream && s.chunk == 0 && |Concat(parts)| <= s.quota
    ensures Decode(s, Frames(parts) + rest, env)
         == Decode(s.(quota := s.quota - |Concat(parts)|, dump := s.dump + Concat(parts)), rest, env)
    decreases |parts|
  {
    hide Step, Decode, Frame;
    if parts == [] {
      assert Frames(parts) + rest == rest && s.dump + [] == s.dump;
    } else {
      var p := parts[0];
      RunFrame(s, p, Frames(parts[1..]) + rest, env);
      assert Frames(parts) + rest == Frame(p) + (Frames(parts[1..]) + rest);
      var t := s.(quota := s.quota - |p|, dump := s.dump + p);
      RunFrames(t, parts[1..], rest, env);
      assert t.dump + Concat(parts[1..]) == s.dump + Concat(parts);
    }
  }
}

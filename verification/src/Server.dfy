/** The receiving side of clamd: one connection's buffer, command loop and stream reader. */
module Server {
  import opened Wire
  import opened Session

  ghost predicate NoForeign(out: seq<Action>) {
    forall i | 0 <= i < |out| :: !out[i].Foreign?
  }

  class Connection {
    const env: Env              // StreamMaxLength, and when a session's jobs are done
    const buffer: array<Byte>   // one byte longer than what is ever read into it
    var off: nat
    var open: bool
    var mode: Mode
    var session: bool
    var id: nat
    var chunksize: nat
    var quota: nat
    var dump: seq<Byte>
    var out: seq<Action>        // what has been handed on

    ghost predicate Valid()
      reads this
    {
      off < buffer.Length && (mode == Command ==> chunksize == 0) && (mode == Reply ==> !open) && mode != Done
    }

    ghost function St(): State
      reads this
    {
      State(open, mode, session, id, chunksize, quota, dump)
    }

    /** All that will have been handed on once the bytes from position `from` are decoded. */
    ghost function Total(from: nat): Result
      requires from <= off <= buffer.Length
      reads this, buffer
    {
      var r := Run(St(), buffer[from..off], env);
      Result(r.state, out + r.out, r.rest)
    }

    /** The connection is closed with all of that handed on. */
    ghost predicate Over(total: Result)
      reads this
    {
      !open && out == total.out && !total.state.open
    }

    constructor (size: nat, e: Env)
      ensures Valid() && St() == START && out == [] && off == 0 && env == e && buffer.Length == size + 1
      ensures fresh(buffer)
    {
      env := e;
      buffer := new Byte[size + 1];
      off, open, mode, session, id, chunksize, quota, dump, out := 0, true, Command, false, 0, 0, 0, [], [];
    }

    /** read_fd_data: append what has arrived */
    method Receive(data: seq<Byte>)
      requires Valid() && off + |data| < buffer.Length
      modifies this`off, buffer
      ensures Valid() && buffer[..off] == old(buffer[..off]) + data && off == old(off) + |data|
    {
      var i := 0;
      while i < |data|
        invariant 0 <= i <= |data| && off == old(off) + i
        invariant buffer[..off] == old(buffer[..off]) + data[..i]
      {
        ghost var before := buffer[..off];
        buffer[off] := data[i];
        off := off + 1;
        assert buffer[..off] == before + [data[i]];
        assert data[..i + 1] == data[..i] + [data[i]];
        i := i + 1;
      }
    }

    method Terminate(pos: nat, end: nat)
      requires pos < end < off <= buffer.Length
      modifies buffer
      ensures buffer[pos + 1..end] == old(buffer[pos..off])[1..end - pos]
      ensures buffer[end + 1..off] == old(buffer[pos..off])[end - pos + 1..]
    {
      ghost var all := buffer[..];
      buffer[end] := 0;
      assert buffer[..] == all[end := 0];
      Around(all, pos, end, off);
    }

    /** get_cmd for commands with a prefix letter: the position of the terminator, which becomes a zero byte.
        Anything else is found only at the front of the buffer. */
    method GetCmd(pos: nat) returns (found: bool, end: nat)
      requires Valid() && pos <= off && (pos == 0 && off > 0 ==> Prefixed(buffer[pos..off]))
      requires Prefixed(buffer[pos..off]) ==>
                 var k := EndAt(buffer[pos..off], Terminator(buffer[pos..off]));
                 0 < k < off - pos ==> Unchomped(buffer[pos..off], k)
      modifies buffer
      ensures found <==> Prefixed(old(buffer[pos..off]))
                         && EndAt(old(buffer[pos..off]), Terminator(old(buffer[pos..off]))) < off - pos
      ensures found ==> pos < end < off && end - pos == EndAt(old(buffer[pos..off]), Terminator(old(buffer[pos..off])))
      ensures found ==> buffer[pos + 1..end] == old(buffer[pos..off])[1..end - pos]
                        && buffer[end + 1..off] == old(buffer[pos..off])[end - pos + 1..]
      ensures !found ==> buffer[pos..off] == old(buffer[pos..off])
    {
      found, end := false, pos;
      if pos >= off || (buffer[pos] != LETTER_Z && buffer[pos] != LETTER_N) {
        return;
      }
      ghost var bytes := buffer[pos..off];
      var term := if buffer[pos] == LETTER_Z then 0 else NEWLINE;
      while end < off && buffer[end] != term
        invariant pos <= end <= off && forall i | pos <= i < end :: buffer[i] != term
      {
        end := end + 1;
      }
      FirstEnd(bytes, term, end - pos);
      if end < off {
        found := true;
        Terminate(pos, end);
      }
    }

    /** Move what is left to the front of the buffer. */
    method Shift(pos: nat)
      requires Valid()
      modifies this`off, buffer
      ensures Valid() && off == (if pos < old(off) then old(off) - pos else 0)
      ensures pos <= old(off) ==> buffer[..off] == old(buffer[pos..off])
    {
      if pos < off {
        ghost var tail := buffer[pos..off];
        var i := 0;
        while i < off - pos
          invariant 0 <= i <= off - pos && off == old(off)
          invariant buffer[..i] == tail[..i] && buffer[pos + i..off] == tail[i..]
        {
          assert buffer[pos + i] == tail[i];
          buffer[i] := buffer[pos + i];
          assert buffer[..i + 1] == tail[..i + 1];
          i := i + 1;
        }
        off := off - pos;
      } else {
        off := 0;
      }
    }

    /** execute_or_dispatch_command: 1 when the command is complete and the connection can be closed, 0 when it
        goes on or was dispatched */
    method Dispatch(k: Kind) returns (rc: int)
      requires Valid() && mode == Command && k != Fildes
      modifies this`mode, this`session, this`quota, this`dump
      ensures rc == 0 || rc == 1
      ensures rc == 1 <==> if old(session) then !(Immediate(k) || k == Scan || k == Stats || k == Instream)
                           else !(k == Instream || k == Idsession || Dispatched(k))
      ensures mode == if k == Instream then Stream else Command
      ensures k == Instream ==> quota == env.limit && dump == []
      ensures k != Instream ==> quota == old(quota) && dump == old(dump)
      ensures session == ((old(session) && (rc == 0 || k == End)) || (!old(session) && k == Idsession))
    {
      if session && !(k == Scan || k == End || k == Instream || Immediate(k) || k == Stats) {
        session := false;
        return 1;
      }
      if Immediate(k) {
        return if session then 0 else 1;
      } else if k == Instream {
        quota, mode, dump := env.limit, Stream, [];
        return 0;
      } else if Dispatched(k) {
        return 0;
      } else if k == Idsession {
        session := true;
        return 0;
      }
      return 1;
    }

    /** thrmgr_group_finished on the group of the session, if there is one */
    method GroupFinished() returns (last: bool)
      ensures last <==> !session || !env.busy(id)
    {
      last := !session || !env.busy(id);
    }

    /** One command, with what the command loop does about its result. */
    method Handle(text: seq<Byte>)
      requires Valid() && mode == Command && Classify(text, 0) != Fildes
      modifies this`open, this`mode, this`session, this`id, this`quota, this`dump, this`out
      ensures Valid()
      ensures var (t, acts) := old(Execute(St(), text, Classify(text, 0), env));
              St() == t && out == old(out) + acts
    {
      hide Classify, Spells;
      var k := ParseCommand(text);
      out := out + [Handed(id, k, text)];
      var rc := Dispatch(k);
      if !session || rc != 0 {
        var last := false;
        if rc != 0 {
          last := GroupFinished();
        }
        if last {
          open, session := false, false;
        } else if mode != Stream {
          mode, open := Reply, false;
        }
      }
      if mode == Command {
        id := id + 1;
      }
    }

    /** The next command, if it has arrived in full. */
    method OneCommand(pos: nat) returns (cmd: bool, pos': nat)
      requires Valid() && mode == Command && pos <= off && (pos == 0 ==> open && off > 0)
      requires NoForeign(Run(St(), buffer[pos..off], env).out)
      modifies this, buffer
      ensures Valid() && off == old(off) && pos <= pos' <= off && Total(pos') == old(Total(pos))
      ensures NoForeign(Run(St(), buffer[pos'..off], env).out)
      ensures cmd ==> pos' > pos && (mode == Stream ==> chunksize == 0)
      ensures !cmd ==> pos' == pos && mode == Command && Step(St(), buffer[pos'..off], env).More?
    {
      hide Run, Step, Execute, Classify, Unchomped, EndAt;
      ghost var bytes, before := buffer[pos..off], St();
      Understood(before, bytes, env);
      var end;
      cmd, end := GetCmd(pos);
      pos' := pos;
      if !cmd {
        Waits(before, bytes, env);
      } else {
        var text := buffer[pos + 1..end];
        TakeCommand(before, out, bytes, end - pos, env);
        Handle(text);
        ExecutedMode(before, text, Classify(text, 0), env);
        pos' := end + 1;
      }
    }

    /** parse_dispatch_cmd: handle every complete command from pos on, then shift the rest to the front.
        The position returned still counts from the old front. */
    method ParseDispatch(pos: nat) returns (cmd: bool, pos': nat)
      requires Valid() && open && pos < off && NoForeign(Run(St(), buffer[pos..off], env).out)
      modifies this, buffer
      ensures Valid() && Total(0) == old(Total(pos))
      ensures NoForeign(Run(St(), buffer[..off], env).out)
      ensures mode == Command ==> !cmd && Step(St(), buffer[..off], env).More?
      ensures !open && mode == Stream ==> chunksize == 0
      ensures old(mode) == Stream ==> St() == old(St()) && off == old(off) - pos && !cmd
      ensures off <= old(off) - pos
    {
      hide Run, Step, Execute, Classify, Unchomped, EndAt;
      cmd := false;
      pos' := pos;
      ghost var total := Total(pos);
      var going := mode == Command;
      while going
        invariant pos <= pos' <= off == old(off) && Valid()
        invariant Total(pos') == total && NoForeign(Run(St(), buffer[pos'..off], env).out)
        invariant going ==> mode == Command && (pos' == 0 ==> open && off > 0)
        invariant !going && mode == Command ==> !cmd && Step(St(), buffer[pos'..off], env).More?
        invariant !open && mode == Stream ==> chunksize == 0
        invariant old(mode) == Stream ==> !going && St() == old(St()) && pos' == pos && !cmd
        decreases going, off - pos'
      {
        cmd, pos' := OneCommand(pos');
        going := cmd && mode == Command;
      }
      Shift(pos');
      assert buffer[0..off] == buffer[..off];
    }

    /** The four length bytes at the front of the buffer, when a chunk is due. */
    method ReadLength() returns (rc: int, error: bool, ended: bool)
      requires Valid() && mode == Stream && chunksize == 0
      modifies this, buffer
      ensures Valid() && (rc == 0 || rc == -1) && old(out) <= out
      ensures rc == -1 && !error ==> St() == old(St()) && out == old(out) && off == old(off) < 4
                                     && buffer[..off] == old(buffer[..off])
      ensures error ==> rc == -1 && Over(old(Total(0)))
      ensures rc == 0 && !ended ==> open == old(open) && mode == Stream && chunksize > 0 && 4 <= off == old(off)
                                    && buffer[..off] == old(buffer[..off]) && Total(4) == old(Total(0))
      ensures ended ==> rc == 0 && !error && off == old(off) - 4
      ensures ended ==> if open then Total(0) == old(Total(0)) else Over(old(Total(0)))
    {
      hide Run, FromBe32;
      rc, error, ended := -1, false, false;
      if off < 4 {
        return;
      }
      ghost var bytes, s, o := buffer[0..off], St(), out;
      var cs := FromBe32(buffer[..4]);
      assert bytes[..4] == buffer[..4];
      TakeLength(s, o, bytes, env);
      if cs == 0 {
        out := out + [Streamed(id, dump)];
        if session {
          mode := Command;
        } else {
          mode, open := Reply, false;
        }
        dump := [];
        id := id + 1;
        Shift(4);
        assert buffer[0..off] == bytes[4..];
        rc, ended := 0, true;
      } else if cs > quota {
        out := out + [TooLong(id)];
        chunksize := cs;
        open := false;
        error := true;
      } else {
        chunksize := cs;
        quota := quota - cs;
        rc := 0;
        assert buffer[4..off] == bytes[4..];
        assert out == o + [];
      }
    }

    /** As much of the current chunk as has arrived. */
    method TakeData(from: nat) returns (pos: nat)
      requires Valid() && mode == Stream && from <= off && 0 < chunksize
      modifies this`chunksize, this`dump, this`off
      ensures Valid() && (!open ==> Over(old(Total(from))))
      ensures open ==> (if pos < off then Total(pos) else Total(0)) == old(Total(from)) && (pos >= off ==> off == 0)
      ensures pos < off ==> off == old(off) && pos > from
    {
      hide Run, Step;
      var cmdlen: nat := if from + chunksize < off then chunksize else off - from;
      ghost var s, rest, data := St(), buffer[from + cmdlen..off], buffer[from..from + cmdlen];
      assert buffer[from..off] == data + rest;
      ChunkData(s, out, data, rest, env);
      chunksize := chunksize - cmdlen;
      dump := dump + buffer[from..from + cmdlen];
      pos := from + cmdlen;
      if pos == off {
        assert rest == buffer[0..0];
        off := 0;
      }
    }

    /** handle_stream: one length, or as much of the current chunk as has arrived */
    method HandleStream() returns (rc: int, pos: nat, error: bool)
      requires Valid() && mode == Stream && (!open ==> chunksize == 0)
      modifies this, buffer
      ensures Valid() && (rc == 0 || rc == -1) && old(out) <= out
      ensures rc == -1 && !error ==> open == old(open) && Total(0) == old(Total(0))
                                     && Step(St(), buffer[..off], env).More?
      ensures error ==> rc == -1 && Over(old(Total(0)))
      ensures rc == 0 && !open ==> Over(old(Total(0)))
      ensures rc == 0 && open ==> (if pos < off then Total(pos) else Total(0)) == old(Total(0)) && (pos >= off ==> off == 0)
      ensures rc == 0 && pos < off ==> off - pos < old(off)
    {
      hide Run, Step;
      pos := 0;
      rc, error := 0, false;
      if chunksize == 0 {
        var ended;
        rc, error, ended := ReadLength();
        if rc == -1 {
          if !error {
            Starved(St(), buffer[..off], env);
            assert buffer[0..off] == old(buffer[0..off]);
          }
          return;
        }
        if ended {
          return;
        }
        pos := 4;
      }
      pos := TakeData(pos);
    }

    /** One turn of the loop below. */
    method Turn(pos: nat) returns (pos': nat, going: bool)
      requires Valid() && open && pos < off && NoForeign(Run(St(), buffer[pos..off], env).out)
      modifies this, buffer
      ensures Valid()
      ensures !open ==> Over(old(Total(pos)))
      ensures open && !going ==> Total(0) == old(Total(pos)) && Step(St(), buffer[..off], env).More?
      ensures open && going ==> (if pos' < off then Total(pos') else Total(0)) == old(Total(pos))
      ensures open && going && pos' < off ==>
                off - pos' < old(off) - pos && NoForeign(Run(St(), buffer[pos'..off], env).out)
      ensures open && going && pos' >= off ==> off == 0
    {
      hide Run, Step;
      var cmd;
      cmd, pos' := ParseDispatch(pos);
      assert buffer[0..off] == buffer[..off];
      if mode == Command {
        Stuck(St(), out, buffer[0..off], env);
        return pos', false;
      }
      if mode == Reply {
        AfterReply(St(), out, buffer[0..off], env);
        if off > 0 {
          out := out + [Garbage(id)];
        }
        return pos', false;
      }
      ghost var o, r := out, Run(St(), buffer[0..off], env);
      var rc, error;
      rc, pos', error := HandleStream();
      going := rc != -1;
      if rc == -1 && !error {
        assert buffer[0..off] == buffer[..off];
        Stuck(St(), out, buffer[0..off], env);
      }
      if going && open && pos' < off {
        LaterPart(o, r.out, out, Run(St(), buffer[pos'..off], env).out);
      }
    }

    /** The loop of recvloop_th over what one read has brought: it does what the decoder does. */
    method Process()
      requires Valid() && open && NoForeign(Run(St(), buffer[..off], env).out)
      modifies this, buffer
      ensures Valid()
      ensures var r := old(Run(St(), buffer[..off], env));
              && open == r.state.open && out == old(out) + r.out
              && (open ==> St() == r.state && buffer[..off] == r.rest)
    {
      hide Run, Step;
      ghost var total := Total(0);
      assert buffer[0..off] == buffer[..off];
      var pos: nat, going := 0, true;
      while going && open && pos < off
        invariant Valid()
        invariant !open ==> Over(total)
        invariant open && !going ==> Total(0) == total && Step(St(), buffer[..off], env).More?
        invariant open && going ==> (if pos < off then Total(pos) else Total(0)) == total
        invariant open && going && pos < off ==> NoForeign(Run(St(), buffer[pos..off], env).out)
        invariant open && going && pos >= off ==> off == 0
        decreases going, open, if pos < off then off - pos else 0
      {
        pos, going := Turn(pos);
      }
      assert buffer[0..off] == buffer[..off];
      Finished(St(), buffer[0..off], env);
    }
  }

  /** Changing one byte leaves what is before and behind it. */
  lemma Around(s: seq<Byte>, pos: nat, end: nat, off: nat)
    requires pos < end < off <= |s|
    ensures s[end := 0][pos + 1..end] == s[pos..off][1..end - pos]
    ensures s[end := 0][end + 1..off] == s[pos..off][end - pos + 1..]
  {
    var t := s[pos..off];
    var u, v, x, y := t[1..end - pos], t[end - pos + 1..], s[end := 0][pos + 1..end], s[end := 0][end + 1..off];
    assert forall i | 0 <= i < |u| :: u[i] == t[1 + i] == s[pos + 1 + i] == x[i];
    assert forall i | 0 <= i < |v| :: v[i] == t[end - pos + 1 + i] == s[end + 1 + i] == y[i];
  }

  lemma {:induction false} FirstEnd(b: seq<Byte>, c: Byte, n: nat)
    requires n <= |b| && (forall i | 0 <= i < n :: b[i] != c) && (n < |b| ==> b[n] == c)
    ensures EndAt(b, c) == n
  {}

  /** Only commands that the model covers are met. */
  lemma Understood(s: State, b: seq<Byte>, env: Env)
    requires s.mode == Command && NoForeign(Run(s, b, env).out)
    ensures s.open && b != [] ==> Prefixed(b)
    ensures Prefixed(b) ==> var k := EndAt(b, Terminator(b));
                            0 < k < |b| ==> Unchomped(b, k) && Classify(b[1..k], 0) != Fildes
  {
    hide Classify, Unchomped, Run;
    FirstOut(s, b, env);
  }

  lemma FirstOut(s: State, b: seq<Byte>, env: Env)
    requires NoForeign(Run(s, b, env).out)
    ensures var p := Step(s, b, env); p.Next? && p.out != [] ==> !p.out[0].Foreign?
  {
    hide Step;
    var p := Step(s, b, env);
    if p.Next? && p.out != [] {
      assert p.out[0] == Run(s, b, env).out[0];
    }
  }

  lemma Waits(s: State, b: seq<Byte>, env: Env)
    requires s.mode == Command && (s.open && b != [] ==> Prefixed(b))
    requires Prefixed(b) ==> EndAt(b, Terminator(b)) == |b|
    ensures Step(s, b, env).More?
  {}

  lemma ExecutedMode(s: State, text: seq<Byte>, k: Kind, env: Env)
    requires s.mode == Command && k != Fildes
    ensures var t := Execute(s, text, k, env).0; t.mode == Stream ==> t.chunk == s.chunk
  {}

  lemma CommandStep(s: State, b: seq<Byte>, e: nat, env: Env)
    requires s.mode == Command && Prefixed(b) && e == EndAt(b, Terminator(b)) && 0 < e < |b| && Unchomped(b, e)
    ensures var (t, acts) := Execute(s, b[1..e], Classify(b[1..e], 0), env);
            Step(s, b, env) == Next(t, e + 1, acts)
  {
    hide Execute, Classify, Unchomped, EndAt;
  }

  lemma TakeCommand(s: State, out: seq<Action>, b: seq<Byte>, e: nat, env: Env)
    requires s.mode == Command && Prefixed(b) && e == EndAt(b, Terminator(b)) && 0 < e < |b| && Unchomped(b, e)
    ensures var (t, acts) := Execute(s, b[1..e], Classify(b[1..e], 0), env);
            var r, n := Run(s, b, env), Run(t, b[e + 1..], env);
            && Result(r.state, out + r.out, r.rest) == Result(n.state, (out + acts) + n.out, n.rest)
            && (NoForeign(r.out) ==> NoForeign(n.out))
  {
    hide Step, Execute, Classify, Unchomped, EndAt;
    var (t, acts) := Execute(s, b[1..e], Classify(b[1..e], 0), env);
    CommandStep(s, b, e, env);
    var n := Run(t, b[e + 1..], env);
    assert (out + acts) + n.out == out + (acts + n.out);
    assert forall i | 0 <= i < |n.out| :: n.out[i] == (acts + n.out)[|acts| + i];
  }

  /** A length word is one step; where it ends the connection nothing more comes of the bytes behind it. */
  lemma TakeLength(s: State, out: seq<Action>, b: seq<Byte>, env: Env)
    requires s.mode == Stream && s.chunk == 0 && |b| >= 4
    ensures var p := Step(s, b, env);
            && p.Next? && p.used == 4
            && var r, n := Run(s, b, env), Run(p.state, b[4..], env);
               && Result(r.state, out + r.out, r.rest) == Result(n.state, (out + p.out) + n.out, n.rest)
               && (p.state.mode == Done ==> n == Result(p.state, [], b[4..]) && r.out == p.out && r.state == p.state)
  {
    hide FromBe32;
    var p := Step(s, b, env);
    var n := Run(p.state, b[4..], env);
    assert (out + p.out) + n.out == out + (p.out + n.out);
    if p.state.mode == Done {
      assert n == Result(p.state, [], b[4..]);
      assert p.out + [] == p.out;
    }
  }

  /** The bytes of a chunk; on a closed connection that is the end of it. */
  lemma ChunkData(s: State, out: seq<Action>, p: seq<Byte>, rest: seq<Byte>, env: Env)
    requires s.mode == Stream && 0 < s.chunk && |p| <= s.chunk
    ensures s.open ==>
              Run(s, p + rest, env) == Run(s.(chunk := s.chunk - |p|, dump := s.dump + p), rest, env)
    ensures !s.open ==> Run(s, p + rest, env).out == [] && !Run(s, p + rest, env).state.open && out + [] == out
  {
    hide Run, Decode;
    if s.open {
      var t := s.(chunk := s.chunk - |p|, dump := s.dump + p);
      RunData(s, p, rest, env);
      RunIsDecode(s, p + rest, env);
      RunIsDecode(t, rest, env);
    } else {
      StaysClosed(s, p + rest, env);
      ClosedData(s, p + rest, env);
    }
  }

  lemma {:induction false} ClosedData(s: State, b: seq<Byte>, env: Env)
    requires s.mode == Stream && 0 < s.chunk && !s.open
    ensures Run(s, b, env).out == []
    decreases |b|
  {
    if b != [] {
      var t := Step(s, b, env).state;
      if s.chunk > 1 {
        ClosedData(t, b[1..], env);
      }
    }
  }

  lemma Starved(s: State, b: seq<Byte>, env: Env)
    requires s.mode == Stream && s.chunk == 0 && |b| < 4
    ensures Step(s, b, env).More?
  {}

  lemma Stuck(s: State, out: seq<Action>, b: seq<Byte>, env: Env)
    requires Step(s, b, env).More?
    ensures Run(s, b, env) == Result(s, [], b) && out + [] == out
  {}

  /** Bytes behind the last command are refused. */
  lemma AfterReply(s: State, out: seq<Action>, b: seq<Byte>, env: Env)
    requires s.mode == Reply && !s.open
    ensures var r := Run(s, b, env);
            !r.state.open && out + r.out == if b == [] then out else out + [Garbage(s.id)]
  {}

  lemma LaterPart(a: seq<Action>, b: seq<Action>, c: seq<Action>, d: seq<Action>)
    requires a + b == c + d && a <= c && NoForeign(b)
    ensures NoForeign(d)
  {
    forall i | 0 <= i < |d| ensures !d[i].Foreign? {
      assert d[i] == (c + d)[|c| + i] == (a + b)[|c| + i] == b[|c| - |a| + i];
    }
  }

  lemma Finished(s: State, b: seq<Byte>, env: Env)
    ensures Step(s, b, env).More? ==> Run(s, b, env) == Result(s, [], b)
    ensures b == [] ==> Step(s, b, env).More?
  {}

  /** No read is larger than the room left in the buffer. */
  ghost predicate Fits(r: Result, pieces: seq<seq<Byte>>, env: Env, size: nat)
    decreases |pieces|
  {
    pieces != [] && r.state.open ==>
      |r.rest| + |pieces[0]| <= size && Fits(Read(r, pieces[0], env), pieces[1..], env, size)
  }

  lemma {:induction false} FeedGrows(r: Result, pieces: seq<seq<Byte>>, env: Env)
    ensures r.out <= Feed(r, pieces, env).out
    decreases |pieces|
  {
    hide Run;
    if pieces != [] {
      FeedGrows(Read(r, pieces[0], env), pieces[1..], env);
    }
  }

  lemma FeedMore(r: Result, piece: seq<Byte>, rest: seq<seq<Byte>>, env: Env)
    requires r.state.open && NoForeign(Feed(Read(r, piece, env), rest, env).out)
    ensures NoForeign(Run(r.state, r.rest + piece, env).out)
  {
    hide Run;
    var n, f := Run(r.state, r.rest + piece, env), Feed(Read(r, piece, env), rest, env);
    FeedGrows(Read(r, piece, env), rest, env);
    forall i | 0 <= i < |n.out| ensures !n.out[i].Foreign? {
      assert n.out[i] == (r.out + n.out)[|r.out| + i] == f.out[|r.out| + i];
    }
  }

  /** A connection served read by read hands on what the decoder does, and up to the command that closes it
      that depends on the bytes alone; further commands in the same read are still carried out. */
  method Serve(c: Connection, pieces: seq<seq<Byte>>)
    requires c.Valid() && c.St() == START && c.out == [] && c.off == 0
    requires Fits(Result(START, [], []), pieces, c.env, c.buffer.Length - 1)
    requires NoForeign(Feed(Result(START, [], []), pieces, c.env).out)
    modifies c, c.buffer
    ensures c.Valid()
    ensures var f := Feed(Result(START, [], []), pieces, c.env);
            c.open == f.state.open && c.out == f.out && (c.open ==> c.St() == f.state)
    ensures pieces != [] ==>
              var d, l := Decode(START, Concat(pieces), c.env), Late(Result(START, [], []), pieces, c.env);
              && c.open == d.state.open && (c.open ==> c.St() == d.state && c.buffer[..c.off] == d.rest)
              && d.out <= c.out && (c.out == d.out <==> Quiet(l.state, l.rest))
  {
    hide Run, Decode, Quiet;
    ghost var f := Feed(Result(START, [], []), pieces, c.env);
    ghost var now := Result(START, [], []);
    var i := 0;
    while i < |pieces| && c.open
      invariant 0 <= i <= |pieces| && c.Valid() && now.out == c.out && now.state.open == c.open
      invariant c.open ==> now.state == c.St() && now.rest == c.buffer[..c.off]
      invariant c.open ==> Fits(now, pieces[i..], c.env, c.buffer.Length - 1)
      invariant Feed(now, pieces[i..], c.env) == f
    {
      assert pieces[i..][0] == pieces[i] && pieces[i..][1..] == pieces[i + 1..];
      FeedMore(now, pieces[i], pieces[i + 1..], c.env);
      c.Receive(pieces[i]);
      c.Process();
      now := Read(now, pieces[i], c.env);
      i := i + 1;
    }
    if !c.open {
      FeedClosed(now, pieces[i..], c.env);
    }
    if pieces != [] {
      Segmentation(START, pieces, c.env);
    }
  }

  // ----- reads of any size

  /** The bytes hold a conversation that ends with them: nothing follows what closes the connection. */
  ghost predicate Conversation(wire: seq<Byte>, env: Env) {
    var d := Decode(START, wire, env);
    d.rest == [] && NoForeign(d.out)
  }

  /** No part of it that still waits to be decoded fills the buffer. */
  ghost predicate FitsBuffer(wire: seq<Byte>, env: Env, size: nat) {
    forall k | 0 <= k <= |wire| :: var d := Decode(START, wire[..k], env); d.state.open ==> |d.rest| < size
  }

  lemma PrefixDecoded(wire: seq<Byte>, k: nat, env: Env)
    requires k <= |wire| && Conversation(wire, env)
    ensures var d := Decode(START, wire[..k], env);
            NoForeign(d.out) && (!d.state.open ==> d.rest == [] && k == |wire|)
  {
    hide Decode;
    DecodeSplit(START, wire[..k], wire[k..], env);
    assert wire[..k] + wire[k..] == wire;
    var d, w := Decode(START, wire[..k], env), Decode(START, wire, env);
    if !d.state.open {
      DecodeClosed(d, wire[k..], env);
    }
    forall i | 0 <= i < |d.out| ensures !d.out[i].Foreign? {
      assert d.out[i] == w.out[i];
    }
  }

  /** What one more read adds, in terms of the bytes alone. */
  lemma OneRead(wire: seq<Byte>, k: nat, n: nat, env: Env)
    requires k + n <= |wire| && Conversation(wire, env) && Decode(START, wire[..k], env).state.open
    ensures var d, e := Decode(START, wire[..k], env), Decode(START, wire[..k + n], env);
            var r := Run(d.state, d.rest + wire[k..k + n], env);
            && NoForeign(r.out) && r.state.open == e.state.open && e.out == d.out + r.out
            && (r.state.open ==> r.state == e.state && r.rest == e.rest)
  {
    hide Decode, Run;
    var d, e := Decode(START, wire[..k], env), Decode(START, wire[..k + n], env);
    var x := d.rest + wire[k..k + n];
    DecodeSplit(START, wire[..k], wire[k..k + n], env);
    assert wire[..k] + wire[k..k + n] == wire[..k + n];
    PrefixDecoded(wire, k + n, env);
    RunIsDecode(d.state, x, env);
    var m := Decode(d.state, x, env);
    if !m.state.open {
      NothingRun(m.state, env);
    }
    assert m.out + [] == m.out;
    forall i | 0 <= i < |m.out| ensures !m.out[i].Foreign? {
      assert m.out[i] == e.out[|d.out| + i];
    }
  }

  /** Serve the bytes in reads of whatever size the network chooses: what is handed on is what they mean. */
  method ServeAll(c: Connection, wire: seq<Byte>)
    requires c.Valid() && c.St() == START && c.out == [] && c.off == 0
    requires Conversation(wire, c.env) && FitsBuffer(wire, c.env, c.buffer.Length - 1)
    modifies c, c.buffer
    ensures c.Valid() && c.out == Decode(START, wire, c.env).out && c.open == Decode(START, wire, c.env).state.open
  {
    hide Decode, Run, Conversation;
    var k := 0;
    DecodeNone(c.env);
    assert wire[..0] == [];
    while k < |wire| && c.open
      invariant 0 <= k <= |wire| && c.Valid()
      invariant var d := Decode(START, wire[..k], c.env);
                c.open == d.state.open && c.out == d.out && (c.open ==> c.St() == d.state && c.buffer[..c.off] == d.rest)
    {
      var room: nat := c.buffer.Length - 1 - c.off;
      var n: nat :| 0 < n <= room && n <= |wire| - k;
      OneRead(wire, k, n, c.env);
      c.Receive(wire[k..k + n]);
      c.Process();
      k := k + n;
    }
    PrefixDecoded(wire, k, c.env);
    assert wire[..|wire|] == wire;
  }

  lemma DecodeNone(env: Env)
    ensures Decode(START, [], env) == Result(START, [], [])
  {}
}

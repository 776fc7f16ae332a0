/** The streaming BinHex extractor: it decodes into a small buffer and, each time that is nearly full,
    moves what it holds on to the header, the data fork or the resource fork. */
module BinHex {
  import opened Wire
  import opened BinHexSpec

  // BUFSIZ of the C library.  With fewer than 534 bytes a flush could fall inside a long header.
  type BufferSize = n: nat | 534 <= n witness 8192
  const BUFSIZ: BufferSize
  const FLUSH: nat := BUFSIZ - 256

  // ----- what the two forks should hold

  /** Name, type, creator, flags, two lengths and a checksum. */
  function HeaderLength(d: seq<Byte>): nat
    requires d != []
  {
    22 + (d[0] as int)
  }

  predicate HasHeader(d: seq<Byte>) {
    d != [] && |d| > HeaderLength(d)
  }

  function LengthAt(d: seq<Byte>, k: nat): nat
    requires k + 4 <= |d|
  {
    FromBe32(d[k..k + 4])
  }

  function DataLength(d: seq<Byte>): nat
    requires HasHeader(d)
  {
    LengthAt(d, HeaderLength(d) - 10)
  }

  /** The announced length of the resource fork, or nothing if it is over the limit. */
  function ResourceLength(d: seq<Byte>, limit: nat): nat
    requires HasHeader(d)
  {
    var n := LengthAt(d, HeaderLength(d) - 6);
    if n <= limit then n else 0
  }

  function Slice(d: seq<Byte>, from: nat, n: nat): seq<Byte> {
    if from >= |d| then [] else if from + n <= |d| then d[from..from + n] else d[from..]
  }

  /** The data fork follows the header. */
  function DataFork(d: seq<Byte>, limit: nat): seq<Byte> {
    if HasHeader(d) && DataLength(d) <= limit then Slice(d, HeaderLength(d), DataLength(d)) else []
  }

  /** The resource fork follows two checksum bytes after the data fork; it is taken only if it has at least
      five bytes and the data fork was found clean. */
  function ResourceFork(d: seq<Byte>, limit: nat, infected: bool): seq<Byte> {
    if HasHeader(d) && DataLength(d) <= limit && !infected && ResourceLength(d, limit) >= 5
    then Slice(d, HeaderLength(d) + DataLength(d) + 2, ResourceLength(d, limit))
    else []
  }

  lemma SliceOfPrefix(d: seq<Byte>, e: seq<Byte>, from: nat, n: nat)
    requires d <= e && from + n <= |d|
    ensures Slice(d, from, n) == Slice(e, from, n)
  {}

  lemma HeaderOfPrefix(d: seq<Byte>, e: seq<Byte>)
    requires d <= e && HasHeader(d)
    ensures HasHeader(e) && HeaderLength(e) == HeaderLength(d) && DataLength(e) == DataLength(d)
    ensures forall limit :: ResourceLength(e, limit) == ResourceLength(d, limit)
  {
    var h := HeaderLength(d);
    assert d[h - 10..h - 6] == e[h - 10..h - 6];
    assert d[h - 6..h - 2] == e[h - 6..h - 2];
  }

  datatype Phase = Banner | Header | Data | Limbo1 | Limbo2 | Res

  /** The variables of the writing side. */
  datatype Writer = Writer(phase: Phase, datalen: nat, reslen: nat, data: seq<Byte>, res: seq<Byte>)

  /** How much of what was decoded has left the buffer. */
  ghost function Done(w: Writer, all: seq<Byte>): nat
    requires w.phase.Banner? || w.phase.Header? || HasHeader(all)
  {
    match w.phase
    case Banner => 0
    case Header => 0
    case Data => HeaderLength(all) + |w.data|
    case Limbo1 => HeaderLength(all) + |w.data|
    case Limbo2 => HeaderLength(all) + |w.data| + 1
    case Res => HeaderLength(all) + |w.data| + 2 + |w.res|
  }

  /** The lengths still to come and the forks so far agree with what has been decoded. */
  ghost predicate Placed(w: Writer, all: seq<Byte>, limit: nat, infected: bool) {
    if w.phase.Banner? || w.phase.Header? then w.data == [] && w.res == []
    else
      && HasHeader(all) && DataLength(all) <= limit && Done(w, all) <= |all|
      && w.data == all[HeaderLength(all)..HeaderLength(all) + |w.data|]
      && |w.data| + (if w.phase.Data? then w.datalen else 0) == DataLength(all)
      && |w.res| + w.reslen == ResourceLength(all, limit)
      && (w.phase.Data? || !infected)
      && (if w.phase.Res? then
            ResourceLength(all, limit) >= 5 && w.res == all[HeaderLength(all) + |w.data| + 2..Done(w, all)]
          else w.res == [])
  }

  lemma PlacedGrows(w: Writer, all: seq<Byte>, more: seq<Byte>, limit: nat, infected: bool)
    requires Placed(w, all, limit, infected)
    ensures Placed(w, all + more, limit, infected)
    ensures Done(w, all + more) == Done(w, all) && Done(w, all) <= |all|
    ensures (all + more)[Done(w, all)..] == all[Done(w, all)..] + more
  {
    if !w.phase.Banner? && !w.phase.Header? {
      HeaderOfPrefix(all, all + more);
      hide HasHeader, HeaderLength, DataLength, ResourceLength;
      var h := HeaderLength(all);
      assert (all + more)[h..h + |w.data|] == all[h..h + |w.data|];
    }
  }

  class Extractor {
    const limit: nat
    const infected: bool         // the verdict on the data fork
    const decoded: array<Byte>
    var decDone: nat
    var inData: bool
    var inRun: bool
    var offset: nat
    var spare: nat
    var last: Byte
    var phase: Phase
    var datalen: nat
    var reslen: nat
    var data: seq<Byte>
    var res: seq<Byte>
    ghost var all: seq<Byte>     // everything decoded so far

    ghost function W(): Writer
      reads this
    {
      Writer(phase, datalen, reslen, data, res)
    }

    /** The forks hold their parts of what has been decoded, and the buffer the rest. */
    ghost predicate Valid()
      reads this, decoded
    {
      && decoded.Length == BUFSIZ && decDone <= BUFSIZ && Placed(W(), all, limit, infected)
      && Done(W(), all) <= |all| && decoded[..decDone] == all[Done(W(), all)..]
    }

    ghost function L(): Loop
      reads this
    {
      Loop(inData, !phase.Banner?, false, offset, spare, inRun, last, all)
    }

    constructor (max: nat, verdict: bool)
      ensures Valid() && L() == BEGIN && limit == max && infected == verdict && decDone == 0
      ensures data == [] && res == [] && fresh(decoded)
    {
      limit, infected := max, verdict;
      decoded := new Byte[BUFSIZ];
      decDone, inData, inRun, offset, spare, last, phase := 0, false, false, 0, 0, 0, Banner;
      datalen, reslen, data, res, all := 0, 0, [], [], [];
    }

    // ----- decoding

    /** decoded[dec_done++] = b */
    method Store(b: Byte)
      requires Valid() && decDone < BUFSIZ
      modifies this`decDone, this`all, decoded
      ensures Valid() && all == old(all) + [b] && decDone == old(decDone) + 1
    {
      PlacedGrows(W(), all, [b], limit, infected);
      hide Placed, Done;
      ghost var before := decoded[..decDone];
      decoded[decDone] := b;
      decDone := decDone + 1;
      all := all + [b];
      assert decoded[..decDone] == before + [b];
    }

    /** A decoded byte: stored, or part of a run. */
    method TakeByte(b: Byte)
      requires Valid() && decDone + 255 <= BUFSIZ
      modifies this`decDone, this`all, this`inRun, this`last, decoded
      ensures Valid() && decDone <= old(decDone) + 254 && |all| - decDone == old(|all| - decDone)
      ensures Runs(all, last, inRun) == RunByte(old(Runs(all, last, inRun)), b)
    {
      hide Placed, Done;
      var x := b;
      if inRun {
        inRun := false;
        if b == 0 {
          x := RUN;
        } else {
          var n: nat := b - 1;
          while n > 0
            invariant Valid() && n <= b - 1 && decDone == old(decDone) + (b - 1 - n)
            invariant all == old(all) + Copies(last, b - 1 - n) && last == old(last) && !inRun
            modifies this`decDone, this`all, decoded
          {
            ghost var k: nat := b - 1 - n;
            Store(last);
            n := n - 1;
            assert Copies(last, k) + [last] == Copies(last, k + 1);
            assert (old(all) + Copies(last, k)) + [last] == old(all) + (Copies(last, k) + [last]);
          }
          return;
        }
      } else if b == RUN {
        inRun := true;
        return;
      }
      Store(x);
      last := x;
    }

    /** Six more bits. */
    method Value(b: Six)
      requires Valid() && decDone + 255 <= BUFSIZ && spare < 256
      modifies this`decDone, this`all, this`inRun, this`last, this`offset, this`spare, decoded
      ensures Valid() && decDone <= old(decDone) + 254 && |all| - decDone == old(|all| - decDone) && spare < 256
      ensures L() == LoopValue(old(L()), b)
    {
      hide Placed, Done, RunByte;
      var o := offset % 4;
      offset := (offset + 1) % 256;
      if o == 0 {
        spare := b * 4;
        return;
      }
      var x: nat;
      if o == 1 {
        x := spare + b / 16;
        spare := b % 16 * 16;
      } else if o == 2 {
        x := spare + b / 4;
        spare := b % 4 * 64;
      } else {
        x := spare + b;
      }
      TakeByte(if x < 256 then x else 0);
    }

    /** One character; false when it ends the reading. */
    method Char(c: Byte) returns (ok: bool)
      requires Valid() && decDone + 255 <= BUFSIZ && spare < 256
      modifies this`decDone, this`all, this`inRun, this`last, this`offset, this`spare, this`inData, this`phase, decoded
      ensures Valid() && decDone <= old(decDone) + 254 && |all| - decDone == old(|all| - decDone) && spare < 256
      ensures ok <==> !LoopChar(old(L()), c).broken
      ensures ok ==> L() == LoopChar(old(L()), c)
      ensures !ok ==> all == old(all)
      ensures phase == old(phase) || (old(phase).Banner? && phase.Header?)
    {
      hide LoopValue, SixOf;
      ok := true;
      if c == RETURN || c == NEWLINE {
        inData := true;
        return;
      }
      if !inData {
        return;
      }
      if phase.Banner? {
        if c != COLON {
          return false;
        }
        phase := Header;
      }
      if c == COLON {
        return;
      }
      var v := SixOf(c);
      if v.NoValue? {
        return false;
      }
      Value(v.six);
    }

    // ----- flushing

    /** memmove of what follows the first n bytes to the front */
    method DropFront(n: nat)
      requires decoded.Length == BUFSIZ && n <= decDone <= BUFSIZ
      modifies this`decDone, decoded
      ensures decDone == old(decDone) - n && decoded[..decDone] == old(decoded[n..decDone])
    {
      ghost var tail := decoded[n..decDone];
      var i := 0;
      while i < decDone - n
        invariant 0 <= i <= decDone - n && decDone == old(decDone)
        invariant decoded[..i] == tail[..i] && decoded[n + i..decDone] == tail[i..]
        modifies decoded
      {
        assert decoded[n + i] == tail[i];
        decoded[i] := decoded[n + i];
        assert decoded[..i + 1] == tail[..i + 1];
        i := i + 1;
      }
      decDone := decDone - n;
    }

    /** The forks are what they would be for all of the input. */
    ghost predicate Settled(full: seq<Byte>)
      reads this
    {
      data == DataFork(full, limit) && res == ResourceFork(full, limit, infected)
    }

    /** They are that however the input goes on; at its end, as it is. */
    ghost predicate SettledFor(ends: bool)
      reads this
    {
      forall e | all <= e && (ends ==> e == all) :: Settled(e)
    }

    method FlushHeader(ghost ends: bool) returns (stop: bool)
      requires Valid() && phase.Header? && (ends || decDone >= FLUSH)
      modifies this`decDone, this`phase, this`datalen, this`reslen, decoded
      ensures all == old(all) && (phase.Header? || phase.Data?)
      ensures stop ==> SettledFor(ends)
      ensures !stop ==> Valid() && phase.Data? && 0 < decDone < old(decDone)
    {
      stop := true;
      var buf := decoded[..decDone];
      assert buf == all && data == [] && res == [];
      if decDone == 0 {
        return;
      }
      var hdrlen: nat := 22 + (buf[0] as int);
      if decDone <= hdrlen {
        return;
      }
      stop := TakeHeader(buf, hdrlen, ends);
    }

    /** A data fork over the limit is not extracted, nor are the resources. */
    lemma TooLarge(ends: bool)
      requires data == [] && res == [] && HasHeader(all) && DataLength(all) > limit
      ensures SettledFor(ends)
    {
      hide DataFork, ResourceFork;
      forall e | all <= e {
        HeaderMoves(all, e, limit, infected);
      }
    }

    method TakeHeader(buf: seq<Byte>, hdrlen: nat, ghost ends: bool) returns (stop: bool)
      requires decoded.Length == BUFSIZ && decDone <= BUFSIZ && decoded[..decDone] == all && buf == all
      requires data == [] && res == [] && HasHeader(all) && hdrlen == HeaderLength(all)
      modifies this`decDone, this`phase, this`datalen, this`reslen, decoded
      ensures phase == old(phase) || phase.Data?
      ensures stop ==> SettledFor(ends)
      ensures !stop ==> Valid() && phase.Data? && 0 < decDone < old(decDone)
    {
      assert |all| == decDone > hdrlen;
      stop := true;
      HeaderMoves(all, all, limit, infected);
      hide HasHeader, HeaderLength, DataLength, ResourceLength, Placed, Done, FromBe32, SettledFor, DataFork, ResourceFork;
      datalen := FromBe32(buf[hdrlen - 10..hdrlen - 6]);
      reslen := FromBe32(buf[hdrlen - 6..hdrlen - 2]);
      if datalen > limit {
        TooLarge(ends);
        return;
      }
      if reslen > limit {
        reslen := 0;
      }
      DropFront(hdrlen);
      phase := Data;
      return false;
    }

    method FlushData(ghost ends: bool) returns (stop: bool)
      requires Valid() && phase.Data? && decDone > 0
      modifies this`decDone, this`phase, this`datalen, this`data, decoded
      ensures all == old(all) && !phase.Banner?
      ensures stop ==> SettledFor(ends)
      ensures !stop ==> Valid() && decDone <= old(decDone) && (phase.Limbo1? || (phase.Data? && decDone == 0))
    {
      hide HasHeader, HeaderLength, DataLength, ResourceLength;
      var todo: nat := if decDone < datalen then decDone else datalen;
      ghost var w := W();
      DataMoves(w, all, all, limit, infected, todo);
      assert decoded[..todo] == all[Done(w, all)..][..todo];
      data := data + decoded[..todo];
      datalen := datalen - todo;
      if datalen == 0 {
        phase := Limbo1;
        if infected {
          forall e | all <= e {
            DataMoves(w, all, e, limit, infected, todo);
          }
          decDone := decDone - todo;
          return true;
        }
      }
      DropFront(todo);
      return false;
    }

    method FlushLimbo1(ghost ends: bool) returns (stop: bool)
      requires Valid() && phase.Limbo1? && decDone > 0
      modifies this`decDone, this`phase, decoded
      ensures all == old(all) && !phase.Banner?
      ensures stop ==> SettledFor(ends)
      ensures !stop ==> Valid() && decDone < old(decDone) && (phase.Res? || (phase.Limbo2? && decDone == 0))
    {
      hide HasHeader, HeaderLength, DataLength, ResourceLength;
      ghost var w := W();
      forall e | all <= e {
        LimboMoves(w, all, e, limit, infected);
      }
      LimboMoves(w, all, all, limit, infected);
      if decDone > 1 {
        if reslen < 5 {
          return true;
        }
        DropFront(2);
        phase := Res;
      } else {
        DropFront(1);
        phase := Limbo2;
      }
      return false;
    }

    method FlushLimbo2(ghost ends: bool) returns (stop: bool)
      requires Valid() && phase.Limbo2? && decDone > 0
      modifies this`decDone, this`phase, decoded
      ensures all == old(all) && !phase.Banner?
      ensures stop ==> SettledFor(ends)
      ensures !stop ==> Valid() && decDone < old(decDone) && phase.Res?
    {
      hide HasHeader, HeaderLength, DataLength, ResourceLength;
      ghost var w := W();
      forall e | all <= e {
        LimboMoves(w, all, e, limit, infected);
      }
      LimboMoves(w, all, all, limit, infected);
      if reslen < 5 {
        return true;
      }
      phase := Res;
      DropFront(1);
      return false;
    }

    method FlushRes(ghost ends: bool) returns (stop: bool)
      requires Valid() && phase.Res? && decDone > 0
      modifies this`decDone, this`reslen, this`res, decoded
      ensures all == old(all) && !phase.Banner?
      ensures stop ==> SettledFor(ends)
      ensures !stop ==> Valid() && decDone == 0
    {
      hide HasHeader, HeaderLength, DataLength, ResourceLength;
      var todo: nat := if decDone < reslen then decDone else reslen;
      ghost var w := W();
      ResMoves(w, all, all, limit, infected, todo);
      assert decoded[..todo] == all[Done(w, all)..][..todo];
      res := res + decoded[..todo];
      reslen := reslen - todo;
      if reslen == 0 {
        forall e | all <= e {
          ResMoves(w, all, e, limit, infected, todo);
        }
        decDone := decDone - todo;
        return true;
      }
      DropFront(todo);
      return false;
    }

    /** Move on what the buffer holds.  Unless it stops, that empties the buffer. */
    method Flush(ghost ends: bool) returns (stop: bool)
      requires Valid() && (ends || decDone >= FLUSH)
      modifies this`decDone, this`phase, this`datalen, this`reslen, this`data, this`res, decoded
      ensures all == old(all) && (phase.Banner? <==> old(phase).Banner?)
      ensures stop ==> SettledFor(ends)
      ensures !stop ==> Valid() && (decDone == 0 || phase.Banner?) && !phase.Header?
    {
      hide Placed, Done;
      stop := false;
      if phase.Header? {
        stop := FlushHeader(ends);
      }
      if !stop && decDone > 0 && phase.Data? {
        stop := FlushData(ends);
      }
      if !stop && decDone > 0 && phase.Limbo1? {
        stop := FlushLimbo1(ends);
      }
      if !stop && decDone > 0 && phase.Limbo2? {
        stop := FlushLimbo2(ends);
      }
      if !stop && decDone > 0 && phase.Res? {
        stop := FlushRes(ends);
      }
    }

    /** Before character i, with g of the decoded bytes flushed: the forks are those of these g bytes. */
    ghost predicate Reading(input: seq<Byte>, i: nat, g: nat)
      reads this, decoded
    {
      && i <= |input| && Valid() && spare < 256 && L() == LoopAll(input[..i])
      && (phase.Banner? ==> all == []) && g <= |all| && decDone == |all| - g && Settled(all[..g])
    }

    /** What is in the forks at the end. */
    ghost predicate Outcome(input: seq<Byte>)
      reads this
    {
      && (!LoopAll(input).broken ==> Settled(Decoded(input)))
      && (LoopAll(input).broken ==> |Decoded(input)| >= Flushed(input) && Settled(Decoded(input)[..Flushed(input)]))
    }

    /** The upper half of the loop. */
    method FlushIfDue(input: seq<Byte>, i: nat, ghost g: nat) returns (done: bool, ghost g': nat)
      requires Reading(input, i, g) && g == (if i == 0 then 0 else Flushed(input[..i - 1]))
      modifies this`decDone, this`phase, this`datalen, this`reslen, this`data, this`res, decoded
      ensures done ==> Outcome(input)
      ensures !done ==> i < |input| && Reading(input, i, g') && g' == Flushed(input[..i]) && decDone < FLUSH
    {
      hide Placed, Done, LoopAll, Decoded, Flushed, DataFork, ResourceFork, SettledFor;
      done, g' := false, g;
      FlushStep(input, i);
      if i == |input| || decDone >= FLUSH {
        assert i == |input| ==> input[..i] == input;
        done := Flush(i == |input|);
        if done {
          Stopped(input, i);
          return;
        }
        Emptied(W(), all, limit, infected);
        OnePass(input);
        if i == |input| {
          return true, g;
        }
        g' := |all|;
        assert all[..g'] == all;
      }
    }

    /** A flush that completes the forks settles them for the rest of the input. */
    lemma Stopped(input: seq<Byte>, i: nat)
      requires i <= |input| && all == LoopAll(input[..i]).out && SettledFor(i == |input|)
      requires i == |input| ==> !LoopAll(input).broken
      requires i < |input| ==> all == LoopAll(input[..i]).out && Flushed(input[..i]) == |all|
      ensures Outcome(input)
    {
      hide LoopAll, Decoded, Flushed, DataFork, ResourceFork;
      OnePass(input);
      Prefixes(input, i);
      FlushedWithin(input);
      FlushedGrows(input, i);
      var full := Decoded(input);
      if i == |input| {
        assert input[..i] == input;
      } else {
        assert all <= full[..Flushed(input)];
        assert Settled(full[..Flushed(input)]);
      }
      assert Settled(full);
    }

    /** The lower half of the loop. */
    method ReadChar(input: seq<Byte>, i: nat, ghost g: nat) returns (done: bool)
      requires i < |input| && Reading(input, i, g) && g == Flushed(input[..i]) && decDone < FLUSH
      modifies this`decDone, this`all, this`inRun, this`last, this`offset, this`spare, this`inData, this`phase, decoded
      ensures done ==> Outcome(input)
      ensures !done ==> Reading(input, i + 1, g)
    {
      hide Placed, Done, LoopAll, Decoded, Flushed, DataFork, ResourceFork, LoopChar;
      NothingBefore(W(), all);
      NextChar(input, i);
      CharGrows(LoopAll(input[..i]), input[i]);
      ghost var before := all;
      var ok := Char(input[i]);
      done := !ok;
      if done {
        BrokenAt(input, i);
        FlushedGrows(input, i);
        OnePass(input);
      } else {
        BannerEmpty(LoopAll(input[..i]), input[i]);
        assert all[..g] == before[..g];
      }
    }

    /** cli_binhex: read to the end, to a character that does not belong, or until the forks are complete.
        Such a character ends the reading without a last flush, and then the forks are those of what had been
        flushed. */
    method Extract(input: seq<Byte>)
      requires Valid() && L() == BEGIN && decDone == 0
      modifies this, decoded
      ensures !ScanAll(input).broken ==> Settled(Decoded(input))
      ensures Flushed(input) <= |Decoded(input)| < Flushed(input) + FLUSH
      ensures ScanAll(input).broken ==> Settled(Decoded(input)[..Flushed(input)])
      ensures Settled(Decoded(input)) <==>
                !ScanAll(input).broken || NoneLost(Decoded(input), Flushed(input), limit, infected)
    {
      Start(input);
      hide *;
      ghost var g: nat := 0;
      var i := 0;
      var done := false;
      while !done
        invariant 0 <= i <= |input|
        invariant done ==> Outcome(input)
        invariant !done ==> Reading(input, i, g) && g == if i == 0 then 0 else Flushed(input[..i - 1])
        decreases |input| - i, !done
      {
        done, g := FlushIfDue(input, i, g);
        if !done {
          done := ReadChar(input, i, g);
          i := i + 1;
        }
      }
      Concluded(input);
    }

    lemma Start(input: seq<Byte>)
      requires Valid() && L() == BEGIN && decDone == 0
      ensures Reading(input, 0, 0)
    {
      assert data == [] && res == [];
      hide Placed, Done, DataFork, ResourceFork, LoopAll, Valid;
      Started();
      assert input[..0] == [] && all[..0] == [];
      NoForks(limit, infected);
    }

    lemma Concluded(input: seq<Byte>)
      requires Outcome(input)
      ensures !ScanAll(input).broken ==> Settled(Decoded(input))
      ensures Flushed(input) <= |Decoded(input)| < Flushed(input) + FLUSH
      ensures ScanAll(input).broken ==> Settled(Decoded(input)[..Flushed(input)])
      ensures Settled(Decoded(input)) <==>
                !ScanAll(input).broken || NoneLost(Decoded(input), Flushed(input), limit, infected)
    {
      hide LoopAll, Decoded, Flushed, NoneLost, DataFork, ResourceFork;
      OnePass(input);
      FlushedWithin(input);
      LostForks(Decoded(input), Flushed(input), limit, infected);
    }
  }

  /** The header leaves the buffer. */
  lemma HeaderMoves(all: seq<Byte>, full: seq<Byte>, limit: nat, infected: bool)
    requires HasHeader(all) && all <= full
    ensures DataLength(all) == FromBe32(all[HeaderLength(all) - 10..HeaderLength(all) - 6])
    ensures ResourceLength(all, limit)
         == (var n := FromBe32(all[HeaderLength(all) - 6..HeaderLength(all) - 2]); if n <= limit then n else 0)
    ensures DataLength(all) > limit ==> DataFork(full, limit) == [] && ResourceFork(full, limit, infected) == []
    ensures DataLength(all) <= limit ==>
              var v := Writer(Data, DataLength(all), ResourceLength(all, limit), [], []);
              Placed(v, all, limit, infected) && Done(v, all) == HeaderLength(all)
  {
    HeaderOfPrefix(all, full);
    hide FromBe32;
  }

  /** Bytes move from the buffer to the data fork. */
  lemma DataMoves(w: Writer, all: seq<Byte>, full: seq<Byte>, limit: nat, infected: bool, todo: nat)
    requires Placed(w, all, limit, infected) && w.phase.Data? && all <= full
    requires todo <= w.datalen && Done(w, all) + todo <= |all|
    ensures var d := w.data + all[Done(w, all)..][..todo];
            && (todo < w.datalen ==>
                  var v := w.(data := d, datalen := w.datalen - todo);
                  Placed(v, all, limit, infected) && Done(v, all) == Done(w, all) + todo)
            && (todo == w.datalen && !infected ==>
                  var v := w.(data := d, datalen := 0, phase := Limbo1);
                  Placed(v, all, limit, infected) && Done(v, all) == Done(w, all) + todo)
            && (todo == w.datalen && infected ==>
                  d == DataFork(full, limit) && w.res == ResourceFork(full, limit, infected))
            && (todo == w.datalen ==> Done(w, all) + todo == HeaderLength(all) + DataLength(all))
  {
    HeaderOfPrefix(all, full);
    hide HasHeader, HeaderLength, DataLength, ResourceLength;
    var h := HeaderLength(all);
    var d := w.data + all[Done(w, all)..][..todo];
    assert d == all[h..h + |d|];
    if todo == w.datalen {
      SliceOfPrefix(all, full, h, DataLength(all));
    }
  }

  lemma LimboMoves(w: Writer, all: seq<Byte>, full: seq<Byte>, limit: nat, infected: bool)
    requires Placed(w, all, limit, infected) && (w.phase.Limbo1? || w.phase.Limbo2?) && all <= full
    ensures w.reslen < 5 ==> w.data == DataFork(full, limit) && w.res == ResourceFork(full, limit, infected)
    ensures w.phase.Limbo1? && Done(w, all) + 1 <= |all| ==>
              var v := w.(phase := Limbo2);
              Placed(v, all, limit, infected) && Done(v, all) == Done(w, all) + 1
    ensures var skip := if w.phase.Limbo1? then 2 else 1;
            w.reslen >= 5 && Done(w, all) + skip <= |all| ==>
              var v := w.(phase := Res);
              Placed(v, all, limit, infected) && Done(v, all) == Done(w, all) + skip
  {
    HeaderOfPrefix(all, full);
    hide HasHeader, HeaderLength, DataLength, ResourceLength;
    var h := HeaderLength(all);
    SliceOfPrefix(all, full, h, DataLength(all));
  }

  /** Bytes move from the buffer to the resource fork. */
  lemma ResMoves(w: Writer, all: seq<Byte>, full: seq<Byte>, limit: nat, infected: bool, todo: nat)
    requires Placed(w, all, limit, infected) && w.phase.Res? && all <= full
    requires todo <= w.reslen && Done(w, all) + todo <= |all|
    ensures var r := w.res + all[Done(w, all)..][..todo];
            var v := w.(res := r, reslen := w.reslen - todo);
            && Placed(v, all, limit, infected) && Done(v, all) == Done(w, all) + todo
            && (todo == w.reslen ==> w.data == DataFork(full, limit) && r == ResourceFork(full, limit, infected))
  {
    hide HasHeader, HeaderLength, DataLength, ResourceLength;
    var h, d := HeaderLength(all), DataLength(all);
    var r := w.res + all[Done(w, all)..][..todo];
    Extends(all, h + d + 2, |w.res|, todo);
    var v := w.(res := r, reslen := w.reslen - todo);
    if todo == w.reslen {
      ResComplete(v, all, full, limit, infected);
    }
  }

  lemma Extends(s: seq<Byte>, from: nat, n: nat, k: nat)
    requires from + n + k <= |s|
    ensures s[from..from + n] + s[from + n..][..k] == s[from..from + n + k]
  {}

  lemma ResComplete(w: Writer, all: seq<Byte>, full: seq<Byte>, limit: nat, infected: bool)
    requires Placed(w, all, limit, infected) && w.phase.Res? && all <= full && w.reslen == 0
    ensures w.data == DataFork(full, limit) && w.res == ResourceFork(full, limit, infected)
  {
    HeaderOfPrefix(all, full);
    hide HasHeader, HeaderLength, DataLength, ResourceLength;
    var h, d := HeaderLength(all), DataLength(all);
    SliceOfPrefix(all, full, h, d);
    SliceOfPrefix(all, full, h + d + 2, |w.res|);
  }

  // ----- what is flushed

  /** How much of what the input decodes to has been flushed once the input has been read. */
  ghost function Flushed(input: seq<Byte>): nat {
    if input == [] then 0
    else
      var f, n := Flushed(input[..|input| - 1]), |LoopAll(input).out|;
      if n >= f + FLUSH then n else f
  }

  lemma {:induction false} FlushedWithin(input: seq<Byte>)
    ensures Flushed(input) <= |LoopAll(input).out| < Flushed(input) + FLUSH
  {
    if input != [] {
      FlushedWithin(input[..|input| - 1]);
      CharGrows(LoopAll(input[..|input| - 1]), input[|input| - 1]);
    }
  }

  lemma FlushStep(input: seq<Byte>, i: nat)
    requires i <= |input|
    ensures var f, n := if i == 0 then 0 else Flushed(input[..i - 1]), |LoopAll(input[..i]).out|;
            Flushed(input[..i]) == if n >= f + FLUSH then n else f
  {
    if i > 0 {
      assert input[..i][..i - 1] == input[..i - 1];
    }
  }

  /** What has been flushed stays so, and once the input is broken nothing more is. */
  lemma {:induction false} FlushedGrows(input: seq<Byte>, i: nat)
    requires i <= |input|
    ensures Flushed(input[..i]) <= Flushed(input)
    ensures LoopAll(input).out == LoopAll(input[..i]).out ==> Flushed(input) == Flushed(input[..i])
    decreases |input| - i
  {
    if i == |input| {
      assert input[..i] == input;
    } else {
      FlushedGrows(input, i + 1);
      FlushStep(input, i + 1);
      FlushedWithin(input[..i]);
      Prefixes(input, i + 1);
      NextChar(input, i);
      CharGrows(LoopAll(input[..i]), input[i]);
    }
  }

  /** Positions f..n and from..from + len have something in common. */
  predicate Overlap(f: nat, n: nat, from: nat, len: nat) {
    f < n && f < from + len && from < n && len > 0
  }

  /** None of the bytes of d from f on belongs to a fork. */
  predicate NoneLost(d: seq<Byte>, f: nat, limit: nat, infected: bool) {
    HasHeader(d) && DataLength(d) <= limit ==>
      var h, n := HeaderLength(d), DataLength(d);
      && !Overlap(f, |d|, h, n)
      && (!infected && ResourceLength(d, limit) >= 5 ==> !Overlap(f, |d|, h + n + 2, ResourceLength(d, limit)))
  }

  lemma LostSlice(d: seq<Byte>, f: nat, from: nat, n: nat)
    requires f <= |d|
    ensures Slice(d[..f], from, n) == Slice(d, from, n) <==> !Overlap(f, |d|, from, n)
  {}

  lemma SliceBehind(d: seq<Byte>, from: nat, n: nat)
    requires |d| <= from
    ensures Slice(d, from, n) == []
  {}

  lemma NoForks(limit: nat, infected: bool)
    ensures DataFork([], limit) == [] && ResourceFork([], limit, infected) == []
  {}

  /** Cutting d off at f keeps the forks exactly if none of what is lost belongs to them. */
  lemma LostForks(d: seq<Byte>, f: nat, limit: nat, infected: bool)
    requires f <= |d|
    ensures DataFork(d[..f], limit) == DataFork(d, limit)
            && ResourceFork(d[..f], limit, infected) == ResourceFork(d, limit, infected)
            <==> NoneLost(d, f, limit, infected)
  {
    hide Slice, Overlap;
    if HasHeader(d[..f]) {
      HeaderOfPrefix(d[..f], d);
      var h := HeaderLength(d);
      LostSlice(d, f, h, DataLength(d));
      LostSlice(d, f, h + DataLength(d) + 2, ResourceLength(d, limit));
    } else if HasHeader(d) {
      var h := HeaderLength(d);
      LostSlice(d, f, h, DataLength(d));
      LostSlice(d, f, h + DataLength(d) + 2, ResourceLength(d, limit));
      assert f > 0 ==> d[..f][0] == d[0];
      assert f <= h;
      SliceBehind(d[..f], h, DataLength(d));
      SliceBehind(d[..f], h + DataLength(d) + 2, ResourceLength(d, limit));
    }
  }

  lemma Started()
    ensures LoopAll([]) == BEGIN
  {}

  lemma {:induction false} Prefixes(input: seq<Byte>, i: nat)
    requires i <= |input|
    ensures LoopAll(input[..i]).out <= LoopAll(input).out
    decreases |input| - i
  {
    if i == |input| {
      assert input[..i] == input;
    } else {
      Prefixes(input, i + 1);
      NextChar(input, i);
      CharGrows(LoopAll(input[..i]), input[i]);
    }
  }

  lemma {:induction false} NextChar(input: seq<Byte>, i: nat)
    requires i < |input|
    ensures LoopAll(input[..i + 1]) == LoopChar(LoopAll(input[..i]), input[i])
  {
    var p := input[..i + 1];
    assert p[..|p| - 1] == input[..i] && p[|p| - 1] == input[i];
  }

  lemma BannerEmpty(l: Loop, c: Byte)
    ensures !l.started && !LoopChar(l, c).started && !LoopChar(l, c).broken ==> LoopChar(l, c).out == l.out
  {}

  lemma CharGrows(l: Loop, c: Byte)
    ensures l.out <= LoopChar(l, c).out
  {}

  /** Once a character does not belong, nothing more is decoded. */
  lemma {:induction false} BrokenAt(input: seq<Byte>, i: nat)
    requires i < |input| && LoopChar(LoopAll(input[..i]), input[i]).broken && !LoopAll(input[..i]).broken
    ensures LoopAll(input).broken && LoopAll(input).out == LoopAll(input[..i]).out
  {
    NextChar(input, i);
    StaysBroken(input, i + 1);
  }

  lemma {:induction false} StaysBroken(input: seq<Byte>, i: nat)
    requires i <= |input| && LoopAll(input[..i]).broken
    ensures LoopAll(input) == LoopAll(input[..i])
    decreases |input| - i
  {
    if i == |input| {
      assert input[..i] == input;
    } else {
      NextChar(input, i);
      StaysBroken(input, i + 1);
    }
  }

  lemma NothingBefore(w: Writer, all: seq<Byte>)
    ensures w.phase.Banner? && all == [] ==> all[Done(w, all)..] == []
  {}

  /** With the buffer empty the forks hold all that was decoded for them. */
  lemma Emptied(w: Writer, all: seq<Byte>, limit: nat, infected: bool)
    requires Placed(w, all, limit, infected) && (w.phase.Banner? ==> all == []) && !w.phase.Header?
    requires Done(w, all) == |all|
    ensures w.data == DataFork(all, limit) && w.res == ResourceFork(all, limit, infected)
  {}

  // ----- a file that is lost

  lemma {:induction false} NeverFlushed(input: seq<Byte>)
    requires |LoopAll(input).out| < FLUSH
    ensures Flushed(input) == 0
  {
    if input != [] {
      CharGrows(LoopAll(input[..|input| - 1]), input[|input| - 1]);
      NeverFlushed(input[..|input| - 1]);
    }
  }

  /** A short file with any text behind it that does not belong is decoded in full, but nothing of it is
      ever flushed. */
  lemma TrailingText(s: seq<Byte>, c: Byte)
    requires |s| < FLUSH && SixOf(c).NoValue? && c != RETURN && c != NEWLINE && c != COLON
    ensures var input := Encode(s) + [c];
            ScanAll(input).broken && Decoded(input) == s && Flushed(input) == 0
  {
    hide Encode, RunAll, Unpack, SixOf, Flushed, LoopAll;
    var file, input := Encode(s), Encode(s) + [c];
    DecodeEncode(s);
    ScanEncode(s);
    assert input[..|input| - 1] == file && input[|input| - 1] == c;
    OnePass(input);
    NeverFlushed(input);
  }

  lemma ScanEncode(s: seq<Byte>)
    ensures ScanAll(Encode(s)).inData && ScanAll(Encode(s)).started
  {
    hide Compress, Pack, Chars;
    var v, file := Pack(Compress(s)), Encode(s);
    ScanChars(v);
    assert file[..|file| - 1] == [NEWLINE, COLON] + Chars(v);
  }

  /** No name, one byte of data, no resources. */
  const SMALL: seq<Byte> := [0, 0, 0, 0, 0, 0, 0, 0, 0, 0, 0, 0, 0, 0, 0, 1, 0, 0, 0, 0, 0, 0, 7]

  /** Followed by a blank, this file is extracted without its one byte. */
  lemma LostFile(limit: nat, infected: bool)
    requires limit > 0
    ensures var input := Encode(SMALL) + [0x20];
            && ScanAll(input).broken && Flushed(input) == 0 && Decoded(input) == SMALL
            && DataFork(SMALL, limit) == [7] && !NoneLost(SMALL, 0, limit, infected)
  {
    assert SixOf(0x20).NoValue?;
    TrailingText(SMALL, 0x20);
    SmallFork(limit);
  }

  lemma SmallFork(limit: nat)
    requires limit > 0
    ensures HasHeader(SMALL) && HeaderLength(SMALL) == 22 && DataLength(SMALL) == 1 && DataFork(SMALL, limit) == [7]
  {
    assert SMALL[12..16] == [0, 0, 0, 1];
    assert SMALL[22..23] == [7];
  }
}

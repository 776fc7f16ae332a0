/** What the thread pool does with the requests it gets, told by the events of a run alone. */
module PoolHistory {
  import opened WorkQueues
  import opened ThreadPool

  function Request(e: Event): Sleeper
    requires e.Dispatch?
  {
    Sleeper(e.job, e.bulk)
  }

  /** The last request of dispatcher d. */
  function LastRequest(events: seq<Event>, d: Tid): Option<Sleeper> {
    if events == [] then None
    else
      var e := events[|events| - 1];
      if e.Dispatch? && e.d == d then Some(Request(e)) else LastRequest(events[..|events| - 1], d)
  }

  /** What the last event asks for. */
  function Wanted(events: seq<Event>): Option<Sleeper>
    requires events != []
  {
    match events[|events| - 1]
    case Dispatch(d, job, bulk, thread) => Some(Sleeper(job, bulk))
    case Recheck(d, thread) => LastRequest(events[..|events| - 1], d)
    case _ => None
  }

  /** Workers that are alive and not asleep. */
  ghost function Busy(c: Crew): nat {
    |c.looping| + |c.running| + |c.leaving|
  }

  ghost function Total(s: State): nat {
    Queued(s.single) + Queued(s.bulk)
  }

  /** There is room for one more job of this kind. */
  ghost predicate Room(s: State, bulk: bool) {
    (bulk ==> Queued(s.bulk) < s.queueMax / 2) && Total(s) + Busy(s.crew) < s.queueMax
  }

  /** The last event admits what it asks for: there is room, and a request that has not waited yet comes before
      the pool is destroyed. */
  ghost predicate Admitted(s: State, events: seq<Event>)
    requires events != []
  {
    var want := Wanted(events);
    && want.Some? && Room(s, want.value.bulk)
    && (events[|events| - 1].Dispatch? ==> Destroy !in events[..|events| - 1])
  }

  /** The jobs admitted to one of the queues, in order. */
  ghost function Log(states: seq<State>, events: seq<Event>, bulk: bool): seq<Job>
    requires |states| >= |events|
    decreases |events|
  {
    if events == [] then []
    else
      var n := |events| - 1;
      Log(states, events[..n], bulk)
        + (if Admitted(states[n], events) && Wanted(events).value.bulk == bulk then [Wanted(events).value.job] else [])
  }

  function Lane(s: State, bulk: bool): ThreadPool.Lane {
    if bulk then s.bulk else s.single
  }

  /** The state agrees with the events so far on who sleeps for what and on whether the pool still takes jobs. */
  ghost predicate Agrees(s: State, events: seq<Event>) {
    && (s.status == Exit <==> Destroy in events)
    && forall d | d in s.sleepers :: LastRequest(events, d) == Some(s.sleepers[d])
  }

  lemma ContendedIs(s: State, bulk: bool)
    requires Inv(s, 0)
    ensures Contended(s, bulk) <==> !Room(s, bulk)
  {
    hide Balanced, Ordered;
  }

  lemma LastIn(events: seq<Event>, e: Event)
    ensures Destroy in events + [e] <==> Destroy in events || e == Destroy
    ensures (events + [e])[..|events|] == events && (events + [e])[|events|] == e
  {}

  lemma NextRequest(events: seq<Event>, e: Event, d: Tid)
    ensures LastRequest(events + [e], d)
         == if e.Dispatch? && e.d == d then Some(Request(e)) else LastRequest(events, d)
  {
    LastIn(events, e);
  }

  lemma AgreesStep(s: State, events: seq<Event>, e: Event)
    requires Agrees(s, events) && Enabled(s, e)
    ensures Agrees(Apply(s, e), events + [e])
  {
    LastIn(events, e);
    var t := Apply(s, e);
    forall d | d in t.sleepers ensures LastRequest(events + [e], d) == Some(t.sleepers[d]) {
      NextRequest(events, e, d);
    }
    StatusStep(s, e);
  }

  lemma StatusStep(s: State, e: Event)
    requires Enabled(s, e)
    ensures Apply(s, e).status == if e == Destroy then Exit else s.status
  {
    hide Pick, Contended;
  }

  /** An event changes the accepted jobs by what it admits, and only that. */
  lemma LaneStep(s: State, events: seq<Event>, e: Event, bulk: bool)
    requires Inv(s, 0) && Agrees(s, events) && Enabled(s, e)
    ensures var all := events + [e];
            Lane(Apply(s, e), bulk).accepted == Lane(s, bulk).accepted
              + (if Admitted(s, all) && Wanted(all).value.bulk == bulk then [Wanted(all).value.job] else [])
  {
    hide Pick, Contended, Room, Inv;
    LastIn(events, e);
    if e.Dispatch? {
      ContendedIs(s, e.bulk);
    } else if e.Recheck? {
      ContendedIs(s, s.sleepers[e.d].bulk);
    }
  }

  lemma {:induction false} RunAgrees(states: seq<State>, events: seq<Event>, n: nat)
    requires IsRun(states, events) && n <= |events|
    ensures Agrees(states[n], events[..n])
  {
    hide Apply, Enabled, Agrees;
    if n == 0 {
      StartAgrees(states[0]);
    } else {
      RunAgrees(states, events, n - 1);
      assert Steps(states[n - 1], events[n - 1], states[n]);
      AgreesStep(states[n - 1], events[..n - 1], events[n - 1]);
      assert events[..n] == events[..n - 1] + [events[n - 1]];
    }
  }

  lemma StartAgrees(s: State)
    requires Init(s)
    ensures Agrees(s, [])
  {}

  /** In every run each queue has accepted exactly the jobs of the requests for it that were admitted, in the order
      of their admission. */
  lemma {:induction false} Lanes(states: seq<State>, events: seq<Event>, n: nat, bulk: bool)
    requires IsRun(states, events) && n <= |events|
    ensures Lane(states[n], bulk).accepted == Log(states, events[..n], bulk)
  {
    hide Apply, Enabled, Agrees, Inv, Admitted;
    if n > 0 {
      Lanes(states, events, n - 1, bulk);
      RunAgrees(states, events, n - 1);
      RunInv(states, events, n - 1);
      assert Steps(states[n - 1], events[n - 1], states[n]);
      LaneStep(states[n - 1], events[..n - 1], events[n - 1], bulk);
      assert events[..n] == events[..n - 1] + [events[n - 1]];
      assert events[..n][..n - 1] == events[..n - 1];
    }
  }

  // ----- no request is lost

  function Requested(events: seq<Event>, r: Sleeper): nat {
    if events == [] then 0
    else
      var e := events[|events| - 1];
      Requested(events[..|events| - 1], r) + (if e.Dispatch? && Request(e) == r then 1 else 0)
  }

  /** Requests after the pool was destroyed. */
  function Refused(events: seq<Event>, r: Sleeper): nat {
    if events == [] then 0
    else
      var front, e := events[..|events| - 1], events[|events| - 1];
      Refused(front, r) + (if e.Dispatch? && Request(e) == r && Destroy in front then 1 else 0)
  }

  function Asleep(s: State, r: Sleeper): set<Tid> {
    set d | d in s.sleepers && s.sleepers[d] == r
  }

  /** Where a request is: accepted or asleep. */
  ghost function Held(s: State, r: Sleeper): nat {
    multiset(Lane(s, r.bulk).accepted)[r.job] + |Asleep(s, r)|
  }

  lemma AdmitHolds(s: State, job: Job, bulk: bool, thread: Option<Tid>, r: Sleeper)
    ensures Held(Admit(s, job, bulk, thread), r) == Held(s, r) + (if r == Sleeper(job, bulk) then 1 else 0)
  {
    var t := Admit(s, job, bulk, thread);
    assert Asleep(t, r) == Asleep(s, r);
  }

  lemma SleepHolds(s: State, d: Tid, p: Sleeper, r: Sleeper)
    ensures d !in s.sleepers ==>
              Held(s.(sleepers := s.sleepers[d := p]), r) == Held(s, r) + (if r == p then 1 else 0)
    ensures d in s.sleepers && s.sleepers[d] == p ==>
              Held(s.(sleepers := s.sleepers - {d}), r) == Held(s, r) - (if r == p then 1 else 0)
  {
    if d !in s.sleepers {
      assert Asleep(s.(sleepers := s.sleepers[d := p]), r) == Asleep(s, r) + (if r == p then {d} else {});
    } else if s.sleepers[d] == p {
      assert Asleep(s.(sleepers := s.sleepers - {d}), r) == Asleep(s, r) - {d};
    }
  }

  lemma HeldStep(s: State, e: Event, r: Sleeper)
    requires Enabled(s, e)
    ensures Held(Apply(s, e), r)
         == Held(s, r) + (if e.Dispatch? && Request(e) == r && s.status == Valid then 1 else 0)
  {
    hide Pick, Contended, Admit, Held;
    match e {
      case Dispatch(d, job, bulk, thread) =>
        AdmitHolds(s, job, bulk, thread, r);
        SleepHolds(s, d, Sleeper(job, bulk), r);
      case Recheck(d, thread) =>
        var p := s.sleepers[d];
        SleepHolds(s, d, p, r);
        AdmitHolds(s.(sleepers := s.sleepers - {d}), p.job, p.bulk, thread, r);
      case _ =>
        HeldSame(s, Apply(s, e), r);
    }
  }

  lemma HeldSame(s: State, t: State, r: Sleeper)
    requires t.sleepers == s.sleepers && t.single.accepted == s.single.accepted && t.bulk.accepted == s.bulk.accepted
    ensures Held(t, r) == Held(s, r)
  {
    assert Asleep(t, r) == Asleep(s, r);
  }

  /** Every request made of the pool is accepted once into the queue it named, or its dispatcher still sleeps, or it
      was refused because it came after the pool was destroyed; and nothing else is ever accepted. */
  lemma {:induction false} NothingLost(states: seq<State>, events: seq<Event>, n: nat, r: Sleeper)
    requires IsRun(states, events) && n <= |events|
    ensures Requested(events[..n], r) == Held(states[n], r) + Refused(events[..n], r)
  {
    hide Apply, Enabled, Held;
    if n == 0 {
      StartHolds(states[0], r);
    } else {
      NothingLost(states, events, n - 1, r);
      RunAgrees(states, events, n - 1);
      assert Steps(states[n - 1], events[n - 1], states[n]);
      HeldStep(states[n - 1], events[n - 1], r);
      assert events[..n][..n - 1] == events[..n - 1];
    }
  }

  lemma StartHolds(s: State, r: Sleeper)
    requires Init(s)
    ensures Held(s, r) == 0
  {
    assert Asleep(s, r) == {};
  }

  // ----- what one event does, in any state of a run

  /** A request is refused, put to sleep or admitted, and which of the three the events and the load decide. */
  lemma Dispatching(states: seq<State>, events: seq<Event>, n: nat)
    requires IsRun(states, events) && n < |events| && events[n].Dispatch?
    ensures var s, t, e := states[n], states[n + 1], events[n];
            if Destroy in events[..n] then t == s
            else if !Room(s, e.bulk) then t == s.(sleepers := s.sleepers[e.d := Request(e)])
            else (
              && Lane(t, e.bulk).accepted == Lane(s, e.bulk).accepted + [e.job]
              && Lane(t, e.bulk).queue.items == Lane(s, e.bulk).queue.items + [e.job]
              && Lane(t, !e.bulk) == Lane(s, !e.bulk) && t.sleepers == s.sleepers)
  {
    RunAgrees(states, events, n);
    RunInv(states, events, n);
    assert Steps(states[n], events[n], states[n + 1]);
    ContendedIs(states[n], events[n].bulk);
    hide Contended, Room, Inv, IsRun;
  }

  /** An admission to which a new thread is offered starts it, unless as many workers sleep as jobs wait or the pool is
      complete; it starts none otherwise. */
  lemma Hiring(states: seq<State>, events: seq<Event>, n: nat, w: Tid)
    requires IsRun(states, events) && n < |events| && Admitted(states[n], events[..n + 1])
    requires events[n].thread == Some(w)
    ensures var s, t := states[n], states[n + 1];
            && Total(t) == Total(s) + 1
            && w !in s.crew.All()
            && (t.crew == s.crew || t.crew == s.crew.(looping := s.crew.looping + {w}))
            && (w in t.crew.looping <==> |t.crew.waiting| < Total(t) && s.crew.Size() < s.thrMax)
  {
    RunAgrees(states, events, n);
    RunInv(states, events, n);
    assert Steps(states[n], events[n], states[n + 1]);
    hide Contended, Room, Inv, IsRun, Admit, Total;
    var s := states[n];
    LastIn(events[..n], events[n]);
    assert events[..n + 1] == events[..n] + [events[n]];
    var want := Wanted(events[..n + 1]).value;
    ContendedIs(s, want.bulk);
    var t := if events[n].Recheck? then s.(sleepers := s.sleepers - {events[n].d}) else s;
    SameInv(s, t);
    SameTotal(s, t);
    AdmitHires(t, want.job, want.bulk, w);
  }

  lemma SameTotal(s: State, t: State)
    requires t.single == s.single && t.bulk == s.bulk
    ensures Total(t) == Total(s)
  {}

  lemma AdmitHires(s: State, job: Job, bulk: bool, w: Tid)
    requires Inv(s, 0) && w !in s.crew.All()
    ensures var t := Admit(s, job, bulk, Some(w));
            && Total(t) == Total(s) + 1
            && (t.crew == s.crew || t.crew == s.crew.(looping := s.crew.looping + {w}))
            && (w in t.crew.looping <==> |t.crew.waiting| < Total(t) && s.crew.Size() < s.thrMax)
  {
    hide Balanced, Ordered, Bounded;
  }

  /** A worker that looks for a job gets one whenever one waits: the first of one of the queues.  Otherwise it goes to
      sleep, or leaves if the pool is destroyed. */
  lemma Popping(states: seq<State>, events: seq<Event>, n: nat)
    requires IsRun(states, events) && n < |events| && (events[n].Enter? || events[n].Wake?)
    ensures var s, t, w := states[n], states[n + 1], events[n].w;
            if Total(s) > 0 then
              w in t.crew.running && exists bulk :: Handed(Lane(s, bulk), Lane(t, bulk), w) && Kept(Lane(s, !bulk), Lane(t, !bulk))
            else
              && Kept(s.single, t.single) && Kept(s.bulk, t.bulk)
              && if Destroy in events[..n] then w in t.crew.leaving else w in t.crew.waiting
  {
    RunAgrees(states, events, n);
    assert Steps(states[n], events[n], states[n + 1]);
    var s, t, w := states[n], states[n + 1], events[n].w;
    PickFinds(s.single.queue, s.bulk.queue);
    var r := Pick(s.single.queue, s.bulk.queue);
    hide Pick, IsRun;
    if Total(s) > 0 {
      var bulk := r.kind == Bulk;
      assert Handed(Lane(s, bulk), Lane(t, bulk), w) && Kept(Lane(s, !bulk), Lane(t, !bulk));
    }
  }

  /** The first job of the lane goes to w. */
  ghost predicate Handed(l: ThreadPool.Lane, m: ThreadPool.Lane, w: Tid) {
    && l.queue.items != [] && m.queue.items == l.queue.items[1..]
    && m.delivered == l.delivered + [Delivery(w, l.queue.items[0])] && m.accepted == l.accepted
  }

  ghost predicate Kept(l: ThreadPool.Lane, m: ThreadPool.Lane) {
    m.queue.items == l.queue.items && m.delivered == l.delivered && m.accepted == l.accepted
  }

  // ----- jobs without a worker

  /** Workers that will look at the queues again. */
  ghost function Active(c: Crew): set<Tid> {
    c.looping + c.waiting + c.running
  }

  ghost predicate Stranded(s: State) {
    Total(s) > 0 && Active(s.crew) == {}
  }

  ghost predicate Admitting(s: State, e: Event)
    requires Enabled(s, e)
  {
    match e
    case Dispatch(d, job, bulk, thread) => s.status == Valid && Room(s, bulk)
    case Recheck(d, thread) => Room(s, s.sleepers[d].bulk)
    case _ => false
  }

  /** The events after which a job waits and no worker will look for it: the last active worker gives up although
      something is queued, or a job is admitted when none is active and no thread is started, be it that none can be
      created or that the ones on their way out still count. */
  ghost predicate Strands(s: State, e: Event)
    requires Enabled(s, e)
  {
    if e.TimeOut? then Total(s) > 0 && Active(s.crew) == {e.w}
    else Admitting(s, e) && Active(s.crew) == {} && (e.thread == None || s.crew.Size() == s.thrMax)
  }

  lemma StrandsWhen(s: State, e: Event)
    requires Inv(s, 0) && Enabled(s, e) && !Stranded(s)
    ensures Stranded(Apply(s, e)) <==> Strands(s, e)
  {
    hide Inv, Contended, Room, Admit, DoPop, Stranded, Active, Total;
    match e {
      case Dispatch(d, job, bulk, thread) =>
        ContendedIs(s, bulk);
        AdmitStrands(s, job, bulk, thread);
        SameStranded(s, s.(sleepers := s.sleepers[d := Sleeper(job, bulk)]));
      case Recheck(d, thread) =>
        var p := s.sleepers[d];
        var t := s.(sleepers := s.sleepers - {d});
        ContendedIs(s, p.bulk);
        SameStranded(s, t);
        SameInv(s, t);
        AdmitStrands(t, p.job, p.bulk, thread);
      case Enter(w) =>
        PopAttends(s.(crew := s.crew.(looping := s.crew.looping - {w}), thrIdle := s.thrIdle + 1), w);
      case Wake(w) =>
        PopAttends(s.(crew := s.crew.(waiting := s.crew.waiting - {w})), w);
      case _ =>
        MoveStrands(s, e);
    }
  }

  lemma SameStranded(s: State, t: State)
    requires t.crew == s.crew && t.single == s.single && t.bulk == s.bulk
    ensures Stranded(t) == Stranded(s)
  {}

  lemma SameInv(s: State, t: State)
    requires Inv(s, 0) && t == s.(sleepers := t.sleepers)
    ensures Inv(t, 0)
  {}

  lemma PopAttends(s: State, w: Tid)
    ensures !Stranded(DoPop(s, w))
  {
    PickFinds(s.single.queue, s.bulk.queue);
    hide Pick;
    var t := DoPop(s, w);
    if Total(s) > 0 {
      assert w in Active(t.crew);
    }
  }

  lemma MoveStrands(s: State, e: Event)
    requires Inv(s, 0) && Enabled(s, e) && !Stranded(s) && (e.TimeOut? || e.Return? || e.Leave? || e == Destroy)
    ensures Stranded(Apply(s, e)) <==> e.TimeOut? && Total(s) > 0 && Active(s.crew) == {e.w}
  {
    IsApart(s.crew, s.thrAlive, s.thrIdle, s.thrMax, 0);
    hide Inv, Active;
    SameTotal(s, Apply(s, e));
    match e {
      case TimeOut(w) =>
        OneLess(s.crew, w);
      case Return(w) =>
        BackInLoop(s.crew, w);
      case Leave(w) =>
        OneGone(s.crew, w);
      case Destroy =>
    }
  }

  lemma OneLess(c: Crew, w: Tid)
    requires c.Apart() && w in c.waiting
    ensures Active(c.(waiting := c.waiting - {w}, leaving := c.leaving + {w})) == {} <==> Active(c) == {w}
  {
    var d := c.(waiting := c.waiting - {w}, leaving := c.leaving + {w});
    assert Active(d) == Active(c) - {w} && w in Active(c);
  }

  lemma BackInLoop(c: Crew, w: Tid)
    ensures Active(c.(running := c.running - {w}, looping := c.looping + {w})) != {}
  {
    assert w in Active(c.(running := c.running - {w}, looping := c.looping + {w}));
  }

  lemma OneGone(c: Crew, w: Tid)
    ensures Active(c.(leaving := c.leaving - {w})) == Active(c)
  {}

  lemma AdmitStrands(s: State, job: Job, bulk: bool, thread: Option<Tid>)
    requires Inv(s, 0) && Unused(s, thread)
    ensures Stranded(Admit(s, job, bulk, thread)) <==>
              Active(s.crew) == {} && (thread == None || s.crew.Size() == s.thrMax)
  {
    hide Balanced, Ordered, Bounded;
    var t := Admit(s, job, bulk, thread);
    assert Total(t) == Total(s) + 1;
    if Active(s.crew) == {} {
      assert s.crew.waiting <= Active(s.crew);
      assert |s.crew.waiting| == 0;
      if thread.Some? && s.crew.Size() < s.thrMax {
        assert thread.value in Active(t.crew);
      }
    } else {
      assert Active(s.crew) <= Active(t.crew);
    }
  }

  /** As long as that does not happen, there is an active worker whenever a job waits. */
  lemma {:induction false} Attended(states: seq<State>, events: seq<Event>, n: nat)
    requires IsRun(states, events) && n <= |events|
    requires forall i | 0 <= i < n :: Enabled(states[i], events[i]) && !Strands(states[i], events[i])
    ensures !Stranded(states[n])
  {
    hide Apply, Enabled, Strands, Inv;
    if n > 0 {
      Attended(states, events, n - 1);
      RunInv(states, events, n - 1);
      assert Steps(states[n - 1], events[n - 1], states[n]);
      StrandsWhen(states[n - 1], events[n - 1]);
    }
  }

  /** Workers of a pool of one thread and four places. */
  ghost function Small(status: Status, alive: int, idle: int, single: ThreadPool.Lane, crew: Crew, pops: seq<PopRecord>): State {
    State(status, 1, 4, alive, idle, single, ThreadPool.Lane(Queue([], 0), [], []), crew, map[], pops)
  }

  /** One worker has run job j and sleeps. */
  ghost function Resting(j: Job, w: Tid): seq<State> {
    var none := ThreadPool.Lane(Queue([], 0), [], []);
    var done := ThreadPool.Lane(Queue([], 1), [j], [Delivery(w, j)]);
    var log := [PopRecord(Single, true, false)];
    [Small(Valid, 0, 0, none, Crew({}, {}, {}, {}), []),
     Small(Valid, 1, 0, none.(queue := Queue([j], 0), accepted := [j]), Crew({w}, {}, {}, {}), []),
     Small(Valid, 1, 0, done, Crew({}, {}, {w}, {}), log),
     Small(Valid, 1, 0, done, Crew({w}, {}, {}, {}), log),
     Small(Valid, 1, 1, done, Crew({}, {w}, {}, {}), log)]
  }

  function Rests(j: Job, d: Tid, w: Tid): seq<Event> {
    [Dispatch(d, j, false, Some(w)), Enter(w), Return(w), Enter(w)]
  }

  lemma RestingRuns(j: Job, d: Tid, w: Tid)
    ensures IsRun(Resting(j, w), Rests(j, d, w))
  {}

  /** A run with three more events. */
  lemma Longer(states: seq<State>, events: seq<Event>, a: Event, s: State, b: Event, t: State, c: Event, u: State)
    requires IsRun(states, events)
    requires Steps(states[|events|], a, s) && Steps(s, b, t) && Steps(t, c, u)
    ensures IsRun(states + [s, t, u], events + [a, b, c])
  {
    hide Steps, Init;
    var S, E := states + [s, t, u], events + [a, b, c];
    forall i | 0 <= i < |E| ensures Steps(S[i], E[i], S[i + 1]) {
      if i < |events| {
        assert Steps(states[i], events[i], states[i + 1]);
      }
    }
  }

  /** The pool after the worker is gone: k is queued and nobody is left to look for it. */
  ghost function Left(j: Job, k: Job, w: Tid): State {
    Small(Valid, 0, 0, ThreadPool.Lane(Queue([k], 1), [j, k], [Delivery(w, j)]), Crew({}, {}, {}, {}), [PopRecord(Single, true, false)])
  }

  lemma LeftStranded(j: Job, k: Job, w: Tid)
    ensures Stranded(Left(j, k, w)) && forall e | Enabled(Left(j, k, w), e) :: e.Dispatch? || e == Destroy
  {}

  /** A job comes in, its dispatcher counts on the sleeping worker, and the worker gives up: the job stays in the queue,
      and no event of a worker is possible any more. */
  lemma GivesUp(j: Job, k: Job, d: Tid, w: Tid) returns (states: seq<State>, events: seq<Event>)
    ensures IsRun(states, events) && Stranded(states[|events|])
    ensures events == Rests(j, d, w) + [Dispatch(d, k, false, None), TimeOut(w), Leave(w)]
    ensures forall e | Enabled(states[|events|], e) :: e.Dispatch? || e == Destroy
  {
    var rest, end := Resting(j, w), Left(j, k, w);
    var s := rest[4].(single := end.single);
    var t := s.(thrIdle := 0, crew := Crew({}, {}, {}, {w}));
    RestingRuns(j, d, w);
    LeftStranded(j, k, w);
    assert Steps(rest[4], Dispatch(d, k, false, None), s);
    assert Steps(s, TimeOut(w), t) && Steps(t, Leave(w), end);
    hide *;
    Longer(rest, Rests(j, d, w), Dispatch(d, k, false, None), s, TimeOut(w), t, Leave(w), end);
    states, events := rest + [s, t, end], Rests(j, d, w) + [Dispatch(d, k, false, None), TimeOut(w), Leave(w)];
  }

  /** The same with a job that comes in between the worker's giving up and its end, when it still counts as alive and
      no other may be started. */
  lemma StillCounts(j: Job, k: Job, d: Tid, w: Tid, v: Tid) returns (states: seq<State>, events: seq<Event>)
    requires v != w
    ensures IsRun(states, events) && Stranded(states[|events|])
    ensures events == Rests(j, d, w) + [TimeOut(w), Dispatch(d, k, false, Some(v)), Leave(w)]
    ensures forall e | Enabled(states[|events|], e) :: e.Dispatch? || e == Destroy
  {
    var rest, end := Resting(j, w), Left(j, k, w);
    var s := rest[4].(thrIdle := 0, crew := Crew({}, {}, {}, {w}));
    var t := s.(single := end.single);
    RestingRuns(j, d, w);
    LeftStranded(j, k, w);
    assert Steps(rest[4], TimeOut(w), s);
    assert Steps(s, Dispatch(d, k, false, Some(v)), t) && Steps(t, Leave(w), end);
    hide *;
    Longer(rest, Rests(j, d, w), TimeOut(w), s, Dispatch(d, k, false, Some(v)), t, Leave(w), end);
    states, events := rest + [s, t, end], Rests(j, d, w) + [TimeOut(w), Dispatch(d, k, false, Some(v)), Leave(w)];
  }
}

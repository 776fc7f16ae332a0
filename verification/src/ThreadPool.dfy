/** The clamd thread pool as a state machine.  Every stretch of code that runs under the pool mutex is one
    event; the events of dispatchers, workers and the destroyer interleave in any order. */
module ThreadPool {
  import opened WorkQueues

  type Job(==, !new)
  type Tid = nat

  datatype Status = Valid | Exit

  /** One successful pop: which queue was served and which queues had something in them. */
  datatype PopRecord = PopRecord(kind: Kind, singleWaiting: bool, bulkWaiting: bool)

  datatype Delivery = Delivery(worker: Tid, job: Job)

  /** A dispatcher asleep on one of the two "queueable" conditions. */
  datatype Sleeper = Sleeper(job: Job, bulk: bool)

  /** The workers, by what they are doing: about to take the mutex at the top of their loop, asleep on
      pool_cond, inside the handler, or out of the loop but not yet gone. */
  datatype Crew = Crew(looping: set<Tid>, waiting: set<Tid>, running: set<Tid>, leaving: set<Tid>) {
    ghost predicate Apart() {
      && looping !! waiting && looping !! running && looping !! leaving
      && waiting !! running && waiting !! leaving && running !! leaving
    }

    ghost function All(): set<Tid> {
      looping + waiting + running + leaving
    }

    ghost function Size(): nat {
      |looping| + |waiting| + |running| + |leaving|
    }
  }

  /** One queue with its past. */
  datatype Lane = Lane(queue: Queue<Job>, accepted: seq<Job>, delivered: seq<Delivery>)

  datatype State = State(
    status: Status,
    thrMax: nat,
    queueMax: nat,
    thrAlive: int,
    thrIdle: int,
    single: Lane,
    bulk: Lane,
    crew: Crew,
    sleepers: map<Tid, Sleeper>,
    pops: seq<PopRecord>)

  ghost predicate Init(s: State) {
    && s.status == Valid && s.thrMax > 0 && s.thrAlive == 0 && s.thrIdle == 0
    && s.single == Lane(Queue([], 0), [], []) && s.bulk == Lane(Queue([], 0), [], [])
    && s.crew == Crew({}, {}, {}, {}) && s.sleepers == map[] && s.pops == []
  }

  function Queued(l: Lane): nat {
    |l.queue.items|
  }

  /** thrmgr_contended */
  predicate Contended(s: State, bulk: bool) {
    || (bulk && Queued(s.bulk) >= s.queueMax / 2)
    || Queued(s.bulk) + Queued(s.single) + s.thrAlive - s.thrIdle >= s.queueMax
  }

  datatype Event =
    | Dispatch(d: Tid, job: Job, bulk: bool, thread: Option<Tid>)
    | Recheck(d: Tid, thread: Option<Tid>)
    | Enter(w: Tid)
    | Wake(w: Tid)
    | TimeOut(w: Tid)
    | Return(w: Tid)
    | Leave(w: Tid)
    | Destroy

  ghost predicate Unused(s: State, thread: Option<Tid>) {
    thread.Some? ==> thread.value !in s.crew.All()
  }

  ghost predicate Enabled(s: State, e: Event) {
    match e
    case Dispatch(d, job, bulk, thread) => d !in s.sleepers && Unused(s, thread)
    case Recheck(d, thread) => d in s.sleepers && Unused(s, thread)
    case Enter(w) => w in s.crew.looping
    case Wake(w) => w in s.crew.waiting
    case TimeOut(w) => w in s.crew.waiting
    case Return(w) => w in s.crew.running
    case Leave(w) => w in s.crew.leaving
    case Destroy => true
  }

  ghost function Accept(l: Lane, job: Job): Lane {
    l.(queue := l.queue.(items := l.queue.items + [job]), accepted := l.accepted + [job])
  }

  /** Start a worker when the idle ones are fewer than the queued jobs.  `thread` is the new thread, or
      nothing when it could not be created. */
  ghost function Hire(s: State, thread: Option<Tid>): State {
    if s.thrIdle < Queued(s.single) + Queued(s.bulk) && s.thrAlive < s.thrMax && thread.Some?
    then s.(thrAlive := s.thrAlive + 1, crew := s.crew.(looping := s.crew.looping + {thread.value}))
    else s
  }

  ghost function Admit(s: State, job: Job, bulk: bool, thread: Option<Tid>): State {
    Hire(if bulk then s.(bulk := Accept(s.bulk, job)) else s.(single := Accept(s.single, job)), thread)
  }

  /** thrmgr_dispatch_internal, up to its first wait. */
  ghost function DoDispatch(s: State, d: Tid, job: Job, bulk: bool, thread: Option<Tid>): State {
    if s.status != Valid then s
    else if Contended(s, bulk) then s.(sleepers := s.sleepers[d := Sleeper(job, bulk)])
    else Admit(s, job, bulk, thread)
  }

  /** A woken dispatcher tests the queues again, but not the state of the pool. */
  ghost function DoRecheck(s: State, d: Tid, thread: Option<Tid>): State
    requires d in s.sleepers
  {
    var p := s.sleepers[d];
    if Contended(s, p.bulk) then s else Admit(s.(sleepers := s.sleepers - {d}), p.job, p.bulk, thread)
  }

  /** The queue after a pop, and the job put on record if it came from here. */
  ghost function Deliver(l: Lane, q: Queue<Job>, mine: bool, w: Tid, job: Job): Lane {
    l.(queue := q, delivered := if mine then l.delivered + [Delivery(w, job)] else l.delivered)
  }

  /** A worker that counts as idle tries to pop: it runs the job, sleeps, or leaves. */
  ghost function DoPop(s: State, w: Tid): State {
    var r := Pick(s.single.queue, s.bulk.queue);
    if r.job.Some? then
      s.(single := Deliver(s.single, r.single, r.kind == Single, w, r.job.value),
         bulk := Deliver(s.bulk, r.bulk, r.kind == Bulk, w, r.job.value),
         thrIdle := s.thrIdle - 1, crew := s.crew.(running := s.crew.running + {w}),
         pops := s.pops + [PopRecord(r.kind, s.single.queue.items != [], s.bulk.queue.items != [])])
    else if s.status == Exit then
      s.(thrIdle := s.thrIdle - 1, crew := s.crew.(leaving := s.crew.leaving + {w}))
    else
      s.(crew := s.crew.(waiting := s.crew.waiting + {w}))
  }

  ghost function Apply(s: State, e: Event): State
    requires Enabled(s, e)
  {
    match e
    case Dispatch(d, job, bulk, thread) => DoDispatch(s, d, job, bulk, thread)
    case Recheck(d, thread) => DoRecheck(s, d, thread)
    case Enter(w) => DoPop(s.(crew := s.crew.(looping := s.crew.looping - {w}), thrIdle := s.thrIdle + 1), w)
    case Wake(w) => DoPop(s.(crew := s.crew.(waiting := s.crew.waiting - {w})), w)
    case TimeOut(w) =>
      s.(crew := s.crew.(waiting := s.crew.waiting - {w}, leaving := s.crew.leaving + {w}), thrIdle := s.thrIdle - 1)
    case Return(w) => s.(crew := s.crew.(running := s.crew.running - {w}, looping := s.crew.looping + {w}))
    case Leave(w) => s.(crew := s.crew.(leaving := s.crew.leaving - {w}), thrAlive := s.thrAlive - 1)
    case Destroy => s.(status := Exit)
  }

  // ----- what every state keeps

  /** The counters count what they should; `extra` is the worker that is between two places. */
  ghost predicate Counted(c: Crew, alive: int, idle: int, max: nat, extra: nat) {
    && c.Apart()
    && idle == |c.waiting| + extra
    && alive == c.Size() + extra
    && alive <= max
  }

  /** Jobs waiting and jobs in handlers stay within the configured queue length. */
  ghost predicate Bounded(s: State) {
    && Queued(s.bulk) <= s.queueMax / 2
    && Queued(s.single) + Queued(s.bulk) + |s.crew.running| <= s.queueMax
  }

  function Jobs(ds: seq<Delivery>): (r: seq<Job>)
    ensures |r| == |ds|
  {
    seq(|ds|, i requires 0 <= i < |ds| => ds[i].job)
  }

  /** What was accepted is what has been handed out, in the same order, followed by what is queued. */
  ghost predicate Ordered(l: Lane) {
    l.accepted == Jobs(l.delivered) + l.queue.items
  }

  /** How many pops in a row have just taken a single job while bulk jobs were waiting. */
  function Streak(pops: seq<PopRecord>): nat {
    if pops == [] then 0
    else
      var last := pops[|pops| - 1];
      if last.kind == Single && last.bulkWaiting then Streak(pops[..|pops| - 1]) + 1 else 0
  }

  /** How many single jobs were popped since a bulk job was last preferred to one, if nothing but single jobs
      was popped since. */
  function SinceBulk(pops: seq<PopRecord>): Option<nat> {
    if pops == [] then Some(0)
    else
      var last := pops[|pops| - 1];
      if last.kind == Bulk then if last.singleWaiting then Some(0) else None
      else
        var n := SinceBulk(pops[..|pops| - 1]);
        if n.Some? then Some(n.value + 1) else None
  }

  /** With both queues waiting, the fifth pop is for the bulk queue, and no other. */
  ghost predicate Exact(pops: seq<PopRecord>) {
    forall i | 0 <= i < |pops| ::
      pops[i].singleWaiting && pops[i].bulkWaiting && SinceBulk(pops[..i]).Some? ==>
        (pops[i].kind == Single <==> SinceBulk(pops[..i]).value < SINGLE_BULK_RATIO)
  }

  ghost predicate Fair(pops: seq<PopRecord>) {
    && Exact(pops)
    && (forall n | 0 <= n <= |pops| :: Streak(pops[..n]) <= SINGLE_BULK_RATIO)
    && (forall i | 0 <= i < |pops| - 1 ::
          !(pops[i].kind == Bulk && pops[i].singleWaiting && pops[i + 1].kind == Bulk && pops[i + 1].singleWaiting))
  }

  /** The counters remember enough of the past for the next pop to be fair. */
  ghost predicate Balanced(singlePopped: nat, bulkPopped: nat, pops: seq<PopRecord>) {
    && (singlePopped >= SINGLE_BULK_RATIO ==> bulkPopped == 0)
    && Streak(pops) <= singlePopped
    && (pops != [] && pops[|pops| - 1].kind == Bulk && pops[|pops| - 1].singleWaiting ==> singlePopped == 0)
    && (SinceBulk(pops).Some? ==> SinceBulk(pops).value == singlePopped)
    && Fair(pops)
  }

  ghost predicate Inv(s: State, extra: nat) {
    && Counted(s.crew, s.thrAlive, s.thrIdle, s.thrMax, extra)
    && Bounded(s)
    && Ordered(s.single) && Ordered(s.bulk)
    && Balanced(s.single.queue.popped, s.bulk.queue.popped, s.pops)
  }

  lemma InitInv(s: State)
    requires Init(s)
    ensures Inv(s, 0)
  {}

  lemma AcceptOrdered(l: Lane, job: Job)
    requires Ordered(l)
    ensures Ordered(Accept(l, job))
  {}

  lemma DeliverOrdered(l: Lane, q: Queue<Job>, mine: bool, w: Tid, job: Job)
    requires Ordered(l) && l.queue.items == (if mine then [job] + q.items else q.items)
    ensures Ordered(Deliver(l, q, mine, w, job))
  {
    if mine {
      assert Jobs(l.delivered + [Delivery(w, job)]) == Jobs(l.delivered) + [job];
    }
  }

  lemma HireCounted(c: Crew, alive: int, idle: int, max: nat, t: Tid)
    requires Counted(c, alive, idle, max, 0) && t !in c.All() && alive < max
    ensures Counted(c.(looping := c.looping + {t}), alive + 1, idle, max, 0)
  {}

  /** Admission leaves room: the new job is one of at most queueMax. */
  lemma AdmitInv(s: State, job: Job, bulk: bool, thread: Option<Tid>)
    requires Inv(s, 0) && !Contended(s, bulk) && Unused(s, thread)
    ensures Inv(Admit(s, job, bulk, thread), 0)
  {
    hide Balanced, Ordered, Counted;
    AcceptOrdered(s.single, job);
    AcceptOrdered(s.bulk, job);
    BusyWorkers(s.crew, s.thrAlive, s.thrIdle, s.thrMax);
    if thread.Some? && s.thrAlive < s.thrMax {
      HireCounted(s.crew, s.thrAlive, s.thrIdle, s.thrMax, thread.value);
    }
  }

  lemma BusyWorkers(c: Crew, alive: int, idle: int, max: nat)
    requires Counted(c, alive, idle, max, 0)
    ensures |c.running| <= alive - idle && 0 <= idle <= alive <= max
  {}

  /** The next record keeps the log fair. */
  lemma PopFair(single: Queue<Job>, bulk: Queue<Job>, pops: seq<PopRecord>)
    requires Balanced(single.popped, bulk.popped, pops) && Pick(single, bulk).job.Some?
    ensures var r := Pick(single, bulk);
            Balanced(r.single.popped, r.bulk.popped, pops + [PopRecord(r.kind, single.items != [], bulk.items != [])])
  {
    var r := Pick(single, bulk);
    var log := pops + [PopRecord(r.kind, single.items != [], bulk.items != [])];
    assert log[..|log| - 1] == pops;
    assert pops[..|pops|] == pops && log[..|log|] == log;
    forall n | 0 <= n <= |log| ensures Streak(log[..n]) <= SINGLE_BULK_RATIO {
      if n <= |pops| {
        assert log[..n] == pops[..n];
      }
    }
    forall i | 0 <= i < |pops| ensures log[..i] == pops[..i] {
    }
  }

  /** The worker between two places finds one. */
  lemma PlaceCounted(c: Crew, alive: int, idle: int, max: nat, w: Tid)
    requires Counted(c, alive, idle, max, 1) && w !in c.All()
    ensures Counted(c.(running := c.running + {w}), alive, idle - 1, max, 0)
    ensures Counted(c.(leaving := c.leaving + {w}), alive, idle - 1, max, 0)
    ensures Counted(c.(waiting := c.waiting + {w}), alive, idle, max, 0)
  {}

  lemma PopInv(s: State, w: Tid)
    requires Inv(s, 1) && w !in s.crew.All()
    ensures Inv(DoPop(s, w), 0)
  {
    hide Counted, Balanced, Pick, Ordered;
    var r := Pick(s.single.queue, s.bulk.queue);
    PlaceCounted(s.crew, s.thrAlive, s.thrIdle, s.thrMax, w);
    if r.job.Some? {
      PickFinds(s.single.queue, s.bulk.queue);
      PopFair(s.single.queue, s.bulk.queue, s.pops);
      DeliverOrdered(s.single, r.single, r.kind == Single, w, r.job.value);
      DeliverOrdered(s.bulk, r.bulk, r.kind == Bulk, w, r.job.value);
    }
  }

  /** A worker leaves its place. */
  lemma MoveCounted(c: Crew, alive: int, idle: int, max: nat, w: Tid)
    requires Counted(c, alive, idle, max, 0)
    ensures w in c.looping ==> Counted(c.(looping := c.looping - {w}), alive, idle + 1, max, 1)
    ensures w in c.waiting ==> Counted(c.(waiting := c.waiting - {w}), alive, idle, max, 1)
    ensures w in c.waiting ==> Counted(c.(waiting := c.waiting - {w}, leaving := c.leaving + {w}), alive, idle - 1, max, 0)
    ensures w in c.running ==> Counted(c.(running := c.running - {w}, looping := c.looping + {w}), alive, idle, max, 0)
    ensures w in c.leaving ==> Counted(c.(leaving := c.leaving - {w}), alive - 1, idle, max, 0)
  {}

  lemma LeftPlace(c: Crew, w: Tid)
    requires c.Apart()
    ensures w in c.looping ==> w !in c.(looping := c.looping - {w}).All()
    ensures w in c.waiting ==> w !in c.(waiting := c.waiting - {w}).All()
  {}

  lemma IsApart(c: Crew, alive: int, idle: int, max: nat, extra: nat)
    requires Counted(c, alive, idle, max, extra)
    ensures c.Apart()
  {}

  /** Every event keeps the invariant. */
  lemma StepInv(s: State, e: Event)
    requires Inv(s, 0) && Enabled(s, e)
    ensures Inv(Apply(s, e), 0)
  {
    hide Counted, Balanced, Ordered, DoPop, Admit;
    IsApart(s.crew, s.thrAlive, s.thrIdle, s.thrMax, 0);
    match e {
      case Dispatch(d, job, bulk, thread) =>
        if s.status == Valid && !Contended(s, bulk) {
          AdmitInv(s, job, bulk, thread);
        }
      case Recheck(d, thread) =>
        var p := s.sleepers[d];
        if !Contended(s, p.bulk) {
          AdmitInv(s.(sleepers := s.sleepers - {d}), p.job, p.bulk, thread);
        }
      case Enter(w) =>
        MoveCounted(s.crew, s.thrAlive, s.thrIdle, s.thrMax, w);
        LeftPlace(s.crew, w);
        PopInv(s.(crew := s.crew.(looping := s.crew.looping - {w}), thrIdle := s.thrIdle + 1), w);
      case Wake(w) =>
        MoveCounted(s.crew, s.thrAlive, s.thrIdle, s.thrMax, w);
        LeftPlace(s.crew, w);
        PopInv(s.(crew := s.crew.(waiting := s.crew.waiting - {w})), w);
      case TimeOut(w) =>
        MoveCounted(s.crew, s.thrAlive, s.thrIdle, s.thrMax, w);
      case Return(w) =>
        MoveCounted(s.crew, s.thrAlive, s.thrIdle, s.thrMax, w);
      case Leave(w) =>
        MoveCounted(s.crew, s.thrAlive, s.thrIdle, s.thrMax, w);
      case Destroy =>
    }
  }

  // ----- whole runs

  ghost predicate Steps(s: State, e: Event, t: State) {
    Enabled(s, e) && t == Apply(s, e)
  }

  ghost predicate IsRun(states: seq<State>, events: seq<Event>) {
    && |states| == |events| + 1 && Init(states[0])
    && forall i | 0 <= i < |events| :: Steps(states[i], events[i], states[i + 1])
  }

  lemma {:induction false} RunInv(states: seq<State>, events: seq<Event>, n: nat)
    requires IsRun(states, events) && n < |states|
    ensures Inv(states[n], 0)
  {
    hide Inv, Apply;
    if n == 0 {
      InitInv(states[0]);
    } else {
      RunInv(states, events, n - 1);
      assert Steps(states[n - 1], events[n - 1], states[n]);
      StepInv(states[n - 1], events[n - 1]);
    }
  }

  /** Safety: in every state of every run the counters are in range and the queues within their limits. */
  lemma Safety(states: seq<State>, events: seq<Event>, n: nat)
    requires IsRun(states, events) && n < |states|
    ensures var s := states[n];
            && 0 <= s.thrIdle <= s.thrAlive <= s.thrMax
            && Queued(s.bulk) <= s.queueMax / 2
            && Queued(s.single) + Queued(s.bulk) + |s.crew.running| <= s.queueMax
  {
    RunInv(states, events, n);
    var s := states[n];
    hide Counted, Balanced, Ordered, IsRun;
    BusyWorkers(s.crew, s.thrAlive, s.thrIdle, s.thrMax);
  }

  /** Every accepted job goes to at most one worker, in the order of acceptance: the k-th delivery from a
      queue is of the k-th job accepted into it, and what has not been delivered is still queued. */
  lemma FirstInFirstOut(states: seq<State>, events: seq<Event>, n: nat, kind: Kind)
    requires IsRun(states, events) && n < |states|
    ensures var l := if kind == Single then states[n].single else states[n].bulk;
            && |l.delivered| <= |l.accepted|
            && (forall k | 0 <= k < |l.delivered| :: l.delivered[k].job == l.accepted[k])
            && l.queue.items == l.accepted[|l.delivered|..]
  {
    RunInv(states, events, n);
    hide Counted, Balanced, IsRun, Bounded;
    var l := if kind == Single then states[n].single else states[n].bulk;
    forall k | 0 <= k < |l.delivered| ensures l.delivered[k].job == l.accepted[k] {
      assert Jobs(l.delivered)[k] == l.delivered[k].job;
    }
  }

  lemma {:induction false} StreakIs(pops: seq<PopRecord>, n: nat)
    requires n <= |pops| && forall i | |pops| - n <= i < |pops| :: pops[i].kind == Single && pops[i].bulkWaiting
    ensures Streak(pops) >= n
  {
    if n > 0 {
      var front := pops[..|pops| - 1];
      assert forall i | |front| - (n - 1) <= i < |front| :: front[i] == pops[i];
      StreakIs(front, n - 1);
    }
  }

  /** A fair log serves bulk jobs once in five pops, and single jobs once in two. */
  lemma FairMeans(pops: seq<PopRecord>, i: nat)
    requires Fair(pops)
    ensures i + SINGLE_BULK_SUM <= |pops| ==>
              exists j | i <= j < i + SINGLE_BULK_SUM :: pops[j].kind == Bulk || !pops[j].bulkWaiting
    ensures i + 2 <= |pops| && pops[i].singleWaiting && pops[i + 1].singleWaiting ==>
              pops[i].kind == Single || pops[i + 1].kind == Single
  {
    if i + SINGLE_BULK_SUM <= |pops|
      && (forall j | i <= j < i + SINGLE_BULK_SUM :: !(pops[j].kind == Bulk || !pops[j].bulkWaiting))
    {
      var front := pops[..i + SINGLE_BULK_SUM];
      forall j | |front| - SINGLE_BULK_SUM <= j < |front| ensures front[j].kind == Single && front[j].bulkWaiting {
        assert front[j] == pops[j];
      }
      StreakIs(front, SINGLE_BULK_SUM);
      assert false;
    }
  }

  /** Fairness: of any five pops in a row with bulk jobs waiting one serves them, and of any two in a row
      with single jobs waiting one serves those. */
  lemma Fairness(states: seq<State>, events: seq<Event>, n: nat, i: nat)
    requires IsRun(states, events) && n < |states|
    ensures var pops := states[n].pops;
            && (i + SINGLE_BULK_SUM <= |pops| ==>
                  exists j | i <= j < i + SINGLE_BULK_SUM :: pops[j].kind == Bulk || !pops[j].bulkWaiting)
            && (i + 2 <= |pops| && pops[i].singleWaiting && pops[i + 1].singleWaiting ==>
                  pops[i].kind == Single || pops[i + 1].kind == Single)
  {
    RunInv(states, events, n);
    hide Fair, IsRun, Counted, Ordered, Bounded;
    FairMeans(states[n].pops, i);
  }

  /** In a fair log five pops in a row with both queues waiting are four single jobs and one bulk job. */
  lemma ExactMeans(pops: seq<PopRecord>, i: nat) returns (k: nat)
    requires Fair(pops) && i + SINGLE_BULK_SUM <= |pops|
    requires forall j | i <= j < i + SINGLE_BULK_SUM :: pops[j].singleWaiting && pops[j].bulkWaiting
    ensures i <= k < i + SINGLE_BULK_SUM
    ensures forall j | i <= j < i + SINGLE_BULK_SUM :: pops[j].kind == if j == k then Bulk else Single
  {
    FairMeans(pops, i);
    k :| i <= k < i + SINGLE_BULK_SUM && (pops[k].kind == Bulk || !pops[k].bulkWaiting);
    forall j | i <= j < i + SINGLE_BULK_SUM && j != k ensures pops[j].kind == Single {
      if pops[j].kind == Bulk {
        TwoBulks(pops, if j < k then j else k, if j < k then k else j);
      }
    }
  }

  /** Four single jobs lie between two bulk jobs. */
  lemma {:induction false} TwoBulks(pops: seq<PopRecord>, a: nat, b: nat)
    requires Fair(pops) && a < b < |pops| && pops[a].kind == Bulk && pops[b].kind == Bulk
    requires forall j | a <= j <= b :: pops[j].singleWaiting && pops[j].bulkWaiting
    ensures b - a >= SINGLE_BULK_SUM
    decreases b - a
  {
    if c :| a < c < b && pops[c].kind == Bulk {
      TwoBulks(pops, a, c);
    } else {
      SinceIs(pops, a, b);
    }
  }

  lemma {:induction false} SinceIs(pops: seq<PopRecord>, a: nat, b: nat)
    requires a < b <= |pops| && pops[a].kind == Bulk && pops[a].singleWaiting
    requires forall j | a < j < b :: pops[j].kind == Single
    ensures SinceBulk(pops[..b]) == Some(b - a - 1)
  {
    assert pops[..b][..b - 1] == pops[..b - 1];
    if b > a + 1 {
      SinceIs(pops, a, b - 1);
    }
  }

  /** When both queues have jobs, of every five pops in a row exactly one is a bulk job, in every run. */
  lemma FourToOne(states: seq<State>, events: seq<Event>, n: nat, i: nat) returns (k: nat)
    requires IsRun(states, events) && n < |states| && i + 5 <= |states[n].pops|
    requires forall j | i <= j < i + 5 :: states[n].pops[j].singleWaiting && states[n].pops[j].bulkWaiting
    ensures i <= k < i + 5
    ensures forall j | i <= j < i + 5 :: states[n].pops[j].kind == if j == k then Bulk else Single
  {
    RunInv(states, events, n);
    hide Fair, IsRun, Counted, Ordered, Bounded;
    k := ExactMeans(states[n].pops, i);
  }
}

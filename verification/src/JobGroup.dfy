/** Job groups: a reference count shared by the thread that made the group and the jobs dispatched into it.
    Every stretch of code under the group mutex is one event. */
module JobGroup {

  type Ref = nat

  datatype ExitCode = ExitOk | ExitError | ExitOther

  /** `holders` each owe one release.  `pending` are dispatches that have counted their job but do not know
      yet whether the pool accepts it; each belongs to a holder, which is inside the call. */
  datatype Group = Group(
    jobs: int,
    exitOk: nat,
    exitError: nat,
    exitTotal: nat,
    forceExit: bool,
    freed: nat,
    holders: set<Ref>,
    pending: map<Ref, Ref>,
    accepted: nat,
    waits: nat)

  /** thrmgr_group_new */
  function New(maker: Ref): Group {
    Group(1, 0, 0, 0, false, 0, {maker}, map[], 0, 0)
  }

  datatype Event =
    | Request(who: Ref, job: Ref)
    | Accepted(job: Ref)
    | Refused(job: Ref)
    | Terminate(who: Ref)
    | Finished(who: Ref, code: ExitCode)
    | Waited(who: Ref, exiting: bool)

  ghost predicate Idle(g: Group, who: Ref) {
    who in g.holders && who !in g.pending.Values
  }

  ghost predicate Enabled(g: Group, e: Event) {
    match e
    case Request(who, job) => Idle(g, who) && job !in g.holders && job !in g.pending
    case Accepted(job) => job in g.pending
    case Refused(job) => job in g.pending
    case Terminate(who) => who in g.holders
    case Finished(who, code) => Idle(g, who)
    case Waited(who, exiting) => Idle(g, who) && (g.jobs > 1 ==> exiting)
  }

  /** One reference less; the last one frees the group. */
  ghost function Release(g: Group, who: Ref): Group {
    var h := g.(jobs := g.jobs - 1, holders := g.holders - {who});
    if h.jobs == 0 then h.(freed := h.freed + 1) else h
  }

  ghost function Note(g: Group, code: ExitCode): Group {
    g.(exitTotal := g.exitTotal + 1,
       exitOk := if code == ExitOk then g.exitOk + 1 else g.exitOk,
       exitError := if code == ExitError then g.exitError + 1 else g.exitError)
  }

  ghost function Apply(g: Group, e: Event): Group
    requires Enabled(g, e)
  {
    match e
    case Request(who, job) => g.(jobs := g.jobs + 1, pending := g.pending[job := who])
    case Accepted(job) =>
      g.(pending := g.pending - {job}, holders := g.holders + {job}, accepted := g.accepted + 1)
    case Refused(job) => g.(jobs := g.jobs - 1, pending := g.pending - {job})
    case Terminate(who) => g.(forceExit := true)
    case Finished(who, code) =>
      var h := Note(g, code);
      if h.jobs != 0 then Release(h, who) else h
    case Waited(who, exiting) => Release(g, who).(waits := g.waits + 1)
  }

  /** What thrmgr_group_waitforall reports. */
  function Report(g: Group, exiting: bool): (nat, nat, nat) {
    (g.exitOk, g.exitError + (if g.jobs > 1 && exiting then 1 else 0), g.exitTotal)
  }

  ghost predicate Inv(g: Group) {
    && g.jobs == |g.holders| + |g.pending|
    && g.holders !! g.pending.Keys
    && (forall j | j in g.pending :: g.pending[j] in g.holders)
    && g.freed == (if g.holders == {} then 1 else 0)
    && g.accepted + 1 == |g.holders| + g.exitTotal + g.waits
  }

  lemma NewInv(maker: Ref)
    ensures Inv(New(maker))
  {}

  /** A dispatch in progress has a holder behind it. */
  lemma NeedsHolder(holders: set<Ref>, pending: map<Ref, Ref>)
    requires forall j | j in pending :: pending[j] in holders
    ensures holders == {} ==> pending == map[]
  {}

  lemma ReleaseInv(g: Group, who: Ref, g': Group)
    requires Inv(g) && Idle(g, who)
    requires g'.jobs == g.jobs && g'.holders == g.holders && g'.pending == g.pending && g'.freed == g.freed
    ensures var h := Release(g', who);
            && h.jobs == |h.holders| + |h.pending| && h.holders !! h.pending.Keys
            && (forall j | j in h.pending :: h.pending[j] in h.holders)
            && h.freed == (if h.holders == {} then 1 else 0)
            && |h.holders| == |g.holders| - 1
  {
    var h := Release(g', who);
    assert |h.holders| == |g.holders| - 1;
    forall j | j in h.pending ensures h.pending[j] in h.holders {
      assert g.pending[j] in g.pending.Values;
    }
    NeedsHolder(h.holders, h.pending);
    NoneLeft(h.holders);
  }

  lemma NoneLeft(s: set<Ref>)
    ensures |s| == 0 <==> s == {}
  {}

  lemma DecidedInv(g: Group, job: Ref, e: Event)
    requires Inv(g) && Enabled(g, e) && (e == Accepted(job) || e == Refused(job))
    ensures Inv(Apply(g, e))
  {
    PendingLess(g, job);
    var h := Apply(g, e);
    assert g.pending[job] in g.holders;
    assert h.holders != {};
    forall j | j in h.pending ensures h.pending[j] in h.holders {
      assert j in g.pending;
    }
  }

  lemma RequestInv(g: Group, who: Ref, job: Ref)
    requires Inv(g) && Enabled(g, Request(who, job))
    ensures Inv(Apply(g, Request(who, job)))
  {
    assert g.pending[job := who].Keys == g.pending.Keys + {job};
  }

  lemma FinishedInv(g: Group, who: Ref, code: ExitCode)
    requires Inv(g) && Enabled(g, Finished(who, code))
    ensures Inv(Apply(g, Finished(who, code)))
  {
    HasJobs(g, who);
    ReleaseInv(g, who, Note(g, code));
  }

  lemma StepInv(g: Group, e: Event)
    requires Inv(g) && Enabled(g, e)
    ensures Inv(Apply(g, e))
  {
    match e {
      case Request(who, job) =>
        RequestInv(g, who, job);
      case Accepted(job) =>
        DecidedInv(g, job, e);
      case Refused(job) =>
        DecidedInv(g, job, e);
      case Terminate(who) =>
      case Finished(who, code) =>
        FinishedInv(g, who, code);
      case Waited(who, exiting) =>
        ReleaseInv(g, who, g);
    }
  }

  lemma HasJobs(g: Group, who: Ref)
    requires Inv(g) && who in g.holders
    ensures g.jobs > 0
  {
    assert |g.holders| > 0;
  }

  lemma PendingLess(g: Group, job: Ref)
    requires job in g.pending
    ensures |g.pending - {job}| == |g.pending| - 1
  {
    assert (g.pending - {job}).Keys == g.pending.Keys - {job};
  }

  // ----- whole runs

  ghost predicate Steps(g: Group, e: Event, h: Group) {
    Enabled(g, e) && h == Apply(g, e)
  }

  ghost predicate IsRun(groups: seq<Group>, events: seq<Event>, maker: Ref) {
    && |groups| == |events| + 1 && groups[0] == New(maker)
    && forall i | 0 <= i < |events| :: Steps(groups[i], events[i], groups[i + 1])
  }

  lemma {:induction false} RunInv(groups: seq<Group>, events: seq<Event>, maker: Ref, n: nat)
    requires IsRun(groups, events, maker) && n < |groups|
    ensures Inv(groups[n])
  {
    hide Inv, Apply, Enabled;
    if n == 0 {
      NewInv(maker);
    } else {
      RunInv(groups, events, maker, n - 1);
      assert Steps(groups[n - 1], events[n - 1], groups[n]);
      StepInv(groups[n - 1], events[n - 1]);
    }
  }

  /** The count is the number of outstanding references; the group is freed once, exactly when the last of
      them is given up; and from then on nothing can touch it. */
  lemma Lifetime(groups: seq<Group>, events: seq<Event>, maker: Ref, n: nat)
    requires IsRun(groups, events, maker) && n < |groups|
    ensures var g := groups[n];
            && g.jobs == |g.holders| + |g.pending|
            && g.freed <= 1 && (g.freed == 1 <==> g.jobs == 0)
            && (g.freed == 1 ==> n == |groups| - 1 && forall e :: !Enabled(g, e))
  {
    RunInv(groups, events, maker, n);
    var g := groups[n];
    NeedsHolder(g.holders, g.pending);
    NoneLeft(g.holders);
    assert n < |events| ==> Steps(groups[n], events[n], groups[n + 1]);
  }

  // ----- what the events add up to

  /** How many jobs have finished with this code. */
  function Ended(events: seq<Event>, code: ExitCode): nat {
    if events == [] then 0
    else
      var e := events[|events| - 1];
      Ended(events[..|events| - 1], code) + (if e.Finished? && e.code == code then 1 else 0)
  }

  /** How many dispatches the pool has accepted. */
  function Started(events: seq<Event>): nat {
    if events == [] then 0
    else Started(events[..|events| - 1]) + (if events[|events| - 1].Accepted? then 1 else 0)
  }

  function Waits(events: seq<Event>): nat {
    if events == [] then 0
    else Waits(events[..|events| - 1]) + (if events[|events| - 1].Waited? then 1 else 0)
  }

  predicate Terminated(events: seq<Event>) {
    exists i | 0 <= i < |events| :: events[i].Terminate?
  }

  /** The group holds the sums of the events so far. */
  ghost predicate Sums(g: Group, events: seq<Event>) {
    && g.exitOk == Ended(events, ExitOk)
    && g.exitError == Ended(events, ExitError)
    && g.exitTotal == Ended(events, ExitOk) + Ended(events, ExitError) + Ended(events, ExitOther)
    && g.accepted == Started(events) && g.waits == Waits(events)
    && (g.forceExit <==> Terminated(events))
  }

  lemma SumsStep(g: Group, events: seq<Event>, e: Event)
    requires Sums(g, events) && Enabled(g, e)
    ensures Sums(Apply(g, e), events + [e])
  {
    var all := events + [e];
    assert all[..|all| - 1] == events && all[|all| - 1] == e;
    assert forall i | 0 <= i < |events| :: all[i] == events[i];
  }

  /** In every run the counters of the group are the numbers of jobs that finished with each code, and a termination
      is remembered. */
  lemma {:induction false} Counters(groups: seq<Group>, events: seq<Event>, maker: Ref, n: nat)
    requires IsRun(groups, events, maker) && n <= |events|
    ensures Sums(groups[n], events[..n])
  {
    hide Apply, Enabled, Sums;
    if n == 0 {
      NewSums(maker);
    } else {
      Counters(groups, events, maker, n - 1);
      assert Steps(groups[n - 1], events[n - 1], groups[n]);
      SumsStep(groups[n - 1], events[..n - 1], events[n - 1]);
      assert events[..n] == events[..n - 1] + [events[n - 1]];
    }
  }

  lemma NewSums(maker: Ref)
    ensures Sums(New(maker), [])
  {}

  /** Without a shutdown, waiting ends only when every job accepted so far has finished, and what is
      reported is their number and the numbers that finished well and with an error. */
  lemma WaitForAll(groups: seq<Group>, events: seq<Event>, maker: Ref, n: nat, who: Ref)
    requires IsRun(groups, events, maker) && n < |groups|
    requires Enabled(groups[n], Waited(who, false)) && Waits(events[..n]) == 0
    ensures var g, past := groups[n], events[..n];
            var (ok, error, total) := Report(g, false);
            && g.holders == {who} && g.pending == map[]
            && ok == Ended(past, ExitOk) && error == Ended(past, ExitError)
            && total == Started(past) == Ended(past, ExitOk) + Ended(past, ExitError) + Ended(past, ExitOther)
  {
    RunInv(groups, events, maker, n);
    Counters(groups, events, maker, n);
    var g := groups[n];
    assert g.holders == {who} + (g.holders - {who});
    assert |g.holders - {who}| == 0;
  }

  /** On shutdown waiting may end early.  The report is then of the jobs that have finished, with one error more
      exactly if somebody else still holds the group. */
  lemma WaitCutShort(groups: seq<Group>, events: seq<Event>, maker: Ref, n: nat, who: Ref)
    requires IsRun(groups, events, maker) && n < |groups| && Enabled(groups[n], Waited(who, true))
    ensures var g, past := groups[n], events[..n];
            var (ok, error, total) := Report(g, true);
            && ok == Ended(past, ExitOk)
            && error == Ended(past, ExitError) + (if g.holders == {who} && g.pending == map[] then 0 else 1)
            && total == Ended(past, ExitOk) + Ended(past, ExitError) + Ended(past, ExitOther)
            && total + |g.holders| + Waits(past) == Started(past) + 1
  {
    RunInv(groups, events, maker, n);
    Counters(groups, events, maker, n);
    var g := groups[n];
    assert g.holders == {who} + (g.holders - {who});
    NoneLeft(g.holders - {who});
    assert |g.pending| == 0 <==> g.pending == map[];
  }

  /** Giving up references one by one, every run can be ended, and its end is the one free. */
  lemma ReleaseFrees(g: Group, who: Ref)
    requires Inv(g) && Idle(g, who) && g.holders == {who}
    ensures Enabled(g, Finished(who, ExitOk)) && Apply(g, Finished(who, ExitOk)).freed == 1
    ensures Enabled(g, Waited(who, false)) && Apply(g, Waited(who, false)).freed == 1
  {
    assert forall j | j in g.pending :: g.pending[j] in g.pending.Values;
    NeedsHolder({}, g.pending);
    assert g.holders - {who} == {};
  }
}

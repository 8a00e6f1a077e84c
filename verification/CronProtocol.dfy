/**
 Cron dispatch as a protocol: any number of processes that share the schedule store and
 the claim store take snapshots of the due schedules and, each at its own pace, claim,
 dispatch and mark. The steps of scheduler.WorkflowScheduler.dispatch_due interleave freely.
 */
module CronProtocol {

  type Name(==, !new)

  type Process(==, !new)

  /** The next fire time after a base time, for the schedule's cron expression. */
  type Cron = (Name, int) -> int

  /** All that is assumed of cron expressions: the next fire time lies after its base. */
  ghost predicate Forward(cron: Cron) {
    forall n: Name, t: int {:trigger cron(n, t)} :: cron(n, t) > t
  }

  /** A schedule and one of its fire times. */
  type Firing = (Name, int)

  /** A firing that was dispatched, and what time it was then for the tick that dispatched it. */
  datatype Entry = Entry(firing: Firing, now: int)

  datatype Phase = Free | Claimed(firing: Firing) | Dispatched(firing: Firing)

  /**
   A process in a tick: the part of its snapshot still to be handled, and the time of the
   snapshot. An explicit tick was given its time by the caller and keeps to it; another one
   reads the clock again and again.
   */
  datatype Worker = Worker(pending: set<Firing>, takenAt: int, explicit: bool, phase: Phase)

  /**
   next holds next_run for every schedule registered so far, removed says which of them the
   store does not have any more.
   */
  datatype System = System(
    next: map<Name, int>,
    removed: set<Name>,
    claims: set<Firing>,
    log: seq<Entry>,
    workers: map<Process, Worker>,
    clock: int)

  datatype Action =
    | Register(name: Name, first: int)
    | Unregister(name: Name)
    | Snapshot(p: Process, time: int, explicit: bool)
    | Claim(p: Process, firing: Firing)
    | Dispatch(p: Process, raises: bool)
    | Mark(p: Process, time: int)
    | MarkRaises(p: Process)
    | Crash(p: Process)

  function WorkerOf(s: System, p: Process): Worker {
    if p in s.workers then s.workers[p] else Worker({}, s.clock, false, Free)
  }

  /** What time it is for a tick. */
  function TimeOf(s: System, w: Worker): int {
    if w.explicit then w.takenAt else s.clock
  }

  function DueAt(s: System, now: int): set<Firing> {
    set n | n in s.next && n !in s.removed && s.next[n] <= now :: (n, s.next[n])
  }

  function Others(pending: set<Firing>, name: Name): set<Firing> {
    set f | f in pending && f.0 != name
  }

  function Apply(cron: Cron, s: System, a: Action): System {
    match a
    case Register(name, first) => s.(next := s.next[name := first], removed := s.removed - {name})
    case Unregister(name) => if name in s.next then s.(removed := s.removed + {name}) else s
    case Snapshot(p, time, explicit) =>
      s.(workers := s.workers[p := Worker(DueAt(s, time), time, explicit, Free)],
         clock := if explicit then s.clock else time)
    case Claim(p, firing) =>
      var w := WorkerOf(s, p);
      var w' := w.(pending := Others(w.pending, firing.0));
      if firing in s.claims then s.(workers := s.workers[p := w'])
      else s.(claims := s.claims + {firing}, workers := s.workers[p := w'.(phase := Claimed(firing))])
    case Dispatch(p, raises) =>
      var w := WorkerOf(s, p);
      if w.phase.Claimed? then
        s.(log := s.log + [Entry(w.phase.firing, TimeOf(s, w))],
           workers := s.workers[p := if raises then w.(pending := {}, phase := Free)
                                     else w.(phase := Dispatched(w.phase.firing))])
      else s
    case Mark(p, time) =>
      var w := WorkerOf(s, p);
      if w.phase.Dispatched? then
        var name := w.phase.firing.0;
        s.(next := if name in s.next && name !in s.removed then s.next[name := cron(name, time)] else s.next,
           workers := s.workers[p := w.(phase := Free)],
           clock := if w.explicit then s.clock else time)
      else s
    case MarkRaises(p) =>
      var w := WorkerOf(s, p);
      if w.phase.Dispatched? then s.(workers := s.workers[p := w.(pending := {}, phase := Free)]) else s
    case Crash(p) => s.(workers := s.workers - {p})
  }

  function After(cron: Cron, s: System, run: seq<Action>): System
    decreases |run|
  {
    if run == [] then s else After(cron, Apply(cron, s, run[0]), run[1..])
  }

  function Initial(next: map<Name, int>, clock: int): System {
    System(next, {}, {}, [], map[], clock)
  }

  // ----- At most once -----

  /**
   A process claims only between two dispatches. The firing it names may be any: it is what
   next_run says when read.
   */
  predicate Possible(s: System, a: Action) {
    a.Claim? ==> WorkerOf(s, a.p).phase.Free?
  }

  ghost predicate IsPossible(cron: Cron, s: System, run: seq<Action>)
    decreases |run|
  {
    run == [] || (Possible(s, run[0]) && IsPossible(cron, Apply(cron, s, run[0]), run[1..]))
  }

  ghost predicate NoRepeats(log: seq<Entry>) {
    forall i, j :: 0 <= i < j < |log| ==> log[i].firing != log[j].firing
  }

  /** A claim that has been won and not yet been dispatched belongs to one process only. */
  ghost predicate ClaimsHeld(s: System) {
    LogClaimed(s) && HeldClaimed(s) && HeldUnlogged(s) && SoleClaims(s) && NoRepeats(s.log)
  }

  ghost predicate LogClaimed(s: System) {
    forall i {:trigger s.log[i]} :: 0 <= i < |s.log| ==> s.log[i].firing in s.claims
  }

  ghost predicate HeldClaimed(s: System) {
    forall p {:trigger s.workers[p]} :: p in s.workers && s.workers[p].phase.Claimed? ==>
      s.workers[p].phase.firing in s.claims
  }

  ghost predicate HeldUnlogged(s: System) {
    forall p, i {:trigger s.workers[p], s.log[i]} ::
      p in s.workers && s.workers[p].phase.Claimed? && 0 <= i < |s.log| ==>
        s.log[i].firing != s.workers[p].phase.firing
  }

  ghost predicate SoleClaims(s: System) {
    forall p, q {:trigger s.workers[p], s.workers[q]} ::
      p in s.workers && q in s.workers && p != q
      && s.workers[p].phase.Claimed? && s.workers[q].phase.Claimed? ==>
        s.workers[p].phase.firing != s.workers[q].phase.firing
  }

  lemma StepKeepsSoleClaims(cron: Cron, s: System, a: Action)
    requires HeldClaimed(s) && SoleClaims(s) && Possible(s, a)
    ensures SoleClaims(Apply(cron, s, a))
  {
  }

  lemma StepKeepsUnlogged(cron: Cron, s: System, a: Action)
    requires LogClaimed(s) && HeldUnlogged(s) && SoleClaims(s) && Possible(s, a)
    ensures HeldUnlogged(Apply(cron, s, a))
  {
  }

  lemma StepKeepsClaims(cron: Cron, s: System, a: Action)
    requires ClaimsHeld(s) && Possible(s, a)
    ensures ClaimsHeld(Apply(cron, s, a))
  {
    hide SoleClaims;
    StepKeepsSoleClaims(cron, s, a);
    StepKeepsUnlogged(cron, s, a);
  }

  lemma {:induction false} RunsKeepClaims(cron: Cron, s: System, run: seq<Action>)
    requires ClaimsHeld(s) && IsPossible(cron, s, run)
    ensures ClaimsHeld(After(cron, s, run))
    decreases |run|
  {
    if run != [] {
      StepKeepsClaims(cron, s, run[0]);
      RunsKeepClaims(cron, Apply(cron, s, run[0]), run[1..]);
    }
  }

  /**
   Whatever the processes do, in whatever order, with snapshots however stale, and even
   with schedules registered, removed and registered again under their feet: no firing is
   dispatched twice.
   */
  lemma AtMostOnce(cron: Cron, next: map<Name, int>, clock: int, run: seq<Action>)
    requires IsPossible(cron, Initial(next, clock), run)
    ensures NoRepeats(After(cron, Initial(next, clock), run).log)
  {
    RunsKeepClaims(cron, Initial(next, clock), run);
  }

  // ----- Ticks -----

  /** The database store hands out copies of its schedules, the in-memory store the objects themselves. */
  datatype Store = Copies | Shared

  ghost predicate Awaits(w: Worker, name: Name) {
    exists f :: f in w.pending && f.0 == name
  }

  /**
   One step, where names are not used a second time: schedules come and go, ticks go on,
   fail, or die with their process. A claim reads next_run from the snapshot's copy, or from
   the shared object as it is now. Explicit times may be any, however stale; the clock does
   not run backwards.
   */
  ghost predicate Step(store: Store, s: System, a: Action) {
    match a
    case Register(name, _) => name !in s.next && name !in s.removed
    case Unregister(_) => true
    case Snapshot(p, time, explicit) => WorkerOf(s, p).phase.Free? && (explicit || time >= s.clock)
    case Claim(p, firing) =>
      && WorkerOf(s, p).phase.Free?
      && (if store.Copies? then firing in WorkerOf(s, p).pending
          else Awaits(WorkerOf(s, p), firing.0) && firing.0 in s.next && firing.1 == s.next[firing.0])
    case Dispatch(_, _) => true
    case Mark(p, time) => time >= TimeOf(s, WorkerOf(s, p))
    case MarkRaises(_) => true
    case Crash(_) => true
  }

  ghost predicate IsRun(cron: Cron, store: Store, s: System, run: seq<Action>)
    decreases |run|
  {
    run == [] || (Step(store, s, run[0]) && IsRun(cron, store, Apply(cron, s, run[0]), run[1..]))
  }

  predicate Granted(s: System, a: Action) {
    a.Claim? && a.firing !in s.claims
  }

  /** The check a caller could make before it claims: the fire time just read has come. */
  predicate InTime(s: System, a: Action) {
    Granted(s, a) ==> a.firing.1 <= TimeOf(s, WorkerOf(s, a.p))
  }

  ghost predicate AllInTime(cron: Cron, s: System, run: seq<Action>)
    decreases |run|
  {
    run == [] || (InTime(s, run[0]) && AllInTime(cron, Apply(cron, s, run[0]), run[1..]))
  }

  /** An entry of a copied snapshot is the next firing of its schedule, or one claimed already. */
  ghost predicate PendingSeen(s: System, w: Worker, f: Firing) {
    f.0 in s.next && (f in s.claims || f.1 == s.next[f.0]) && f.1 <= w.takenAt
  }

  /** What a process has claimed and not yet marked is the next firing of its schedule, and is due. */
  ghost predicate Handling(s: System, w: Worker) {
    && (w.explicit || w.takenAt <= s.clock)
    && (w.phase.Free? ||
        (w.phase.firing in s.claims && w.phase.firing.0 in s.next
         && s.next[w.phase.firing.0] == w.phase.firing.1 <= TimeOf(s, w)))
  }

  predicate Holds(w: Worker, name: Name) {
    !w.phase.Free? && w.phase.firing.0 == name
  }

  ghost predicate SameSchedule(v: Worker, w: Worker) {
    !v.phase.Free? && !w.phase.Free? && v.phase.firing.0 == w.phase.firing.0
  }

  /**
   Snapshots that are copies are no older than the claims, what is claimed and not yet marked
   is the next firing of its schedule, in the hands of one process, and no claim is ahead of
   next_run.
   */
  ghost predicate Orderly(store: Store, s: System) {
    (store.Copies? ==> AllSeen(s)) && AllHandling(s) && SoleHolders(s) && ClaimsBehind(s)
  }

  ghost predicate AllSeen(s: System) {
    forall p, f {:trigger f in s.workers[p].pending} ::
      p in s.workers && f in s.workers[p].pending ==> PendingSeen(s, s.workers[p], f)
  }

  ghost predicate AllHandling(s: System) {
    forall p {:trigger s.workers[p]} :: p in s.workers ==> Handling(s, s.workers[p])
  }

  ghost predicate SoleHolders(s: System) {
    forall p, q {:trigger s.workers[p], s.workers[q]} ::
      p in s.workers && q in s.workers && SameSchedule(s.workers[p], s.workers[q]) ==> p == q
  }

  ghost predicate ClaimsBehind(s: System) {
    forall f {:trigger f in s.claims} :: f in s.claims ==> f.0 in s.next && f.1 <= s.next[f.0]
  }

  lemma StepKeepsSeen(cron: Cron, s: System, a: Action)
    requires Forward(cron) && AllSeen(s) && AllHandling(s) && Step(Copies, s, a)
    ensures AllSeen(Apply(cron, s, a))
  {
  }

  lemma StepKeepsHandling(cron: Cron, store: Store, s: System, a: Action)
    requires Forward(cron) && Orderly(store, s) && Step(store, s, a) && InTime(s, a)
    ensures AllHandling(Apply(cron, s, a))
  {
  }

  lemma StepKeepsHolders(cron: Cron, store: Store, s: System, a: Action)
    requires Orderly(store, s) && Step(store, s, a)
    ensures SoleHolders(Apply(cron, s, a))
  {
  }

  lemma StepKeepsBehind(cron: Cron, store: Store, s: System, a: Action)
    requires Forward(cron) && Orderly(store, s) && Step(store, s, a)
    ensures ClaimsBehind(Apply(cron, s, a))
  {
    hide SoleHolders;
  }

  lemma StepKeepsOrder(cron: Cron, store: Store, s: System, a: Action)
    requires Forward(cron) && Orderly(store, s) && Step(store, s, a) && InTime(s, a)
    ensures Orderly(store, Apply(cron, s, a))
  {
    hide AllSeen, AllHandling, SoleHolders, ClaimsBehind;
    if store.Copies? {
      StepKeepsSeen(cron, s, a);
    }
    StepKeepsHandling(cron, store, s, a);
    StepKeepsHolders(cron, store, s, a);
    StepKeepsBehind(cron, store, s, a);
  }

  /** Claims read from copies are always in time. */
  lemma CopiesAreInTime(s: System, a: Action)
    requires Orderly(Copies, s) && Step(Copies, s, a)
    ensures InTime(s, a)
  {
    if Granted(s, a) {
      assert a.firing in s.workers[a.p].pending && Handling(s, s.workers[a.p]);
    }
  }

  lemma {:induction false} CopiedRunsAreInTime(cron: Cron, s: System, run: seq<Action>)
    requires Forward(cron) && Orderly(Copies, s) && IsRun(cron, Copies, s, run)
    ensures AllInTime(cron, s, run)
    decreases |run|
  {
    if run != [] {
      CopiesAreInTime(s, run[0]);
      StepKeepsOrder(cron, Copies, s, run[0]);
      CopiedRunsAreInTime(cron, Apply(cron, s, run[0]), run[1..]);
    }
  }

  lemma {:induction false} RunsKeepOrder(cron: Cron, store: Store, s: System, run: seq<Action>)
    requires Forward(cron) && Orderly(store, s) && IsRun(cron, store, s, run) && AllInTime(cron, s, run)
    ensures Orderly(store, After(cron, s, run))
    decreases |run|
  {
    if run != [] {
      StepKeepsOrder(cron, store, s, run[0]);
      RunsKeepOrder(cron, store, Apply(cron, s, run[0]), run[1..]);
    }
  }

  lemma StartsOrderly(store: Store, next: map<Name, int>, clock: int)
    ensures var s := Initial(next, clock);
            Orderly(store, s) && ClaimsHeld(s) && LogAscends(s) && DispatchesLogged(s)
  {
  }

  // ----- next_run -----

  /** The step advances the schedule of this name. */
  predicate Advances(s: System, a: Action, name: Name) {
    && a.Mark? && WorkerOf(s, a.p).phase.Dispatched? && WorkerOf(s, a.p).phase.firing.0 == name
    && name !in s.removed
  }

  /** next_run only changes when the schedule is marked, and then it grows beyond the time of the mark. */
  lemma NextRunMoves(cron: Cron, store: Store, s: System, a: Action, name: Name)
    requires Forward(cron) && Orderly(store, s) && Step(store, s, a) && name in s.next
    ensures name in Apply(cron, s, a).next
    ensures if Advances(s, a, name)
            then Apply(cron, s, a).next[name] > a.time >= s.next[name]
            else Apply(cron, s, a).next[name] == s.next[name]
  {
    if Advances(s, a, name) {
      assert Handling(s, s.workers[a.p]);
      assert cron(name, a.time) > a.time;
    }
  }

  /** How many times a run advances a schedule. */
  ghost function Advancements(cron: Cron, s: System, run: seq<Action>, name: Name): nat
    decreases |run|
  {
    if run == [] then 0
    else (if Advances(s, run[0], name) then 1 else 0) + Advancements(cron, Apply(cron, s, run[0]), run[1..], name)
  }

  /** Over a whole run next_run grows strictly with every mark, and with nothing else. */
  lemma {:induction false} NextRunIncreases(cron: Cron, store: Store, s: System, run: seq<Action>, name: Name)
    requires Forward(cron) && Orderly(store, s) && name in s.next
    requires IsRun(cron, store, s, run) && AllInTime(cron, s, run)
    ensures name in After(cron, s, run).next
    ensures After(cron, s, run).next[name] >= s.next[name] + Advancements(cron, s, run, name)
    ensures Advancements(cron, s, run, name) == 0 ==> After(cron, s, run).next[name] == s.next[name]
    decreases |run|
  {
    if run != [] {
      NextRunMoves(cron, store, s, run[0], name);
      StepKeepsOrder(cron, store, s, run[0]);
      NextRunIncreases(cron, store, Apply(cron, s, run[0]), run[1..], name);
    }
  }

  /** A schedule that has just been marked is not due at the time of the mark, nor at any time before. */
  lemma MarkedIsNotDue(cron: Cron, store: Store, s: System, a: Action, name: Name, now: int)
    requires Forward(cron) && Orderly(store, s) && Step(store, s, a) && Advances(s, a, name) && now <= a.time
    ensures forall f :: f in DueAt(Apply(cron, s, a), now) ==> f.0 != name
  {
    assert Handling(s, s.workers[a.p]);
    NextRunMoves(cron, store, s, a, name);
  }

  /** f is a fire time of the schedule: the next fire time after an earlier base is never later than f. */
  ghost predicate FiresAt(cron: Cron, name: Name, f: int) {
    forall t {:trigger cron(name, t)} :: t < f ==> cron(name, t) <= f
  }

  /** Marking a firing of the schedule advances next_run exactly when its time has come by then. */
  lemma MarkGrowsIff(cron: Cron, s: System, p: Process, time: int)
    requires Forward(cron) && p in s.workers && s.workers[p].phase.Dispatched?
    requires var f := s.workers[p].phase.firing;
             f.0 in s.next && f.0 !in s.removed && s.next[f.0] == f.1 && FiresAt(cron, f.0, f.1)
    ensures var f := s.workers[p].phase.firing;
            Apply(cron, s, Mark(p, time)).next[f.0] > f.1 <==> f.1 <= time
  {
    assert cron(s.workers[p].phase.firing.0, time) > time;
  }

  // ----- The order of dispatches -----

  /** Firings of one schedule are dispatched in the order of their times, and none before its time. */
  ghost predicate LogAscends(s: System) {
    && (forall i, j {:trigger s.log[i], s.log[j]} ::
          0 <= i < j < |s.log| && s.log[i].firing.0 == s.log[j].firing.0 ==> s.log[i].firing.1 < s.log[j].firing.1)
    && (forall i {:trigger s.log[i]} :: 0 <= i < |s.log| ==> s.log[i].firing.1 <= s.log[i].now)
  }

  lemma StepKeepsAscending(cron: Cron, store: Store, s: System, a: Action)
    requires Forward(cron) && Orderly(store, s) && ClaimsHeld(s) && LogAscends(s) && Step(store, s, a)
    ensures LogAscends(Apply(cron, s, a))
  {
    if a.Dispatch? && WorkerOf(s, a.p).phase.Claimed? {
      var f := WorkerOf(s, a.p).phase.firing;
      assert Handling(s, s.workers[a.p]);
      forall i | 0 <= i < |s.log| && s.log[i].firing.0 == f.0 ensures s.log[i].firing.1 < f.1 {
        assert s.log[i].firing in s.claims;
      }
    }
  }

  lemma {:induction false} DispatchedInOrder(cron: Cron, store: Store, s: System, run: seq<Action>)
    requires Forward(cron) && Orderly(store, s) && ClaimsHeld(s) && LogAscends(s)
    requires IsRun(cron, store, s, run) && AllInTime(cron, s, run)
    ensures LogAscends(After(cron, s, run))
    decreases |run|
  {
    if run != [] {
      StepKeepsOrder(cron, store, s, run[0]);
      StepKeepsClaims(cron, s, run[0]);
      StepKeepsAscending(cron, store, s, run[0]);
      DispatchedInOrder(cron, store, Apply(cron, s, run[0]), run[1..]);
    }
  }

  /**
   With copied snapshots every run dispatches in order, each firing in its time, and every
   claim in flight is current.
   */
  lemma FiringsInOrder(cron: Cron, next: map<Name, int>, clock: int, run: seq<Action>)
    requires Forward(cron) && IsRun(cron, Copies, Initial(next, clock), run)
    ensures LogAscends(After(cron, Initial(next, clock), run))
    ensures Orderly(Copies, After(cron, Initial(next, clock), run))
  {
    StartsOrderly(Copies, next, clock);
    CopiedRunsAreInTime(cron, Initial(next, clock), run);
    DispatchedInOrder(cron, Copies, Initial(next, clock), run);
    RunsKeepOrder(cron, Copies, Initial(next, clock), run);
  }

  /** A won claim, dispatched at once, keeps the order exactly when its fire time has come. */
  lemma InOrderIffInTime(cron: Cron, store: Store, s: System, a: Action, raises: bool)
    requires Orderly(store, s) && ClaimsHeld(s) && LogAscends(s) && Step(store, s, a) && Granted(s, a)
    ensures LogAscends(Apply(cron, Apply(cron, s, a), Dispatch(a.p, raises))) <==> InTime(s, a)
  {
    var t := Apply(cron, Apply(cron, s, a), Dispatch(a.p, raises));
    assert t.log == s.log + [Entry(a.firing, TimeOf(s, WorkerOf(s, a.p)))];
    if store.Copies? {
      assert a.firing in s.workers[a.p].pending;
    }
    forall i | 0 <= i < |s.log| && s.log[i].firing.0 == a.firing.0 ensures s.log[i].firing.1 < a.firing.1 {
      assert s.log[i].firing in s.claims;
    }
    assert t.log[|s.log|] == Entry(a.firing, TimeOf(s, WorkerOf(s, a.p)));
  }

  /** Each won claim of the run, dispatched at once, keeps the order. */
  ghost predicate AllInOrder(cron: Cron, s: System, run: seq<Action>)
    decreases |run|
  {
    run == [] ||
    ((Granted(s, run[0]) ==> LogAscends(Apply(cron, Apply(cron, s, run[0]), Dispatch(run[0].p, false))))
     && AllInOrder(cron, Apply(cron, s, run[0]), run[1..]))
  }

  /**
   Whatever the store: the claims of a run are all in order exactly when each of them read
   a fire time that had come. So with shared objects one more look at next_run is enough.
   */
  lemma {:induction false} OrderIffInTime(cron: Cron, store: Store, s: System, run: seq<Action>)
    requires Forward(cron) && Orderly(store, s) && ClaimsHeld(s) && LogAscends(s) && IsRun(cron, store, s, run)
    ensures AllInOrder(cron, s, run) <==> AllInTime(cron, s, run)
    decreases |run|
  {
    if run != [] {
      if Granted(s, run[0]) {
        InOrderIffInTime(cron, store, s, run[0], false);
      }
      if InTime(s, run[0]) {
        StepKeepsOrder(cron, store, s, run[0]);
        StepKeepsClaims(cron, s, run[0]);
        StepKeepsAscending(cron, store, s, run[0]);
        OrderIffInTime(cron, store, Apply(cron, s, run[0]), run[1..]);
      }
    }
  }

  /** With shared objects: all claims in order iff all in time, and then the whole run is in order and orderly. */
  lemma SharedFiringsInOrder(cron: Cron, next: map<Name, int>, clock: int, run: seq<Action>)
    requires Forward(cron) && IsRun(cron, Shared, Initial(next, clock), run)
    ensures AllInOrder(cron, Initial(next, clock), run) <==> AllInTime(cron, Initial(next, clock), run)
    ensures AllInTime(cron, Initial(next, clock), run) ==>
              && LogAscends(After(cron, Initial(next, clock), run))
              && Orderly(Shared, After(cron, Initial(next, clock), run))
  {
    StartsOrderly(Shared, next, clock);
    OrderIffInTime(cron, Shared, Initial(next, clock), run);
    if AllInTime(cron, Initial(next, clock), run) {
      DispatchedInOrder(cron, Shared, Initial(next, clock), run);
      RunsKeepOrder(cron, Shared, Initial(next, clock), run);
    }
  }

  // ----- Exactly once -----

  ghost predicate Logged(log: seq<Entry>, f: Firing) {
    exists i :: 0 <= i < |log| && log[i].firing == f
  }

  ghost predicate LoggedOnce(log: seq<Entry>, f: Firing) {
    exists i :: 0 <= i < |log| && log[i].firing == f && forall j :: 0 <= j < |log| && log[j].firing == f ==> j == i
  }

  /** What a process is about to mark has been dispatched. */
  ghost predicate DispatchesLogged(s: System) {
    forall p {:trigger s.workers[p]} :: p in s.workers && s.workers[p].phase.Dispatched? ==>
      Logged(s.log, s.workers[p].phase.firing)
  }

  /** No action takes anything out of the log. */
  lemma LogGrows(cron: Cron, s: System, a: Action, f: Firing)
    ensures Logged(s.log, f) ==> Logged(Apply(cron, s, a).log, f)
  {
    if Logged(s.log, f) {
      var i :| 0 <= i < |s.log| && s.log[i].firing == f;
      assert Apply(cron, s, a).log[i].firing == f;
    }
  }

  lemma StepKeepsLogged(cron: Cron, s: System, a: Action)
    requires DispatchesLogged(s)
    ensures DispatchesLogged(Apply(cron, s, a))
  {
    var t := Apply(cron, s, a);
    forall p | p in t.workers && t.workers[p].phase.Dispatched? ensures Logged(t.log, t.workers[p].phase.firing) {
      var f := t.workers[p].phase.firing;
      LogGrows(cron, s, a, f);
      if a.Dispatch? && a.p == p && WorkerOf(s, p).phase.Claimed? {
        assert t.log[|s.log|].firing == f;
      } else {
        assert s.workers[p].phase.Dispatched?;
      }
    }
  }

  /** The fire time that next_run moves past in this step, if there is one. */
  ghost function Past(s: System, a: Action): set<Firing> {
    set n | n in s.next && Advances(s, a, n) :: (n, s.next[n])
  }

  /** All fire times that next_run moves past in a run. */
  ghost function Passed(cron: Cron, s: System, run: seq<Action>): set<Firing>
    decreases |run|
  {
    if run == [] then {} else Past(s, run[0]) + Passed(cron, Apply(cron, s, run[0]), run[1..])
  }

  /** The next firing of its schedule. */
  predicate Current(s: System, f: Firing) {
    f.0 in s.next && s.next[f.0] == f.1
  }

  lemma {:induction false} PassedAreLogged(cron: Cron, store: Store, s: System, run: seq<Action>, f: Firing)
    requires Forward(cron) && Orderly(store, s) && DispatchesLogged(s)
    requires IsRun(cron, store, s, run) && AllInTime(cron, s, run)
    requires Logged(s.log, f) || f in Passed(cron, s, run)
    ensures Logged(After(cron, s, run).log, f)
    decreases |run|
  {
    if run != [] {
      if f in Past(s, run[0]) {
        assert Handling(s, s.workers[run[0].p]) && s.workers[run[0].p].phase.firing == f;
      }
      LogGrows(cron, s, run[0], f);
      StepKeepsOrder(cron, store, s, run[0]);
      StepKeepsLogged(cron, s, run[0]);
      PassedAreLogged(cron, store, Apply(cron, s, run[0]), run[1..], f);
    }
  }

  /** A logged firing is one that next_run has moved past, or the next one. */
  ghost predicate LoggedWithin(s: System, past: set<Firing>) {
    forall f {:trigger Logged(s.log, f)} :: Logged(s.log, f) ==> f in past || Current(s, f)
  }

  lemma StepKeepsWithin(cron: Cron, store: Store, s: System, a: Action, past: set<Firing>)
    requires Forward(cron) && Orderly(store, s) && Step(store, s, a) && LoggedWithin(s, past)
    ensures LoggedWithin(Apply(cron, s, a), past + Past(s, a))
  {
    var t := Apply(cron, s, a);
    forall f | Logged(t.log, f) ensures f in past + Past(s, a) || Current(t, f) {
      if Logged(s.log, f) {
        if Current(s, f) {
          NextRunMoves(cron, store, s, a, f.0);
        }
      } else {
        var i :| 0 <= i < |t.log| && t.log[i].firing == f;
        assert i < |s.log| ==> s.log[i].firing == f;
        assert Handling(s, s.workers[a.p]);
      }
    }
  }

  lemma {:induction false} LoggedArePassed(
    cron: Cron, store: Store, s: System, run: seq<Action>, past: set<Firing>)
    requires Forward(cron) && Orderly(store, s) && LoggedWithin(s, past)
    requires IsRun(cron, store, s, run) && AllInTime(cron, s, run)
    ensures LoggedWithin(After(cron, s, run), past + Passed(cron, s, run))
    decreases |run|
  {
    if run == [] {
      assert past + Passed(cron, s, run) == past;
    } else {
      StepKeepsOrder(cron, store, s, run[0]);
      StepKeepsWithin(cron, store, s, run[0], past);
      LoggedArePassed(cron, store, Apply(cron, s, run[0]), run[1..], past + Past(s, run[0]));
      assert past + Passed(cron, s, run)
          == past + Past(s, run[0]) + Passed(cron, Apply(cron, s, run[0]), run[1..]);
    }
  }

  /**
   Every fire time that next_run has moved past was dispatched exactly once, and nothing else
   was dispatched but, it may be, the next firing of a schedule: with copied snapshots always,
   with shared objects if every claim is in time.
   */
  lemma ExactlyOnce(cron: Cron, store: Store, next: map<Name, int>, clock: int, run: seq<Action>, f: Firing)
    requires Forward(cron) && IsRun(cron, store, Initial(next, clock), run)
    requires store.Shared? ==> AllInTime(cron, Initial(next, clock), run)
    ensures var s' := After(cron, Initial(next, clock), run);
            && (f in Passed(cron, Initial(next, clock), run) ==> LoggedOnce(s'.log, f))
            && (Logged(s'.log, f) ==> f in Passed(cron, Initial(next, clock), run) || Current(s', f))
  {
    var s := Initial(next, clock);
    var s' := After(cron, s, run);
    StartsOrderly(store, next, clock);
    if store.Copies? {
      CopiedRunsAreInTime(cron, s, run);
    }
    RunIsPossible(cron, store, s, run);
    AtMostOnce(cron, next, clock, run);
    LoggedArePassed(cron, store, s, run, {});
    assert {} + Passed(cron, s, run) == Passed(cron, s, run);
    if f in Passed(cron, s, run) {
      PassedAreLogged(cron, store, s, run, f);
      var i :| 0 <= i < |s'.log| && s'.log[i].firing == f;
      forall j | 0 <= j < |s'.log| && s'.log[j].firing == f ensures j == i {
        assert NoRepeats(s'.log);
      }
    }
  }

  lemma {:induction false} RunIsPossible(cron: Cron, store: Store, s: System, run: seq<Action>)
    requires IsRun(cron, store, s, run)
    ensures IsPossible(cron, s, run)
    decreases |run|
  {
    if run != [] {
      RunIsPossible(cron, store, Apply(cron, s, run[0]), run[1..]);
    }
  }

  // ----- Stuck schedules -----

  /** The next firing is claimed, and nobody is going to dispatch it or to mark the schedule. */
  ghost predicate Stuck(s: System, name: Name) {
    && name in s.next && (name, s.next[name]) in s.claims
    && (forall p {:trigger s.workers[p]} :: p in s.workers ==> !Holds(s.workers[p], name))
  }

  /** The tick that holds the schedule ends here: its dispatch or its mark raises, or its process dies. */
  predicate Drops(s: System, a: Action, name: Name) {
    && (a.Dispatch? || a.MarkRaises? || a.Crash?) && Holds(WorkerOf(s, a.p), name)
    && (a.Dispatch? ==> a.raises && WorkerOf(s, a.p).phase.Claimed?)
    && (a.MarkRaises? ==> WorkerOf(s, a.p).phase.Dispatched?)
  }

  /** Then the schedule is stuck. */
  lemma DroppingGetsStuck(cron: Cron, store: Store, s: System, a: Action, name: Name)
    requires Orderly(store, s) && Drops(s, a, name)
    ensures Stuck(Apply(cron, s, a), name)
  {
    assert Handling(s, s.workers[a.p]);
    var s' := Apply(cron, s, a);
    forall q | q in s'.workers ensures !Holds(s'.workers[q], name) {
      assert q == a.p || s'.workers[q] == s.workers[q];
    }
  }

  /** No entry of the log from index k on is about this schedule. */
  ghost predicate SilentSince(log: seq<Entry>, k: nat, name: Name) {
    forall i {:trigger log[i]} :: k <= i < |log| ==> log[i].firing.0 != name
  }

  lemma StepStaysStuck(cron: Cron, store: Store, s: System, a: Action, name: Name)
    requires Stuck(s, name) && Step(store, s, a) && (store.Copies? ==> Orderly(Copies, s))
    ensures Stuck(Apply(cron, s, a), name) && Apply(cron, s, a).next[name] == s.next[name]
    ensures s.log <= Apply(cron, s, a).log && SilentSince(Apply(cron, s, a).log, |s.log|, name)
  {
    if a.Claim? && store.Copies? {
      assert a.firing in s.workers[a.p].pending;
    }
  }

  /** A stuck schedule stays due for ever and is never dispatched again, unless it is registered anew. */
  lemma {:induction false} StuckForever(cron: Cron, store: Store, s: System, run: seq<Action>, name: Name, k: nat)
    requires Forward(cron) && Stuck(s, name) && IsRun(cron, store, s, run) && (store.Copies? ==> Orderly(Copies, s))
    requires k <= |s.log| && SilentSince(s.log, k, name)
    ensures var s' := After(cron, s, run);
            Stuck(s', name) && s'.next[name] == s.next[name] && |s'.log| >= |s.log| && SilentSince(s'.log, k, name)
    decreases |run|
  {
    if run != [] {
      StepStaysStuck(cron, store, s, run[0], name);
      var t := Apply(cron, s, run[0]);
      forall i {:trigger t.log[i]} | k <= i < |t.log| ensures t.log[i].firing.0 != name {
        if i < |s.log| {
          assert t.log[i] == s.log[i];
        }
      }
      if store.Copies? {
        CopiesAreInTime(s, run[0]);
        StepKeepsOrder(cron, Copies, s, run[0]);
      }
      StuckForever(cron, store, t, run[1..], name, k);
    }
  }

  /** If the schedule is stored and its next firing is claimed, then a process has it in its hands. */
  ghost predicate Tended(s: System, name: Name) {
    name in s.next && name !in s.removed && (name, s.next[name]) in s.claims ==> Held(s, name)
  }

  ghost predicate Held(s: System, name: Name) {
    exists p :: p in s.workers && Holds(s.workers[p], name)
  }

  lemma HeldStays(cron: Cron, s: System, a: Action, name: Name, store: Store)
    requires Held(s, name) && Step(store, s, a) && name !in s.removed
    requires !Drops(s, a, name) && !Advances(s, a, name)
    ensures Held(Apply(cron, s, a), name)
  {
    var p :| p in s.workers && Holds(s.workers[p], name);
    var t := Apply(cron, s, a);
    assert p in t.workers && Holds(t.workers[p], name);
  }

  lemma StepKeepsTended(cron: Cron, store: Store, s: System, a: Action, name: Name)
    requires Forward(cron) && Orderly(store, s) && Step(store, s, a) && Tended(s, name) && !Drops(s, a, name)
    ensures Tended(Apply(cron, s, a), name)
  {
    var t := Apply(cron, s, a);
    if name in t.next && name !in t.removed && (name, t.next[name]) in t.claims {
      if name in s.next {
        NextRunMoves(cron, store, s, a, name);
        if (name, s.next[name]) in s.claims {
          HeldStays(cron, s, a, name, store);
        } else {
          assert a.Claim? && a.firing.0 == name;
          assert Holds(t.workers[a.p], name);
        }
      }
    }
  }

  /** Some step of the run drops the schedule. */
  ghost predicate RunDrops(cron: Cron, s: System, run: seq<Action>, name: Name)
    decreases |run|
  {
    run != [] && (Drops(s, run[0], name) || RunDrops(cron, Apply(cron, s, run[0]), run[1..], name))
  }

  lemma {:induction false} StuckIffDroppedFrom(cron: Cron, store: Store, s: System, run: seq<Action>, name: Name)
    requires Forward(cron) && Orderly(store, s) && Tended(s, name)
    requires IsRun(cron, store, s, run) && AllInTime(cron, s, run)
    requires name !in After(cron, s, run).removed
    ensures Stuck(After(cron, s, run), name) <==> RunDrops(cron, s, run, name)
    decreases |run|
  {
    if run != [] {
      var t := Apply(cron, s, run[0]);
      StepKeepsOrder(cron, store, s, run[0]);
      if Drops(s, run[0], name) {
        DroppingGetsStuck(cron, store, s, run[0], name);
        StuckForever(cron, store, t, run[1..], name, |t.log|);
      } else {
        StepKeepsTended(cron, store, s, run[0], name);
        StuckIffDroppedFrom(cron, store, t, run[1..], name);
      }
    }
  }

  /**
   A schedule that is still registered is stuck after a run exactly when some tick dropped
   it between its claim and its mark: with copied snapshots always, with shared objects if
   every claim is in time.
   */
  lemma StuckIffDropped(cron: Cron, store: Store, next: map<Name, int>, clock: int, run: seq<Action>, name: Name)
    requires Forward(cron) && IsRun(cron, store, Initial(next, clock), run)
    requires store.Shared? ==> AllInTime(cron, Initial(next, clock), run)
    requires name !in After(cron, Initial(next, clock), run).removed
    ensures Stuck(After(cron, Initial(next, clock), run), name) <==> RunDrops(cron, Initial(next, clock), run, name)
  {
    StartsOrderly(store, next, clock);
    if store.Copies? {
      CopiedRunsAreInTime(cron, Initial(next, clock), run);
    }
    StuckIffDroppedFrom(cron, store, Initial(next, clock), run, name);
  }

  // ----- Late ticks over shared objects -----

  /** One tick of one process, from the claim to the mark. */
  function Tick(p: Process, firing: Firing, time: int): seq<Action> {
    [Claim(p, firing), Dispatch(p, false), Mark(p, time)]
  }

  lemma OneMore(cron: Cron, store: Store, s: System, a: Action, rest: seq<Action>)
    requires Step(store, s, a) && IsRun(cron, store, Apply(cron, s, a), rest)
    ensures IsRun(cron, store, s, [a] + rest) && After(cron, s, [a] + rest) == After(cron, Apply(cron, s, a), rest)
  {
    assert ([a] + rest)[1..] == rest;
  }

  lemma {:induction false} RunsJoin(cron: Cron, store: Store, s: System, a: seq<Action>, b: seq<Action>)
    requires IsRun(cron, store, s, a) && IsRun(cron, store, After(cron, s, a), b)
    ensures IsRun(cron, store, s, a + b) && After(cron, s, a + b) == After(cron, After(cron, s, a), b)
    decreases |a|
  {
    if a == [] {
      assert a + b == b;
    } else {
      RunsJoin(cron, store, Apply(cron, s, a[0]), a[1..], b);
      assert (a + b)[1..] == a[1..] + b;
    }
  }

  /** What a whole tick does, if it wins its claim. */
  lemma TickFires(cron: Cron, s: System, p: Process, name: Name, time: int)
    requires p in s.workers && s.workers[p].phase.Free? && Awaits(s.workers[p], name) && time >= TimeOf(s, s.workers[p])
    requires name in s.next && name !in s.removed && (name, s.next[name]) !in s.claims
    ensures var w, run := s.workers[p], Tick(p, (name, s.next[name]), time);
            && IsRun(cron, Shared, s, run)
            && After(cron, s, run) == System(
                 s.next[name := cron(name, time)],
                 s.removed,
                 s.claims + {(name, s.next[name])},
                 s.log + [Entry((name, s.next[name]), TimeOf(s, w))],
                 s.workers[p := w.(pending := Others(w.pending, name))],
                 if w.explicit then s.clock else time)
  {
    var f := (name, s.next[name]);
    var a, b, c := Claim(p, f), Dispatch(p, false), Mark(p, time);
    var s1 := Apply(cron, s, a);
    var s2 := Apply(cron, s1, b);
    var s3 := Apply(cron, s2, c);
    OneMore(cron, Shared, s2, c, []);
    OneMore(cron, Shared, s1, b, [c] + []);
    OneMore(cron, Shared, s, a, [b] + ([c] + []));
    assert [a] + ([b] + ([c] + [])) == Tick(p, f, time);
    assert After(cron, s, Tick(p, f, time)) == s3;
    var w := s.workers[p];
    assert s3.workers == s.workers[p := w.(pending := Others(w.pending, name))];
  }

  /**
   A late tick: with shared objects, a process that still awaits the schedule claims its
   next firing, whenever that may be. If that firing has not come by the time the tick marks,
   and no other lies in between, then it has been dispatched too early, the schedule is where
   it was, and it is stuck.
   */
  lemma LateTickGetsStuck(cron: Cron, s: System, p: Process, name: Name, time: int)
    requires p in s.workers && s.workers[p].phase.Free? && Awaits(s.workers[p], name) && time >= TimeOf(s, s.workers[p])
    requires name in s.next && name !in s.removed && (name, s.next[name]) !in s.claims && !Held(s, name)
    requires time < s.next[name] == cron(name, time)
    ensures var s' := After(cron, s, Tick(p, (name, s.next[name]), time));
            && IsRun(cron, Shared, s, Tick(p, (name, s.next[name]), time))
            && !LogAscends(s') && s'.next == s.next && Stuck(s', name)
  {
    TickFires(cron, s, p, name, time);
    var s' := After(cron, s, Tick(p, (name, s.next[name]), time));
    assert s'.log[|s.log|].firing.1 > s'.log[|s.log|].now;
    forall q | q in s'.workers ensures !Holds(s'.workers[q], name) {
      assert q == p || s'.workers[q] == s.workers[q];
    }
  }

  /** Two ticks at one time both find the schedule due. */
  lemma BothSeeItDue(cron: Cron, name: Name, p: Process, q: Process, now: int)
    requires p != q
    ensures var s, w := Initial(map[name := now], now), Worker({(name, now)}, now, false, Free);
            var snaps := [Snapshot(p, now, false), Snapshot(q, now, false)];
            IsRun(cron, Shared, s, snaps) && After(cron, s, snaps) == s.(workers := map[p := w, q := w])
  {
    var s := Initial(map[name := now], now);
    var a, b := Snapshot(p, now, false), Snapshot(q, now, false);
    assert name in s.next && s.next[name] == now;
    assert (name, s.next[name]) in DueAt(s, now);
    assert DueAt(s, now) == {(name, now)};
    var s1 := Apply(cron, s, a);
    OneMore(cron, Shared, s1, b, []);
    OneMore(cron, Shared, s, a, [b] + []);
    assert [a] + ([b] + []) == [a, b];
  }

  /**
   It happens from the start: of two ticks at one time that both saw the schedule due, the
   later one fires the following run before its time and loses it, and no continuation of
   this run ever dispatches or advances the schedule again.
   */
  lemma SharedReadsFireEarly(cron: Cron, name: Name, p: Process, q: Process, now: int, more: seq<Action>)
    requires Forward(cron) && p != q
    ensures var s := Initial(map[name := now], now);
            var run := [Snapshot(p, now, false), Snapshot(q, now, false)]
                       + (Tick(p, (name, now), now) + Tick(q, (name, cron(name, now)), now));
            var s' := After(cron, s, run);
            && IsRun(cron, Shared, s, run)
            && s'.log == [Entry((name, now), now), Entry((name, cron(name, now)), now)] && cron(name, now) > now
            && Stuck(s', name)
            && (IsRun(cron, Shared, s', more) ==>
                  var s'' := After(cron, s', more);
                  Stuck(s'', name) && s''.next[name] == cron(name, now) && SilentSince(s''.log, 2, name))
  {
    var s := Initial(map[name := now], now);
    var snaps := [Snapshot(p, now, false), Snapshot(q, now, false)];
    var s2 := After(cron, s, snaps);
    BothSeeItDue(cron, name, p, q, now);
    TickFires(cron, s2, p, name, now);
    var first := Tick(p, (name, now), now);
    var s3 := After(cron, s2, first);
    TickFires(cron, s3, q, name, now);
    assert !Held(s3, name);
    LateTickGetsStuck(cron, s3, q, name, now);
    var second := Tick(q, (name, cron(name, now)), now);
    RunsJoin(cron, Shared, s2, first, second);
    RunsJoin(cron, Shared, s, snaps, first + second);
    var s' := After(cron, s3, second);
    if IsRun(cron, Shared, s', more) {
      StuckForever(cron, Shared, s', more, name, 2);
    }
  }
}

/**
 scheduler.WorkflowScheduler over the in-memory stores, one process at a time. What happens
 between processes is the subject of CronProtocol.

 A schedule is an object: the store, every snapshot of the due schedules and mark_ran all
 hold the same one.
 */
module Scheduler {
  import opened Wrappers

  /** The next fire time of a cron expression after a base time. */
  type Cron = (string, int) -> int

  ghost predicate Forward(cron: Cron) {
    forall c: string, t: int {:trigger cron(c, t)} :: cron(c, t) > t
  }

  class ScheduledWorkflow {
    const name: string
    const cron: string
    const yamlDefinition: string
    var lastRun: Option<int>
    var nextRun: Option<int>
    var enabled: bool

    constructor (name: string, cron: string, yamlDefinition: string, nextRun: Option<int>)
      ensures this.name == name && this.cron == cron && this.yamlDefinition == yamlDefinition
      ensures this.nextRun == nextRun && lastRun == None && enabled
    {
      this.name := name;
      this.cron := cron;
      this.yamlDefinition := yamlDefinition;
      this.nextRun := nextRun;
      lastRun := None;
      enabled := true;
    }

    predicate DueAt(now: int)
      reads this
    {
      enabled && nextRun.Some? && nextRun.value <= now
    }

    function Read(): Seen
      reads this
    {
      Seen(lastRun, nextRun, enabled)
    }
  }

  /** The fields of a schedule at some moment. */
  datatype Seen = Seen(lastRun: Option<int>, nextRun: Option<int>, enabled: bool) {
    predicate WasDue(now: int) {
      enabled && nextRun.Some? && nextRun.value <= now
    }
  }

  type LookMap = map<ScheduledWorkflow, Seen>

  class InMemoryScheduleStore {
    var records: map<string, ScheduledWorkflow>

    /** Every schedule is stored under its own name, so no object is stored twice. */
    ghost predicate Valid()
      reads this
    {
      forall n {:trigger records[n]} :: n in records ==> records[n].name == n
    }

    constructor ()
      ensures Valid() && records == map[]
    {
      records := map[];
    }

    method Put(schedule: ScheduledWorkflow)
      requires Valid()
      modifies this
      ensures Valid() && records == old(records)[schedule.name := schedule]
    {
      records := records[schedule.name := schedule];
    }

    method Get(name: string) returns (r: Option<ScheduledWorkflow>)
      ensures r == if name in records then Some(records[name]) else None
    {
      return if name in records then Some(records[name]) else None;
    }

    method Delete(name: string) returns (found: bool)
      requires Valid()
      modifies this
      ensures Valid() && found == (name in old(records)) && records == old(records) - {name}
    {
      found := name in records;
      records := records - {name};
    }
  }

  class InMemoryIdempotencyStore {
    var claims: set<(string, string)>

    constructor ()
      ensures claims == {}
    {
      claims := {};
    }

    /** A missing or empty key is never refused; any other key is granted once. */
    method Claim(namespace: string, key: Option<string>) returns (granted: bool)
      modifies this
      ensures key == None || key == Some("") ==> granted && claims == old(claims)
      ensures key.Some? && key.value != "" ==>
                && (granted <==> (namespace, key.value) !in old(claims))
                && claims == old(claims) + {(namespace, key.value)}
    {
      if key == None || key == Some("") {
        return true;
      }
      if (namespace, key.value) in claims {
        return false;
      }
      claims := claims + {(namespace, key.value)};
      return true;
    }
  }

  /** What a dispatch does: it returns a run id, or raises (None). */
  type Dispatcher = string -> Option<string>

  class WorkflowScheduler {
    const store: InMemoryScheduleStore
    const cron: Cron
    const validCron: string -> bool
    const isoformat: int -> string

    ghost predicate Valid()
      reads store
    {
      && store.Valid() && Forward(cron)
      && (forall t: int {:trigger isoformat(t)} :: isoformat(t) != "")
      && (forall t: int, u: int {:trigger isoformat(t), isoformat(u)} :: isoformat(t) == isoformat(u) ==> t == u)
    }

    constructor (store: InMemoryScheduleStore, cron: Cron, validCron: string -> bool, isoformat: int -> string)
      ensures this.store == store && this.cron == cron && this.validCron == validCron && this.isoformat == isoformat
    {
      this.store := store;
      this.cron := cron;
      this.validCron := validCron;
      this.isoformat := isoformat;
    }

    lemma TimesHaveText(t: int)
      requires Valid()
      ensures isoformat(t) != ""
    {
    }

    lemma TextsDiffer(t: int, u: int)
      requires Valid()
      ensures isoformat(t) == isoformat(u) <==> t == u
    {
    }

    /** register: refuses an invalid expression; otherwise the first run lies after now. */
    method Register(name: string, expression: string, yamlDefinition: string, now: int)
      returns (r: Option<ScheduledWorkflow>)
      requires Valid()
      modifies store
      ensures Valid() && (r.None? <==> !validCron(expression))
      ensures r.None? ==> store.records == old(store.records)
      ensures r.Some? ==>
                && fresh(r.value) && store.records == old(store.records)[name := r.value]
                && r.value.name == name && r.value.cron == expression && r.value.yamlDefinition == yamlDefinition
                && r.value.enabled && r.value.lastRun == None
                && r.value.nextRun == Some(cron(expression, now)) && !r.value.DueAt(now)
    {
      if !validCron(expression) {
        return None;
      }
      var schedule := new ScheduledWorkflow(name, expression, yamlDefinition, Some(cron(expression, now)));
      store.Put(schedule);
      return Some(schedule);
    }

    /** due: every enabled schedule whose next run is at or before now, each once. */
    method Due(now: int) returns (ready: seq<ScheduledWorkflow>)
      requires Valid()
      ensures forall s :: s in ready <==>
                s in store.records.Values && s.enabled && s.nextRun != None && s.nextRun.value <= now
      ensures Distinct(ready)
    {
      ready := [];
      var rest := store.records.Keys;
      while rest != {}
        invariant rest <= store.records.Keys && Distinct(ready)
        invariant forall s :: s in ready <==> s in store.records.Values && s.name !in rest && s.DueAt(now)
        decreases |rest|
      {
        var name: string :| name in rest;
        var s := store.records[name];
        rest := rest - {name};
        if s.enabled && s.nextRun.Some? && s.nextRun.value <= now {
          ready := ready + [s];
        }
      }
    }

    /** mark_ran: an unknown name is ignored; otherwise the next run lies after the given time. */
    method MarkRan(name: string, now: int)
      requires Valid()
      modifies store, store.records.Values
      ensures Valid() && store.records == old(store.records)
      ensures name in store.records ==>
                && store.records[name].lastRun == Some(now) && !store.records[name].DueAt(now)
                && store.records[name].nextRun == Some(cron(store.records[name].cron, now))
                && store.records[name].enabled == old(store.records[name].enabled)
      ensures forall s :: s in store.records.Values && s.name != name ==> unchanged(s)
    {
      var found := store.Get(name);
      if found.None? {
        return;
      }
      var schedule := found.value;
      schedule.lastRun := Some(now);
      schedule.nextRun := Some(cron(schedule.cron, now));
      store.Put(schedule);
    }

    /** The claim that a dispatch of this schedule makes, when its fields read like this. */
    ghost function KeyAt(s: ScheduledWorkflow, seen: Seen): (string, string) {
      ("schedule:" + s.name, if seen.nextRun.Some? then isoformat(seen.nextRun.value) else "unscheduled")
    }

    lemma KeysDiffer(s: ScheduledWorkflow, v: Seen, t: ScheduledWorkflow, w: Seen)
      requires s.name != t.name
      ensures KeyAt(s, v) != KeyAt(t, w)
    {
      assert ("schedule:" + s.name)[9..] == s.name && ("schedule:" + t.name)[9..] == t.name;
    }

    /** Two fire times make the same claim exactly when they are one time of one schedule. */
    lemma KeysIff(s: ScheduledWorkflow, v: Seen, t: ScheduledWorkflow, w: Seen)
      requires Valid() && v.nextRun.Some? && w.nextRun.Some?
      ensures KeyAt(s, v) == ("schedule:" + s.name, isoformat(v.nextRun.value))
      ensures KeyAt(s, v) == KeyAt(t, w) <==> s.name == t.name && v.nextRun == w.nextRun
    {
      if s.name != t.name {
        KeysDiffer(s, v, t, w);
      } else {
        TextsDiffer(v.nextRun.value, w.nextRun.value);
      }
    }

    lemma KeysAmongAreMade(start: LookMap, handled: set<ScheduledWorkflow>, now: int)
      requires AreDue(start, handled, now)
      ensures KeysAmong(KeysOf(start), handled) == Made(start, handled)
    {
    }

    /** The claims of these schedules: one for the name and the fire time of each. */
    ghost function Made(start: LookMap, handled: set<ScheduledWorkflow>): Claims {
      set s | s in handled && s in start && start[s].nextRun.Some? ::
        ("schedule:" + s.name, isoformat(start[s].nextRun.value))
    }

    /** All stored schedules, as they read now. */
    ghost function Look(): LookMap
      reads store, store.records.Values
    {
      map s | s in store.records.Values :: s.Read()
    }

    ghost function KeysOf(start: LookMap): KeyMap {
      map s | s in start :: KeyAt(s, start[s])
    }

    lemma KeysAreGood(start: LookMap)
      requires Valid() && start.Keys == store.records.Values
      ensures GoodKeys(KeysOf(start), store.records)
    {
      forall s, t | s in start && t in start && s != t ensures KeysOf(start)[s] != KeysOf(start)[t] {
        assert s.name != t.name;
        KeysDiffer(s, start[s], t, start[t]);
      }
    }

    /** How a schedule reads after it has been marked. */
    ghost function Marked(s: ScheduledWorkflow, was: Seen, markedAt: int): Seen {
      Seen(Some(markedAt), Some(cron(s.cron, markedAt)), was.enabled)
    }

    /** Since the start, the fired schedules have been marked, and nothing else has changed. */
    ghost predicate Changed(start: LookMap, fired: seq<ScheduledWorkflow>, markedAt: int)
      reads start.Keys
    {
      forall s {:trigger start[s]} :: s in start ==>
        s.Read() == if s in fired then Marked(s, start[s], markedAt) else start[s]
    }

    /** One schedule of a tick: claim it, dispatch it, mark it. */
    method Fire(s: ScheduledWorkflow, dispatch: Dispatcher, markedAt: int,
                idempotency: Option<InMemoryIdempotencyStore>)
      returns (claimed: bool, run: Option<string>)
      requires Valid() && s in store.records.Values && s.nextRun.Some?
      modifies store, store.records.Values, Objects(idempotency)
      ensures Valid() && store.records == old(store.records)
      ensures claimed <==>
              idempotency.None? || ("schedule:" + s.name, isoformat(old(s.nextRun.value))) !in old(Taken(idempotency))
      ensures run == if claimed then dispatch(s.yamlDefinition) else None
      ensures idempotency.Some? ==>
                Taken(idempotency) ==
                old(Taken(idempotency)) + {("schedule:" + s.name, isoformat(old(s.nextRun.value)))}
      ensures s.Read() == if run.Some? then Marked(s, old(s.Read()), markedAt) else old(s.Read())
      ensures forall t :: t in store.records.Values && t != s ==> t.Read() == old(t.Read())
    {
      claimed, run := true, None;
      TimesHaveText(s.nextRun.value);
      var fireTime := if s.nextRun.Some? then isoformat(s.nextRun.value) else "unscheduled";
      if idempotency.Some? {
        claimed := idempotency.value.Claim("schedule:" + s.name, Some(fireTime));
        if !claimed {
          return;
        }
      }
      run := dispatch(s.yamlDefinition);
      if run.Some? {
        MarkRan(s.name, markedAt);
      }
    }

    /** A tick that has handled the first i schedules of its snapshot. */
    ghost predicate Going(ready: seq<ScheduledWorkflow>, i: nat, handled: set<ScheduledWorkflow>,
                          fired: seq<ScheduledWorkflow>, dispatched: seq<(string, string)>, dispatch: Dispatcher,
                          before: Claims, start: LookMap, now: int, markedAt: int,
                          idempotency: Option<InMemoryIdempotencyStore>)
      reads store, store.records.Values, start.Keys, Objects(idempotency)
    {
      && Valid() && start.Keys == store.records.Values && i <= |ready|
      && HandledUpTo(ready, i, handled) && Snapshot(ready, start, now)
      && Changed(start, fired, markedAt)
      && Progress(handled, fired, dispatched, dispatch, KeysOf(start), before, Taken(idempotency), idempotency.Some?)
    }

    /** The loop body of dispatch_due. */
    method FireNext(ready: seq<ScheduledWorkflow>, i: nat, dispatched: seq<(string, string)>, dispatch: Dispatcher,
                    ghost now: int, markedAt: int, idempotency: Option<InMemoryIdempotencyStore>,
                    ghost handled: set<ScheduledWorkflow>, ghost fired: seq<ScheduledWorkflow>, ghost before: Claims,
                    ghost start: LookMap)
      returns (dispatched': seq<(string, string)>, raised: bool, ghost fired': seq<ScheduledWorkflow>)
      requires i < |ready| && Going(ready, i, handled, fired, dispatched, dispatch, before, start, now, markedAt,
                                    idempotency)
      modifies store, store.records.Values, Objects(idempotency)
      ensures store.records == old(store.records)
      ensures !raised ==>
                Going(ready, i + 1, handled + {ready[i]}, fired', dispatched', dispatch, before, start, now, markedAt,
                      idempotency)
      ensures raised ==>
                && Valid() && fired' == fired && dispatched' == dispatched && Changed(start, fired, markedAt)
                && dispatch(ready[i].yamlDefinition).None? && ready[i] !in handled
                && (idempotency.Some? ==> KeysOf(start)[ready[i]] !in old(Taken(idempotency)))
                && (idempotency.Some? ==> Taken(idempotency) == old(Taken(idempotency)) + {KeysOf(start)[ready[i]]})
    {
      hide Progress, HandledUpTo, GoodKeys, Forward, Marked, KeyAt;
      var s := ready[i];
      NextUp(ready, i, handled);
      OnlyHandledFire(handled, fired, dispatched, dispatch, KeysOf(start), before, Taken(idempotency),
                      idempotency.Some?);
      SnapshotAt(ready, i, start, now);
      KeysAreGood(start);
      KeysIff(s, start[s], s, start[s]);
      ghost var taken := Taken(idempotency);
      var claimed, run := Fire(s, dispatch, markedAt, idempotency);
      dispatched', fired', raised := dispatched, fired, claimed && run.None?;
      if !raised {
        NextHandled(store.records, s, handled, fired, dispatched, dispatch, KeysOf(start), before, taken,
                    idempotency.Some?, claimed);
        OneMoreHandled(ready, i, handled);
        if claimed {
          dispatched', fired' := dispatched + [(s.name, run.value)], fired + [s];
        }
      }
    }

    /**
     dispatch_due, with the clock at now when the snapshot is taken and at markedAt when
     schedules are marked. Every due schedule that nobody has claimed is dispatched once and
     is not due any more; nothing else changes. If a dispatch raises, the tick ends there:
     that schedule is claimed, but neither marked nor changed, so it stays due. The claims made
     are those of the schedules handled, and no claim is given up.
     */
    method DispatchDue(dispatch: Dispatcher, now: int, markedAt: int, idempotency: Option<InMemoryIdempotencyStore>)
      returns (dispatched: seq<(string, string)>, raised: bool,
               ghost fired: seq<ScheduledWorkflow>, ghost raiser: Option<ScheduledWorkflow>,
               ghost handled: set<ScheduledWorkflow>)
      requires Valid() && now <= markedAt
      modifies store, store.records.Values, Objects(idempotency)
      ensures Valid() && store.records == old(store.records)
      ensures Changed(old(Look()), fired, markedAt) && (raised <==> raiser.Some?)
      ensures TickDone(old(Look()), fired, raiser, now, KeysOf(old(Look())), old(Taken(idempotency)), idempotency.Some?)
      ensures NoneDue(fired, now) && Distinct(fired) && Reported(dispatched, fired, dispatch)
      ensures raised ==>
                && raiser.value.DueAt(now) && dispatch(raiser.value.yamlDefinition).None? && raiser.value in handled
      ensures !raised ==> forall s :: s in old(Look()) && old(Look())[s].WasDue(now) ==> s in handled
      ensures AreDue(old(Look()), handled, now)
      ensures forall s :: s in fired ==> s in handled
      ensures idempotency.Some? ==> Taken(idempotency) == old(Taken(idempotency)) + Made(old(Look()), handled)
    {
      hide Progress, HandledUpTo, Changed, TickDone, Snapshot, Distinct, Reported, NoneDue, Forward, KeysAmong, Made;
      ghost var start, before := Look(), Taken(idempotency);
      handled := {};
      dispatched, raised, fired, raiser := [], false, [], None;
      var ready := Due(now);
      NothingHandled(KeysOf(start), before, idempotency.Some?, dispatch);
      NoneHandled(ready);
      StartOfTick(ready, now, start, markedAt);
      KeysAreGood(start);
      for i := 0 to |ready|
        invariant store.records == old(store.records) && !raised && raiser.None?
        invariant Going(ready, i, handled, fired, dispatched, dispatch, before, start, now, markedAt, idempotency)
      {
        ghost var taken := Taken(idempotency);
        dispatched, raised, fired := FireNext(ready, i, dispatched, dispatch, now, markedAt, idempotency, handled,
                                              fired, before, start);
        if raised {
          TickRaises(ready, i, handled, fired, dispatched, dispatch, before, taken, start, now, KeysOf(start),
                     idempotency.Some?);
          raiser, handled := Some(ready[i]), handled + {ready[i]};
          break;
        }
        handled := handled + {ready[i]};
      }
      if !raised {
        TickEnds(ready, handled, fired, dispatched, dispatch, before, Taken(idempotency), start, now, KeysOf(start),
                 idempotency.Some?);
      }
      AfterTick(start, fired, raiser, now, markedAt, before, idempotency.Some?);
      KeysAmongAreMade(start, handled, now);
    }

    /** What one guarded tick comes to, from the schedules and claims before it to those after it. */
    ghost predicate TickTold(start: LookMap, end: LookMap, fired: seq<ScheduledWorkflow>, raised: bool,
                             now: int, markedAt: int, before: Claims, after: Claims)
    {
      && before <= after
      && (forall s :: s in fired ==>
            && s in start && s in end && start[s].WasDue(now) && end[s] == Marked(s, start[s], markedAt)
            && KeyAt(s, start[s]) !in before && KeyAt(s, start[s]) in after)
      && (!raised ==> forall s :: s in start && start[s].WasDue(now) && s !in fired ==> KeyAt(s, start[s]) in before)
      && (forall c :: c in after ==> c in before || MadeBy(start, c, now))
    }

    /** The claim is for a schedule that was due, at its fire time. */
    ghost predicate MadeBy(start: LookMap, c: (string, string), now: int) {
      exists s :: s in start && start[s].WasDue(now) && c == KeyAt(s, start[s])
    }

    /** A tick with a claim store. */
    method GuardedTick(dispatch: Dispatcher, now: int, markedAt: int, idempotency: InMemoryIdempotencyStore)
      returns (raised: bool, ghost fired: seq<ScheduledWorkflow>)
      requires Valid() && now <= markedAt
      modifies store, store.records.Values, idempotency
      ensures Valid() && store.records == old(store.records)
      ensures TickTold(old(Look()), Look(), fired, raised, now, markedAt, old(idempotency.claims), idempotency.claims)
    {
      hide Distinct, Reported, NoneDue, Forward, KeyAt, Changed, TickDone, AreDue, Made, TickTold, Marked, KeysOf;
      ghost var start, before := Look(), idempotency.claims;
      var dispatched;
      ghost var raiser, handled;
      dispatched, raised, fired, raiser, handled := DispatchDue(dispatch, now, markedAt, Some(idempotency));
      FiredAreMarked(start, fired, markedAt);
      TickTells(start, Look(), fired, raiser, handled, now, markedAt, before);
    }

    lemma FiredAreMarked(start: LookMap, fired: seq<ScheduledWorkflow>, markedAt: int)
      requires Changed(start, fired, markedAt) && start.Keys == store.records.Values
      ensures forall s :: s in fired && s in start ==> s in Look() && Look()[s] == Marked(s, start[s], markedAt)
    {
    }

    lemma TickTells(start: LookMap, end: LookMap, fired: seq<ScheduledWorkflow>, raiser: Option<ScheduledWorkflow>,
                    handled: set<ScheduledWorkflow>, now: int, markedAt: int, before: Claims)
      requires Valid() && AreDue(start, handled, now) && forall s :: s in fired ==> s in handled
      requires forall s :: s in fired && s in start ==> s in end && end[s] == Marked(s, start[s], markedAt)
      requires TickDone(start, fired, raiser, now, KeysOf(start), before, true)
      ensures TickTold(start, end, fired, raiser.Some?, now, markedAt, before, before + Made(start, handled))
    {
      MadeByHandled(start, handled, now);
      hide KeyAt, Made, Marked;
    }

    lemma MadeByHandled(start: LookMap, handled: set<ScheduledWorkflow>, now: int)
      requires Valid() && AreDue(start, handled, now)
      ensures forall s :: s in handled ==> KeyAt(s, start[s]) in Made(start, handled)
      ensures forall c :: c in Made(start, handled) ==> MadeBy(start, c, now)
    {
      KeysAmongAreMade(start, handled, now);
      forall c | c in Made(start, handled) ensures MadeBy(start, c, now) {
        var s :| s in handled && s in KeysOf(start) && c == KeysOf(start)[s];
      }
      forall s | s in handled ensures KeyAt(s, start[s]) in Made(start, handled) {
        assert KeyAt(s, start[s]) == KeysOf(start)[s];
      }
    }

    /** The next fire time of a schedule makes a claim that no tick makes which comes before it. */
    lemma NextClaimIsNew(start: LookMap, s: ScheduledWorkflow, next: Seen, now: int)
      requires Valid() && next.nextRun.Some? && next.nextRun.value > now
      ensures !MadeBy(start, KeyAt(s, next), now)
    {
      forall t | t in start && start[t].WasDue(now) ensures KeyAt(s, next) != KeyAt(t, start[t]) {
        KeysIff(s, next, t, start[t]);
      }
    }

    /**
     Two ticks, one after the other. No claim is given up, and no fire time granted in the
     first tick, nor any other that was claimed by then, is dispatched in the second. A
     schedule that fired in the first tick and is due again at the second fires once more,
     at its next fire time, unless that was claimed before or a dispatch raises.
     */
    method TwoTicks(dispatchA: Dispatcher, nowA: int, markedA: int, dispatchB: Dispatcher, nowB: int, markedB: int,
                    idempotency: InMemoryIdempotencyStore)
      returns (raisedA: bool, raisedB: bool, ghost firedA: seq<ScheduledWorkflow>,
               ghost firedB: seq<ScheduledWorkflow>, ghost between: LookMap, ghost granted: Claims)
      requires Valid() && nowA <= markedA && nowB <= markedB
      modifies store, store.records.Values, idempotency
      ensures Valid() && store.records == old(store.records)
      ensures old(idempotency.claims) <= granted <= idempotency.claims
      ensures NextFireTimes(old(Look()), between, firedA, nowA, markedA, granted)
      ensures forall s :: s in firedB ==>
                && s in between && between[s].WasDue(nowB)
                && ("schedule:" + s.name, isoformat(between[s].nextRun.value)) !in granted
      ensures !raisedB ==> forall s :: s in firedA && between[s].WasDue(nowB) ==>
                s in firedB
                || ("schedule:" + s.name, isoformat(between[s].nextRun.value)) in old(idempotency.claims)
    {
      hide TickTold, KeyAt, Forward, NextFireTimes;
      ghost var start, before := Look(), idempotency.claims;
      raisedA, firedA := GuardedTick(dispatchA, nowA, markedA, idempotency);
      between, granted := Look(), idempotency.claims;
      raisedB, firedB := GuardedTick(dispatchB, nowB, markedB, idempotency);
      TickMeans(start, between, firedA, raisedA, nowA, markedA, before, granted);
      TickMeans(between, Look(), firedB, raisedB, nowB, markedB, granted, idempotency.claims);
      if !raisedB {
        TickAgain(start, between, Look(), firedA, firedB, raisedA, raisedB, nowA, markedA, nowB, markedB,
                  before, granted, idempotency.claims);
      }
    }

    /** The schedules that fired have been claimed at the time they were due, and come next when cron says. */
    ghost predicate NextFireTimes(start: LookMap, end: LookMap, fired: seq<ScheduledWorkflow>, now: int, markedAt: int,
                                  claims: Claims)
    {
      forall s :: s in fired ==>
        && s in start && start[s].WasDue(now)
        && ("schedule:" + s.name, isoformat(start[s].nextRun.value)) in claims
        && s in end && end[s].nextRun == Some(cron(s.cron, markedAt)) && !end[s].WasDue(now)
    }

    lemma TickMeans(start: LookMap, end: LookMap, fired: seq<ScheduledWorkflow>, raised: bool,
                    now: int, markedAt: int, before: Claims, after: Claims)
      requires Valid() && now <= markedAt && TickTold(start, end, fired, raised, now, markedAt, before, after)
      ensures before <= after && NextFireTimes(start, end, fired, now, markedAt, after)
      ensures forall s :: s in fired ==>
                && s in start && start[s].WasDue(now)
                && ("schedule:" + s.name, isoformat(start[s].nextRun.value)) !in before
    {
      forall s | s in fired ensures end[s].nextRun.value > now {
        assert cron(s.cron, markedAt) > markedAt;
      }
      forall s | s in fired
        ensures KeyAt(s, start[s]) == ("schedule:" + s.name, isoformat(start[s].nextRun.value))
      {
        KeysIff(s, start[s], s, start[s]);
      }
    }

    /** What fired in one tick and is due at the next fires again, unless its claim was there at the start. */
    lemma TickAgain(start: LookMap, between: LookMap, end: LookMap,
                    firedA: seq<ScheduledWorkflow>, firedB: seq<ScheduledWorkflow>, raisedA: bool, raisedB: bool,
                    nowA: int, markedA: int, nowB: int, markedB: int, before: Claims, granted: Claims, after: Claims)
      requires Valid() && nowA <= markedA && !raisedB
      requires TickTold(start, between, firedA, raisedA, nowA, markedA, before, granted)
      requires TickTold(between, end, firedB, raisedB, nowB, markedB, granted, after)
      ensures forall s :: s in firedA ==> s in between
      ensures forall s :: s in firedA && between[s].WasDue(nowB) ==>
                s in firedB || ("schedule:" + s.name, isoformat(between[s].nextRun.value)) in before
    {
      forall s | s in firedA && between[s].WasDue(nowB) && s !in firedB
        ensures ("schedule:" + s.name, isoformat(between[s].nextRun.value)) in before
      {
        assert cron(s.cron, markedA) > markedA;
        NextClaimIsNew(start, s, between[s], nowA);
        KeysIff(s, between[s], s, between[s]);
      }
    }

    lemma StartOfTick(ready: seq<ScheduledWorkflow>, now: int, start: LookMap, markedAt: int)
      requires start == Look() && forall s :: s in ready <==> s in store.records.Values && s.DueAt(now)
      ensures Changed(start, [], markedAt) && Snapshot(ready, start, now)
    {
    }

    /** The fired schedules are due no more; the one whose dispatch raised still is, and makes the same claim. */
    lemma AfterTick(start: LookMap, fired: seq<ScheduledWorkflow>, raiser: Option<ScheduledWorkflow>,
                    now: int, markedAt: int, before: Claims, guarded: bool)
      requires Valid() && now <= markedAt && Changed(start, fired, markedAt)
      requires TickDone(start, fired, raiser, now, KeysOf(start), before, guarded)
      ensures NoneDue(fired, now)
      ensures raiser.Some? ==>
                raiser.value.DueAt(now) && KeyAt(raiser.value, raiser.value.Read()) == KeysOf(start)[raiser.value]
    {
      forall s | s in fired ensures !s.DueAt(now) {
        assert s.Read() == Marked(s, start[s], markedAt);
        assert cron(s.cron, markedAt) > markedAt;
      }
      if raiser.Some? {
        assert raiser.value.Read() == start[raiser.value];
      }
    }
  }

  /** The snapshot of a tick: the schedules that were due, each once. */
  ghost predicate Snapshot(ready: seq<ScheduledWorkflow>, start: LookMap, now: int) {
    && (forall s :: s in ready ==> s in start && start[s].WasDue(now))
    && (forall s :: s in start && start[s].WasDue(now) ==> s in ready)
  }

  lemma SnapshotAt(ready: seq<ScheduledWorkflow>, i: nat, start: LookMap, now: int)
    requires Snapshot(ready, start, now) && i < |ready|
    ensures ready[i] in start && start[ready[i]].nextRun.Some?
  {
    assert ready[i] in ready;
  }

  ghost predicate AreDue(start: LookMap, handled: set<ScheduledWorkflow>, now: int) {
    forall s :: s in handled ==> s in start && start[s].WasDue(now)
  }

  ghost predicate NoneDue(fired: seq<ScheduledWorkflow>, now: int)
    reads fired
  {
    forall s :: s in fired ==> !s.DueAt(now)
  }

  /**
   Which schedules a tick fired: only due ones whose claim was free; all of them, unless a
   dispatch raised, and then the schedule it was for is one of those.
   */
  ghost predicate TickDone(start: LookMap, fired: seq<ScheduledWorkflow>, raiser: Option<ScheduledWorkflow>,
                           now: int, keys: KeyMap, before: Claims, guarded: bool)
  {
    && keys.Keys == start.Keys
    && (forall s :: s in fired ==> s in start && start[s].WasDue(now) && (guarded ==> keys[s] !in before))
    && match raiser
       case None =>
         forall s :: s in start && start[s].WasDue(now) && s !in fired ==> guarded && keys[s] in before
       case Some(r) =>
         r in start && start[r].WasDue(now) && r !in fired && (guarded ==> keys[r] !in before)
  }

  lemma TickRaises(ready: seq<ScheduledWorkflow>, i: nat, handled: set<ScheduledWorkflow>,
                   fired: seq<ScheduledWorkflow>,
                   dispatched: seq<(string, string)>, dispatch: Dispatcher, before: Claims, claims: Claims,
                   start: LookMap, now: int, keys: KeyMap, guarded: bool)
    requires i < |ready| && HandledUpTo(ready, i, handled) && Snapshot(ready, start, now) && keys.Keys == start.Keys
    requires Progress(handled, fired, dispatched, dispatch, keys, before, claims, guarded)
    requires guarded ==> keys[ready[i]] !in claims
    ensures TickDone(start, fired, Some(ready[i]), now, keys, before, guarded)
    ensures Distinct(fired) && Reported(dispatched, fired, dispatch)
    ensures var handled' := handled + {ready[i]};
            && AreDue(start, handled', now) && (forall s :: s in fired ==> s in handled')
            && (guarded ==> claims + {keys[ready[i]]} == before + KeysAmong(keys, handled'))
  {
    assert ready[i] in ready;
    forall s | s in fired ensures s in start && start[s].WasDue(now) {
      assert s in handled && s in ready;
    }
  }

  lemma TickEnds(ready: seq<ScheduledWorkflow>, handled: set<ScheduledWorkflow>, fired: seq<ScheduledWorkflow>,
                 dispatched: seq<(string, string)>, dispatch: Dispatcher, before: Claims, claims: Claims,
                 start: LookMap, now: int, keys: KeyMap, guarded: bool)
    requires HandledUpTo(ready, |ready|, handled) && Snapshot(ready, start, now) && keys.Keys == start.Keys
    requires Progress(handled, fired, dispatched, dispatch, keys, before, claims, guarded)
    ensures TickDone(start, fired, None, now, keys, before, guarded)
    ensures Distinct(fired) && Reported(dispatched, fired, dispatch)
    ensures AreDue(start, handled, now) && forall s :: s in start && start[s].WasDue(now) ==> s in handled
    ensures forall s :: s in fired ==> s in handled
    ensures guarded ==> claims == before + KeysAmong(keys, handled)
  {
    forall s | s in fired ensures s in start && start[s].WasDue(now) {
      assert s in handled && s in ready;
    }
    forall s | s in start && start[s].WasDue(now) && s !in fired ensures guarded && keys[s] in before {
      assert s in ready && s in handled && s in keys;
    }
  }

  lemma OnlyHandledFire(handled: set<ScheduledWorkflow>, fired: seq<ScheduledWorkflow>,
                        dispatched: seq<(string, string)>,
                        dispatch: Dispatcher, keys: KeyMap, before: Claims, claims: Claims, guarded: bool)
    requires Progress(handled, fired, dispatched, dispatch, keys, before, claims, guarded)
    ensures forall s :: s in fired ==> s in handled
  {
  }

  type Claims = set<(string, string)>

  type KeyMap = map<ScheduledWorkflow, (string, string)>

  /** Of the schedules handled so far, those have fired whose key nobody had claimed before. */
  ghost predicate Winners(handled: set<ScheduledWorkflow>, fired: seq<ScheduledWorkflow>, keys: KeyMap,
                          before: Claims, guarded: bool)
  {
    && handled <= keys.Keys
    && (forall s {:trigger keys[s]} :: s in handled && s !in fired ==> guarded && keys[s] in before)
    && (forall s :: s in fired ==> s in handled && s in keys && (guarded ==> keys[s] !in before))
  }

  /** The claims made since then are those of the schedules handled so far. */
  ghost predicate ClaimsAre(keys: KeyMap, handled: set<ScheduledWorkflow>, claims: Claims, before: Claims) {
    claims == before + KeysAmong(keys, handled)
  }

  ghost function KeysAmong(keys: KeyMap, handled: set<ScheduledWorkflow>): Claims {
    set s | s in handled && s in keys :: keys[s]
  }

  ghost predicate AllDiffer(keys: KeyMap) {
    forall s, t {:trigger keys[s], keys[t]} :: s in keys && t in keys && s != t ==> keys[s] != keys[t]
  }

  /** Every stored schedule makes its own claim. */
  ghost predicate GoodKeys(keys: KeyMap, records: map<string, ScheduledWorkflow>) {
    && AllDiffer(keys) && keys.Keys == records.Values
    && forall n {:trigger records[n]} :: n in records ==> records[n].name == n
  }

  /** How far a tick has come: who fired, what was claimed, and what was reported. */
  ghost predicate Progress(handled: set<ScheduledWorkflow>, fired: seq<ScheduledWorkflow>,
                           dispatched: seq<(string, string)>,
                           dispatch: Dispatcher, keys: KeyMap, before: Claims, claims: Claims, guarded: bool)
  {
    && Winners(handled, fired, keys, before, guarded)
    && (guarded ==> ClaimsAre(keys, handled, claims, before))
    && Distinct(fired) && Reported(dispatched, fired, dispatch)
  }

  lemma NothingHandled(keys: KeyMap, before: Claims, guarded: bool, dispatch: Dispatcher)
    ensures Progress({}, [], [], dispatch, keys, before, before, guarded)
  {
  }

  lemma NextHandled(records: map<string, ScheduledWorkflow>, s: ScheduledWorkflow,
                    handled: set<ScheduledWorkflow>, fired: seq<ScheduledWorkflow>, dispatched: seq<(string, string)>,
                    dispatch: Dispatcher, keys: KeyMap, before: Claims, claims: Claims, guarded: bool, claimed: bool)
    requires GoodKeys(keys, records) && s in keys && s !in handled
    requires Progress(handled, fired, dispatched, dispatch, keys, before, claims, guarded)
    requires claimed <==> !guarded || keys[s] !in claims
    requires claimed ==> dispatch(s.yamlDefinition).Some?
    ensures var claims' := if guarded then claims + {keys[s]} else claims;
            if claimed
            then Progress(handled + {s}, fired + [s], dispatched + [(s.name, dispatch(s.yamlDefinition).value)],
                          dispatch, keys, before, claims', guarded)
            else Progress(handled + {s}, fired, dispatched, dispatch, keys, before, claims', guarded)
  {
    forall i | 0 <= i < |fired| ensures fired[i].name != s.name {
      assert fired[i] in fired && fired[i] in records.Values;
    }
  }

  ghost function Taken(idempotency: Option<InMemoryIdempotencyStore>): Claims
    reads Objects(idempotency)
  {
    if idempotency.Some? then idempotency.value.claims else {}
  }

  /** The first i schedules of the snapshot have been handled, the others have not. */
  ghost predicate HandledUpTo(ready: seq<ScheduledWorkflow>, i: nat, handled: set<ScheduledWorkflow>)
    requires i <= |ready|
  {
    && Distinct(ready) && (forall s :: s in handled ==> s in ready)
    && (forall j :: 0 <= j < i ==> ready[j] in handled)
    && (forall j :: i <= j < |ready| ==> ready[j] !in handled)
  }

  lemma NoneHandled(ready: seq<ScheduledWorkflow>)
    requires Distinct(ready)
    ensures HandledUpTo(ready, 0, {})
  {
  }

  lemma NextUp(ready: seq<ScheduledWorkflow>, i: nat, handled: set<ScheduledWorkflow>)
    requires i <= |ready| && HandledUpTo(ready, i, handled)
    ensures i < |ready| ==> ready[i] !in handled
    ensures i == |ready| ==> forall s :: s in ready ==> s in handled
  {
  }

  lemma OneMoreHandled(ready: seq<ScheduledWorkflow>, i: nat, handled: set<ScheduledWorkflow>)
    requires i < |ready| && HandledUpTo(ready, i, handled)
    ensures HandledUpTo(ready, i + 1, handled + {ready[i]})
  {
  }

  /** The report names the schedules that fired, each with the run its dispatch returned. */
  ghost predicate Reported(dispatched: seq<(string, string)>, fired: seq<ScheduledWorkflow>, dispatch: Dispatcher) {
    && |dispatched| == |fired|
    && forall i :: 0 <= i < |fired| ==>
         dispatched[i].0 == fired[i].name && Some(dispatched[i].1) == dispatch(fired[i].yamlDefinition)
  }

  ghost function Objects(idempotency: Option<InMemoryIdempotencyStore>): set<object> {
    if idempotency.Some? then {idempotency.value} else {}
  }

  ghost predicate Distinct(ready: seq<ScheduledWorkflow>) {
    forall i, j :: 0 <= i < j < |ready| ==> ready[i].name != ready[j].name
  }
}

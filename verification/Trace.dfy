/** The numbered event log of a run (trace.py) and its projection onto single steps. */
module Trace {
  import opened Wrappers
  import opened Graphs
  import opened Semantics

  datatype Kind =
    | RunStarted | RunFinished(status: string)
    | StepSkipped | StepStarted | StepRetry | StepCompleted | StepFailed | DlqRecorded
    | OtherEvent(name: string)

  datatype Event = Event(sequence: nat, kind: Kind, stepId: Option<Id>, attempt: Option<nat>)

  /** What an event says about its step. */
  datatype Mark = Mark(kind: Kind, attempt: Option<nat>)

  /** Sequence numbers count the events from 1, without gaps. */
  ghost predicate Numbered(events: seq<Event>) {
    forall i :: 0 <= i < |events| ==> events[i].sequence == i + 1
  }

  /** The events of one step, in order. */
  ghost function Project(events: seq<Event>, x: Id): seq<Mark> {
    if events == [] then [] else
    var last := events[|events| - 1];
    Project(events[..|events| - 1], x)
    + if last.stepId == Some(x) then [Mark(last.kind, last.attempt)] else []
  }

  /** An event without its number. */
  datatype Line = Line(stepId: Option<Id>, kind: Kind, attempt: Option<nat>)

  /** The log without its numbers. */
  ghost function Lines(events: seq<Event>): seq<Line> {
    seq(|events|, i requires 0 <= i < |events| => Line(events[i].stepId, events[i].kind, events[i].attempt))
  }

  /** Marks of one step, as they stand in the log. */
  ghost function LinesOf(x: Id, marks: seq<Mark>): seq<Line> {
    seq(|marks|, i requires 0 <= i < |marks| => Line(Some(x), marks[i].kind, marks[i].attempt))
  }

  /** The log has grown by these lines, in this order. */
  ghost predicate Told(before: seq<Event>, after: seq<Event>, lines: seq<Line>) {
    Lines(after) == Lines(before) + lines
  }

  lemma NothingTold(events: seq<Event>)
    ensures Told(events, events, [])
  {
  }

  lemma ToldJoined(before: seq<Event>, middle: seq<Event>, after: seq<Event>, a: seq<Line>, b: seq<Line>)
    requires Told(before, middle, a) && Told(middle, after, b)
    ensures Told(before, after, a + b)
  {
    hide Lines;
    assert Lines(before) + a + b == Lines(before) + (a + b);
  }

  lemma LinesOfBoth(x: Id, a: seq<Mark>, b: seq<Mark>)
    ensures LinesOf(x, a + b) == LinesOf(x, a) + LinesOf(x, b)
  {
  }

  /** Numbered logs with the same lines are the same log. */
  lemma LinesTellAll(a: seq<Event>, b: seq<Event>)
    requires Numbered(a) && Numbered(b) && Lines(a) == Lines(b)
    ensures a == b
  {
    assert |a| == |Lines(a)| == |b|;
    forall i | 0 <= i < |a| ensures a[i] == b[i] {
      assert Lines(a)[i] == Lines(b)[i];
    }
  }

  class TraceContext {
    var events: seq<Event>

    constructor ()
      ensures events == []
    {
      events := [];
    }

    /** What emitting this event adds to the projection onto x. */
    static ghost function Added(kind: Kind, stepId: Option<Id>, attempt: Option<nat>, x: Id): seq<Mark> {
      if stepId == Some(x) then [Mark(kind, attempt)] else []
    }

    method Emit(kind: Kind, stepId: Option<Id>, attempt: Option<nat>)
      modifies this
      ensures |events| == |old(events)| + 1 && events[..|old(events)|] == old(events)
      ensures events[|old(events)|] == Event(|events|, kind, stepId, attempt)
      ensures old(Numbered(events)) ==> Numbered(events)
      ensures forall x :: Project(events, x) == old(Project(events, x)) + Added(kind, stepId, attempt, x)
      ensures Told(old(events), events, [Line(stepId, kind, attempt)])
    {
      ghost var before := events;
      events := events + [Event(|events| + 1, kind, stepId, attempt)];
      assert events[..|events| - 1] == before;
    }
  }

  /** The run's own events: the first one and the last one. */
  ghost predicate RunLogged(before: seq<Event>, after: seq<Event>, status: string) {
    && |after| >= |before| + 2 && before <= after
    && after[|before|] == Event(|before| + 1, RunStarted, None, None)
    && after[|after| - 1] == Event(|after|, RunFinished(status), None, None)
  }

  // ----- The grammar of one step's events -----

  /** retry 1, ..., retry n */
  function Retries(n: nat): seq<Mark> {
    if n == 0 then [] else Retries(n - 1) + [Mark(StepRetry, Some(n))]
  }

  lemma RetriesGrow(n: nat)
    ensures Retries(n) + [] == Retries(n) && Retries(n) + [Mark(StepRetry, Some(n + 1))] == Retries(n + 1)
  {
  }

  /** How many retry events precede the last event of a step. */
  function RetryEvents(o: Outcome): nat {
    match o
    case Skip => 0
    case Done(_, f) => f
    case Dead(_, n) => n
  }

  /** The events a step must leave, given how it ended. */
  function TraceOf(o: Outcome): seq<Mark> {
    match o
    case Skip => [Mark(StepSkipped, None)]
    case Done(_, f) => [Mark(StepStarted, None)] + Retries(f) + [Mark(StepCompleted, Some(f + 1))]
    case Dead(_, n) =>
      [Mark(StepStarted, None)] + Retries(n) + [Mark(StepFailed, Some(n + 1)), Mark(DlqRecorded, Some(n + 1))]
  }

  /**
   The record of a step, mark by mark: a skipped step has one; any other starts, counts its
   retries from 1, and ends with the number of its attempts.
   */
  lemma TraceReads(o: Outcome)
    ensures o.Skip? ==> TraceOf(o) == [Mark(StepSkipped, None)]
    ensures o.Done? ==>
              && |TraceOf(o)| == o.failures + 2 && TraceOf(o)[0] == Mark(StepStarted, None)
              && (forall i :: 1 <= i <= o.failures ==> TraceOf(o)[i] == Mark(StepRetry, Some(i)))
              && TraceOf(o)[o.failures + 1] == Mark(StepCompleted, Some(o.failures + 1))
    ensures o.Dead? ==>
              && |TraceOf(o)| == o.retries + 3 && TraceOf(o)[0] == Mark(StepStarted, None)
              && (forall i :: 1 <= i <= o.retries ==> TraceOf(o)[i] == Mark(StepRetry, Some(i)))
              && TraceOf(o)[o.retries + 1] == Mark(StepFailed, Some(o.retries + 1))
              && TraceOf(o)[o.retries + 2] == Mark(DlqRecorded, Some(o.retries + 1))
  {
    hide Retries;
    RetriesRead(RetryEvents(o));
  }

  lemma RetriesRead(n: nat)
    ensures |Retries(n)| == n && forall i :: 1 <= i <= n ==> Retries(n)[i - 1] == Mark(StepRetry, Some(i))
  {
    if n > 0 {
      RetriesAt(n, 0);
    }
    forall i | 1 <= i <= n ensures Retries(n)[i - 1] == Mark(StepRetry, Some(i)) {
      RetriesAt(n, i - 1);
    }
  }

  /** What is logged about a step after its start. */
  function Closing(o: Outcome): seq<Mark> {
    Retries(RetryEvents(o)) + EndMarks(o)
  }

  /** The log holds exactly the events of the steps that have ended. */
  ghost predicate LogMatches(events: seq<Event>, ids: set<Id>, ledger: Ledger) {
    forall x {:trigger Project(events, x)} :: x in ids ==>
      Project(events, x) == if x in ledger then TraceOf(ledger[x]) else []
  }

  /** x has these events more than before, and nobody else has any. */
  ghost predicate LogExtends(before: seq<Event>, after: seq<Event>, x: Id, added: seq<Mark>) {
    && before <= after && Told(before, after, LinesOf(x, added))
    && forall y :: Project(after, y) == Project(before, y) + if y == x then added else []
  }

  lemma LogJoined(before: seq<Event>, middle: seq<Event>, after: seq<Event>, x: Id, a: seq<Mark>, b: seq<Mark>)
    requires LogExtends(before, middle, x, a) && LogExtends(middle, after, x, b)
    ensures LogExtends(before, after, x, a + b)
  {
    hide Project, Told;
    ToldJoined(before, middle, after, LinesOf(x, a), LinesOf(x, b));
    LinesOfBoth(x, a, b);
    forall y ensures Project(after, y) == Project(before, y) + if y == x then a + b else [] {
      assert Project(after, y) == Project(middle, y) + if y == x then b else [];
      assert Project(middle, y) == Project(before, y) + if y == x then a else [];
    }
  }

  /** Every step of a layer has its start logged, and nothing else is. */
  ghost predicate LogStarts(before: seq<Event>, after: seq<Event>, ids: set<Id>) {
    && before <= after
    && forall y :: Project(after, y) == Project(before, y) + if y in ids then [Mark(StepStarted, None)] else []
  }

  /** Every step of a layer has its retries and its end logged, and nothing else is. */
  ghost predicate LogEnds(before: seq<Event>, after: seq<Event>, ids: set<Id>, ledger: Ledger) {
    && before <= after
    && forall y :: Project(after, y) == Project(before, y) + if y in ids && y in ledger then Closing(ledger[y]) else []
  }

  /** Starting a layer, running it and closing it leaves each of its steps its own full record. */
  lemma LayerLogGrows(before: seq<Event>, started: seq<Event>, after: seq<Event>,
                      all: set<Id>, ids: set<Id>, ledger: Ledger, ledger': Ledger)
    requires LogMatches(before, all, ledger) && ids <= all
    requires LogStarts(before, started, ids) && LogEnds(started, after, ids, ledger')
    requires ledger'.Keys == ledger.Keys + ids && ledger' - ids == ledger
    requires NoneSkipped(ledger', ids)
    ensures LogMatches(after, all, ledger')
  {
    hide Project, TraceOf, Closing;
    forall x {:trigger Project(after, x)} | x in all
      ensures Project(after, x) == if x in ledger' then TraceOf(ledger'[x]) else []
    {
      if x in ids {
        assert x !in (ledger' - ids) && Project(before, x) == [];
        ClosingAssembled(ledger'[x]);
        assert Project(after, x) == [Mark(StepStarted, None)] + Closing(ledger'[x]);
      } else if x in ledger' {
        assert ledger'[x] == (ledger' - ids)[x];
      }
    }
  }

  lemma Emitted(before: seq<Event>, after: seq<Event>, kind: Kind, x: Id, attempt: Option<nat>)
    requires after == before + [Event(|before| + 1, kind, Some(x), attempt)]
    ensures LogExtends(before, after, x, [Mark(kind, attempt)])
  {
    assert after[..|after| - 1] == before;
  }

  lemma NothingEmitted(events: seq<Event>, x: Id)
    ensures LogExtends(events, events, x, [])
  {
  }

  lemma NoneStarted(events: seq<Event>)
    ensures LogStarts(events, events, {})
  {
  }

  lemma OneMoreStarted(before: seq<Event>, started: seq<Event>, after: seq<Event>, ids: set<Id>, x: Id)
    requires LogStarts(before, started, ids) && x !in ids
    requires LogExtends(started, after, x, [Mark(StepStarted, None)])
    ensures LogStarts(before, after, ids + {x})
  {
    hide Project;
    forall y ensures Project(after, y) ==
                     Project(before, y) + if y in ids + {x} then [Mark(StepStarted, None)] else []
    {
      assert Project(after, y) == Project(started, y) + if y == x then [Mark(StepStarted, None)] else [];
    }
  }

  /** A step that ran alone: its start, its retries and its end make up its full record. */
  lemma StepLogged(before: seq<Event>, started: seq<Event>, retried: seq<Event>, after: seq<Event>, x: Id, o: Outcome)
    requires !o.Skip? && LogExtends(before, started, x, [Mark(StepStarted, None)])
    requires LogExtends(started, retried, x, Retries(RetryEvents(o))) && LogExtends(retried, after, x, EndMarks(o))
    ensures LogExtends(before, after, x, TraceOf(o))
  {
    hide Project, Retries, Told, LogExtends;
    LogJoined(before, started, retried, x, [Mark(StepStarted, None)], Retries(RetryEvents(o)));
    LogJoined(before, retried, after, x, [Mark(StepStarted, None)] + Retries(RetryEvents(o)), EndMarks(o));
    TraceAssembled([], o);
    assert [Mark(StepStarted, None)] + Retries(RetryEvents(o)) + EndMarks(o)
        == [] + [Mark(StepStarted, None)] + Retries(RetryEvents(o)) + EndMarks(o);
  }

  lemma RunIsLogged(before: seq<Event>, running: seq<Event>, after: seq<Event>, status: string)
    requires before + [Event(|before| + 1, RunStarted, None, None)] <= running
    requires after == running + [Event(|running| + 1, RunFinished(status), None, None)]
    ensures RunLogged(before, after, status)
  {
    assert running[|before|] == Event(|before| + 1, RunStarted, None, None);
  }

  lemma OneMoreClosed(before: seq<Event>, closed: seq<Event>, retried: seq<Event>, after: seq<Event>,
                      ids: set<Id>, x: Id, ledger: Ledger)
    requires LogEnds(before, closed, ids, ledger) && x !in ids && x in ledger
    requires LogExtends(closed, retried, x, Retries(RetryEvents(ledger[x])))
    requires LogExtends(retried, after, x, EndMarks(ledger[x]))
    ensures LogEnds(before, after, ids + {x}, ledger)
  {
    hide Project, Retries, EndMarks, RetryEvents;
    LogJoined(closed, retried, after, x, Retries(RetryEvents(ledger[x])), EndMarks(ledger[x]));
    assert Project(closed, x) + [] == Project(closed, x);
    forall y ensures Project(after, y) ==
                     Project(before, y) + if y in ids + {x} && y in ledger then Closing(ledger[y]) else []
    {
      assert Project(after, y) == Project(closed, y) + if y == x then Closing(ledger[x]) else [];
    }
  }

  lemma ClosingAssembled(o: Outcome)
    requires !o.Skip?
    ensures [Mark(StepStarted, None)] + Closing(o) == TraceOf(o)
  {
    TraceAssembled([], o);
  }

  lemma NothingLogged(events: seq<Event>, ids: set<Id>)
    requires forall x :: Project(events, x) == []
    ensures LogMatches(events, ids, map[])
  {
  }

  /** The run's own events belong to no step. */
  lemma LogKept(before: seq<Event>, after: seq<Event>, ids: set<Id>, ledger: Ledger)
    requires LogMatches(before, ids, ledger)
    requires forall x :: Project(after, x) == Project(before, x)
    ensures LogMatches(after, ids, ledger)
  {
  }

  lemma LogGrows(before: seq<Event>, after: seq<Event>, ids: set<Id>, ledger: Ledger, x: Id, o: Outcome)
    requires LogMatches(before, ids, ledger) && x in ids && x !in ledger
    requires LogExtends(before, after, x, TraceOf(o))
    ensures LogMatches(after, ids, ledger[x := o]) && before <= after
  {
    hide TraceOf, Project;
    assert Project(before, x) == [];
  }

  /** How the log of a step that ran is put together. */
  function EndMarks(o: Outcome): seq<Mark> {
    match o
    case Skip => []
    case Done(_, f) => [Mark(StepCompleted, Some(f + 1))]
    case Dead(_, n) => [Mark(StepFailed, Some(n + 1)), Mark(DlqRecorded, Some(n + 1))]
  }

  lemma TraceAssembled(before: seq<Mark>, o: Outcome)
    requires !o.Skip?
    ensures before + [Mark(StepStarted, None)] + Retries(RetryEvents(o)) + EndMarks(o) == before + TraceOf(o)
  {
  }

  lemma {:induction false} RetriesAt(n: nat, i: nat)
    requires i < n
    ensures |Retries(n)| == n && Retries(n)[i] == Mark(StepRetry, Some(i + 1))
  {
    if i < n - 1 {
      RetriesAt(n - 1, i);
    } else if n > 1 {
      RetriesAt(n - 1, 0);
    }
  }

  /** Outcomes that leave the same events differ at most in the value or message they carry. */
  lemma TraceTellsOutcome(a: Outcome, b: Outcome)
    requires TraceOf(a) == TraceOf(b)
    ensures a.Skip? == b.Skip? && a.Done? == b.Done?
    ensures a.Done? ==> a.failures == b.failures
    ensures a.Dead? ==> a.retries == b.retries
  {
    LastMark(a);
    LastMark(b);
  }

  lemma LastMark(o: Outcome)
    ensures var t := TraceOf(o);
            |t| > 0 && t[|t| - 1] == match o
                                     case Skip => Mark(StepSkipped, None)
                                     case Done(_, f) => Mark(StepCompleted, Some(f + 1))
                                     case Dead(_, n) => Mark(DlqRecorded, Some(n + 1))
  {
  }

  // ----- The order of events -----

  /** Before event i, step y was skipped, completed or failed. */
  ghost predicate OverBefore(events: seq<Event>, i: nat, y: Id) {
    exists j :: 0 <= j < i && j < |events| && events[j].stepId == Some(y)
                && events[j].kind in {StepSkipped, StepCompleted, StepFailed}
  }

  /** Nothing is logged about a step before everything it waits for is over. */
  ghost predicate InOrder(g: Arrows, events: seq<Event>) {
    forall i, x, y {:trigger events[i], (x, y) in g} ::
      0 <= i < |events| && events[i].stepId == Some(x) && (x, y) in g ==> OverBefore(events, i, y)
  }

  lemma ProjectSnoc(events: seq<Event>, last: Event, x: Id)
    ensures Project(events + [last], x) ==
            Project(events, x) + if last.stepId == Some(x) then [Mark(last.kind, last.attempt)] else []
  {
    assert (events + [last])[..|events|] == events;
  }

  /** A longer log says no less about a step, and more if it has an event more of that step. */
  lemma {:induction false} ProjectGrows(before: seq<Event>, after: seq<Event>, x: Id)
    requires before <= after
    ensures |Project(after, x)| >= |Project(before, x)|
    ensures (exists i :: |before| <= i < |after| && after[i].stepId == Some(x)) ==>
              |Project(after, x)| > |Project(before, x)|
    decreases |after|
  {
    hide Project;
    if before == after {
    } else {
      var init, last := after[..|after| - 1], after[|after| - 1];
      assert after == init + [last] && before <= init;
      ProjectGrows(before, init, x);
      ProjectSnoc(init, last, x);
      if i :| |before| <= i < |after| && after[i].stepId == Some(x) {
        assert i < |init| ==> init[i] == after[i];
      }
    }
  }

  /** Every mark of a step stems from an event. */
  lemma {:induction false} MarkHasEvent(events: seq<Event>, x: Id, m: Mark)
    requires m in Project(events, x)
    ensures exists j :: 0 <= j < |events| && events[j].stepId == Some(x) && events[j].kind == m.kind
  {
    var init, last := events[..|events| - 1], events[|events| - 1];
    assert events == init + [last];
    ProjectSnoc(init, last, x);
    if m in Project(init, x) {
      MarkHasEvent(init, x, m);
      var j :| 0 <= j < |init| && init[j].stepId == Some(x) && init[j].kind == m.kind;
      assert events[j] == init[j];
    } else {
      assert events[|events| - 1] == last;
    }
  }

  /** In a matching log the steps that have an outcome are over. */
  lemma OutcomesAreOver(events: seq<Event>, all: set<Id>, ledger: Ledger, y: Id)
    requires LogMatches(events, all, ledger) && y in all && y in ledger
    ensures OverBefore(events, |events|, y)
  {
    var o := ledger[y];
    TraceReads(o);
    var m := TraceOf(o)[match o case Skip => 0 case Done(_, f) => f + 1 case Dead(_, n) => n + 1];
    assert m in Project(events, y);
    MarkHasEvent(events, y, m);
  }

  /** Events of steps whose sources have ended keep the log in order. */
  lemma OrderKept(g: Arrows, before: seq<Event>, after: seq<Event>, ids: set<Id>, all: set<Id>, ledger: Ledger)
    requires InOrder(g, before) && LogMatches(before, all, ledger) && before <= after
    requires forall z {:trigger Project(after, z)} :: z !in ids ==> Project(after, z) == Project(before, z)
    requires forall z, y :: z in ids && (z, y) in g ==> y in all && y in ledger
    ensures InOrder(g, after)
  {
    forall i, x, y | 0 <= i < |after| && after[i].stepId == Some(x) && (x, y) in g ensures OverBefore(after, i, y) {
      if i < |before| {
        assert before[i] == after[i];
        var j :| 0 <= j < i && before[j].stepId == Some(y)
                 && before[j].kind in {StepSkipped, StepCompleted, StepFailed};
        assert after[j] == before[j];
      } else {
        ProjectGrows(before, after, x);
        OutcomesAreOver(before, all, ledger, y);
        var j :| 0 <= j < |before| && before[j].stepId == Some(y)
                 && before[j].kind in {StepSkipped, StepCompleted, StepFailed};
        assert after[j] == before[j];
      }
    }
  }

  lemma NothingOutOfOrder(g: Arrows, events: seq<Event>)
    requires forall x :: Project(events, x) == []
    ensures InOrder(g, events)
  {
    forall i, x | 0 <= i < |events| && events[i].stepId == Some(x) ensures false {
      ProjectGrows([], events, x);
    }
  }
}

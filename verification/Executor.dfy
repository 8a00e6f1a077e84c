/**
 executor.WorkflowExecutor: the sequential and the parallel scheduler over one retry loop.

 Two ghost fields say what the concrete books mean at any moment: the ledger of ended
 steps and the failures so far of the steps in flight.
 */
module Executor {
  import opened Wrappers
  import opened Graphs
  import opened Definitions
  import opened Semantics
  import opened Trace
  import opened Books
  import opened Transitions
  import opened Rounds
  import Backoff

  /** Events of a ready step come after the ends of all that it waits for. */
  lemma StepInOrder(steps: seq<Step>, s: Step, before: seq<Event>, after: seq<Event>, ledger: Ledger, added: seq<Mark>)
    requires WellFormed(steps) && s in steps && s.Ready(ledger.Keys) && ledger.Keys <= Ids(steps)
    requires InOrder(Dependencies(steps), before) && LogMatches(before, Ids(steps), ledger)
    requires LogExtends(before, after, s.id, added)
    ensures InOrder(Dependencies(steps), after)
  {
    hide InOrder, LogMatches, Project;
    ReadyIsMet(steps, s, ledger.Keys);
    assert forall z :: z != s.id ==> Project(after, z) == Project(before, z) + [];
    OrderKept(Dependencies(steps), before, after, {s.id}, Ids(steps), ledger);
  }

  /** One step ends in a sequential pass. */
  lemma PassAdvances(steps: seq<Step>, i: nat, done: set<Id>, first: Ledger, ledger: Ledger, ledger': Ledger,
                     start: seq<Event>, before: seq<Event>, after: seq<Event>)
    requires WellFormed(steps) && ledger.Keys <= Ids(steps) && Kept(first, ledger)
    requires i < |steps| && steps[i].Ready(ledger.Keys) && steps[i].id !in ledger
    requires steps[i].id in ledger' && ledger' == ledger[steps[i].id := ledger'[steps[i].id]]
    requires LogExtends(before, after, steps[i].id, TraceOf(ledger'[steps[i].id]))
    requires InOrder(Dependencies(steps), before) && LogMatches(before, Ids(steps), ledger)
    requires PassSoFar(steps, i, done, ledger, start, before)
    ensures InOrder(Dependencies(steps), after) && LogMatches(after, Ids(steps), ledger') && before <= after
    ensures PassSoFar(steps, i + 1, done, ledger', start, after) && Kept(first, ledger')
  {
    hide TraceOf, Project, LogMatches, InOrder, LogExtends, WellFormed, PassSoFar, Kept;
    StepInOrder(steps, steps[i], before, after, ledger, TraceOf(ledger'[steps[i].id]));
    LogGrows(before, after, Ids(steps), ledger, steps[i].id, ledger'[steps[i].id]);
    PassTakes(steps, i, done, ledger, ledger', start, before, after);
    KeptOneMore(first, ledger, steps[i].id, ledger'[steps[i].id]);
  }

  /** One step is skipped in the scan for a layer. */
  lemma ScanAdvances(steps: seq<Step>, i: nat, done: set<Id>, first: Ledger, ledger: Ledger, layer: seq<Step>,
                     start: seq<Event>, before: seq<Event>, after: seq<Event>)
    requires WellFormed(steps) && ledger.Keys <= Ids(steps) && Kept(first, ledger)
    requires i < |steps| && steps[i].Ready(ledger.Keys) && steps[i].id !in ledger
    requires LogExtends(before, after, steps[i].id, TraceOf(Skip))
    requires InOrder(Dependencies(steps), before) && LogMatches(before, Ids(steps), ledger)
    requires ScanSoFar(steps, i, done, ledger, layer, start, before)
    ensures var ledger' := ledger[steps[i].id := Skip];
            && InOrder(Dependencies(steps), after) && LogMatches(after, Ids(steps), ledger') && before <= after
            && ScanSoFar(steps, i + 1, done, ledger', layer, start, after) && Kept(first, ledger')
  {
    hide TraceOf, Project, LogMatches, InOrder, LogExtends, UniqueIds, ScanSoFar, Kept;
    StepInOrder(steps, steps[i], before, after, ledger, TraceOf(Skip));
    LogGrows(before, after, Ids(steps), ledger, steps[i].id, Skip);
    ScanSkips(steps, i, done, ledger, layer, start, before, after);
    KeptOneMore(first, ledger, steps[i].id, Skip);
  }

  /** Events of a layer come after the ends of all that its steps wait for. */
  lemma LayerInOrder(steps: seq<Step>, layer: seq<Step>, before: seq<Event>, started: seq<Event>, after: seq<Event>,
                     ledger: Ledger, ledger': Ledger)
    requires WellFormed(steps) && Layer(steps, ledger, layer) && ledger.Keys <= Ids(steps)
    requires InOrder(Dependencies(steps), before) && LogMatches(before, Ids(steps), ledger)
    requires LogStarts(before, started, Ids(layer)) && LogEnds(started, after, Ids(layer), ledger')
    ensures InOrder(Dependencies(steps), after)
  {
    hide InOrder, LogMatches, Project;
    var ids := Ids(layer);
    forall z {:trigger Project(after, z)} | z !in ids ensures Project(after, z) == Project(before, z) {
      assert Project(started, z) == Project(before, z) + [];
      assert Project(after, z) == Project(started, z) + [];
    }
    forall z, y | z in ids && (z, y) in Dependencies(steps) ensures y in Ids(steps) && y in ledger {
      var s :| s in layer && s.id == z;
      var i :| 0 <= i < |layer| && layer[i] == s;
      ReadyIsMet(steps, layer[i], ledger.Keys);
    }
    OrderKept(Dependencies(steps), before, after, ids, Ids(steps), ledger);
  }

  predicate IsParallel(concurrencyLimit: Option<int>) {
    concurrencyLimit.Some? && concurrencyLimit.value > 1
  }

  class WorkflowExecutor {
    const steps: seq<Step>
    const oracle: Oracle
    const registry: set<string>
    const maxBackoff: real
    const concurrencyLimit: Option<int>
    const trace: TraceContext

    var statuses: map<Id, Status>
    var results: Context
    var errors: map<Id, string>
    var retryCounts: map<Id, nat>
    var attemptCounts: map<Id, nat>
    var deadLetters: seq<DeadLetter>
    /** The calls of the sleep function. */
    var sleeps: seq<real>

    ghost var ledger: Ledger
    ghost var inFlight: Progress

    ghost function Current(): Books
      reads this
    {
      Books(statuses, results, errors, retryCounts, attemptCounts, deadLetters)
    }

    ghost predicate Valid()
      reads this, trace
    {
      State(steps, oracle, ledger, inFlight, Current()) && Numbered(trace.events)
      && Rested(sleeps, steps, retryCounts, maxBackoff)
    }

    /**
     The log holds exactly the events of the steps that have ended, and nothing about a step
     before everything it waits for was over.
     */
    ghost predicate Traced()
      reads this, trace
    {
      LogMatches(trace.events, Ids(steps), ledger) && InOrder(Dependencies(steps), trace.events)
    }

    constructor (steps: seq<Step>, oracle: Oracle, registry: set<string>, maxBackoff: real,
                 concurrencyLimit: Option<int>, trace: TraceContext)
      requires WellFormed(steps)
      requires Numbered(trace.events) && forall x :: Project(trace.events, x) == []
      ensures this.steps == steps && this.oracle == oracle && this.registry == registry
      ensures this.maxBackoff == maxBackoff && this.concurrencyLimit == concurrencyLimit && this.trace == trace
      ensures Valid() && Traced() && ledger == map[] && inFlight == map[] && sleeps == []
    {
      this.steps := steps;
      this.oracle := oracle;
      this.registry := registry;
      this.maxBackoff := maxBackoff;
      this.concurrencyLimit := concurrencyLimit;
      this.trace := trace;
      statuses := AllPending(steps);
      results := map[];
      errors := map[];
      retryCounts := NoFailures(steps);
      attemptCounts := NoFailures(steps);
      deadLetters := [];
      sleeps := [];
      ledger := map[];
      inFlight := map[];
      new;
      hide State, Rested, WellFormed, AllPending, NoFailures, Project, Consistent, Match;
      InitialState(steps, oracle, Current());
      NothingRested(steps, maxBackoff);
      NothingLogged(trace.events, Ids(steps));
      NothingOutOfOrder(Dependencies(steps), trace.events);
    }

    // ----- One attempt, and the retry loop -----

    /**
     The body of the retry loop: attempt number `attempt` of a running step. If it raises, the
     message is the last error.
     */
    method Try(step: Step, context: Context, attempt: nat, emitTrace: bool, ghost lastError: string)
      returns (succeeded: bool, message: string)
      requires Valid() && step.id in inFlight && inFlight[step.id] == attempt <= step.retries
      requires Thread(steps, oracle, ledger, step, context, attempt, lastError)
      modifies this, trace
      ensures Valid()
      ensures succeeded ==>
                && Eval(oracle, step, context).Done?
                && ledger == old(ledger)[step.id := Eval(oracle, step, context)]
                && inFlight == old(inFlight) - {step.id}
                && sleeps == old(sleeps)
                && Eval(oracle, step, context).failures == attempt
      ensures !succeeded ==>
                && ledger == old(ledger)
                && inFlight == old(inFlight)[step.id := attempt + 1]
                && Thread(steps, oracle, ledger, step, context, attempt + 1, message)
                && sleeps == old(sleeps) +
                             if attempt < step.retries then [Backoff.Delay(attempt, maxBackoff)] else []
      ensures Undisturbed(steps, old(ledger), ledger)
      ensures !emitTrace ==> trace.events == old(trace.events)
      ensures LogExtends(old(trace.events), trace.events, step.id,
                         if emitTrace && !succeeded && attempt < step.retries
                         then [Mark(StepRetry, Some(attempt + 1))] else [])
    {
      hide State, Thread, Undisturbed, Rested, LogExtends, Project, WellFormed, Consistent, Match;
      ThreadStep(steps, oracle, ledger, step, context, attempt, lastError);
      NothingEmitted(trace.events, step.id);
      message := "";
      attemptCounts := attemptCounts[step.id := attempt + 1];
      match oracle(step, attempt, context) {
        case Returned(res) =>
          SuccessState(steps, oracle, ledger, inFlight, old(Current()), step, context, lastError, res);
          EndingIsUndisturbing(steps, oracle, ledger, inFlight, old(Current()), step.id, Done(res, attempt));
          results := results[step.id := res];
          statuses := statuses[step.id := Completed];
          ledger := ledger[step.id := Done(res, attempt)];
          inFlight := inFlight - {step.id};
          succeeded := true;
        case Raised(exc) =>
          FailureState(steps, oracle, ledger, inFlight, old(Current()), step, context, lastError, exc, attempt + 1);
          FailureRests(steps, oracle, ledger, inFlight, old(Current()), step, sleeps, maxBackoff);
          NothingIsUndisturbing(steps, ledger);
          message := exc;
          retryCounts := retryCounts[step.id := attempt + 1];
          inFlight := inFlight[step.id := attempt + 1];
          if attempt < step.retries {
            if emitTrace {
              trace.Emit(StepRetry, Some(step.id), Some(attempt + 1));
              Emitted(old(trace.events), trace.events, StepRetry, step.id, Some(attempt + 1));
            }
            sleeps := sleeps + [Backoff.Delay(attempt, maxBackoff)];
          }
          succeeded := false;
      }
    }

    /** What follows the loop when every attempt has raised. */
    method GiveUp(step: Step, lastError: string, ghost context: Context)
      requires Valid() && step.id in inFlight && inFlight[step.id] == step.retries + 1
      requires Thread(steps, oracle, ledger, step, context, step.retries + 1, lastError)
      modifies this
      ensures Valid() && sleeps == old(sleeps)
      ensures Eval(oracle, step, context) == Dead(lastError, step.retries)
      ensures ledger == old(ledger)[step.id := Eval(oracle, step, context)]
      ensures inFlight == old(inFlight) - {step.id}
      ensures Undisturbed(steps, old(ledger), ledger)
    {
      hide State, Rested, Thread, Undisturbed, WellFormed, Consistent, Match;
      DeathState(steps, oracle, ledger, inFlight, Current(), step, context, lastError);
      EndingIsUndisturbing(steps, oracle, ledger, inFlight, Current(), step.id, Dead(lastError, step.retries));
      statuses := statuses[step.id := Failed];
      errors := errors[step.id := lastError];
      deadLetters := deadLetters + [DeadLetter(step.id, step.task, lastError, retryCounts[step.id], step.params)];
      ledger := ledger[step.id := Dead(lastError, step.retries)];
      inFlight := inFlight - {step.id};
    }

    /** The retry loop of one step, as the sequential scheduler runs it. */
    method RunWithRetry(step: Step, context: Context) returns (succeeded: bool)
      requires Valid() && step.id in inFlight && inFlight[step.id] == 0
      requires Thread(steps, oracle, ledger, step, context, 0, "")
      modifies this, trace
      ensures Valid() && Undisturbed(steps, old(ledger), ledger)
      ensures ledger == old(ledger)[step.id := Eval(oracle, step, context)]
      ensures inFlight == old(inFlight) - {step.id}
      ensures succeeded <==> Eval(oracle, step, context).Done?
      ensures !succeeded ==> Eval(oracle, step, context).Dead?
      ensures sleeps == old(sleeps) + Backoff.Delays(RetryEvents(Eval(oracle, step, context)), maxBackoff)
      ensures LogExtends(old(trace.events), trace.events, step.id, Retries(RetryEvents(Eval(oracle, step, context))))
    {
      hide State, Rested, Thread, Undisturbed, LogExtends, Project, WellFormed, Consistent, Match;
      NothingEmitted(trace.events, step.id);
      var lastError := "";
      for attempt := 0 to step.retries + 1
        invariant Valid() && ledger == old(ledger) && inFlight == old(inFlight)[step.id := attempt]
        invariant Thread(steps, oracle, ledger, step, context, attempt, lastError)
        invariant sleeps == old(sleeps) + Backoff.Delays(Backoff.Min(attempt, step.retries), maxBackoff)
        invariant LogExtends(old(trace.events), trace.events, step.id, Retries(Backoff.Min(attempt, step.retries)))
      {
        ghost var soFar := trace.events;
        var done, message := Try(step, context, attempt, true, lastError);
        RetriesGrow(attempt);
        LogJoined(old(trace.events), soFar, trace.events, step.id, Retries(attempt),
                  if !done && attempt < step.retries then [Mark(StepRetry, Some(attempt + 1))] else []);
        if done {
          return true;
        }
        lastError := message;
      }
      GiveUp(step, lastError, context);
      return false;
    }

    /** Log how a step ended: step.completed, or step.failed and dlq.recorded. */
    method LogEnd(step: Step, succeeded: bool)
      requires Valid() && step in steps && step.id in ledger && !ledger[step.id].Skip?
      requires succeeded == ledger[step.id].Done?
      modifies trace
      ensures Valid()
      ensures LogExtends(old(trace.events), trace.events, step.id, EndMarks(ledger[step.id]))
    {
      hide State, Rested, WellFormed, Consistent, Match;
      StateAt(steps, oracle, ledger, inFlight, Current(), step);
      var attempts := attemptCounts[step.id];
      trace.Emit(if succeeded then StepCompleted else StepFailed, Some(step.id), Some(attempts));
      if !succeeded {
        trace.Emit(DlqRecorded, Some(step.id), Some(attempts));
      }
    }

    /** _run_step: start, retry until it ends, and log how it ended. */
    method RunStep(step: Step)
      requires Valid() && step.id !in ledger && step.id !in inFlight
      requires Launchable(steps, ledger, step)
      modifies this, trace
      ensures Valid() && Undisturbed(steps, old(ledger), ledger) && inFlight == old(inFlight)
      ensures ledger == old(ledger)[step.id := Eval(oracle, step, old(results))]
      ensures sleeps == old(sleeps) + Backoff.Delays(RetryEvents(ledger[step.id]), maxBackoff)
      ensures LogExtends(old(trace.events), trace.events, step.id, TraceOf(ledger[step.id]))
    {
      hide State, Rested, Thread, Undisturbed, LogExtends, Project, TraceOf, EndMarks, Retries, RetryEvents,
           WellFormed, Consistent, Match;
      StartState(steps, oracle, ledger, inFlight, Current(), step);
      LaunchThread(steps, oracle, ledger, inFlight, Current(), step);
      StateAt(steps, oracle, ledger, inFlight, Current(), step);
      statuses := statuses[step.id := Running];
      inFlight := inFlight[step.id := 0];
      trace.Emit(StepStarted, Some(step.id), None);
      ghost var started := trace.events;
      Emitted(old(trace.events), started, StepStarted, step.id, None);
      var succeeded := RunWithRetry(step, results);
      ghost var retried := trace.events;
      LogEnd(step, succeeded);
      StepLogged(old(trace.events), started, retried, trace.events, step.id, ledger[step.id]);
    }

    /** A ready step whose condition does not hold: resolved without running. */
    method SkipStep(step: Step)
      requires Valid() && step in steps && step.id !in ledger && step.id !in inFlight
      requires step.Ready(ledger.Keys) && !step.Enabled(results)
      modifies this, trace
      ensures Valid() && inFlight == old(inFlight) && sleeps == old(sleeps) && results == old(results)
      ensures ledger == old(ledger)[step.id := Skip]
      ensures LogExtends(old(trace.events), trace.events, step.id, TraceOf(Skip))
    {
      hide State, Rested, WellFormed, Consistent, Match;
      SkipState(steps, oracle, ledger, inFlight, Current(), step);
      statuses := statuses[step.id := Skipped];
      ledger := ledger[step.id := Skip];
      trace.Emit(StepSkipped, Some(step.id), None);
    }

    // ----- The sequential scheduler -----

    /** What a scheduler keeps between two steps, with resolved the steps that have ended. */
    ghost predicate Idle(resolved: set<Id>)
      reads this, trace
    {
      Valid() && Traced() && inFlight == map[] && resolved == ledger.Keys
    }

    /**
     _run_legacy_yaml_order: one pass in definition order. A step resolved by the pass is
     visible to the steps after it; everything ready before the pass has ended after it.
     */
    method RunYamlOrder(resolved: set<Id>) returns (executed: bool, resolved': set<Id>)
      requires Idle(resolved)
      modifies this, trace
      ensures Idle(resolved')
      ensures resolved <= resolved' && (executed <==> resolved < resolved') && old(trace.events) <= trace.events
      ensures RoundDone(steps, resolved, resolved') && Kept(old(ledger), ledger)
      ensures resolved' == AfterRound(false, steps, resolved, ledger)
      ensures Told(old(trace.events), trace.events, RoundLines(false, steps, resolved, ledger))
    {
      hide State, Rested, TraceOf, Project, Undisturbed, LogMatches, InOrder, LogExtends, WellFormed, Consistent, Match,
           PassSoFar, Kept, AfterRound, RoundLines, Told;
      executed, resolved' := false, resolved;
      NothingLost(ledger);
      PassBegins(steps, ledger, trace.events);
      for i := 0 to |steps|
        invariant Idle(resolved') && Kept(old(ledger), ledger)
        invariant PassSoFar(steps, i, resolved, ledger, old(trace.events), trace.events)
        invariant resolved <= resolved' && (executed <==> resolved < resolved') && old(trace.events) <= trace.events
      {
        var step := steps[i];
        StateIsKnown(steps, oracle, ledger, inFlight, Current());
        StateAt(steps, oracle, ledger, inFlight, Current(), step);
        if statuses[step.id] == Pending && step.Ready(resolved') {
          ghost var before, events := ledger, trace.events;
          if step.Enabled(results) {
            RunStep(step);
          } else {
            SkipStep(step);
          }
          PassAdvances(steps, i, resolved, old(ledger), before, ledger, old(trace.events), events, trace.events);
          resolved' := resolved' + {step.id};
          executed := true;
        } else {
          PassLeaves(steps, i, resolved, ledger, old(trace.events), trace.events);
        }
      }
      PassEnds(steps, resolved, ledger, old(trace.events), trace.events);
      PassCovers(steps, resolved, ledger);
    }

    // ----- The parallel scheduler -----

    /**
     _collect_runnable: one scan that resolves the ready steps whose condition does not hold
     and collects the ready steps whose condition does.
     */
    method CollectRunnable(resolved: set<Id>) returns (runnable: seq<Step>, skipped: bool, resolved': set<Id>)
      requires Idle(resolved)
      modifies this, trace
      ensures Idle(resolved') && Layer(steps, ledger, runnable)
      ensures resolved <= resolved' && (skipped <==> resolved < resolved') && old(trace.events) <= trace.events
      ensures RoundDone(steps, resolved, resolved' + Ids(runnable)) && Kept(old(ledger), ledger)
      ensures resolved' == Scanned(steps, resolved, SkipsOf(ledger))
      ensures runnable == Collected(steps, resolved, SkipsOf(ledger))
      ensures Told(old(trace.events), trace.events, ScanLines(steps, resolved, SkipsOf(ledger)))
    {
      hide State, Rested, TraceOf, Project, Layer, CollectedFrom, LogMatches, InOrder, LogExtends, WellFormed,
           UniqueIds, Consistent, Match, ScanSoFar, Kept, Scanned, Collected, ScanLines, Told, SkipsOf;
      runnable, skipped, resolved' := [], false, resolved;
      EmptyLayer(steps, ledger);
      NothingLost(ledger);
      ScanBegins(steps, ledger, trace.events);
      for i := 0 to |steps|
        invariant ScanSoFar(steps, i, resolved, ledger, runnable, old(trace.events), trace.events)
        invariant Kept(old(ledger), ledger)
        invariant Idle(resolved') && Layer(steps, ledger, runnable) && CollectedFrom(steps, i, runnable)
        invariant resolved <= resolved' && (skipped <==> resolved < resolved') && old(trace.events) <= trace.events
        invariant forall j :: 0 <= j < i && steps[j].Ready(resolved) ==>
                                steps[j].id in resolved' || steps[j] in runnable
      {
        var step := steps[i];
        StateIsKnown(steps, oracle, ledger, inFlight, Current());
        StateAt(steps, oracle, ledger, inFlight, Current(), step);
        NotCollected(steps, runnable, i);
        if statuses[step.id] == Pending && step.Ready(resolved') {
          if step.Enabled(results) {
            LayerGrows(steps, ledger, runnable, i);
            ScanCollects(steps, i, resolved, ledger, runnable, old(trace.events), trace.events);
            runnable := runnable + [step];
          } else {
            LayerSurvivesSkip(steps, ledger, runnable, i);
            ghost var before, events := ledger, trace.events;
            SkipStep(step);
            ScanAdvances(steps, i, resolved, old(ledger), before, runnable, old(trace.events), events, trace.events);
            resolved' := resolved' + {step.id};
            skipped := true;
          }
        } else {
          ScanLeaves(steps, i, resolved, ledger, runnable, old(trace.events), trace.events);
          if step.Ready(resolved) {
            ReadyGrows(step, resolved, resolved');
          }
        }
      }
      ScanEnds(steps, resolved, ledger, runnable, old(trace.events), trace.events);
    }

    /** Mark every step of the layer RUNNING and log that it starts. */
    method StartLayer(layer: seq<Step>)
      requires Valid() && inFlight == map[] && Layer(steps, ledger, layer)
      modifies this, trace
      ensures Valid() && ledger == old(ledger) && sleeps == old(sleeps)
      ensures inFlight == Starting(Ids(layer)) && LogStarts(old(trace.events), trace.events, Ids(layer))
      ensures Told(old(trace.events), trace.events, StartLines(layer))
    {
      hide State, Rested, Project, Launchable, LogStarts, LogExtends, Layer, Ids, UniqueIds, Starting, WellFormed,
           Consistent, Match, Told, StartLines, EndLines;
      NothingStarted(trace.events, ledger);
      NoneStarted(trace.events);
      NoIds();
      assert layer[..0] == [];
      for i := 0 to |layer|
        invariant Valid() && ledger == old(ledger) && sleeps == old(sleeps)
        invariant inFlight == Starting(Ids(layer[..i])) && LogStarts(old(trace.events), trace.events, Ids(layer[..i]))
        invariant Told(old(trace.events), trace.events, StartLines(layer[..i]))
      {
        var step := layer[i];
        LayerAt(steps, ledger, layer, i);
        StartState(steps, oracle, ledger, inFlight, Current(), step);
        ghost var events := trace.events;
        statuses := statuses[step.id := Running];
        inFlight := inFlight[step.id := 0];
        trace.Emit(StepStarted, Some(step.id), None);
        Emitted(events, trace.events, StepStarted, step.id, None);
        OneMoreStarted(old(trace.events), events, trace.events, Ids(layer[..i]), step.id);
        OneStartTold(layer, i, old(trace.events), events, trace.events);
      }
      assert layer[..|layer|] == layer;
    }

    /**
     The thread pool: at every moment any step of the layer may be the one to act, by being
     submitted, by making its next attempt or by giving up. Whatever the order, every step
     ends, and ends as its own outcome in the results it was handed.
     */
    method RunLayer(layer: seq<Step>) returns (outcomes: map<Id, bool>)
      requires Valid() && Layer(steps, ledger, layer) && inFlight == Starting(Ids(layer))
      modifies this, trace
      ensures Valid() && inFlight == map[] && trace.events == old(trace.events)
      ensures ledger.Keys == old(ledger).Keys + Ids(layer) && ledger - Ids(layer) == old(ledger)
      ensures LayerEnded(steps, ledger, outcomes, layer)
      ensures Rested(sleeps, steps, retryCounts, maxBackoff)
    {
      hide State, Rested, Thread, Launchable, Undisturbed, Project, WellFormed, LayerInProgress, Layer, Ids, Tokens,
           UniqueIds, Slot, Consistent, Match;
      var submitted := 0;
      var workers: map<Id, Worker> := map[];
      outcomes := map[];
      LayerWaits(steps, oracle, ledger, layer);
      while submitted < |layer| || workers != map[]
        invariant Valid() && trace.events == old(trace.events) && submitted <= |layer|
        invariant LayerInProgress(steps, oracle, ledger, inFlight, layer, submitted, workers, outcomes)
        invariant ledger.Keys == old(ledger).Keys + (Ids(layer) - inFlight.Keys)
        invariant ledger - Ids(layer) == old(ledger)
        decreases Tokens(layer, inFlight), |layer| - submitted
      {
        if {
          case submitted < |layer| =>
            SubmitWorker(steps, oracle, ledger, inFlight, layer, submitted, workers, outcomes, Current());
            StateIsKnown(steps, oracle, ledger, inFlight, Current());
            workers := workers[layer[submitted].id := Worker(results, 0, "")];
            submitted := submitted + 1;
          case workers != map[] =>
            SomeWorker(steps, oracle, ledger, inFlight, layer, submitted, workers, outcomes);
            var i: nat :| i < submitted && layer[i].id in workers;
            workers, outcomes := Act(layer, submitted, workers, outcomes, i);
        }
      }
      LayerFinished(steps, oracle, ledger, inFlight, layer, outcomes);
    }

    /** One action of the worker of layer[i]: its next attempt, or giving up after the last one. */
    method Act(layer: seq<Step>, submitted: nat, workers: map<Id, Worker>, outcomes: map<Id, bool>, i: nat)
      returns (workers': map<Id, Worker>, outcomes': map<Id, bool>)
      requires Valid() && submitted <= |layer|
      requires LayerInProgress(steps, oracle, ledger, inFlight, layer, submitted, workers, outcomes)
      requires i < submitted && layer[i].id in workers
      modifies this, trace
      ensures Valid() && trace.events == old(trace.events)
      ensures LayerInProgress(steps, oracle, ledger, inFlight, layer, submitted, workers', outcomes')
      ensures Tokens(layer, inFlight) < Tokens(layer, old(inFlight))
      ensures ledger.Keys == old(ledger).Keys + (old(inFlight).Keys - inFlight.Keys)
      ensures inFlight.Keys <= old(inFlight).Keys
      ensures ledger - Ids(layer) == old(ledger) - Ids(layer)
    {
      hide State, Rested, Thread, Launchable, Undisturbed, Project, WellFormed, LayerInProgress, Tokens, LogExtends,
           Ids, Consistent, Match;
      var step, w := layer[i], workers[layer[i].id];
      WorkerAt(steps, oracle, ledger, inFlight, layer, submitted, workers, outcomes, i);
      StateIsKnown(steps, oracle, ledger, inFlight, Current());
      WorkerUsesTokens(steps, oracle, ledger, inFlight, layer, submitted, workers, outcomes, i);
      if w.attempt <= step.retries {
        var done, message := Try(step, w.context, w.attempt, false, w.lastError);
        if !done {
          workers' := workers[step.id := Worker(w.context, w.attempt + 1, message)];
          outcomes' := outcomes;
          WorkerRetries(steps, oracle, ledger, old(inFlight), layer, submitted, workers, outcomes, i,
                        workers'[step.id]);
          return;
        }
        outcomes' := outcomes[step.id := true];
      } else {
        GiveUp(step, w.lastError, w.context);
        outcomes' := outcomes[step.id := false];
      }
      workers' := workers - {step.id};
      WorkerEnds(steps, oracle, old(ledger), old(inFlight), layer, submitted, workers, outcomes, i, ledger[step.id]);
    }

    /** The retry events of a step that ran on a thread, rebuilt from its retry count. */
    method LogRetries(step: Step)
      requires Valid() && step in steps && step.id in ledger
      modifies trace
      ensures Valid()
      ensures LogExtends(old(trace.events), trace.events, step.id, Retries(RetryEvents(ledger[step.id])))
    {
      hide State, Rested, Project, WellFormed, Consistent, Match;
      StateAt(steps, oracle, ledger, inFlight, Current(), step);
      var retryEvents := if retryCounts[step.id] <= step.retries then retryCounts[step.id] else step.retries;
      for attempt := 1 to retryEvents + 1
        invariant Valid()
        invariant LogExtends(old(trace.events), trace.events, step.id, Retries(attempt - 1))
      {
        trace.Emit(StepRetry, Some(step.id), Some(attempt));
      }
    }

    /** Log, in definition order, how the steps of a finished layer ended. */
    method PublishLayer(layer: seq<Step>, outcomes: map<Id, bool>)
      requires Valid() && LayerEnded(steps, ledger, outcomes, layer)
      modifies trace
      ensures Valid() && LogEnds(old(trace.events), trace.events, Ids(layer), ledger)
      ensures Told(old(trace.events), trace.events, EndLines(layer, ledger))
    {
      hide State, Rested, Project, Retries, EndMarks, RetryEvents, Closing, LogExtends, LayerEnded, UniqueIds, Ids,
           WellFormed, Consistent, Match, Told, StartLines, EndLines;
      NothingStarted(trace.events, ledger);
      NoIds();
      assert layer[..0] == [];
      for i := 0 to |layer|
        invariant Valid() && LogEnds(old(trace.events), trace.events, Ids(layer[..i]), ledger)
        invariant Told(old(trace.events), trace.events, EndLines(layer[..i], ledger))
      {
        var step := layer[i];
        EndedAt(steps, ledger, outcomes, layer, i);
        ghost var closed := trace.events;
        LogRetries(step);
        ghost var retried := trace.events;
        LogEnd(step, outcomes[step.id]);
        OneMoreClosed(old(trace.events), closed, retried, trace.events, Ids(layer[..i]), step.id, ledger);
        OneEndTold(layer, i, ledger, old(trace.events), closed, retried, trace.events);
      }
      assert layer[..|layer|] == layer;
    }

    /** _run_parallel: start a layer, run it on threads, then publish it. */
    method RunParallel(layer: seq<Step>)
      requires Valid() && Traced() && inFlight == map[] && Layer(steps, ledger, layer)
      modifies this, trace
      ensures Valid() && Traced() && inFlight == map[] && old(trace.events) <= trace.events
      ensures ledger.Keys == old(ledger).Keys + Ids(layer) && ledger - Ids(layer) == old(ledger)
      ensures NoneSkipped(ledger, Ids(layer))
      ensures Told(old(trace.events), trace.events, StartLines(layer) + EndLines(layer, ledger))
    {
      hide State, Rested, Layer, LogMatches, InOrder, LayerEnded, NoneSkipped, UniqueIds, WellFormed, Consistent, Match,
           Told, StartLines, EndLines;
      StateIsKnown(steps, oracle, ledger, inFlight, Current());
      StartLayer(layer);
      ghost var started := trace.events;
      var outcomes := RunLayer(layer);
      PublishLayer(layer, outcomes);
      LayerInOrder(steps, layer, old(trace.events), started, trace.events, old(ledger), ledger);
      ToldJoined(old(trace.events), started, trace.events, StartLines(layer), EndLines(layer, ledger));
      LayerEndedFacts(steps, ledger, outcomes, layer);
      LayerLogGrows(old(trace.events), started, trace.events, Ids(steps), Ids(layer), old(ledger), ledger);
    }

    /** One round of the parallel scheduler: collect a ready layer and run it. */
    method RunLayerRound(resolved: set<Id>) returns (executed: bool, resolved': set<Id>)
      requires Idle(resolved)
      modifies this, trace
      ensures Idle(resolved') && old(trace.events) <= trace.events
      ensures resolved <= resolved' && (executed <==> resolved < resolved')
      ensures RoundDone(steps, resolved, resolved') && Kept(old(ledger), ledger)
      ensures resolved' == AfterRound(true, steps, resolved, ledger)
      ensures Told(old(trace.events), trace.events, RoundLines(true, steps, resolved, ledger))
    {
      hide State, Rested, Layer, LogMatches, InOrder, RoundDone, UniqueIds, Ids, WellFormed, Consistent, Match,
           Kept, AfterRound, RoundLines, Told, Scanned, Collected, ScanLines, StartLines, EndLines, SkipsOf,
           NoneSkipped;
      var runnable;
      runnable, executed, resolved' := CollectRunnable(resolved);
      LayerIsNew(steps, ledger, runnable);
      ghost var skipped, events, before := resolved', trace.events, ledger;
      if runnable != [] {
        RunParallel(runnable);
        executed := true;
      } else {
        NoLayer(ledger, trace.events);
      }
      KeptApart(old(ledger), before, ledger, Ids(runnable));
      LayerCompletes(steps, resolved, before, runnable, ledger, old(trace.events), events, trace.events);
      assert runnable[..0] == [];
      NoIds();
      for i := 0 to |runnable|
        invariant resolved' == skipped + Ids(runnable[..i])
        modifies {}
      {
        IdsOneMore(runnable, i);
        resolved' := resolved' + {runnable[i].id};
      }
      assert runnable[..|runnable|] == runnable;
    }

    // ----- Runs -----

    /** The tasks of the workflow that nobody registered. */
    ghost function Missing(): set<string> {
      set s | s in steps && s.task !in registry :: s.task
    }

    /** validate_registry: the set it complains about, if it is not empty. */
    method ValidateRegistry() returns (missing: set<string>)
      ensures missing == Missing()
      ensures forall task :: task in missing <==> task !in registry && exists s :: s in steps && s.task == task
    {
      missing := {};
      for i := 0 to |steps|
        invariant missing == set s | s in steps[..i] && s.task !in registry :: s.task
      {
        assert steps[..i + 1] == steps[..i] + [steps[i]];
        if steps[i].task !in registry {
          missing := missing + {steps[i].task};
        }
      }
      assert steps[..|steps|] == steps;
    }

    /**
     What holds after a run: final books and a matching log. stalled says that the run left
     through the no-progress break, after one round more than the workflow needs.
     */
    ghost predicate Finished(rounds: nat, stalled: bool)
      reads this, trace
    {
      && Final(steps, oracle, Current(), ledger) && Traced() && Numbered(trace.events)
      && (stalled <==> ledger.Keys != Ids(steps))
      && (stalled ==> rounds > 0)
      && Rested(sleeps, steps, retryCounts, maxBackoff)
      && RoundsNeeded(Ids(steps), Dependencies(steps), if stalled then rounds - 1 else rounds)
    }

    /** The whole log of the run, line by line: the order of its steps is that of the scheduler. */
    ghost predicate LinesAre(before: seq<Event>, rounds: nat)
      reads this, trace
    {
      && ledger.Keys == Reached(IsParallel(concurrencyLimit), steps, ledger, rounds)
      && Told(before, trace.events,
              [Line(None, RunStarted, None)] + RunLines(IsParallel(concurrencyLimit), steps, ledger, rounds)
              + [Line(None, RunFinished(OverallStatus(statuses)), None)])
    }

    lemma AllTold(before: seq<Event>, started: seq<Event>, events: seq<Event>, rounds: nat)
      requires Told(before, started, [Line(None, RunStarted, None)])
      requires RunSoFar(IsParallel(concurrencyLimit), steps, ledger, rounds, started, events)
      requires Told(events, trace.events, [Line(None, RunFinished(OverallStatus(statuses)), None)])
      ensures LinesAre(before, rounds)
    {
      hide Told, RunLines;
      var lines := RunLines(IsParallel(concurrencyLimit), steps, ledger, rounds);
      ToldJoined(before, started, events, [Line(None, RunStarted, None)], lines);
      ToldJoined(before, events, trace.events, [Line(None, RunStarted, None)] + lines,
                 [Line(None, RunFinished(OverallStatus(statuses)), None)]);
    }

    /** The loop of execute. */
    method RunRounds() returns (ghost rounds: nat, ghost stalled: bool)
      requires Idle({})
      modifies this, trace
      ensures Finished(rounds, stalled) && Valid() && old(trace.events) <= trace.events
      ensures RunSoFar(IsParallel(concurrencyLimit), steps, ledger, rounds, old(trace.events), trace.events)
    {
      hide State, Rested, LogMatches, InOrder, Project, UniqueIds, WellFormed, Final, RoundsNeeded, RoundDone, Resolved,
           Consistent, Match, RunSoFar, Kept, AfterRound, RoundLines, Told;
      rounds, stalled := 0, false;
      RunBegins(IsParallel(concurrencyLimit), steps, ledger, trace.events);
      NoRounds(Ids(steps), Dependencies(steps));
      var resolved: set<Id> := {};
      while |resolved| < |steps|
        invariant Idle(resolved) && !stalled && old(trace.events) <= trace.events
        invariant Resolved(Ids(steps), Dependencies(steps), rounds) <= resolved
        invariant RoundsNeeded(Ids(steps), Dependencies(steps), rounds)
        invariant RunSoFar(IsParallel(concurrencyLimit), steps, ledger, rounds, old(trace.events), trace.events)
        decreases |steps| - |resolved|
      {
        var executed, resolved';
        ghost var events, before := trace.events, ledger;
        if concurrencyLimit.Some? && concurrencyLimit.value > 1 {
          executed, resolved' := RunLayerRound(resolved);
        } else {
          executed, resolved' := RunYamlOrder(resolved);
        }
        RunGoesOn(IsParallel(concurrencyLimit), steps, before, ledger, rounds, old(trace.events), events, trace.events);
        rounds := rounds + 1;
        if !executed {
          assert resolved == resolved';
          stalled := true;
          break;
        }
        ProgressIsNeeded(steps, oracle, ledger, inFlight, Current(), resolved, rounds - 1);
        SmallerSubset(resolved, resolved');
        resolved := resolved';
      }
      RunIsOver(steps, oracle, ledger, Current());
    }

    /**
     execute: rounds until every step has ended or a round changes nothing. Running the
     workflow resolves exactly what can be resolved, with the outcomes of the solution.
     */
    method Execute() returns (outcome: Result<map<Id, Status>, set<string>>, ghost rounds: nat, ghost stalled: bool)
      requires Idle({})
      modifies this, trace
      ensures outcome.Err? <==> Missing() != {}
      ensures outcome.Err? ==>
                && outcome.error == Missing()
                && Current() == old(Current()) && trace.events == old(trace.events) && sleeps == old(sleeps)
      ensures outcome.Ok? ==>
                && outcome.value == statuses && Finished(rounds, stalled)
                && RunLogged(old(trace.events), trace.events, OverallStatus(statuses))
                && LinesAre(old(trace.events), rounds)
    {
      hide State, Rested, LogMatches, InOrder, Project, UniqueIds, WellFormed, Final, RoundsNeeded, RoundDone, Resolved,
           Missing, OverallStatus, RunLogged, Consistent, Match, LinesAre, RunSoFar, Told;
      rounds, stalled := 0, false;
      var missing := ValidateRegistry();
      if missing != {} {
        return Err(missing), 0, false;
      }
      trace.Emit(RunStarted, None, None);
      LogKept(old(trace.events), trace.events, Ids(steps), ledger);
      OrderKept(Dependencies(steps), old(trace.events), trace.events, {}, Ids(steps), ledger);
      ghost var started := trace.events;
      rounds, stalled := RunRounds();
      ghost var events := trace.events;
      trace.Emit(RunFinished(OverallStatus(statuses)), None, None);
      LogKept(events, trace.events, Ids(steps), ledger);
      OrderKept(Dependencies(steps), events, trace.events, {}, Ids(steps), ledger);
      RunIsLogged(old(trace.events), events, trace.events, OverallStatus(statuses));
      AllTold(old(trace.events), started, events, rounds);
      outcome := Ok(statuses);
    }
  }
}

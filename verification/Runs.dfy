/** Whole runs: validated definitions, both schedulers side by side, and the number of rounds. */
module Runs {
  import opened Wrappers
  import opened Graphs
  import opened Definitions
  import opened Semantics
  import opened Trace
  import opened Books
  import opened Transitions
  import opened Rounds
  import opened Executor
  import opened TypedTasks
  import Backoff
  import Validation

  ghost predicate SameTraces(ids: set<Id>, a: seq<Event>, b: seq<Event>) {
    forall x {:trigger Project(a, x)} :: x in ids ==> Project(a, x) == Project(b, x)
  }

  /** Two runs are comparable when ids are unique and tasks look only at what their steps wait for. */
  ghost predicate Lawful(steps: seq<Step>, oracle: Oracle) {
    UniqueIds(steps) && Local(steps, oracle)
  }

  /** The log of a finished run fixes the events of every step. */
  lemma TracesAgree(steps: seq<Step>, oracle: Oracle, ledgerA: Ledger, ledgerB: Ledger,
                    eventsA: seq<Event>, eventsB: seq<Event>)
    requires Lawful(steps, oracle)
    requires Solution(steps, oracle, ledgerA) && Solution(steps, oracle, ledgerB)
    requires LogMatches(eventsA, Ids(steps), ledgerA) && LogMatches(eventsB, Ids(steps), ledgerB)
    ensures SameTraces(Ids(steps), eventsA, eventsB)
  {
    SolutionIsUnique(steps, oracle, ledgerA, ledgerB);
    LogsAgree(Ids(steps), ledgerA, eventsA, eventsB);
  }

  lemma LogsAgree(ids: set<Id>, ledger: Ledger, a: seq<Event>, b: seq<Event>)
    requires LogMatches(a, ids, ledger) && LogMatches(b, ids, ledger)
    ensures SameTraces(ids, a, b)
  {
    forall x {:trigger Project(a, x)} | x in ids ensures Project(a, x) == Project(b, x) {
      assert Project(b, x) == if x in ledger then TraceOf(ledger[x]) else [];
    }
  }

  /** All delays that the outcomes of a run call for. */
  ghost function DelaysOf(steps: seq<Step>, ledger: Ledger, cap: real): multiset<real> {
    if steps == [] then multiset{} else
    var last := steps[|steps| - 1];
    DelaysOf(steps[..|steps| - 1], ledger, cap)
    + multiset(if last.id in ledger then Backoff.Delays(RetryEvents(ledger[last.id]), cap) else [])
  }

  ghost predicate CountsFit(steps: seq<Step>, ledger: Ledger, counts: map<Id, nat>) {
    forall s {:trigger s.retries} :: s in steps ==>
      Backoff.Min(Backoff.CountAt(counts, s.id), s.retries) == if s.id in ledger then RetryEvents(ledger[s.id]) else 0
  }

  lemma {:induction false} SleptIsDelays(steps: seq<Step>, ledger: Ledger, counts: map<Id, nat>, cap: real)
    requires CountsFit(steps, ledger, counts)
    ensures Backoff.Slept(steps, counts, cap) == DelaysOf(steps, ledger, cap)
  {
    if steps != [] {
      var init, last := steps[..|steps| - 1], steps[|steps| - 1];
      assert last in steps && last.retries >= 0;
      assert forall s :: s in init ==> s in steps;
      SleptIsDelays(init, ledger, counts, cap);
    }
  }

  /** Whoever slept them and in whatever order, a finished run slept exactly the delays its outcomes call for. */
  lemma RunSleeps(executor: WorkflowExecutor, rounds: nat, stalled: bool)
    requires executor.Finished(rounds, stalled) && UniqueIds(executor.steps)
    ensures multiset(executor.sleeps) == DelaysOf(executor.steps, executor.ledger, executor.maxBackoff)
  {
    FinalCountsFit(executor.steps, executor.oracle, executor.Current(), executor.ledger);
    SleptIsDelays(executor.steps, executor.ledger, executor.retryCounts, executor.maxBackoff);
  }

  lemma FinalCountsFit(steps: seq<Step>, oracle: Oracle, b: Books, ledger: Ledger)
    requires Final(steps, oracle, b, ledger) && WellFormed(steps)
    ensures CountsFit(steps, ledger, b.retryCounts)
  {
    hide WellFormed, Consistent, Match, Resolvable;
    forall s {:trigger s.retries} | s in steps
      ensures Backoff.Min(Backoff.CountAt(b.retryCounts, s.id), s.retries) ==
              if s.id in ledger then RetryEvents(ledger[s.id]) else 0
    {
      StateAt(steps, oracle, ledger, map[], b, s);
    }
  }

  ghost predicate SameBooks(a: Books, b: Books) {
    && a.(deadLetters := []) == b.(deadLetters := [])
    && multiset(a.deadLetters) == multiset(b.deadLetters)
  }

  /** Finished runs with one ledger left the same books, the same events of every step, and slept the same delays. */
  lemma SameLedgerSameRun(a: WorkflowExecutor, roundsA: nat, stalledA: bool,
                          b: WorkflowExecutor, roundsB: nat, stalledB: bool)
    requires a.steps == b.steps && UniqueIds(a.steps)
    requires a.Finished(roundsA, stalledA) && b.Finished(roundsB, stalledB) && a.ledger == b.ledger
    ensures SameBooks(a.Current(), b.Current()) && stalledA == stalledB
    ensures SameTraces(Ids(a.steps), a.trace.events, b.trace.events)
    ensures a.maxBackoff == b.maxBackoff ==> multiset(a.sleeps) == multiset(b.sleeps)
  {
    RunSleeps(a, roundsA, stalledA);
    RunSleeps(b, roundsB, stalledB);
    hide Consistent, Solution, LettersMatch, Tallies, RoundsNeeded, LogMatches, Rested, DelaysOf;
    LogsAgree(Ids(a.steps), a.ledger, a.trace.events, b.trace.events);
    BooksAgree(a.steps, a.ledger, a.Current(), b.Current());
  }

  lemma BooksAgree(steps: seq<Step>, ledger: Ledger, a: Books, b: Books)
    requires UniqueIds(steps) && Match(steps, ledger, map[], a) && Match(steps, ledger, map[], b)
    ensures SameBooks(a, b)
  {
    SameLettersSameMultiset(steps, ledger, a.deadLetters, b.deadLetters);
  }

  /** An executor that has not run yet. */
  method Prepare(steps: seq<Step>, oracle: Oracle, registry: set<string>, maxBackoff: real, limit: Option<int>)
    returns (executor: WorkflowExecutor)
    requires UniqueIds(steps)
    ensures fresh(executor) && fresh(executor.trace) && executor.Idle({})
    ensures executor.steps == steps && executor.oracle == oracle && executor.registry == registry
    ensures executor.concurrencyLimit == limit && executor.maxBackoff == maxBackoff && executor.trace.events == []
  {
    hide State, UniqueIds, LogMatches;
    var trace := new TraceContext();
    executor := new WorkflowExecutor(steps, oracle, registry, maxBackoff, limit, trace);
  }

  /** What a run leaves behind. */
  datatype Remains = Remains(books: Books, events: seq<Event>, sleeps: seq<real>)

  /**
   The same books up to the order of the dead letters, the same events of every step, the
   same delays in any order.
   */
  ghost predicate SameRemains(steps: seq<Step>, a: Remains, b: Remains) {
    && SameBooks(a.books, b.books) && SameTraces(Ids(steps), a.events, b.events)
    && multiset(a.sleeps) == multiset(b.sleeps)
  }

  ghost function RemainsOf(executor: WorkflowExecutor): Remains
    reads executor, executor.trace
  {
    Remains(executor.Current(), executor.trace.events, executor.sleeps)
  }

  /** Two workflows with the same steps whose oracles have the same solution. */
  ghost predicate SameSolution(steps: seq<Step>, a: Oracle, b: Oracle) {
    forall x: Ledger, y: Ledger {:trigger Solution(steps, a, x), Solution(steps, b, y)} ::
      Solution(steps, a, x) && Solution(steps, b, y) ==> x == y
  }

  lemma FinishedRunsAgree(a: WorkflowExecutor, roundsA: nat, stalledA: bool,
                          b: WorkflowExecutor, roundsB: nat, stalledB: bool)
    requires a.steps == b.steps && UniqueIds(a.steps)
    requires SameSolution(a.steps, a.oracle, b.oracle) && a.maxBackoff == b.maxBackoff
    requires a.Finished(roundsA, stalledA) && b.Finished(roundsB, stalledB)
    ensures SameRemains(a.steps, RemainsOf(a), RemainsOf(b)) && a.statuses == b.statuses && stalledA == stalledB
  {
    assert Solution(a.steps, a.oracle, a.ledger) && Solution(b.steps, b.oracle, b.ledger);
    SameLedgerSameRun(a, roundsA, stalledA, b, roundsB, stalledB);
    assert a.statuses == a.Current().(deadLetters := []).statuses;
    hide Final, SameTraces;
  }

  /** After a run no step is ready that has not ended. */
  lemma NothingLeftReady(steps: seq<Step>, oracle: Oracle, ledger: Ledger)
    requires UniqueIds(steps) && Solution(steps, oracle, ledger)
    ensures NothingReady(steps, ledger.Keys)
  {
    var ids, g := Ids(steps), Dependencies(steps);
    ResolvableIsClosed(ids, g);
    forall s | s in steps && s.Ready(ledger.Keys) ensures s.id in ledger.Keys {
      ReadyIsMet(steps, s, ledger.Keys);
    }
  }

  /**
   Two finished runs with one solution, both sequential or both parallel, left the very same
   log, event by event: the threads of a layer may interleave as they like.
   */
  lemma SameModeSameLog(a: WorkflowExecutor, roundsA: nat, stalledA: bool,
                        b: WorkflowExecutor, roundsB: nat, stalledB: bool)
    requires a.steps == b.steps && UniqueIds(a.steps)
    requires SameSolution(a.steps, a.oracle, b.oracle)
    requires a.Finished(roundsA, stalledA) && b.Finished(roundsB, stalledB) && a.statuses == b.statuses
    requires a.LinesAre([], roundsA) && b.LinesAre([], roundsB)
    requires IsParallel(a.concurrencyLimit) == IsParallel(b.concurrencyLimit)
    ensures a.trace.events == b.trace.events
  {
    hide Match, Consistent, UniqueIds, RoundsNeeded, LogMatches, InOrder, Rested, RunLines, Reached, OverallStatus;
    assert a.ledger == b.ledger by {
      assert Solution(a.steps, a.oracle, a.ledger) && Solution(b.steps, b.oracle, b.ledger);
    }
    NothingLeftReady(a.steps, a.oracle, a.ledger);
    SameLines(IsParallel(a.concurrencyLimit), a.steps, a.ledger, roundsA, roundsB);
    LinesTellAll(a.trace.events, b.trace.events);
  }

  /** Two runs of the same steps, each with its own oracle and concurrency limit. */
  method RunBoth(steps: seq<Step>, oracleA: Oracle, oracleB: Oracle, registry: set<string>, maxBackoff: real,
                 limitA: Option<int>, limitB: Option<int>)
    returns (a: Result<map<Id, Status>, set<string>>, b: Result<map<Id, Status>, set<string>>,
             ghost leftA: Remains, ghost leftB: Remains)
    requires UniqueIds(steps) && SameSolution(steps, oracleA, oracleB)
    ensures a == b
    ensures a.Ok? ==> SameRemains(steps, leftA, leftB) && a.value == leftA.books.statuses
    ensures a.Ok? && IsParallel(limitA) == IsParallel(limitB) ==> leftA.events == leftB.events
  {
    hide State, UniqueIds, LogMatches, Final, SameRemains, SameSolution, RunLogged, OverallStatus, Rested, RoundsNeeded,
         InOrder, Told, Reached, RunLines;
    var executorA := Prepare(steps, oracleA, registry, maxBackoff, limitA);
    var executorB := Prepare(steps, oracleB, registry, maxBackoff, limitB);
    ghost var roundsA, stalledA, roundsB, stalledB;
    a, roundsA, stalledA := executorA.Execute();
    b, roundsB, stalledB := executorB.Execute();
    leftA, leftB := RemainsOf(executorA), RemainsOf(executorB);
    if a.Ok? {
      FinishedRunsAgree(executorA, roundsA, stalledA, executorB, roundsB, stalledB);
      if IsParallel(limitA) == IsParallel(limitB) {
        SameModeSameLog(executorA, roundsA, stalledA, executorB, roundsB, stalledB);
      }
    }
  }

  /**
   Two runs of one workflow, under any two concurrency limits, return the same thing, leave
   the same books and the same events of every step, and sleep the same delays. If both are
   sequential, or both parallel, they leave the very same log.
   */
  method RunTwice(steps: seq<Step>, oracle: Oracle, registry: set<string>, maxBackoff: real,
                  limitA: Option<int>, limitB: Option<int>)
    returns (a: Result<map<Id, Status>, set<string>>, b: Result<map<Id, Status>, set<string>>,
             ghost leftA: Remains, ghost leftB: Remains)
    requires Lawful(steps, oracle)
    ensures a == b
    ensures a.Ok? ==> SameRemains(steps, leftA, leftB) && a.value == leftA.books.statuses
    ensures a.Ok? && IsParallel(limitA) == IsParallel(limitB) ==> leftA.events == leftB.events
  {
    OneSolution(steps, oracle);
    a, b, leftA, leftB := RunBoth(steps, oracle, oracle, registry, maxBackoff, limitA, limitB);
  }

  lemma OneSolution(steps: seq<Step>, oracle: Oracle)
    requires Lawful(steps, oracle)
    ensures SameSolution(steps, oracle, oracle)
  {
    forall x: Ledger, y: Ledger | Solution(steps, oracle, x) && Solution(steps, oracle, y) ensures x == y {
      SolutionIsUnique(steps, oracle, x, y);
    }
  }

  /**
   The same for registered tasks, each looking only at what its step waits for. The two
   runs may even differ in typed I/O, if no task returns a TaskResult or has a run method.
   */
  method RunTasksTwice(steps: seq<Step>, tasks: Registry, maxBackoff: real,
                       typedA: bool, limitA: Option<int>, typedB: bool, limitB: Option<int>)
    returns (a: Result<map<Id, Status>, set<string>>, b: Result<map<Id, Status>, set<string>>,
             ghost leftA: Remains, ghost leftB: Remains)
    requires UniqueIds(steps) && RegistryLocal(steps, tasks)
    requires typedA != typedB ==> OnlyPlainCallables(steps, tasks)
    ensures a == b
    ensures a.Ok? ==> SameRemains(steps, leftA, leftB) && a.value == leftA.books.statuses
    ensures a.Ok? && IsParallel(limitA) == IsParallel(limitB) ==> leftA.events == leftB.events
  {
    ModesHaveOneSolution(steps, tasks, typedA, typedB);
    a, b, leftA, leftB := RunBoth(steps, TaskOracle(tasks, typedA), TaskOracle(tasks, typedB), tasks.Keys,
                                  maxBackoff, limitA, limitB);
  }

  lemma ModesHaveOneSolution(steps: seq<Step>, tasks: Registry, typedA: bool, typedB: bool)
    requires UniqueIds(steps) && RegistryLocal(steps, tasks)
    requires typedA != typedB ==> OnlyPlainCallables(steps, tasks)
    ensures SameSolution(steps, TaskOracle(tasks, typedA), TaskOracle(tasks, typedB))
  {
    var oracleA, oracleB := TaskOracle(tasks, typedA), TaskOracle(tasks, typedB);
    AdaptingKeepsLocality(steps, tasks, typedA);
    forall x: Ledger, y: Ledger | Solution(steps, oracleA, x) && Solution(steps, oracleB, y) ensures x == y {
      if typedA != typedB {
        IoModesAgree(steps, tasks, typedA, typedB);
        SameSolutions(steps, oracleA, oracleB, y);
      }
      SolutionIsUnique(steps, oracleA, x, y);
    }
  }

  // ----- What typed I/O makes of a failed TaskResult -----

  /**
   The books after any run in which a step without a condition, not blocked, has a callable
   that always returns a failed TaskResult. With typed I/O the step has FAILED, with the
   TaskResult's error in its dead letter; without, it is COMPLETED and its result is the
   TaskResult itself.
   */
  lemma FailedResultInRun(steps: seq<Step>, tasks: Registry, typedIo: bool, b: Books, ledger: Ledger,
                          s: Step, r: TaskResult, text: string)
    requires UniqueIds(steps) && Final(steps, TaskOracle(tasks, typedIo), b, ledger) && s in steps
    requires !Blocked(Ids(steps), Dependencies(steps), s.id)
    requires AlwaysBoxed(tasks, s, r, text) && r.error.Some? && s.condition == None
    ensures typedIo ==> b.statuses[s.id] == Failed && s.id in b.errors && b.errors[s.id] == r.error.value
    ensures typedIo ==> DeadLetter(s.id, s.task, r.error.value, s.retries + 1, s.params) in b.deadLetters
    ensures !typedIo ==> b.statuses[s.id] == Completed && s.id in b.results && b.results[s.id] == Boxed(r, text)
  {
    hide AlwaysBoxed, TaskOracle, LettersMatch, Grounded, Blocked, UniqueIds;
    var oracle := TaskOracle(tasks, typedIo);
    UnresolvedIffBlocked(Ids(steps), Dependencies(steps), s.id);
    assert Justified(steps, oracle, s, ledger[s.id], ResultsOf(ledger));
    var ctx :| Handed(steps, s, ctx, ResultsOf(ledger)) && ledger[s.id] == Eval(oracle, s, ctx);
    FailedResultOutcome(tasks, s, ctx, r, text);
    assert b.statuses[s.id] == StatusAt(ledger, map[], s.id);
    if typedIo {
      LetterOfFailed(steps, oracle, b, ledger, s);
    }
  }

  // ----- Rounds and paths -----

  /** No path of dependencies and conditions has more than n steps. */
  ghost predicate PathsWithin(ids: set<Id>, g: Arrows, n: nat) {
    forall w :: Walk(g, w) && w[0] in ids ==> |w| <= n
  }

  /**
   On an accepted definition no run needs more rounds than the longest path has steps.
   (A path of n steps has n - 1 arrows, so this is one round more than its length.)
   */
  lemma RoundBound(ids: set<Id>, g: Arrows, rounds: nat, n: nat)
    requires SourcesKnown(ids, g) && PathsWithin(ids, g, n) && RoundsNeeded(ids, g, rounds)
    ensures rounds <= n
  {
    RoundsStayResolvable(ids, g, n);
    ResolvableWithin(ids, g);
    forall x | x in ids ensures x in Resolved(ids, g, n) {
      RoundsMeasureWalks(ids, g, n, x);
    }
    assert Resolved(ids, g, n) == Resolvable(ids, g);
  }

  /** What a definition that passes validation may count on. */
  ghost predicate RunsToTheEnd(steps: seq<Step>, statuses: map<Id, Status>, rounds: nat, stalled: bool) {
    && statuses.Keys == Ids(steps) && !stalled
    && (forall x {:trigger statuses[x]} :: x in statuses ==> statuses[x] in {Completed, Failed, Skipped})
    && (forall n: nat {:trigger PathsWithin(Ids(steps), Dependencies(steps), n)} ::
          PathsWithin(Ids(steps), Dependencies(steps), n) ==> rounds <= n)
  }

  lemma AcceptedRunsToTheEnd(steps: seq<Step>, oracle: Oracle, b: Books, ledger: Ledger, rounds: nat, stalled: bool)
    requires SourcesKnown(Ids(steps), Dependencies(steps)) && Acyclic(Dependencies(steps))
    requires Final(steps, oracle, b, ledger) && (stalled <==> ledger.Keys != Ids(steps))
    requires !stalled ==> RoundsNeeded(Ids(steps), Dependencies(steps), rounds)
    ensures RunsToTheEnd(steps, b.statuses, rounds, stalled)
  {
    var ids, g := Ids(steps), Dependencies(steps);
    ArrowsStartAtSteps(steps);
    AllResolveIffAcyclic(ids, g);
    assert b.statuses.Keys == ids;
    forall x {:trigger b.statuses[x]} | x in b.statuses ensures b.statuses[x] in {Completed, Failed, Skipped} {
      AcceptedRunsEnd(steps, oracle, b, ledger, x);
    }
    forall n: nat {:trigger PathsWithin(ids, g, n)} | PathsWithin(ids, g, n) ensures rounds <= n {
      RoundBound(ids, g, rounds, n);
    }
  }

  datatype Refusal = DuplicateId(id: Id) | Invalid(reason: Validation.Rejection) | MissingTasks(tasks: set<string>)

  /**
   From decoded steps to the statuses of a run: what the unique-id validator and
   detect_cycles let through runs to the end, and never through the no-progress break. The
   statuses are those of the books that a solution of the workflow calls for.
   */
  method CheckAndRun(steps: seq<Step>, oracle: Oracle, registry: set<string>, maxBackoff: real, limit: Option<int>)
    returns (r: Result<map<Id, Status>, Refusal>, ghost rounds: nat, ghost stalled: bool,
             ghost left: Books, ghost ledger: Ledger)
    ensures r.Ok? ==> RunsToTheEnd(steps, r.value, rounds, stalled)
    ensures r.Ok? ==> Final(steps, oracle, left, ledger) && r.value == left.statuses
    ensures r.Ok? <==>
              && UniqueIds(steps) && SourcesKnown(Ids(steps), Dependencies(steps)) && Acyclic(Dependencies(steps))
              && forall s :: s in steps ==> s.task in registry
  {
    rounds, stalled := 0, false;
    left, ledger := Books(map[], map[], map[], map[], map[], []), map[];
    var duplicate := FindDuplicateId(steps);
    if duplicate.Some? {
      return Err(DuplicateId(duplicate.value)), 0, false, left, ledger;
    }
    var checked := Validation.DetectCycles(steps);
    if checked.Err? {
      return Err(Invalid(checked.error)), 0, false, left, ledger;
    }
    var executor := Prepare(steps, oracle, registry, maxBackoff, limit);
    var outcome;
    outcome, rounds, stalled := executor.Execute();
    hide WellFormed, UniqueIds, Final, RunsToTheEnd, RoundsNeeded, RunLogged;
    MissingIffUnregistered(executor);
    if outcome.Err? {
      return Err(MissingTasks(outcome.error)), rounds, stalled, left, ledger;
    }
    left, ledger := executor.Current(), executor.ledger;
    AcceptedRunsToTheEnd(steps, oracle, left, ledger, rounds, stalled);
    return Ok(outcome.value), rounds, stalled, left, ledger;
  }

  /**
   The same for registered tasks, with or without typed I/O. In particular a step whose plain
   callable always returns a failed TaskResult ends FAILED with typed I/O, and else COMPLETED.
   */
  method CheckAndRunTasks(steps: seq<Step>, tasks: Registry, typedIo: bool, maxBackoff: real, limit: Option<int>)
    returns (r: Result<map<Id, Status>, Refusal>, ghost rounds: nat, ghost stalled: bool,
             ghost left: Books, ghost ledger: Ledger)
    ensures r.Ok? ==> RunsToTheEnd(steps, r.value, rounds, stalled)
    ensures r.Ok? ==> Final(steps, TaskOracle(tasks, typedIo), left, ledger) && r.value == left.statuses
    ensures r.Ok? ==> forall s: Step, f: TaskResult, text: string {:trigger AlwaysBoxed(tasks, s, f, text)} ::
              s in steps && s.condition == None && AlwaysBoxed(tasks, s, f, text) && f.error.Some? ==>
                s.id in r.value && r.value[s.id] == if typedIo then Failed else Completed
    ensures r.Ok? <==>
              && UniqueIds(steps) && SourcesKnown(Ids(steps), Dependencies(steps)) && Acyclic(Dependencies(steps))
              && forall s :: s in steps ==> s.task in tasks
  {
    hide Final, RunsToTheEnd, AlwaysBoxed;
    r, rounds, stalled, left, ledger := CheckAndRun(steps, TaskOracle(tasks, typedIo), tasks.Keys, maxBackoff, limit);
    if r.Ok? {
      NothingBlocked(steps);
      RunsToTheEndHasAll(steps, r.value, rounds, stalled);
      forall s: Step, f: TaskResult, text: string {:trigger AlwaysBoxed(tasks, s, f, text)}
        | s in steps && s.condition == None && AlwaysBoxed(tasks, s, f, text) && f.error.Some?
        ensures s.id in r.value && r.value[s.id] == if typedIo then Failed else Completed
      {
        FailedResultInRun(steps, tasks, typedIo, left, ledger, s, f, text);
      }
    }
  }

  lemma NothingBlocked(steps: seq<Step>)
    requires SourcesKnown(Ids(steps), Dependencies(steps)) && Acyclic(Dependencies(steps))
    ensures forall x :: x in Ids(steps) ==> !Blocked(Ids(steps), Dependencies(steps), x)
  {
    ArrowsStartAtSteps(steps);
    AllResolveIffAcyclic(Ids(steps), Dependencies(steps));
    forall x | x in Ids(steps) ensures !Blocked(Ids(steps), Dependencies(steps), x) {
      UnresolvedIffBlocked(Ids(steps), Dependencies(steps), x);
    }
  }

  lemma RunsToTheEndHasAll(steps: seq<Step>, statuses: map<Id, Status>, rounds: nat, stalled: bool)
    requires RunsToTheEnd(steps, statuses, rounds, stalled)
    ensures statuses.Keys == Ids(steps)
  {
  }

  lemma MissingIffUnregistered(executor: WorkflowExecutor)
    ensures executor.Missing() == {} <==> forall s :: s in executor.steps ==> s.task in executor.registry
  {
    if executor.Missing() == {} {
      forall s | s in executor.steps ensures s.task in executor.registry {
        assert s.task !in executor.Missing();
      }
    }
  }
}

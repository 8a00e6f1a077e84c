# Workflow engine: models and proofs

A Dafny model of a workflow engine that runs the steps of a dependency graph with
retries, conditions and a dead-letter queue, and of the state around it: cron dispatch,
locks, rate limiting, run storage, text chunking and the picture of the graph.
`dafny verify dfyconfig.toml` checks everything.

## How the parts fit together

`Graphs` has one definition that everything else is compared with. A graph is a set of
arrows "x waits for y", and `Resolved(ids, g, k)` is what k rounds of "take whatever has
all its sources done" reach. Rounds are shown to measure walks, and the nodes no round
reaches are exactly those that wait, however indirectly, for a cycle or an unknown node.

* `Validation` proves Kahn's algorithm exact against that definition, including repeated
  ids in `depends_on` and condition sources that are dependencies too.
* `Semantics` gives a workflow its meaning without any scheduler. A task is an oracle:
  attempt k of a step, in a context, returns or raises. A *ledger* assigns outcomes to
  steps; a *solution* is a ledger on exactly the resolvable steps in which every outcome is
  one that the step's task gives in a context it can be handed: some of the ledger's results,
  among them all those of the steps it waits for. If tasks look at those alone there is at
  most one solution.
* `Books` and `Transitions` say what the executor's redundant dictionaries mean in terms of
  a ledger and of the failures so far of the steps in flight, and that starting,
  skipping, succeeding, failing and giving up keep that meaning.
* `Rounds` says in which order the two schedulers take the steps, and what they log, line
  by line, once the outcomes are given.
* `Executor` is the class itself: the sequential pass, the ready layer, the thread pool as
  a loop in which at every moment *any* step of the layer may act, the publishing of a
  layer, and `execute`. Every run, of any tasks, ends in a solution, whichever scheduler ran
  it and however the threads interleaved; books and events are determined by that solution.
* `Runs` draws the consequences, for oracles and for registries of tasks with and without
  typed I/O: what validation accepts always runs to the end; the number of rounds is bounded
  by paths; and if tasks look only at what their steps wait for, two runs under any two
  concurrency limits agree, down to the delays slept.
* `DagView` and `Layout` project the same graph for the dashboard, prove the level of a
  node to be its exact longest path, and show when the picture has room for its boxes.
* `TypedTasks`, `Backoff` and `Trace` cover the task adapter, the delays and the event log.
* `CronProtocol` (any number of processes), `Scheduler` (the classes), `Locks`,
  `RateLimit`, `Storage` and `Chunking` stand on their own.

## Findings

Where the code does not do what one might expect, a lemma names an input.

* **An overlapping tick can fire a schedule early and lose it for good.** The in-memory
  schedule store hands out its own objects, so `dispatch_due` reads `next_run` when it
  claims, not when it took its snapshot. Of two ticks that both saw a schedule due, the
  later one claims and dispatches the *following* fire time ahead of time. If no other fire
  time lies before the mark, the schedule is then stuck: due, its claim taken, and never
  marked (`CronProtocol.SharedReadsFireEarly`, `CronProtocol.LateTickGetsStuck`). The exact
  condition: claims are in order, and every firing is dispatched in its time, iff each won
  claim read a fire time that had come by then (`CronProtocol.SharedFiringsInOrder`,
  `CronProtocol.InOrderIffInTime`), so looking at `next_run` once more before claiming is enough.
  With copied snapshots, as the database store gives them, it always has
  (`CronProtocol.FiringsInOrder`).
* **A tick that fails between claim and mark loses its schedule.** The claim has been taken,
  `next_run` does not move, and from then on the schedule is due at every tick and refused at
  every claim (`CronProtocol.StuckForever`). The dispatch may raise, or `mark_ran`, or the
  process may die. With copied snapshots, or with claims in time, that is the only way: a
  schedule that is still registered is stuck after a run iff some tick dropped it so
  (`CronProtocol.StuckIffDropped`). Under the same conditions every fire time that `next_run` has
  moved past was dispatched exactly once, failures or not (`CronProtocol.ExactlyOnce`).
* **A rate-limit refusal does not mean that exactly `limit` calls were admitted in the
  last window length.** It may have been more (`RateLimit.MoreThanLimitInWindow`). It was
  exactly `limit` iff every admission to the bucket before its current window opened is at
  least a window length old (`RateLimit.ExactlyLimitIff`). When calls are refused at all is
  `RateLimit.RefusedIffWindowFull`.
* **A token lock excludes others only as long as nobody overruns.** At every moment at
  most one section per key is inside iff nobody tries to enter while a section on that key
  is overdue (`Locks.ExclusiveIffNoOverdueTry`).
* **A chunk size of zero or less never ends** on a non-empty text when the overlap is not
  negative (`Chunking.FixedStopsIff` has the exact condition). `parse_text` passes a chunk
  size from the definition's parameters, with an overlap of 0.
* **Without typed I/O a failed `TaskResult` counts as success.** A plain callable that
  returns one completes its step with the object itself as result
  (`TypedTasks.TypedIoMatters`).
* **The table store drops empty strings and entries for steps without a status**
  (`Storage.RunsIdenticalIff` says exactly when the two stores answer alike).
* **The picture of a cyclic graph overflows.** Its boxes all lie inside the computed size
  exactly when the graph has no cycle (`Layout.Draw`). Graphs of validated workflows have none.

The documentation (docs/failure-modes.md) calls runtime deadlock impossible for validated
workflows; that is `Runs.CheckAndRun`, for tasks of every kind. That the choice of scheduler
makes no difference is `Runs.RunTwice`, and for registered tasks `Runs.RunTasksTwice` (two
parallel runs even leave the same log, event by event, as do two sequential ones), on
condition that each step's task, in the contexts the step can be handed, looks only at the
results of steps that step waits for. In a ready layer the context handed to a later step may
already hold the result of an earlier one, and a task that looks at it may answer either way
(`Semantics.SiblingsMayDiffer`). `send_notification` (src/workflow_engine/tasks.py:153) does:
it returns the keys of its context. It meets the condition where every other step comes
before or after its own (`TypedTasks.InLineIsLocal`), and breaks it where some other step may or
may not have completed by then. A task that reads the result its parameters name meets it
exactly for the steps that wait for the step named, unless it ignores what it reads
(`TypedTasks.ReadingOneResult`).

## Model

| member | source | states |
|---|---|---|
| Graphs.ResolvableIsFixed | src/workflow_engine/executor.py:86-99 | a step can be resolved iff it is known and everything it waits for can be |
| Graphs.ResolvableIsLeast | src/workflow_engine/executor.py:86-99 | nothing is resolvable beyond the least set closed under "all sources resolved" |
| Graphs.RoundsMeasureWalks | src/workflow_engine/executor.py:104-147 | k rounds reach exactly the steps from which no chain of dependencies has more than k steps |
| Graphs.UnresolvedIffBlocked | src/workflow_engine/executor.py:97-99 | the steps that never resolve are exactly those waiting, directly or not, for a cycle or an unknown id |
| Graphs.AllResolveIffAcyclic | src/workflow_engine/parser.py:82-119 | everything resolves iff all sources are known and there is no cycle |
| Definitions.FindDuplicateId | src/workflow_engine/parser.py:71-79 | finds nothing iff ids are unique; otherwise the first id that repeats an earlier one |
| Definitions.EvaluateIff | src/workflow_engine/parser.py:35-46 | a condition holds iff its source completed and its text equals, does not equal and contains what the fields given say |
| Definitions.DependenciesIff | src/workflow_engine/parser.py:92-102 | x waits for y iff y is in x's depends_on or is the source of its condition |
| Definitions.ReadyIff | src/workflow_engine/executor.py:110-113 | a step is ready iff all of its depends_on and its condition's source have ended |
| Definitions.ReadyIsMet | src/workflow_engine/executor.py:110-113 | the schedulers' readiness test is "all graph sources done", condition source included |
| Validation.RegisterStep | src/workflow_engine/parser.py:92-102 | registering a step records each source once per mention, or reports the first unknown one |
| Validation.BuildTables | src/workflow_engine/parser.py:88-102 | the tables mirror the dependency graph; an unknown source is found iff there is one, the first in reading order |
| Validation.InitialQueue | src/workflow_engine/parser.py:104 | the queue starts with exactly the steps of in-degree 0, each once |
| Validation.CrossArrows | src/workflow_engine/parser.py:110-113 | decrementing the neighbours keeps in-degree equal to the sources still missing, with multiplicity |
| Validation.Drain | src/workflow_engine/parser.py:107-113 | the visited steps are the least closed set; positive in-degree marks exactly the others |
| Validation.DetectCycles | src/workflow_engine/parser.py:82-119 | accepts iff all sources are known and the graph is acyclic; a cycle report lists exactly the steps on a cycle or waiting for one |
| Semantics.AttemptsMeaning | src/workflow_engine/executor.py:211-267 | the retry loop ends with the first attempt that returns, or dead after retries + 1 that raise |
| Semantics.EvalLocal | src/workflow_engine/executor.py:114-124 | if tasks look, in the contexts they can be handed, only at results their steps wait for, outcomes depend only on those |
| Semantics.SkippedIff | src/workflow_engine/parser.py:35-46 | a step is skipped iff it has a condition whose source did not complete or whose text fails one of equals, not_equals and contains; without a condition it runs even below failed or skipped steps |
| Semantics.ResultsArePossible | src/workflow_engine/executor.py:223-233 | the results at hand when a step runs hold neither its own nor that of any step waiting for it |
| Semantics.JustifiedMeaning | src/workflow_engine/executor.py:114-124 | whatever tasks look at, a recorded outcome is a skip iff the condition fails on the recorded results, and keeps to the retry limit |
| Semantics.ExtendLedger | src/workflow_engine/executor.py:104-195 | a ready step may be evaluated at any time, in any context it can be handed: the ledger stays consistent, whatever the task looks at |
| Semantics.StuckLedgerIsSolution | src/workflow_engine/executor.py:97-99 | a consistent ledger that nothing can be added to is the solution |
| Semantics.SolutionIsUnique | src/workflow_engine/executor.py:79-102 | a workflow whose tasks look only at what their steps wait for has at most one solution |
| Semantics.SiblingsMayDiffer | src/workflow_engine/tasks.py:148-153 | if a task answers differently once it sees a sibling's result, both answers belong to a solution |
| Trace.TraceContext.Emit | src/workflow_engine/trace.py:30-48 | appends one event, numbered one more than the last |
| Trace.TraceTellsOutcome | src/workflow_engine/executor.py:149-195 | a step's events determine how it ended and after how many failures |
| Trace.RetriesAt | src/workflow_engine/executor.py:184-186 | the retry events of a step are numbered 1 to n without gaps |
| Trace.TraceReads | src/workflow_engine/executor.py:149-195 | the record of a step mark by mark: skipped; or started, retries 1 to n, and completed with n + 1 attempts, or failed and dead-lettered with retries + 1 |
| Trace.OrderKept | src/workflow_engine/executor.py:104-125 | nothing is logged about a step before everything it waits for was skipped, completed or failed |
| Trace.LayerLogGrows | src/workflow_engine/executor.py:165-195 | starting, running and publishing a layer leaves each of its steps its own full record, and nothing else |
| Backoff.RawIsPower | src/workflow_engine/executor.py:245 | the uncapped delay is 0.5 times a power of two |
| Backoff.DelaysNeverShrink | src/workflow_engine/executor.py:245-251 | delays never decrease and never exceed the cap |
| Backoff.TotalBackoffBound | src/workflow_engine/executor.py:220-255 | the total is at most 0.5 * (2^retries - 1) and at most retries times the cap |
| Backoff.TotalClosedForm | src/workflow_engine/executor.py:220-255 | exact total: geometric until the first capped delay, then linear |
| Books.LedgersAgree | src/workflow_engine/executor.py:218-267 | results belong to completed steps, errors and letters to failed ones; attempt and retry counts fit each other and the retry limit |
| Books.LettersAreExact | src/workflow_engine/executor.py:256-266 | one dead letter per failed step, with its id, task, error, retries + 1 attempts and parameters |
| Books.PendingIffBlocked | src/workflow_engine/executor.py:86-102 | after a run PENDING means waiting for a cycle or an unknown id, and nothing is RUNNING |
| Books.PartialIffBlocked | src/workflow_engine/executor.py:286-293 | the run is "failed" iff a step failed, else "partial" iff some step is blocked, else "completed" |
| Books.AcceptedRunsEnd | src/workflow_engine/executor.py:86-102 | after validation every step ends COMPLETED, FAILED or SKIPPED |
| Books.SchedulesAgree | src/workflow_engine/executor.py:104-195 | any two finished runs of tasks that look only at what their steps wait for kept equal books, dead letters up to order |
| Transitions.SkipState | src/workflow_engine/executor.py:114-121 | skipping a ready step keeps the books meaningful |
| Transitions.SuccessState | src/workflow_engine/executor.py:234-238 | a returning attempt ends the step with the outcome it must have, and the books say so |
| Transitions.FailureState | src/workflow_engine/executor.py:239-251 | a raising attempt keeps the retry loop on course |
| Transitions.FailureRests | src/workflow_engine/executor.py:242-251 | a failure is followed by the delay before the next attempt, if there is one |
| Transitions.DeathState | src/workflow_engine/executor.py:256-267 | giving up records the outcome the step must have, its error and one letter |
| Transitions.EndingIsUndisturbing | src/workflow_engine/executor.py:171-182 | a thread that ends changes nothing that any ready or running step may look at |
| Transitions.WorkerEnds | src/workflow_engine/executor.py:171-182 | while one step of a layer ends, the others keep waiting, working or having ended |
| Transitions.WorkerUsesTokens | src/workflow_engine/executor.py:220 | every action of a worker uses up one of the finitely many attempts of the layer |
| Transitions.RoundAdvances | src/workflow_engine/executor.py:104-147 | r rounds of either scheduler resolve at least what r rounds of the graph resolve |
| Transitions.ProgressIsNeeded | src/workflow_engine/executor.py:86-99 | a round that makes progress was needed: fewer rounds cannot resolve everything resolvable |
| Transitions.RunIsOver | src/workflow_engine/executor.py:97-102 | when the loop ends, by count or by the no-progress break, the ledger is the solution |
| Executor.WorkflowExecutor.constructor | src/workflow_engine/executor.py:41-66 | a new executor has consistent, empty books |
| Executor.WorkflowExecutor.Try | src/workflow_engine/executor.py:220-255 | one attempt: exactly its effect on books, delays and events, for a thread in any interleaving |
| Executor.WorkflowExecutor.GiveUp | src/workflow_engine/executor.py:256-267 | the step is dead with its last error |
| Executor.WorkflowExecutor.RunWithRetry | src/workflow_engine/executor.py:211-267 | the loop ends in the outcome of the step, with the retry events and the delays that belong to it |
| Executor.WorkflowExecutor.LogEnd | src/workflow_engine/executor.py:156-162 | completed with failures + 1, or failed and dlq.recorded with retries + 1 |
| Executor.WorkflowExecutor.RunStep | src/workflow_engine/executor.py:149-163 | the step ends in its outcome and leaves its full record, retries logged live |
| Executor.WorkflowExecutor.SkipStep | src/workflow_engine/executor.py:114-121 | the step is skipped and logged, nothing else changes |
| Executor.WorkflowExecutor.RunYamlOrder | src/workflow_engine/executor.py:104-125 | one pass ends everything that was ready before it, and exactly the steps it finds ready in definition order, each seen by those after it; it logs them in that order and reports progress iff there was any |
| Executor.WorkflowExecutor.CollectRunnable | src/workflow_engine/executor.py:127-147 | one scan skips or collects, in definition order, exactly what it finds ready, skips being seen by the steps after them; what it collects can be started together |
| Executor.WorkflowExecutor.StartLayer | src/workflow_engine/executor.py:168-170 | every step of the layer runs and has its start logged |
| Executor.WorkflowExecutor.RunLayer | src/workflow_engine/executor.py:171-182 | in every interleaving of attempts each step of the layer ends in its own outcome, the delays slept are those of its failures, and the pool terminates |
| Executor.WorkflowExecutor.Act | src/workflow_engine/executor.py:211-267 | one action of one worker keeps the layer in progress and uses up a token |
| Executor.WorkflowExecutor.LogRetries | src/workflow_engine/executor.py:184-186 | the retry events rebuilt from the counts are those the live loop would have emitted |
| Executor.WorkflowExecutor.PublishLayer | src/workflow_engine/executor.py:183-195 | every step of the layer has its retries and its end logged, in definition order |
| Executor.WorkflowExecutor.RunParallel | src/workflow_engine/executor.py:165-195 | the layer has ended and its events are complete |
| Executor.WorkflowExecutor.RunLayerRound | src/workflow_engine/executor.py:87-93 | a parallel round ends everything that was ready before it |
| Executor.WorkflowExecutor.ValidateRegistry | src/workflow_engine/executor.py:68-77 | finds exactly the tasks nobody registered |
| Executor.WorkflowExecutor.RunRounds | src/workflow_engine/executor.py:86-99 | the loop ends in a solution, after no more rounds than are needed and one more if it stalls |
| Executor.WorkflowExecutor.Execute | src/workflow_engine/executor.py:79-102 | from any definition with unique ids, validated or not, and any tasks, the run terminates in a solution, with the round bound; every line of the log is the one the scheduler's order calls for, and none is about a step before its sources ended; with tasks missing nothing is touched |
| Rounds.PassTakes | src/workflow_engine/executor.py:104-125 | a step that a pass finds ready ends at once, is seen by the steps after it, and its record is the next in the log |
| Rounds.LayerCompletes | src/workflow_engine/executor.py:127-195 | a parallel round logs its skips, its starts and its ends, each in definition order, and ends exactly the skipped and the collected steps |
| Rounds.RunStable | src/workflow_engine/executor.py:86-99 | what later rounds record does not change what the earlier ones did or logged |
| Rounds.SameLines | src/workflow_engine/executor.py:86-99 | runs of one scheduler with the same outcomes log the same lines |
| Runs.TracesAgree | src/workflow_engine/executor.py:149-195 | the events of any one step are the same in any two finished runs of tasks that look only at what their steps wait for |
| Runs.SameLedgerSameRun | src/workflow_engine/executor.py:104-195 | finished executors with one ledger hold the same books and events, slept the same delays, and stalled alike |
| Runs.FinishedRunsAgree | src/workflow_engine/executor.py:104-195 | finished executors whose oracles have one common solution leave the same books, events and delays |
| Runs.SameModeSameLog | src/workflow_engine/executor.py:165-195 | two finished runs with one common solution, both sequential or both parallel, left the same log event by event |
| Runs.RunSleeps | src/workflow_engine/executor.py:245-251 | a finished run slept exactly the delays its outcomes call for, in whatever order |
| Runs.RunTwice | src/workflow_engine/executor.py:86-102 | two runs, of tasks that look only at what their steps wait for, under any two concurrency limits return the same thing and leave the same books, events of each step and delays; with both sequential or both parallel, the same log |
| Runs.RunTasksTwice | src/workflow_engine/executor.py:223-233 | the same for registered tasks, also across typed and untyped I/O if no task has a run method or returns a TaskResult |
| Runs.RoundBound | src/workflow_engine/executor.py:86-147 | with known sources no run needs more rounds than the longest path has steps |
| Runs.CheckAndRun | src/workflow_engine/parser.py:122-135 | runs iff ids are unique, sources known, graph acyclic, tasks registered; then every step ends, with the statuses of a solution, and the no-progress break is not taken, whatever the tasks do |
| Runs.CheckAndRunTasks | src/workflow_engine/contracts.py:92-103 | the same for registered tasks; a step whose callable always returns a failed TaskResult ends FAILED with typed I/O and COMPLETED without |
| Runs.FailedResultInRun | src/workflow_engine/executor.py:223-238 | the books of such a step: with typed I/O the TaskResult's error and a dead letter with it, without it the TaskResult as the result |
| TypedTasks.AdaptingKeepsLocality | src/workflow_engine/contracts.py:86-103 | if each step's own task, called for that step, looks only at what the step waits for, so do all attempts of the workflow |
| TypedTasks.ReadingOneResult | src/workflow_engine/tasks.py:78-100 | a task that reads one result by its id is local for a step iff the step waits for that result's step, or the task ignores it |
| TypedTasks.InLineIsLocal | src/workflow_engine/tasks.py:135-154 | a step that every other step comes before or after may use any task, also one that lists its whole context |
| TypedTasks.LegacyAnswers | src/workflow_engine/executor.py:233 | without typed I/O an attempt is what the registered object's own call returns or raises |
| TypedTasks.TypedAnswers | src/workflow_engine/contracts.py:75-103 | with typed I/O a run method goes first and must return a TaskResult; a TaskResult is opened, from a plain callable too; anything else a callable returns is the result |
| TypedTasks.TypedIoMatters | src/workflow_engine/contracts.py:92-103 | typed and untyped calls of a callable differ iff it returns a TaskResult |
| TypedTasks.TypedSuccess | src/workflow_engine/contracts.py:75-103 | a typed object's attempt succeeds iff it returns a TaskResult without an error |
| TypedTasks.IoModesAgree | src/workflow_engine/executor.py:223-233 | with plain callables that return no TaskResult, typed I/O changes no attempt in any context a step can be handed |
| TypedTasks.SameSolutions | src/workflow_engine/executor.py:223-233 | attempts that agree in those contexts have the same solutions |
| DagView.BuildDag | src/workflow_engine/dag.py:13-40 | one node per step with its id, task, status or PENDING, condition flag and retries; one edge per entry of depends_on and one per condition, of the right kind and in order |
| DagView.EdgesAreDependencies | src/workflow_engine/dag.py:31-38 | the drawn edges are exactly the arrows that validation and the schedulers use |
| DagView.Pass | frontend/src/components/DagGraph.tsx:41-51 | levels only rise, each stays the length of some path, and changed is reported exactly |
| DagView.PassCounts | frontend/src/components/DagGraph.tsx:40-52 | every pass accounts for paths one step longer |
| DagView.SettledIsExact | frontend/src/components/DagGraph.tsx:38-53 | levels that no edge can raise are exact longest paths, and exist only without cycles |
| DagView.ComputeLevels | frontend/src/components/DagGraph.tsx:26-53 | the fixed point is reached within the guard iff the graph is acyclic, and then levels are exact longest paths |
| DagView.LevelsAreRounds | frontend/src/components/DagGraph.tsx:26-53 | a node is in the first k columns iff k scheduler rounds reach it |
| Layout.GroupByLevel | frontend/src/components/DagGraph.tsx:58-63 | the columns are the used levels, each with its nodes in order |
| Layout.RowIsRank | frontend/src/components/DagGraph.tsx:58-63 | a node's row is the number of nodes of its column listed before it |
| Layout.SortColumns | frontend/src/components/DagGraph.tsx:67 | the columns in strictly increasing order |
| Layout.LayOut | frontend/src/components/DagGraph.tsx:65-83 | positions, width and height as computed from columns and rows |
| Layout.Measures | frontend/src/components/DagGraph.tsx:75-83 | the numbers: columns 264 apart, rows 96, offset 24; width and height with their minimum |
| Layout.NoOverlap | frontend/src/components/DagGraph.tsx:68-78 | no two boxes overlap |
| Layout.EveryNodeIsDrawn | frontend/src/components/DagGraph.tsx:59-78 | every node is drawn exactly as often as it is listed |
| Layout.InsideIffGapFree | frontend/src/components/DagGraph.tsx:80-83 | all boxes lie inside, with their padding, iff the columns leave no gap |
| Layout.ExactLevelsAreGapFree | frontend/src/components/DagGraph.tsx:26-83 | longest-path levels leave no gap |
| Layout.CycleLeavesGap | frontend/src/components/DagGraph.tsx:39-52 | with a cycle, the spent guard has pushed a node beyond all columns |
| Layout.Draw | frontend/src/components/DagGraph.tsx:55-84 | all nodes drawn, in the column of their level, without overlap, and everything inside iff the graph is acyclic |
| Layout.DrawWorkflow | src/workflow_engine/dag.py:13-40 | a validated workflow gets one box per step, without overlap, inside, each in the column of the round that resolves its step |
| CronProtocol.StepKeepsClaims | src/workflow_engine/contracts.py:113-121 | a won claim belongs to one process until it is dispatched |
| CronProtocol.AtMostOnce | src/workflow_engine/scheduler.py:157-179 | over every interleaving, with stale snapshots, concurrent registration and removal, failures and crashes, no (schedule, fire time) is dispatched twice |
| CronProtocol.StepKeepsOrder | src/workflow_engine/scheduler.py:136-179 | as long as claims are in time, a claim in flight is for the schedule's current next_run, is due for its tick, and one process at most holds it; schedules may come and go, ticks may fail anywhere |
| CronProtocol.CopiedRunsAreInTime | src/workflow_engine/storage_db.py:204-250 | claims read from copied snapshots are always in time |
| CronProtocol.NextRunMoves | src/workflow_engine/scheduler.py:146-155 | only mark_ran moves next_run, to beyond the time of the mark, also when that time is the tick's own stale now |
| CronProtocol.NextRunIncreases | src/workflow_engine/scheduler.py:136-179 | over every run next_run strictly increases with each mark and stays put otherwise |
| CronProtocol.MarkGrowsIff | src/workflow_engine/scheduler.py:153-154 | marking a fired time advances next_run iff that time has come by the time of the mark |
| CronProtocol.MarkedIsNotDue | src/workflow_engine/scheduler.py:136-155 | a schedule just marked is not due at that time or before |
| CronProtocol.DispatchedInOrder | src/workflow_engine/scheduler.py:157-179 | with claims in time, the firings of a schedule are dispatched in order and never before their time |
| CronProtocol.FiringsInOrder | src/workflow_engine/scheduler.py:136-179 | with copied snapshots this holds of every run from its start |
| CronProtocol.InOrderIffInTime | src/workflow_engine/scheduler.py:170-176 | a won claim, dispatched at once, keeps the order iff the fire time it read has come |
| CronProtocol.SharedFiringsInOrder | src/workflow_engine/scheduler.py:57-72 | with shared schedule objects, a run's claims are all in order iff all are in time, and then the whole run is |
| CronProtocol.StepKeepsLogged | src/workflow_engine/scheduler.py:176-177 | what a process is about to mark has been dispatched |
| CronProtocol.ExactlyOnce | src/workflow_engine/scheduler.py:157-179 | every fire time that next_run has moved past was dispatched exactly once; nothing else was but, at most, a schedule's next firing |
| CronProtocol.DroppingGetsStuck | src/workflow_engine/scheduler.py:170-178 | a dispatch or a mark that raises after the claim, or a process that dies then, leaves the schedule stuck |
| CronProtocol.StuckForever | src/workflow_engine/scheduler.py:170-177 | a stuck schedule is never dispatched or advanced again, with copied or shared snapshots |
| CronProtocol.StepKeepsTended | src/workflow_engine/scheduler.py:170-178 | unless its tick fails so, a registered schedule whose next firing is claimed stays in the hands of a process |
| CronProtocol.StuckIffDropped | src/workflow_engine/scheduler.py:157-179 | a schedule still registered is stuck after a run iff some tick dropped it between claim and mark |
| CronProtocol.LateTickGetsStuck | src/workflow_engine/scheduler.py:170-178 | a late tick over shared objects that marks before the fire time it claimed breaks the order and leaves the schedule stuck |
| CronProtocol.SharedReadsFireEarly | src/workflow_engine/scheduler.py:57-72 | for every schedule and time: two overlapping ticks fire early, and no continuation dispatches the schedule again |
| Scheduler.InMemoryScheduleStore.Put | src/workflow_engine/scheduler.py:62-63 | stores a schedule under its own name, replacing an older one |
| Scheduler.InMemoryScheduleStore.Delete | src/workflow_engine/scheduler.py:68-69 | removes the name and says whether it was there |
| Scheduler.InMemoryIdempotencyStore.Claim | src/workflow_engine/contracts.py:113-121 | grants every key once per namespace, and a missing or empty key always |
| Scheduler.WorkflowScheduler.KeysIff | src/workflow_engine/scheduler.py:171-174 | two firings make the same claim iff they are one fire time of one schedule |
| Scheduler.WorkflowScheduler.Register | src/workflow_engine/scheduler.py:100-119 | refuses an invalid expression; otherwise stores a schedule that is not due yet |
| Scheduler.WorkflowScheduler.Due | src/workflow_engine/scheduler.py:136-144 | exactly the enabled schedules whose next run is at or before now, each once |
| Scheduler.WorkflowScheduler.MarkRan | src/workflow_engine/scheduler.py:146-155 | the schedule is not due at the given time any more; all others are untouched |
| Scheduler.WorkflowScheduler.Fire | src/workflow_engine/scheduler.py:171-178 | claims the schedule's name with its fire time, dispatches iff that is granted, marks iff the dispatch returns |
| Scheduler.WorkflowScheduler.FireNext | src/workflow_engine/scheduler.py:170-178 | one pass of the loop handles one more schedule of the snapshot, or raises and changes nothing but the claim |
| Scheduler.WorkflowScheduler.DispatchDue | src/workflow_engine/scheduler.py:157-179 | without a raise exactly the due, unclaimed schedules fire and none of them is due any more; a raise ends the tick and leaves its schedule claimed and due; the claims made are exactly the names and fire times of the schedules handled, and none is given up |
| Scheduler.WorkflowScheduler.TwoTicks | src/workflow_engine/scheduler.py:157-179 | over two ticks: no fire time granted in the first is dispatched in the second, and a schedule due again fires at its next fire time |
| Locks.MockRedisClient.Get | src/workflow_engine/internal/vendor_core/testing.py:43-48 | the live value; an expired key is removed |
| Locks.MockRedisClient.Set | src/workflow_engine/internal/vendor_core/testing.py:50-70 | NX succeeds iff the key is free or expired at the first clock reading; the deadline counts from the second; a zero time to live is none |
| Locks.LivesUntil | src/workflow_engine/internal/vendor_core/testing.py:63-69 | a value lives for ex seconds, or px milliseconds, or for ever |
| Locks.MockRedisClient.Delete | src/workflow_engine/internal/vendor_core/testing.py:76-84 | removes value and time to live together |
| Locks.MockRedisClient.Release | src/workflow_engine/internal/vendor_core/testing.py:86-97 | removes the key iff the caller's token is live there, or the key has expired |
| Locks.RedisLockProvider.Enter | src/workflow_engine/locks.py:55-58 | acquires iff nobody holds the key now |
| Locks.RedisLockProvider.Exit | src/workflow_engine/locks.py:59-62 | releases only what it acquired and still owns |
| Locks.RedisLock.Enter | src/workflow_engine/internal/vendor_core/redis.py:136-148 | whatever others do meanwhile, takes the lock at the first try that finds it free, or times out after tries that all found it held; the timeout runs on its own clock |
| Locks.RedisLock.Exit | src/workflow_engine/internal/vendor_core/redis.py:150-165 | releases only what it acquired and still owns |
| Locks.InMemoryLockProvider.Enter | src/workflow_engine/locks.py:29-36 | acquires iff no context with that key is inside; the key set is that of the contexts inside |
| Locks.InMemoryLockProvider.Exit | src/workflow_engine/locks.py:37-40 | leaving removes the key of a context that acquired, and nothing else |
| Locks.StepKeepsGuarded | src/workflow_engine/locks.py:55-62 | every section within its time owns its key's lease |
| Locks.OneLiveHolder | src/workflow_engine/locks.py:55-62 | in every reachable state a key has at most one section within its time |
| Locks.LeavingSparesOthers | src/workflow_engine/locks.py:10-16 | leaving, late or not, never takes another owner's live lease |
| Locks.LeavingInTimeFrees | src/workflow_engine/locks.py:59-62 | a section left in time frees its key at once |
| Locks.MutualExclusion | src/workflow_engine/locks.py:55-62 | if every section ends within its time to live, at most one is inside per key at every moment |
| Locks.OverrunAlwaysLetsTwoIn | src/workflow_engine/locks.py:55-62 | in every reachable state a try while a section on the key is overdue leaves two sections inside |
| Locks.StaysExclusiveIff | src/workflow_engine/locks.py:55-62 | an exclusive state stays exclusive iff the next action is no such try |
| Locks.ExclusiveIffNoOverdueTry | src/workflow_engine/locks.py:55-62 | a run is exclusive at every moment iff it has no such try |
| Locks.OverrunLetsTwoIn | src/workflow_engine/locks.py:55-62 | an instance with numbers |
| Locks.UnlimitedHoldsOn | src/workflow_engine/internal/vendor_core/testing.py:59-61 | a section without a deadline keeps its key and everybody else out, in every run that does not leave it |
| Locks.ZeroTtlNeverExpires | src/workflow_engine/internal/vendor_core/testing.py:64-69 | a lock taken with a time to live of 0 is such a section |
| RateLimit.LocalRateLimiter.Allow | src/workflow_engine/auth.py:39-55 | the answer is that of the run over all calls so far; other buckets are untouched |
| RateLimit.BucketsAreSeparate | src/workflow_engine/auth.py:42-46 | two callers share a bucket iff they use the same recognized key or go by the same client name |
| RateLimit.WindowsBound | src/workflow_engine/auth.py:47-55 | m windows after a the bucket has admitted at most m full quotas and the current window |
| RateLimit.RateBound | src/workflow_engine/auth.py:47-55 | any half-open interval of at most m windows admits at most limit * (m + 1) calls of a bucket |
| RateLimit.RateBoundForLength | src/workflow_engine/auth.py:47-55 | the same for length T, with m = ceil(T / W) |
| RateLimit.SlotIsOpener | src/workflow_engine/auth.py:49-54 | the stored pair is the time of the call that opened the window and the admissions since |
| RateLimit.RefusedIffWindowFull | src/workflow_engine/auth.py:50-53 | refused iff the current window, opened less than W ago, has taken in exactly limit calls |
| RateLimit.RefusalMeansLimitReached | src/workflow_engine/auth.py:50-53 | a refused caller has seen at least limit admissions within the last W |
| RateLimit.ExactlyLimitIff | src/workflow_engine/auth.py:49-53 | at a refusal exactly limit calls were admitted within the last W iff all earlier windows' admissions are at least W old |
| RateLimit.MoreThanLimitInWindow | src/workflow_engine/auth.py:50-53 | an input where it was more |
| RateLimit.NoLimitNoAdmission | src/workflow_engine/auth.py:52-53 | with a limit of zero or less no run admits anybody |
| RateLimit.OtherBucketsDoNotMatter | src/workflow_engine/auth.py:49-54 | a bucket is in the state its own calls alone would have left it in |
| Storage.InMemoryWorkflowStorage.SaveRun | src/workflow_engine/storage.py:20-51 | a given id is kept, an empty or missing one replaced by the uuid; get_run then returns what was passed in, no other run changes, and at most this one is added |
| Storage.InMemoryWorkflowStorage.GetDeadLetters | src/workflow_engine/storage.py:72-80 | the letters of one run, or all letters annotated with their run |
| Storage.DatabaseWorkflowStorage.DeleteRun | src/workflow_engine/models.py:30-32 | deleting a run deletes its step rows and no others |
| Storage.DatabaseWorkflowStorage.AddStepRows | src/workflow_engine/storage_db.py:80-95 | one row per status, built from the record |
| Storage.DatabaseWorkflowStorage.SaveRun | src/workflow_engine/storage_db.py:45-98 | the same of the tables, which drop empty strings and entries without a status; after any sequence of saves and reruns they hold exactly the rows of the remembered records |
| Storage.DatabaseWorkflowStorage.GetDeadLetters | src/workflow_engine/storage_db.py:156-171 | the letters of one run, or all letters annotated with their run |
| Storage.NoOrphans | src/workflow_engine/storage_db.py:64-67 | no step row without its run, and each says what was last saved about its step |
| Storage.Rerun | src/workflow_engine/storage_db.py:60-67 | saving again under the id of a run replaces that run in both stores and adds none |
| Storage.LettersInIff | src/workflow_engine/storage.py:76-80 | the listing of all dead letters has every letter of every run with the run's id put in, and no other |
| Storage.TableReturnsTrimmed | src/workflow_engine/storage_db.py:106-131 | get_run returns the record without empty strings and without entries of unknown steps |
| Storage.RunsAgree | src/workflow_engine/storage_db.py:106-131 | after the same saves the two stores agree up to that |
| Storage.RunsIdenticalIff | src/workflow_engine/storage_db.py:117-122 | they answer identically iff the record has no such entries |
| Storage.OrderDoesNotMatter | src/workflow_engine/storage_db.py:162-169 | the multiset of all letters does not depend on the order of the runs |
| Storage.DeadLettersAgree | src/workflow_engine/storage_db.py:156-171 | both stores hold the same letters: per run as lists, overall as multisets |
| Chunking.ChunkFixed | src/workflow_engine/internal/vendor_core/docparse.py:204-216 | for every size and overlap for which it ends, the loop yields the windows of the effective overlap |
| Chunking.WindowsAreSmall | src/workflow_engine/internal/vendor_core/docparse.py:204-216 | no chunk is empty or longer than the chunk size |
| Chunking.ChunksRebuild | src/workflow_engine/internal/vendor_core/docparse.py:204-216 | the first chunk and the later ones without their overlap rebuild the text |
| Chunking.ExactChunkCount | src/workflow_engine/internal/vendor_core/docparse.py:204-216 | 1 + ceil((len - size) / (size - overlap)) chunks, or 1 when one window covers the text |
| Chunking.FixedStopsIff | src/workflow_engine/internal/vendor_core/docparse.py:204-216 | the loop ends iff the text is empty, the chunk size positive, or the overlap below the chunk size |
| Chunking.ChunkStructural | src/workflow_engine/internal/vendor_core/docparse.py:234-245 | the chunks of the stripped, non-empty blocks, in order |
| Chunking.StructuralBound | src/workflow_engine/internal/vendor_core/docparse.py:240-244 | structural chunks obey the size bound and are never empty |
| Chunking.StructuralStopsIff | src/workflow_engine/internal/vendor_core/docparse.py:240-244 | a block that is not blank can be chunked iff the chunk size is positive |
| Chunking.StripCutsEnds | src/workflow_engine/internal/vendor_core/docparse.py:237 | stripping cuts whitespace off both ends and nothing else |
| Chunking.BlockRebuilds | src/workflow_engine/internal/vendor_core/docparse.py:237-244 | the chunks of a block rebuild the stripped block |
| Chunking.ChunkSemantic | src/workflow_engine/internal/vendor_core/docparse.py:219-231 | size bound by chunk size or longest sentence; all but whitespace survives in order; for trimmed sentences, neighbouring chunks never fit into one; if none is empty either, the chunks are groups of neighbouring sentences, and no grouping within the size has fewer |
| Chunking.GreedyStaysAhead | src/workflow_engine/internal/vendor_core/docparse.py:223-228 | after any number of groups, no grouping within the size has covered more sentences than the greedy one |
| Chunking.ChunkText | src/workflow_engine/internal/vendor_core/docparse.py:187-201 | no chunks of an empty text; otherwise those of the chosen strategy, within its bound, for the semantic one with the fewest chunks as above |

## Left out

* YAML parsing, decoding and type coercion, hashing, uuid generation and cron expressions: ids and tokens are opaque, and a next fire time is only assumed to lie after its base.
* Tasks are oracles: the answer to an attempt is a function of the step, the attempt number and the context. A task that mutates its parameters or its context, or answers at random, is outside the model.
* The thread pool's queue and its limit: a layer is an arbitrary interleaving of submissions, attempts and give-ups, which includes every schedule a pool can produce.
* `on_step` hooks, log messages, details of events, runs without a trace, and a trace that already holds events of steps; message texts are not modelled, only which error is reported.
* Executor.WorkflowExecutor.RunLayer: does not say in which order the delays of different threads are slept.
* Floating point: delays, times and windows are real numbers, fire times integers.
* CronProtocol.StepKeepsOrder: treats `mark_ran` as one step, so a removal between its read and its write is not modelled, and assumes that no name is registered a second time; `CronProtocol.AtMostOnce` does not.
* Locks.RedisLock.Enter: the asynchronous variants and a release that fails are left out.
* `SET` with NX is one step between its two clock readings, as it is on a Redis server.
* Timestamps, listing order and session rollback of the run stores; the schedule, webhook and version tables, which are keyed maps.
* Chunking.ChunkSemantic: starts from the sentences, and `Chunking.ChunkStructural` from the blocks, that the regular expressions yield; which characters are whitespace is a parameter.
* Chunking.ChunkText: is not defined where a strategy would not end; for the fixed and structural ones that is exactly `Chunking.FixedStopsIff` and `Chunking.StructuralStopsIff`.
* Drawing beyond the layout, the API, authorization roles, webhooks, pricing and configuration: they would add only lookups and plumbing.

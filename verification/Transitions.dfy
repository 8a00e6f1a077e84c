/**
 The executor's state seen as a value, and the actions that change it: start a step, skip
 it, let one attempt of it succeed or fail, give it up. A step being retried is a thread;
 threads of one layer may act in any order, and none of them disturbs the others.
 */
module Transitions {
  import opened Graphs
  import opened Definitions
  import opened Semantics
  import opened Books
  import Backoff

  /** What every run takes for granted; decoding a definition guarantees it. */
  ghost predicate WellFormed(steps: seq<Step>) {
    UniqueIds(steps)
  }

  ghost predicate State(steps: seq<Step>, oracle: Oracle, ledger: Ledger, inFlight: Progress, b: Books) {
    && WellFormed(steps)
    && Consistent(steps, oracle, ledger)
    && Match(steps, ledger, inFlight, b)
  }

  /** After k failures the retry loop is still heading for the step's outcome. */
  ghost predicate OnCourse(oracle: Oracle, s: Step, ctx: Context, k: nat, lastError: string) {
    if k <= s.retries then Attempts(oracle, s, ctx, k) == Eval(oracle, s, ctx)
    else k == s.retries + 1 && Eval(oracle, s, ctx) == Dead(lastError, s.retries)
  }

  /** s may be started: all its sources have ended and its condition holds. */
  ghost predicate Launchable(steps: seq<Step>, ledger: Ledger, s: Step) {
    s in steps && s.Ready(ledger.Keys) && s.Enabled(ResultsOf(ledger))
  }

  /** s is being retried in a context that shows it its ancestors' results; k attempts have failed. */
  ghost predicate Thread(steps: seq<Step>, oracle: Oracle, ledger: Ledger, s: Step, ctx: Context,
                         k: nat, lastError: string)
  {
    && s in steps && s.Ready(ledger.Keys)
    && Handed(steps, s, ctx, ResultsOf(ledger))
    && OnCourse(oracle, s, ctx, k, lastError)
  }

  /** The dictionaries an executor starts with. */
  function AllPending(steps: seq<Step>): map<Id, Status> {
    map s | s in steps :: s.id := Pending
  }

  function NoFailures(steps: seq<Step>): map<Id, nat> {
    map s | s in steps :: s.id := 0
  }

  lemma InitialState(steps: seq<Step>, oracle: Oracle, b: Books)
    requires WellFormed(steps)
    requires b == Books(AllPending(steps), map[], map[], NoFailures(steps), NoFailures(steps), [])
    ensures State(steps, oracle, map[], map[], b)
  {
    hide Consistent, UniqueIds;
    EmptyLedgerIsConsistent(steps, oracle);
    InitialTallies(steps);
  }

  lemma InitialTallies(steps: seq<Step>)
    ensures StatusesOf(Ids(steps), map[], map[]) == AllPending(steps)
    ensures FailuresOf(Ids(steps), map[], map[]) == AttemptsOf(Ids(steps), map[], map[]) == NoFailures(steps)
  {
    assert AllPending(steps).Keys == Ids(steps) == NoFailures(steps).Keys;
  }

  lemma StateIsKnown(steps: seq<Step>, oracle: Oracle, ledger: Ledger, inFlight: Progress, b: Books)
    requires State(steps, oracle, ledger, inFlight, b)
    ensures WellFormed(steps) && b.results == ResultsOf(ledger) && ledger.Keys <= Ids(steps)
  {
  }

  /** What the books say about one step. */
  lemma StateAt(steps: seq<Step>, oracle: Oracle, ledger: Ledger, inFlight: Progress, b: Books, s: Step)
    requires State(steps, oracle, ledger, inFlight, b) && s in steps
    ensures s.id in b.statuses && b.statuses[s.id] == StatusAt(ledger, inFlight, s.id)
    ensures s.id in b.retryCounts && b.retryCounts[s.id] == FailuresAt(ledger, inFlight, s.id)
    ensures s.id in b.attemptCounts && b.attemptCounts[s.id] == AttemptsAt(ledger, inFlight, s.id)
    ensures b.results == ResultsOf(ledger)
    ensures s.id in inFlight ==> s.id !in ledger
    ensures s.id in ledger && ledger[s.id].Done? ==> ledger[s.id].failures <= s.retries
    ensures s.id in ledger && ledger[s.id].Dead? ==> ledger[s.id].retries == s.retries
  {
    hide LettersMatch, Grounded;
    if s.id in ledger {
      OutcomeWithinRetries(steps, oracle, ledger, s);
    }
  }

  lemma StartState(steps: seq<Step>, oracle: Oracle, ledger: Ledger, inFlight: Progress, b: Books, s: Step)
    requires State(steps, oracle, ledger, inFlight, b)
    requires s in steps && s.id !in ledger && s.id !in inFlight
    ensures State(steps, oracle, ledger, inFlight[s.id := 0], b.(statuses := b.statuses[s.id := Running]))
  {
    StartTallies(Ids(steps), ledger, inFlight, b, s.id);
  }

  lemma SkipState(steps: seq<Step>, oracle: Oracle, ledger: Ledger, inFlight: Progress, b: Books, s: Step)
    requires State(steps, oracle, ledger, inFlight, b)
    requires s in steps && s.id !in ledger && s.id !in inFlight
    requires s.Ready(ledger.Keys) && !s.Enabled(b.results)
    ensures State(steps, oracle, ledger[s.id := Skip], inFlight, b.(statuses := b.statuses[s.id := Skipped]))
  {
    OwnResultsAreHanded(steps, oracle, ledger, s);
    ExtendLedger(steps, oracle, ledger, s, b.results);
    SkipTallies(Ids(steps), ledger, inFlight, b, s.id);
    LettersKept(steps, ledger, b.deadLetters, s.id, Skip);
  }

  lemma SameContextAgrees(g: Arrows, x: Id, c: Context)
    ensures AgreeAbove(g, x, c, c)
  {
  }

  lemma ThreadStep(steps: seq<Step>, oracle: Oracle, ledger: Ledger, s: Step, ctx: Context, k: nat, lastError: string)
    requires Thread(steps, oracle, ledger, s, ctx, k, lastError)
    ensures s in steps
  {
  }

  /** A step that has not ended can be handed the results so far. */
  lemma OwnResultsAreHanded(steps: seq<Step>, oracle: Oracle, ledger: Ledger, s: Step)
    requires Consistent(steps, oracle, ledger) && s.id !in ledger
    ensures Handed(steps, s, ResultsOf(ledger), ResultsOf(ledger))
  {
    ResultsArePossible(steps, oracle, ledger, s.id);
    SameContextAgrees(Dependencies(steps), s.id, ResultsOf(ledger));
  }

  /** A fresh thread whose context is the current results is on course. */
  lemma LaunchThread(steps: seq<Step>, oracle: Oracle, ledger: Ledger, inFlight: Progress, b: Books, s: Step)
    requires State(steps, oracle, ledger, inFlight, b) && Launchable(steps, ledger, s) && s.id !in ledger
    ensures Thread(steps, oracle, ledger, s, ResultsOf(ledger), 0, "")
  {
    hide Match, Handed;
    OwnResultsAreHanded(steps, oracle, ledger, s);
  }

  /** One more attempt keeps the thread on course, or shows that it has arrived. */
  lemma OnCourseNext(oracle: Oracle, s: Step, ctx: Context, k: nat, lastError: string)
    requires k <= s.retries && OnCourse(oracle, s, ctx, k, lastError)
    ensures match oracle(s, k, ctx)
            case Returned(v) => Eval(oracle, s, ctx) == Done(v, k)
            case Raised(m) => OnCourse(oracle, s, ctx, k + 1, m)
  {
  }

  lemma SuccessState(steps: seq<Step>, oracle: Oracle, ledger: Ledger, inFlight: Progress, b: Books,
                     s: Step, ctx: Context, lastError: string, v: Value)
    requires State(steps, oracle, ledger, inFlight, b)
    requires s.id in inFlight && Thread(steps, oracle, ledger, s, ctx, inFlight[s.id], lastError)
    requires inFlight[s.id] <= s.retries && oracle(s, inFlight[s.id], ctx) == Returned(v)
    ensures Eval(oracle, s, ctx) == Done(v, inFlight[s.id])
    ensures State(steps, oracle, ledger[s.id := Done(v, inFlight[s.id])], inFlight - {s.id},
                  b.(statuses := b.statuses[s.id := Completed],
                     results := b.results[s.id := v],
                     attemptCounts := b.attemptCounts[s.id := inFlight[s.id] + 1]))
  {
    hide LettersMatch, Tallies, Disjoint, Attempts;
    OnCourseNext(oracle, s, ctx, inFlight[s.id], lastError);
    SuccessMatch(steps, ledger, inFlight, b, s.id, v);
    ExtendLedger(steps, oracle, ledger, s, ctx);
  }

  lemma FailureState(steps: seq<Step>, oracle: Oracle, ledger: Ledger, inFlight: Progress, b: Books,
                     s: Step, ctx: Context, lastError: string, message: string, k: nat)
    requires State(steps, oracle, ledger, inFlight, b)
    requires s.id in inFlight && Thread(steps, oracle, ledger, s, ctx, inFlight[s.id], lastError)
    requires inFlight[s.id] <= s.retries && oracle(s, inFlight[s.id], ctx) == Raised(message)
    requires k == inFlight[s.id] + 1
    ensures Thread(steps, oracle, ledger, s, ctx, k, message)
    ensures State(steps, oracle, ledger, inFlight[s.id := k],
                  b.(retryCounts := b.retryCounts[s.id := k], attemptCounts := b.attemptCounts[s.id := k]))
  {
    OnCourseNext(oracle, s, ctx, inFlight[s.id], lastError);
    FailureMatch(steps, ledger, inFlight, b, s.id, k);
  }

  /** The delays slept are those the failure counts account for, whoever slept them and in whatever order. */
  ghost predicate Rested(sleeps: seq<real>, steps: seq<Step>, failures: map<Id, nat>, cap: real) {
    multiset(sleeps) == Backoff.Slept(steps, failures, cap)
  }

  lemma NothingRested(steps: seq<Step>, cap: real)
    ensures Rested([], steps, NoFailures(steps), cap)
  {
    Backoff.NothingSlept(steps, NoFailures(steps), cap);
  }

  lemma RestsOnceMore(steps: seq<Step>, s: Step, failures: map<Id, nat>, k: nat, sleeps: seq<real>, cap: real)
    requires WellFormed(steps) && s in steps && s.id in failures && failures[s.id] == k
    requires Rested(sleeps, steps, failures, cap)
    ensures if k < s.retries then Rested(sleeps + [Backoff.Delay(k, cap)], steps, failures[s.id := k + 1], cap)
            else Rested(sleeps, steps, failures[s.id := k + 1], cap)
  {
    Backoff.SleptOnceMore(steps, failures, cap, s, k);
    hide Backoff.Slept, UniqueIds;
  }

  /** A failure is followed by the delay before the next attempt, if there is one. */
  lemma FailureRests(steps: seq<Step>, oracle: Oracle, ledger: Ledger, inFlight: Progress, b: Books, s: Step,
                     sleeps: seq<real>, cap: real)
    requires State(steps, oracle, ledger, inFlight, b) && s in steps && s.id in inFlight
    requires Rested(sleeps, steps, b.retryCounts, cap)
    ensures var k := inFlight[s.id];
            if k < s.retries then Rested(sleeps + [Backoff.Delay(k, cap)], steps, b.retryCounts[s.id := k + 1], cap)
            else Rested(sleeps, steps, b.retryCounts[s.id := k + 1], cap)
  {
    hide State, WellFormed, Rested;
    StateIsKnown(steps, oracle, ledger, inFlight, b);
    StateAt(steps, oracle, ledger, inFlight, b, s);
    RestsOnceMore(steps, s, b.retryCounts, inFlight[s.id], sleeps, cap);
  }

  lemma DeathState(steps: seq<Step>, oracle: Oracle, ledger: Ledger, inFlight: Progress, b: Books,
                   s: Step, ctx: Context, lastError: string)
    requires State(steps, oracle, ledger, inFlight, b)
    requires s.id in inFlight && Thread(steps, oracle, ledger, s, ctx, inFlight[s.id], lastError)
    requires inFlight[s.id] == s.retries + 1
    ensures Eval(oracle, s, ctx) == Dead(lastError, s.retries)
    ensures s.id in b.retryCounts && b.retryCounts[s.id] == s.retries + 1
    ensures State(steps, oracle, ledger[s.id := Dead(lastError, s.retries)], inFlight - {s.id},
                  b.(statuses := b.statuses[s.id := Failed],
                     errors := b.errors[s.id := lastError],
                     deadLetters := b.deadLetters + [LetterOf(s, lastError, b.retryCounts[s.id])]))
  {
    hide LettersMatch, Tallies, Disjoint, Attempts;
    DeathMatch(steps, ledger, inFlight, b, s, lastError);
    ExtendLedger(steps, oracle, ledger, s, ctx);
  }

  // ----- Nobody is disturbed when another step ends -----

  /** To every step that is ready before, the ledger afterwards looks the same. */
  ghost predicate Undisturbed(steps: seq<Step>, before: Ledger, after: Ledger) {
    && before.Keys <= after.Keys && Part(ResultsOf(before), ResultsOf(after))
    && forall t :: t in steps && t.Ready(before.Keys) ==>
                     AgreeAbove(Dependencies(steps), t.id, ResultsOf(before), ResultsOf(after))
  }

  lemma NothingIsUndisturbing(steps: seq<Step>, ledger: Ledger)
    ensures Undisturbed(steps, ledger, ledger)
  {
    forall t | t in steps
      ensures AgreeAbove(Dependencies(steps), t.id, ResultsOf(ledger), ResultsOf(ledger))
    {
      SameContextAgrees(Dependencies(steps), t.id, ResultsOf(ledger));
    }
  }

  lemma EndingIsUndisturbing(steps: seq<Step>, oracle: Oracle, ledger: Ledger, inFlight: Progress, b: Books, x: Id,
                             o: Outcome)
    requires State(steps, oracle, ledger, inFlight, b) && x in inFlight
    ensures Undisturbed(steps, ledger, ledger[x := o])
  {
    hide LettersMatch, Tallies, Part;
    ResultsStay(ledger, x, o);
    forall t | t in steps && t.Ready(ledger.Keys)
      ensures AgreeAbove(Dependencies(steps), t.id, ResultsOf(ledger), ResultsOf(ledger[x := o]))
    {
      ReadyIsMet(steps, t, ledger.Keys);
      RecordingIsInvisible(Dependencies(steps), ledger, x, o, t.id);
    }
  }

  lemma LaunchableStays(steps: seq<Step>, before: Ledger, after: Ledger, s: Step)
    requires Undisturbed(steps, before, after) && Launchable(steps, before, s)
    ensures Launchable(steps, after, s)
  {
    EnabledLocal(steps, s, ResultsOf(before), ResultsOf(after));
  }

  lemma ThreadStays(steps: seq<Step>, oracle: Oracle, before: Ledger, after: Ledger,
                    s: Step, ctx: Context, k: nat, lastError: string)
    requires Undisturbed(steps, before, after) && Thread(steps, oracle, before, s, ctx, k, lastError)
    ensures Thread(steps, oracle, after, s, ctx, k, lastError)
  {
    AgreeTransitive(Dependencies(steps), s.id, ctx, ResultsOf(before), ResultsOf(after));
  }

  // ----- Layers of steps that run at the same time -----

  /** Distinct steps that can all be started now. */
  ghost predicate Layer(steps: seq<Step>, ledger: Ledger, layer: seq<Step>) {
    && UniqueIds(layer)
    && forall i {:trigger layer[i]} :: 0 <= i < |layer| ==>
         Launchable(steps, ledger, layer[i]) && layer[i].id !in ledger
  }

  lemma LayerIsNew(steps: seq<Step>, ledger: Ledger, layer: seq<Step>)
    requires Layer(steps, ledger, layer)
    ensures ledger.Keys * Ids(layer) == {} && (layer != [] ==> Ids(layer) != {})
  {
    if layer != [] {
      assert layer[0].id in Ids(layer);
    }
  }

  lemma LayerAt(steps: seq<Step>, ledger: Ledger, layer: seq<Step>, i: nat)
    requires Layer(steps, ledger, layer) && i < |layer|
    ensures layer[i] in steps && layer[i].id !in ledger && layer[i].id !in Ids(layer[..i])
    ensures Ids(layer[..i + 1]) == Ids(layer[..i]) + {layer[i].id}
    ensures Starting(Ids(layer[..i + 1])) == Starting(Ids(layer[..i]))[layer[i].id := 0]
    ensures Starting(Ids(layer[..i])).Keys == Ids(layer[..i])
  {
    StartingOneMore(layer, i);
  }

  ghost predicate CollectedFrom(steps: seq<Step>, i: nat, layer: seq<Step>)
    requires i <= |steps|
  {
    forall s :: s in layer ==> s in steps[..i]
  }

  lemma EmptyLayer(steps: seq<Step>, ledger: Ledger)
    ensures Layer(steps, ledger, []) && CollectedFrom(steps, 0, [])
  {
  }

  lemma NotCollected(steps: seq<Step>, layer: seq<Step>, i: nat)
    requires WellFormed(steps) && i < |steps| && CollectedFrom(steps, i, layer)
    ensures CollectedFrom(steps, i + 1, layer) && CollectedFrom(steps, i + 1, layer + [steps[i]])
    ensures forall j {:trigger layer[j]} :: 0 <= j < |layer| ==> layer[j].id != steps[i].id
  {
    assert steps[..i + 1] == steps[..i] + [steps[i]];
    forall j {:trigger layer[j]} | 0 <= j < |layer| ensures layer[j].id != steps[i].id {
      assert layer[j] in steps[..i];
    }
  }

  lemma LayerGrows(steps: seq<Step>, ledger: Ledger, layer: seq<Step>, i: nat)
    requires WellFormed(steps) && Layer(steps, ledger, layer) && i < |steps| && CollectedFrom(steps, i, layer)
    requires steps[i].id !in ledger
    requires steps[i].Ready(ledger.Keys) && steps[i].Enabled(ResultsOf(ledger))
    ensures Layer(steps, ledger, layer + [steps[i]]) && CollectedFrom(steps, i + 1, layer + [steps[i]])
  {
    NotCollected(steps, layer, i);
  }

  /** Resolving a step without running it keeps the collected steps startable. */
  lemma LayerSurvivesSkip(steps: seq<Step>, ledger: Ledger, layer: seq<Step>, i: nat)
    requires WellFormed(steps) && Layer(steps, ledger, layer) && i < |steps| && CollectedFrom(steps, i, layer)
    requires steps[i].id !in ledger
    ensures Layer(steps, ledger[steps[i].id := Skip], layer) && CollectedFrom(steps, i + 1, layer)
  {
    NotCollected(steps, layer, i);
    ResultsAt(ledger, steps[i].id, Skip);
    forall j | 0 <= j < |layer| ensures Launchable(steps, ledger[steps[i].id := Skip], layer[j]) {
      ReadyGrows(layer[j], ledger.Keys, ledger[steps[i].id := Skip].Keys);
    }
  }

  /** A submitted step: the context it was handed, its next attempt, and its last error. */
  datatype Worker = Worker(context: Context, attempt: nat, lastError: string)

  /** layer[i] has been submitted and has not ended. */
  ghost predicate Working(steps: seq<Step>, oracle: Oracle, ledger: Ledger, inFlight: Progress, s: Step, w: Worker) {
    && s.id in inFlight && inFlight[s.id] == w.attempt <= s.retries + 1
    && Thread(steps, oracle, ledger, s, w.context, w.attempt, w.lastError)
  }

  /** layer[i] has not been submitted yet. */
  ghost predicate Waiting(steps: seq<Step>, ledger: Ledger, inFlight: Progress, s: Step) {
    s.id in inFlight && inFlight[s.id] == 0 && s.id !in ledger && Launchable(steps, ledger, s)
  }

  ghost predicate Ended(steps: seq<Step>, ledger: Ledger, inFlight: Progress, outcomes: map<Id, bool>, s: Step) {
    && s in steps && s.id in ledger && !ledger[s.id].Skip? && s.id !in inFlight
    && s.id in outcomes && outcomes[s.id] == ledger[s.id].Done?
  }

  ghost predicate Slot(steps: seq<Step>, oracle: Oracle, ledger: Ledger, inFlight: Progress,
                       workers: map<Id, Worker>, outcomes: map<Id, bool>, s: Step, submitted: bool)
  {
    if !submitted then Waiting(steps, ledger, inFlight, s) && s.id !in workers
    else if s.id in workers then Working(steps, oracle, ledger, inFlight, s, workers[s.id])
    else Ended(steps, ledger, inFlight, outcomes, s)
  }

  /** Each step of the layer waits, works or has ended, and nothing else is in flight. */
  ghost predicate LayerInProgress(steps: seq<Step>, oracle: Oracle, ledger: Ledger, inFlight: Progress,
                                  layer: seq<Step>, submitted: nat, workers: map<Id, Worker>, outcomes: map<Id, bool>)
  {
    && UniqueIds(layer) && submitted <= |layer|
    && inFlight.Keys <= Ids(layer) && workers.Keys <= Ids(layer)
    && (forall i {:trigger layer[i]} :: 0 <= i < |layer| ==>
          Slot(steps, oracle, ledger, inFlight, workers, outcomes, layer[i], i < submitted))
  }

  /** The progress of steps that have just been started. */
  function Starting(ids: set<Id>): Progress {
    map x | x in ids :: 0
  }

  lemma NoIds()
    ensures Ids([]) == {} && Starting({}) == map[]
  {
  }

  lemma IdsOneMore(layer: seq<Step>, i: nat)
    requires i < |layer|
    ensures Ids(layer[..i + 1]) == Ids(layer[..i]) + {layer[i].id}
  {
    assert layer[..i + 1] == layer[..i] + [layer[i]];
  }

  lemma StartingOneMore(layer: seq<Step>, i: nat)
    requires UniqueIds(layer) && i < |layer|
    ensures layer[i].id !in Ids(layer[..i])
    ensures Ids(layer[..i + 1]) == Ids(layer[..i]) + {layer[i].id}
    ensures Starting(Ids(layer[..i + 1])) == Starting(Ids(layer[..i]))[layer[i].id := 0]
  {
    assert layer[..i + 1] == layer[..i] + [layer[i]];
  }

  lemma LayerWaits(steps: seq<Step>, oracle: Oracle, ledger: Ledger, layer: seq<Step>)
    requires Layer(steps, ledger, layer)
    ensures LayerInProgress(steps, oracle, ledger, Starting(Ids(layer)), layer, 0, map[], map[])
    ensures ledger - Ids(layer) == ledger && Starting(Ids(layer)).Keys == Ids(layer)
  {
  }

  lemma WorkerAt(steps: seq<Step>, oracle: Oracle, ledger: Ledger, inFlight: Progress,
                 layer: seq<Step>, submitted: nat, workers: map<Id, Worker>, outcomes: map<Id, bool>, i: nat)
    requires LayerInProgress(steps, oracle, ledger, inFlight, layer, submitted, workers, outcomes)
    requires i < submitted && layer[i].id in workers
    ensures layer[i] in steps
    ensures Working(steps, oracle, ledger, inFlight, layer[i], workers[layer[i].id])
  {
  }

  /** A worker belongs to a submitted step of the layer. */
  lemma SomeWorker(steps: seq<Step>, oracle: Oracle, ledger: Ledger, inFlight: Progress,
                   layer: seq<Step>, submitted: nat, workers: map<Id, Worker>, outcomes: map<Id, bool>)
    requires LayerInProgress(steps, oracle, ledger, inFlight, layer, submitted, workers, outcomes)
    requires workers != map[]
    ensures exists i: nat :: i < submitted && layer[i].id in workers
  {
    var x :| x in workers;
    var s :| s in layer && s.id == x;
    var i :| 0 <= i < |layer| && layer[i] == s;
    assert layer[i].id in workers;
  }

  ghost predicate LayerEnded(steps: seq<Step>, ledger: Ledger, outcomes: map<Id, bool>, layer: seq<Step>) {
    && UniqueIds(layer)
    && forall i {:trigger layer[i]} :: 0 <= i < |layer| ==> Ended(steps, ledger, map[], outcomes, layer[i])
  }

  lemma LayerEndedFacts(steps: seq<Step>, ledger: Ledger, outcomes: map<Id, bool>, layer: seq<Step>)
    requires LayerEnded(steps, ledger, outcomes, layer)
    ensures Ids(layer) <= Ids(steps) && NoneSkipped(ledger, Ids(layer))
  {
  }

  lemma EndedAt(steps: seq<Step>, ledger: Ledger, outcomes: map<Id, bool>, layer: seq<Step>, i: nat)
    requires LayerEnded(steps, ledger, outcomes, layer) && i < |layer|
    ensures Ended(steps, ledger, map[], outcomes, layer[i])
    ensures layer[i].id !in Ids(layer[..i]) && Ids(layer[..i + 1]) == Ids(layer[..i]) + {layer[i].id}
  {
    StartingOneMore(layer, i);
  }

  lemma LayerFinished(steps: seq<Step>, oracle: Oracle, ledger: Ledger, inFlight: Progress,
                      layer: seq<Step>, outcomes: map<Id, bool>)
    requires LayerInProgress(steps, oracle, ledger, inFlight, layer, |layer|, map[], outcomes)
    ensures inFlight == map[] && LayerEnded(steps, ledger, outcomes, layer)
  {
    hide Thread, Launchable;
    assert forall s :: s in layer ==> s.id !in inFlight;
    assert inFlight.Keys == {};
  }

  /** One token for every action the layer still has to take; actions only use tokens up. */
  ghost function Tokens(layer: seq<Step>, inFlight: Progress): set<(int, int)> {
    set i, k | 0 <= i < |layer| && layer[i].id in inFlight && inFlight[layer[i].id] <= k <= layer[i].retries + 1 ::
      (i, k)
  }

  lemma TokensDrop(layer: seq<Step>, inFlight: Progress, inFlight': Progress, i: nat)
    requires UniqueIds(layer) && i < |layer| && layer[i].id in inFlight
    requires inFlight[layer[i].id] <= layer[i].retries + 1
    requires inFlight' == inFlight - {layer[i].id} || inFlight' == inFlight[layer[i].id := inFlight[layer[i].id] + 1]
    ensures Tokens(layer, inFlight') < Tokens(layer, inFlight)
  {
    var used := (i, inFlight[layer[i].id]);
    assert used in Tokens(layer, inFlight) && used !in Tokens(layer, inFlight');
    forall t | t in Tokens(layer, inFlight') ensures t in Tokens(layer, inFlight) {
      if t.0 != i {
        assert layer[t.0].id != layer[i].id;
      }
    }
  }

  lemma WorkerUsesTokens(steps: seq<Step>, oracle: Oracle, ledger: Ledger, inFlight: Progress,
                         layer: seq<Step>, submitted: nat, workers: map<Id, Worker>, outcomes: map<Id, bool>, i: nat)
    requires LayerInProgress(steps, oracle, ledger, inFlight, layer, submitted, workers, outcomes)
    requires i < submitted && layer[i].id in workers
    ensures layer[i].id in inFlight && layer[i].id in Ids(layer)
    ensures Tokens(layer, inFlight - {layer[i].id}) < Tokens(layer, inFlight)
    ensures Tokens(layer, inFlight[layer[i].id := inFlight[layer[i].id] + 1]) < Tokens(layer, inFlight)
  {
    hide Thread;
    WorkerAt(steps, oracle, ledger, inFlight, layer, submitted, workers, outcomes, i);
    TokensDrop(layer, inFlight, inFlight - {layer[i].id}, i);
    TokensDrop(layer, inFlight, inFlight[layer[i].id := inFlight[layer[i].id] + 1], i);
  }

  lemma SubmitWorker(steps: seq<Step>, oracle: Oracle, ledger: Ledger, inFlight: Progress,
                     layer: seq<Step>, submitted: nat, workers: map<Id, Worker>, outcomes: map<Id, bool>, b: Books)
    requires LayerInProgress(steps, oracle, ledger, inFlight, layer, submitted, workers, outcomes)
    requires submitted < |layer| && State(steps, oracle, ledger, inFlight, b)
    ensures LayerInProgress(steps, oracle, ledger, inFlight, layer, submitted + 1,
                            workers[layer[submitted].id := Worker(ResultsOf(ledger), 0, "")], outcomes)
  {
    hide Launchable, Thread, State;
    var s := layer[submitted];
    LaunchThread(steps, oracle, ledger, inFlight, b, s);
    forall j | 0 <= j < |layer| && j != submitted ensures layer[j].id != s.id {
    }
  }

  lemma WorkerRetries(steps: seq<Step>, oracle: Oracle, ledger: Ledger, inFlight: Progress,
                      layer: seq<Step>, submitted: nat, workers: map<Id, Worker>, outcomes: map<Id, bool>,
                      i: nat, w: Worker)
    requires LayerInProgress(steps, oracle, ledger, inFlight, layer, submitted, workers, outcomes)
    requires i < submitted && layer[i].id in workers && w.attempt <= layer[i].retries + 1
    requires Thread(steps, oracle, ledger, layer[i], w.context, w.attempt, w.lastError)
    ensures LayerInProgress(steps, oracle, ledger, inFlight[layer[i].id := w.attempt], layer, submitted,
                            workers[layer[i].id := w], outcomes)
  {
    hide Launchable, Thread;
    forall j | 0 <= j < |layer| && j != i ensures layer[j].id != layer[i].id {
    }
  }

  /** What one step of a layer does leaves the other steps of the layer where they are. */
  lemma SlotStays(steps: seq<Step>, oracle: Oracle, before: Ledger, inFlight: Progress,
                  workers: map<Id, Worker>, outcomes: map<Id, bool>, s: Step, submitted: bool, x: Id, o: Outcome)
    requires Slot(steps, oracle, before, inFlight, workers, outcomes, s, submitted) && s.id != x
    requires Undisturbed(steps, before, before[x := o])
    ensures Slot(steps, oracle, before[x := o], inFlight - {x}, workers - {x}, outcomes[x := o.Done?], s, submitted)
  {
    hide Launchable, Thread, Undisturbed, WellFormed;
    if !submitted {
      LaunchableStays(steps, before, before[x := o], s);
    } else if s.id in workers {
      var w := workers[s.id];
      ThreadStays(steps, oracle, before, before[x := o], s, w.context, w.attempt, w.lastError);
    }
  }

  lemma WorkerEnds(steps: seq<Step>, oracle: Oracle, before: Ledger, inFlight: Progress,
                   layer: seq<Step>, submitted: nat, workers: map<Id, Worker>, outcomes: map<Id, bool>,
                   i: nat, o: Outcome)
    requires LayerInProgress(steps, oracle, before, inFlight, layer, submitted, workers, outcomes)
    requires i < submitted && layer[i].id in workers && layer[i] in steps && !o.Skip?
    requires Undisturbed(steps, before, before[layer[i].id := o])
    ensures LayerInProgress(steps, oracle, before[layer[i].id := o], inFlight - {layer[i].id}, layer, submitted,
                            workers - {layer[i].id}, outcomes[layer[i].id := o.Done?])
  {
    hide Launchable, Thread, Undisturbed, WellFormed, Working, Waiting;
    forall j | 0 <= j < |layer|
      ensures Slot(steps, oracle, before[layer[i].id := o], inFlight - {layer[i].id},
                   workers - {layer[i].id}, outcomes[layer[i].id := o.Done?], layer[j], j < submitted)
    {
      if j != i {
        assert layer[j].id != layer[i].id;
        hide Slot;
        SlotStays(steps, oracle, before, inFlight, workers, outcomes, layer[j], j < submitted, layer[i].id, o);
      }
    }
  }

  // ----- Rounds -----

  /** Whatever was ready before has ended afterwards. */
  ghost predicate RoundDone(steps: seq<Step>, before: set<Id>, after: set<Id>) {
    forall s :: s in steps && s.Ready(before) ==> s.id in after
  }

  /** r full rounds resolve at least what r rounds of the graph resolve. */
  lemma RoundAdvances(steps: seq<Step>, before: set<Id>, after: set<Id>, r: nat)
    requires UniqueIds(steps)
    requires Resolved(Ids(steps), Dependencies(steps), r) <= before
    requires RoundDone(steps, before, after)
    ensures Resolved(Ids(steps), Dependencies(steps), r + 1) <= after
  {
    var ids, g := Ids(steps), Dependencies(steps);
    forall x | x in Resolved(ids, g, r + 1) ensures x in after {
      var s :| s in steps && s.id == x;
      assert Met(g, x, before);
      ReadyIsMet(steps, s, before);
    }
  }

  /** As many rounds as this are needed at least: no smaller number resolves all that can be resolved. */
  ghost predicate RoundsNeeded(ids: set<Id>, g: Arrows, rounds: nat) {
    forall n: nat {:trigger Resolved(ids, g, n)} :: Resolved(ids, g, n) == Resolvable(ids, g) ==> rounds <= n
  }

  lemma ProgressIsNeeded(steps: seq<Step>, oracle: Oracle, ledger: Ledger, inFlight: Progress, b: Books,
                         before: set<Id>, rounds: nat)
    requires State(steps, oracle, ledger, inFlight, b) && before < ledger.Keys
    requires Resolved(Ids(steps), Dependencies(steps), rounds) <= before
    requires RoundDone(steps, before, ledger.Keys)
    ensures RoundsNeeded(Ids(steps), Dependencies(steps), rounds + 1)
    ensures Resolved(Ids(steps), Dependencies(steps), rounds + 1) <= ledger.Keys
  {
    var ids, g := Ids(steps), Dependencies(steps);
    RoundAdvances(steps, before, ledger.Keys, rounds);
    ProgressMeansUnresolved(steps, oracle, ledger, before);
    forall n: nat {:trigger Resolved(ids, g, n)} | Resolved(ids, g, n) == Resolvable(ids, g) ensures rounds + 1 <= n {
      if n <= rounds {
        ResolvedGrows(ids, g, n, rounds);
      }
    }
  }

  lemma NoRounds(ids: set<Id>, g: Arrows)
    ensures Resolved(ids, g, 0) == {} && RoundsNeeded(ids, g, 0)
  {
  }

  /** A run that has stalled, or has no step left, has reached the solution. */
  lemma RunIsOver(steps: seq<Step>, oracle: Oracle, ledger: Ledger, b: Books)
    requires State(steps, oracle, ledger, map[], b)
    requires RoundDone(steps, ledger.Keys, ledger.Keys) || |ledger.Keys| >= |steps|
    ensures Final(steps, oracle, b, ledger)
    ensures |ledger.Keys| >= |steps| <==> ledger.Keys == Ids(steps)
  {
    UniqueIdsCount(steps);
    if ledger.Keys != Ids(steps) {
      SmallerSubset(ledger.Keys, Ids(steps));
      NoProgressIsClosed(steps, ledger.Keys);
    }
    StuckLedgerIsSolution(steps, oracle, ledger);
  }

  /** A round without progress means that nothing more can ever be resolved. */
  lemma NoProgressIsClosed(steps: seq<Step>, done: set<Id>)
    requires UniqueIds(steps) && RoundDone(steps, done, done)
    ensures Closed(Ids(steps), Dependencies(steps), done)
  {
    forall x | x in Ids(steps) && Met(Dependencies(steps), x, done) ensures x in done {
      var s :| s in steps && s.id == x;
      ReadyIsMet(steps, s, done);
    }
  }

  /** As long as a round makes progress, not everything resolvable was resolved before it. */
  lemma ProgressMeansUnresolved(steps: seq<Step>, oracle: Oracle, after: Ledger, before: set<Id>)
    requires Consistent(steps, oracle, after) && before < after.Keys
    ensures before < Resolvable(Ids(steps), Dependencies(steps))
  {
    var ids, g := Ids(steps), Dependencies(steps);
    ResolvableIsClosed(ids, g);
    assert after.Keys <= Resolvable(ids, g);
  }
}

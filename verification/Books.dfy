/**
 The books an executor keeps: statuses, results, errors, retry and attempt counts and
 dead letters say the same thing several times over. Match ties all of them to one
 ledger of outcomes and to the number of failures of every step still in flight.
 */
module Books {
  import opened Graphs
  import opened Definitions
  import opened Semantics

  datatype Status = Pending | Running | Completed | Failed | Skipped

  datatype DeadLetter = DeadLetter(stepId: Id, task: string, error: string, attempts: nat, params: Params)

  datatype Books = Books(
    statuses: map<Id, Status>,
    results: Context,
    errors: map<Id, string>,
    retryCounts: map<Id, nat>,
    attemptCounts: map<Id, nat>,
    deadLetters: seq<DeadLetter>)

  /** Failures so far of the steps that have been started and have not ended. */
  type Progress = map<Id, nat>

  function StatusAt(ledger: Ledger, inFlight: Progress, x: Id): Status {
    if x in ledger then
      match ledger[x]
      case Skip => Skipped
      case Done(_, _) => Completed
      case Dead(_, _) => Failed
    else if x in inFlight then Running
    else Pending
  }

  function FailuresAt(ledger: Ledger, inFlight: Progress, x: Id): nat {
    if x in ledger then
      match ledger[x]
      case Skip => 0
      case Done(_, f) => f
      case Dead(_, n) => n + 1
    else if x in inFlight then inFlight[x]
    else 0
  }

  function AttemptsAt(ledger: Ledger, inFlight: Progress, x: Id): nat {
    FailuresAt(ledger, inFlight, x) + if x in ledger && ledger[x].Done? then 1 else 0
  }

  function LetterOf(s: Step, error: string, attempts: nat): DeadLetter {
    DeadLetter(s.id, s.task, error, attempts, s.params)
  }

  /** One letter for every dead step, and no other. */
  ghost predicate LettersMatch(steps: seq<Step>, ledger: Ledger, letters: seq<DeadLetter>) {
    && (forall i, j :: 0 <= i < j < |letters| ==> letters[i].stepId != letters[j].stepId)
    && (forall i {:trigger IsLetter(steps, ledger, letters[i])} ::
          0 <= i < |letters| ==> IsLetter(steps, ledger, letters[i]))
    && (forall x {:trigger HasLetter(letters, x)} :: x in ledger && ledger[x].Dead? ==> HasLetter(letters, x))
  }

  ghost predicate IsLetter(steps: seq<Step>, ledger: Ledger, letter: DeadLetter) {
    && letter.stepId in ledger
    && ledger[letter.stepId].Dead?
    && exists s :: s in steps && s.id == letter.stepId
                   && letter == LetterOf(s, ledger[s.id].error, ledger[s.id].retries + 1)
  }

  ghost predicate HasLetter(letters: seq<DeadLetter>, x: Id) {
    exists i :: 0 <= i < |letters| && letters[i].stepId == x
  }

  ghost function StatusesOf(ids: set<Id>, ledger: Ledger, inFlight: Progress): map<Id, Status> {
    map x | x in ids :: StatusAt(ledger, inFlight, x)
  }

  ghost function FailuresOf(ids: set<Id>, ledger: Ledger, inFlight: Progress): map<Id, nat> {
    map x | x in ids :: FailuresAt(ledger, inFlight, x)
  }

  ghost function AttemptsOf(ids: set<Id>, ledger: Ledger, inFlight: Progress): map<Id, nat> {
    map x | x in ids :: AttemptsAt(ledger, inFlight, x)
  }

  ghost predicate Disjoint(ids: set<Id>, ledger: Ledger, inFlight: Progress) {
    ledger.Keys <= ids && inFlight.Keys <= ids && forall x :: x in inFlight ==> x !in ledger
  }

  ghost predicate Tallies(ids: set<Id>, ledger: Ledger, inFlight: Progress, b: Books) {
    && b.statuses == StatusesOf(ids, ledger, inFlight)
    && b.retryCounts == FailuresOf(ids, ledger, inFlight)
    && b.attemptCounts == AttemptsOf(ids, ledger, inFlight)
    && b.results == ResultsOf(ledger)
    && b.errors == ErrorsOf(ledger)
  }

  ghost predicate Match(steps: seq<Step>, ledger: Ledger, inFlight: Progress, b: Books) {
    && Disjoint(Ids(steps), ledger, inFlight)
    && Tallies(Ids(steps), ledger, inFlight, b)
    && LettersMatch(steps, ledger, b.deadLetters)
  }

  // ----- How every action changes the tallies -----

  /** A change that concerns x alone updates each tally at x and nowhere else. */
  lemma TalliesAt(ids: set<Id>, ledger: Ledger, inFlight: Progress, ledger': Ledger, inFlight': Progress, x: Id)
    requires x in ids
    requires ledger - {x} == ledger' - {x} && inFlight - {x} == inFlight' - {x}
    ensures StatusesOf(ids, ledger', inFlight') ==
            StatusesOf(ids, ledger, inFlight)[x := StatusAt(ledger', inFlight', x)]
    ensures FailuresOf(ids, ledger', inFlight') ==
            FailuresOf(ids, ledger, inFlight)[x := FailuresAt(ledger', inFlight', x)]
    ensures AttemptsOf(ids, ledger', inFlight') ==
            AttemptsOf(ids, ledger, inFlight)[x := AttemptsAt(ledger', inFlight', x)]
  {
    forall y | y != x
      ensures StatusAt(ledger', inFlight', y) == StatusAt(ledger, inFlight, y)
      ensures FailuresAt(ledger', inFlight', y) == FailuresAt(ledger, inFlight, y)
      ensures AttemptsAt(ledger', inFlight', y) == AttemptsAt(ledger, inFlight, y)
    {
      SameElsewhere(ledger, ledger', x, y);
      SameElsewhere(inFlight, inFlight', x, y);
    }
    UpdatedAt(StatusesOf(ids, ledger, inFlight), StatusesOf(ids, ledger', inFlight'), x);
    UpdatedAt(FailuresOf(ids, ledger, inFlight), FailuresOf(ids, ledger', inFlight'), x);
    UpdatedAt(AttemptsOf(ids, ledger, inFlight), AttemptsOf(ids, ledger', inFlight'), x);
  }

  lemma UpdatedAt<V>(m: map<Id, V>, m': map<Id, V>, x: Id)
    requires m.Keys == m'.Keys && x in m'
    requires forall y {:trigger m'[y]} :: y in m' && y != x ==> m'[y] == m[y]
    ensures m' == m[x := m'[x]]
  {
  }

  lemma SameElsewhere<V>(a: map<Id, V>, b: map<Id, V>, x: Id, y: Id)
    requires a - {x} == b - {x} && y != x
    ensures (y in a <==> y in b) && (y in a ==> a[y] == b[y])
  {
    assert y in a <==> y in a - {x};
    assert y in b <==> y in b - {x};
    if y in a {
      assert (a - {x})[y] == (b - {x})[y];
    }
  }

  lemma ResultsAt(ledger: Ledger, x: Id, o: Outcome)
    requires x !in ledger
    ensures ResultsOf(ledger[x := o]) == if o.Done? then ResultsOf(ledger)[x := o.value] else ResultsOf(ledger)
    ensures ErrorsOf(ledger[x := o]) == if o.Dead? then ErrorsOf(ledger)[x := o.error] else ErrorsOf(ledger)
  {
  }

  /** Writing back the value a map already has changes nothing. */
  lemma SameValue<V>(m: map<Id, V>, x: Id)
    requires x in m
    ensures m[x := m[x]] == m
  {
  }

  lemma StartTallies(ids: set<Id>, ledger: Ledger, inFlight: Progress, b: Books, x: Id)
    requires Disjoint(ids, ledger, inFlight) && Tallies(ids, ledger, inFlight, b)
    requires x in ids && x !in ledger && x !in inFlight
    ensures Disjoint(ids, ledger, inFlight[x := 0])
    ensures Tallies(ids, ledger, inFlight[x := 0], b.(statuses := b.statuses[x := Running]))
  {
    assert inFlight - {x} == inFlight[x := 0] - {x};
    TalliesAt(ids, ledger, inFlight, ledger, inFlight[x := 0], x);
    SameValue(b.retryCounts, x);
    SameValue(b.attemptCounts, x);
  }

  lemma SkipTallies(ids: set<Id>, ledger: Ledger, inFlight: Progress, b: Books, x: Id)
    requires Disjoint(ids, ledger, inFlight) && Tallies(ids, ledger, inFlight, b)
    requires x in ids && x !in ledger && x !in inFlight
    ensures Disjoint(ids, ledger[x := Skip], inFlight)
    ensures Tallies(ids, ledger[x := Skip], inFlight, b.(statuses := b.statuses[x := Skipped]))
  {
    RemovedElsewhere(ledger, x, Skip);
    TalliesAt(ids, ledger, inFlight, ledger[x := Skip], inFlight, x);
    SameValue(b.retryCounts, x);
    SameValue(b.attemptCounts, x);
    ResultsAt(ledger, x, Skip);
  }

  lemma SuccessTallies(ids: set<Id>, ledger: Ledger, inFlight: Progress, b: Books, x: Id, v: Value)
    requires Disjoint(ids, ledger, inFlight) && Tallies(ids, ledger, inFlight, b) && x in inFlight
    ensures Disjoint(ids, ledger[x := Done(v, inFlight[x])], inFlight - {x})
    ensures Tallies(ids, ledger[x := Done(v, inFlight[x])], inFlight - {x},
                    b.(statuses := b.statuses[x := Completed],
                       results := b.results[x := v],
                       attemptCounts := b.attemptCounts[x := inFlight[x] + 1]))
  {
    var o := Done(v, inFlight[x]);
    RemovedElsewhere(ledger, x, o);
    TalliesAt(ids, ledger, inFlight, ledger[x := o], inFlight - {x}, x);
    SameValue(b.retryCounts, x);
    ResultsAt(ledger, x, o);
  }

  lemma FailureTallies(ids: set<Id>, ledger: Ledger, inFlight: Progress, b: Books, x: Id, k: nat)
    requires Disjoint(ids, ledger, inFlight) && Tallies(ids, ledger, inFlight, b) && x in inFlight
    ensures Disjoint(ids, ledger, inFlight[x := k])
    ensures Tallies(ids, ledger, inFlight[x := k],
                    b.(retryCounts := b.retryCounts[x := k], attemptCounts := b.attemptCounts[x := k]))
  {
    assert inFlight - {x} == inFlight[x := k] - {x};
    TalliesAt(ids, ledger, inFlight, ledger, inFlight[x := k], x);
    assert b.statuses[x] == Running;
    SameValue(b.statuses, x);
    assert FailuresAt(ledger, inFlight[x := k], x) == AttemptsAt(ledger, inFlight[x := k], x) == k;
  }

  lemma DeathTallies(ids: set<Id>, ledger: Ledger, inFlight: Progress, b: Books, x: Id, error: string, n: nat)
    requires Disjoint(ids, ledger, inFlight) && Tallies(ids, ledger, inFlight, b)
    requires x in inFlight && inFlight[x] == n + 1
    ensures b.retryCounts[x] == n + 1
    ensures Disjoint(ids, ledger[x := Dead(error, n)], inFlight - {x})
    ensures Tallies(ids, ledger[x := Dead(error, n)], inFlight - {x},
                    b.(statuses := b.statuses[x := Failed], errors := b.errors[x := error]))
  {
    var o := Dead(error, n);
    RemovedElsewhere(ledger, x, o);
    TalliesAt(ids, ledger, inFlight, ledger[x := o], inFlight - {x}, x);
    SameValue(b.retryCounts, x);
    SameValue(b.attemptCounts, x);
    ResultsAt(ledger, x, o);
  }

  lemma RemovedElsewhere(ledger: Ledger, x: Id, o: Outcome)
    ensures ledger - {x} == ledger[x := o] - {x}
  {
  }

  lemma LettersKept(steps: seq<Step>, ledger: Ledger, letters: seq<DeadLetter>, x: Id, o: Outcome)
    requires LettersMatch(steps, ledger, letters) && x !in ledger && !o.Dead?
    ensures LettersMatch(steps, ledger[x := o], letters)
  {
    forall i | 0 <= i < |letters| ensures IsLetter(steps, ledger[x := o], letters[i]) {
      assert IsLetter(steps, ledger, letters[i]);
    }
  }

  lemma LetterAdded(steps: seq<Step>, ledger: Ledger, letters: seq<DeadLetter>, s: Step, error: string, n: nat)
    requires LettersMatch(steps, ledger, letters) && s in steps && s.id !in ledger
    ensures LettersMatch(steps, ledger[s.id := Dead(error, n)], letters + [LetterOf(s, error, n + 1)])
  {
    var ledger' := ledger[s.id := Dead(error, n)];
    var letters' := letters + [LetterOf(s, error, n + 1)];
    forall i | 0 <= i < |letters'|
      ensures IsLetter(steps, ledger', letters'[i])
      ensures i < |letters| ==> letters'[i].stepId != s.id
    {
      if i < |letters| {
        assert IsLetter(steps, ledger, letters[i]);
      }
    }
    forall y | y in ledger' && ledger'[y].Dead? ensures HasLetter(letters', y) {
      if y == s.id {
        assert letters'[|letters|].stepId == y;
      } else {
        assert HasLetter(letters, y);
        var i :| 0 <= i < |letters| && letters[i].stepId == y;
        assert letters'[i].stepId == y;
      }
    }
  }

  lemma SuccessMatch(steps: seq<Step>, ledger: Ledger, inFlight: Progress, b: Books, x: Id, v: Value)
    requires Match(steps, ledger, inFlight, b) && x in inFlight
    ensures x !in ledger
    ensures Match(steps, ledger[x := Done(v, inFlight[x])], inFlight - {x},
                  b.(statuses := b.statuses[x := Completed],
                     results := b.results[x := v],
                     attemptCounts := b.attemptCounts[x := inFlight[x] + 1]))
  {
    SuccessTallies(Ids(steps), ledger, inFlight, b, x, v);
    LettersKept(steps, ledger, b.deadLetters, x, Done(v, inFlight[x]));
  }

  lemma FailureMatch(steps: seq<Step>, ledger: Ledger, inFlight: Progress, b: Books, x: Id, k: nat)
    requires Match(steps, ledger, inFlight, b) && x in inFlight
    ensures Match(steps, ledger, inFlight[x := k],
                  b.(retryCounts := b.retryCounts[x := k], attemptCounts := b.attemptCounts[x := k]))
  {
    FailureTallies(Ids(steps), ledger, inFlight, b, x, k);
  }

  lemma DeathMatch(steps: seq<Step>, ledger: Ledger, inFlight: Progress, b: Books, s: Step, error: string)
    requires Match(steps, ledger, inFlight, b)
    requires s in steps && s.id in inFlight && inFlight[s.id] == s.retries + 1
    ensures s.id !in ledger && s.id in b.retryCounts && b.retryCounts[s.id] == s.retries + 1
    ensures Match(steps, ledger[s.id := Dead(error, s.retries)], inFlight - {s.id},
                  b.(statuses := b.statuses[s.id := Failed],
                     errors := b.errors[s.id := error],
                     deadLetters := b.deadLetters + [LetterOf(s, error, b.retryCounts[s.id])]))
  {
    DeathTallies(Ids(steps), ledger, inFlight, b, s.id, error, s.retries);
    LetterAdded(steps, ledger, b.deadLetters, s, error, s.retries);
  }

  // ----- What the final books say -----

  function OverallStatus(statuses: map<Id, Status>): string {
    if Failed in statuses.Values then "failed"
    else if statuses.Values <= {Completed, Skipped} then "completed"
    else "partial"
  }

  /** The books of a finished run: nothing in flight, and the ledger is the workflow's solution. */
  ghost predicate Final(steps: seq<Step>, oracle: Oracle, b: Books, ledger: Ledger) {
    Match(steps, ledger, map[], b) && Solution(steps, oracle, ledger)
  }

  /** Outcomes of a consistent ledger respect the retry limit of their step. */
  lemma OutcomeWithinRetries(steps: seq<Step>, oracle: Oracle, ledger: Ledger, s: Step)
    requires Consistent(steps, oracle, ledger) && s in steps && s.id in ledger
    ensures ledger[s.id].Done? ==> ledger[s.id].failures <= s.retries
    ensures ledger[s.id].Dead? ==> ledger[s.id].retries == s.retries
  {
    JustifiedMeaning(steps, oracle, s, ledger[s.id], ResultsOf(ledger));
  }

  /**
   The redundant books agree: results belong exactly to completed steps, errors and dead
   letters exactly to failed ones, with retries + 1 attempts; a completed step made one
   attempt more than it had failures, and at most retries + 1.
   */
  lemma LedgersAgree(steps: seq<Step>, oracle: Oracle, b: Books, ledger: Ledger, s: Step)
    requires Final(steps, oracle, b, ledger) && s in steps
    ensures s.id in b.results <==> b.statuses[s.id] == Completed
    ensures s.id in b.errors <==> b.statuses[s.id] == Failed
    ensures HasLetter(b.deadLetters, s.id) <==> b.statuses[s.id] == Failed
    ensures b.statuses[s.id] == Completed ==>
              b.attemptCounts[s.id] == b.retryCounts[s.id] + 1 && b.retryCounts[s.id] <= s.retries
    ensures b.statuses[s.id] == Failed ==>
              b.attemptCounts[s.id] == b.retryCounts[s.id] == s.retries + 1
    ensures b.statuses[s.id] in {Pending, Skipped} ==> b.attemptCounts[s.id] == b.retryCounts[s.id] == 0
  {
    if s.id in ledger {
      OutcomeWithinRetries(steps, oracle, ledger, s);
    }
    LetterIffDead(steps, ledger, b.deadLetters, s.id);
    hide LettersMatch, HasLetter, Consistent, Grounded;
    assert b.statuses[s.id] == StatusAt(ledger, map[], s.id);
    assert b.retryCounts[s.id] == FailuresAt(ledger, map[], s.id);
    assert b.attemptCounts[s.id] == AttemptsAt(ledger, map[], s.id);
  }

  lemma LetterIffDead(steps: seq<Step>, ledger: Ledger, letters: seq<DeadLetter>, x: Id)
    requires LettersMatch(steps, ledger, letters)
    ensures HasLetter(letters, x) <==> x in ledger && ledger[x].Dead?
  {
    if HasLetter(letters, x) {
      var i :| 0 <= i < |letters| && letters[i].stepId == x;
      assert IsLetter(steps, ledger, letters[i]);
    }
  }

  /** No two letters share a step, and each carries its step's task, error, parameters and attempts. */
  lemma LettersAreExact(steps: seq<Step>, oracle: Oracle, b: Books, ledger: Ledger, i: nat)
    requires Final(steps, oracle, b, ledger) && i < |b.deadLetters|
    ensures exists s :: s in steps && s.id in b.errors
                        && b.deadLetters[i] == DeadLetter(s.id, s.task, b.errors[s.id], s.retries + 1, s.params)
    ensures forall j :: 0 <= j < |b.deadLetters| && j != i ==> b.deadLetters[j].stepId != b.deadLetters[i].stepId
  {
    LetterSource(steps, oracle, ledger, b.deadLetters[i]) by {
      assert IsLetter(steps, ledger, b.deadLetters[i]);
    }
  }

  /** The dead letter of a failed step. */
  lemma LetterOfFailed(steps: seq<Step>, oracle: Oracle, b: Books, ledger: Ledger, s: Step)
    requires UniqueIds(steps) && Final(steps, oracle, b, ledger) && s in steps && b.statuses[s.id] == Failed
    ensures s.id in b.errors
    ensures DeadLetter(s.id, s.task, b.errors[s.id], s.retries + 1, s.params) in b.deadLetters
  {
    hide Final, UniqueIds;
    LedgersAgree(steps, oracle, b, ledger, s);
    var i :| 0 <= i < |b.deadLetters| && b.deadLetters[i].stepId == s.id;
    LettersAreExact(steps, oracle, b, ledger, i);
    var t :| t in steps && t.id in b.errors
             && b.deadLetters[i] == DeadLetter(t.id, t.task, b.errors[t.id], t.retries + 1, t.params);
    SameIdSameStep(steps, s, t);
  }

  lemma LetterSource(steps: seq<Step>, oracle: Oracle, ledger: Ledger, letter: DeadLetter)
    requires Consistent(steps, oracle, ledger) && IsLetter(steps, ledger, letter)
    ensures exists s :: s in steps && s.id in ErrorsOf(ledger)
                        && letter == DeadLetter(s.id, s.task, ErrorsOf(ledger)[s.id], s.retries + 1, s.params)
  {
    var s :| s in steps && s.id == letter.stepId
             && letter == LetterOf(s, ledger[s.id].error, ledger[s.id].retries + 1);
    OutcomeWithinRetries(steps, oracle, ledger, s);
    assert s.id in ErrorsOf(ledger);
  }

  /** The steps left PENDING are exactly those that wait, however indirectly, for a cycle or an unknown id. */
  lemma PendingIffBlocked(steps: seq<Step>, oracle: Oracle, b: Books, ledger: Ledger, x: Id)
    requires Final(steps, oracle, b, ledger) && x in Ids(steps)
    ensures b.statuses[x] == Pending <==> Blocked(Ids(steps), Dependencies(steps), x)
    ensures b.statuses[x] != Running
  {
    UnresolvedIffBlocked(Ids(steps), Dependencies(steps), x);
    PendingIffUnrecorded(Ids(steps), ledger, b, x);
  }

  lemma PendingIffUnrecorded(ids: set<Id>, ledger: Ledger, b: Books, x: Id)
    requires Tallies(ids, ledger, map[], b) && x in ids
    ensures b.statuses[x] == Pending <==> x !in ledger
    ensures b.statuses[x] != Running
  {
    assert b.statuses[x] == StatusAt(ledger, map[], x);
  }

  ghost predicate SomeBlocked(ids: set<Id>, g: Arrows) {
    exists x :: x in ids && Blocked(ids, g, x)
  }

  lemma PartialIffPending(statuses: map<Id, Status>)
    requires Running !in statuses.Values
    ensures OverallStatus(statuses) == "partial" <==> Pending in statuses.Values && Failed !in statuses.Values
    ensures OverallStatus(statuses) == "failed" <==> Failed in statuses.Values
    ensures OverallStatus(statuses) == "completed" <==> Pending !in statuses.Values && Failed !in statuses.Values
  {
    forall v: Status | v in statuses.Values ensures v.Pending? || v.Completed? || v.Failed? || v.Skipped? {
      assert v != Running;
    }
  }

  /** PENDING means blocked, and nothing is RUNNING any more. */
  ghost predicate PendingMeansBlocked(ids: set<Id>, g: Arrows, statuses: map<Id, Status>) {
    && statuses.Keys == ids
    && (forall x {:trigger statuses[x]} :: x in ids ==> (statuses[x] == Pending <==> Blocked(ids, g, x)))
    && (forall x {:trigger statuses[x]} :: x in ids ==> statuses[x] != Running)
  }

  lemma FinalPendingMeansBlocked(steps: seq<Step>, oracle: Oracle, b: Books, ledger: Ledger)
    requires Final(steps, oracle, b, ledger)
    ensures PendingMeansBlocked(Ids(steps), Dependencies(steps), b.statuses)
  {
    assert b.statuses.Keys == Ids(steps);
    forall x {:trigger b.statuses[x]} | x in Ids(steps)
      ensures b.statuses[x] == Pending <==> Blocked(Ids(steps), Dependencies(steps), x)
      ensures b.statuses[x] != Running
    {
      PendingIffBlocked(steps, oracle, b, ledger, x);
    }
  }

  lemma BlockedIffPendingValue(ids: set<Id>, g: Arrows, statuses: map<Id, Status>)
    requires PendingMeansBlocked(ids, g, statuses)
    ensures SomeBlocked(ids, g) <==> Pending in statuses.Values
    ensures Running !in statuses.Values
  {
    if SomeBlocked(ids, g) {
      var x :| x in ids && Blocked(ids, g, x);
      assert statuses[x] == Pending;
    }
    if Pending in statuses.Values {
      var x :| x in statuses && statuses[x] == Pending;
    }
  }

  /**
   A run has failed exactly when a step failed; otherwise it is partial exactly when some step
   is blocked, and else completed.
   */
  lemma PartialIffBlocked(steps: seq<Step>, oracle: Oracle, b: Books, ledger: Ledger)
    requires Final(steps, oracle, b, ledger)
    ensures OverallStatus(b.statuses) == "partial" <==>
            SomeBlocked(Ids(steps), Dependencies(steps)) && Failed !in b.statuses.Values
    ensures OverallStatus(b.statuses) == "failed" <==> exists x :: x in Ids(steps) && b.statuses[x] == Failed
    ensures OverallStatus(b.statuses) == "completed" <==>
            !SomeBlocked(Ids(steps), Dependencies(steps)) && Failed !in b.statuses.Values
  {
    FinalPendingMeansBlocked(steps, oracle, b, ledger);
    BlockedIffPendingValue(Ids(steps), Dependencies(steps), b.statuses);
    PartialIffPending(b.statuses);
  }

  /** After a definition that validation accepts, every step has ended. */
  lemma AcceptedRunsEnd(steps: seq<Step>, oracle: Oracle, b: Books, ledger: Ledger, x: Id)
    requires Final(steps, oracle, b, ledger) && x in Ids(steps)
    requires SourcesKnown(Ids(steps), Dependencies(steps)) && Acyclic(Dependencies(steps))
    ensures b.statuses[x] in {Completed, Failed, Skipped}
  {
    ArrowsStartAtSteps(steps);
    AllResolveIffAcyclic(Ids(steps), Dependencies(steps));
  }

  lemma LetterForced(steps: seq<Step>, ledger: Ledger, a: DeadLetter, b: DeadLetter)
    requires UniqueIds(steps) && IsLetter(steps, ledger, a) && IsLetter(steps, ledger, b)
    requires a.stepId == b.stepId
    ensures a == b
  {
  }

  /** Letters without repetition that cover the same steps are the same multiset. */
  lemma {:induction false} SameLettersSameMultiset(
    steps: seq<Step>, ledger: Ledger, a: seq<DeadLetter>, b: seq<DeadLetter>)
    requires UniqueIds(steps) && LettersMatch(steps, ledger, a) && LettersMatch(steps, ledger, b)
    ensures multiset(a) == multiset(b)
  {
    forall letter ensures multiset(a)[letter] == multiset(b)[letter] {
      AtMostOnce(a, letter);
      AtMostOnce(b, letter);
      SameLetters(steps, ledger, a, b, letter);
      SameLetters(steps, ledger, b, a, letter);
    }
  }

  lemma SameLetters(steps: seq<Step>, ledger: Ledger, a: seq<DeadLetter>, b: seq<DeadLetter>, letter: DeadLetter)
    requires UniqueIds(steps) && LettersMatch(steps, ledger, a) && LettersMatch(steps, ledger, b)
    ensures letter in a ==> letter in b
  {
    if letter in a {
      var i :| 0 <= i < |a| && a[i] == letter;
      assert IsLetter(steps, ledger, a[i]);
      assert HasLetter(b, letter.stepId);
      var j :| 0 <= j < |b| && b[j].stepId == letter.stepId;
      assert IsLetter(steps, ledger, b[j]);
      LetterForced(steps, ledger, a[i], b[j]);
    }
  }

  lemma {:induction false} AtMostOnce(letters: seq<DeadLetter>, letter: DeadLetter)
    requires forall i, j :: 0 <= i < j < |letters| ==> letters[i].stepId != letters[j].stepId
    ensures multiset(letters)[letter] <= 1
    ensures multiset(letters)[letter] == 1 <==> letter in letters
  {
    if letters != [] {
      var rest, last := letters[..|letters| - 1], letters[|letters| - 1];
      AtMostOnce(rest, letter);
      assert letters == rest + [last];
    }
  }

  /**
   Schedule independence: any two finished runs of the same workflow, by whatever
   scheduler and in whatever order, kept the same books; only the order of the dead
   letters may differ.
   */
  lemma SchedulesAgree(steps: seq<Step>, oracle: Oracle, a: Books, ledgerA: Ledger, b: Books, ledgerB: Ledger)
    requires UniqueIds(steps) && Local(steps, oracle)
    requires Final(steps, oracle, a, ledgerA) && Final(steps, oracle, b, ledgerB)
    ensures a.(deadLetters := []) == b.(deadLetters := [])
    ensures multiset(a.deadLetters) == multiset(b.deadLetters)
  {
    SolutionIsUnique(steps, oracle, ledgerA, ledgerB);
    SameLettersSameMultiset(steps, ledgerA, a.deadLetters, b.deadLetters);
  }

}

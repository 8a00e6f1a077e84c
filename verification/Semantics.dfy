/**
 What a workflow run means, independently of any scheduler.

 A task is an oracle: attempt k of a step, given the results it may look at, returns a
 value or raises. A ledger gives every resolved step its outcome. A solution is a ledger
 on exactly the resolvable steps in which every outcome is one that its step can have had,
 given the ledger's own results. Every run ends in a solution. If tasks look only at what
 their steps wait for, there is at most one, so all runs agree.
 */
module Semantics {
  import opened Graphs
  import opened Definitions

  datatype Attempt = Returned(value: Value) | Raised(message: string)

  /** Attempts are counted from 0, as the retry loop counts them. */
  type Oracle = (Step, nat, Context) -> Attempt

  /** How a step ends: not run, done after some failed attempts, or dead after retries + 1 of them. */
  datatype Outcome =
    | Skip
    | Done(value: Value, failures: nat)
    | Dead(error: string, retries: nat)

  type Ledger = map<Id, Outcome>

  /** The outcome of the retry loop when its next attempt is number k. */
  function Attempts(oracle: Oracle, s: Step, ctx: Context, k: nat): Outcome
    requires k <= s.retries
    decreases s.retries - k
  {
    match oracle(s, k, ctx)
    case Returned(v) => Done(v, k)
    case Raised(m) => if k < s.retries then Attempts(oracle, s, ctx, k + 1) else Dead(m, k)
  }

  function Eval(oracle: Oracle, s: Step, ctx: Context): Outcome {
    if s.Enabled(ctx) then Attempts(oracle, s, ctx, 0) else Skip
  }

  function ResultsOf(ledger: Ledger): Context {
    map x | x in ledger && ledger[x].Done? :: ledger[x].value
  }

  function ErrorsOf(ledger: Ledger): map<Id, string> {
    map x | x in ledger && ledger[x].Dead? :: ledger[x].error
  }

  ghost predicate NoneSkipped(ledger: Ledger, ids: set<Id>) {
    forall x {:trigger ledger[x]} :: x in ids && x in ledger ==> !ledger[x].Skip?
  }

  /** The retry loop stops at the first attempt that returns, or after retries + 1 that raise. */
  lemma {:induction false} AttemptsMeaning(oracle: Oracle, s: Step, ctx: Context, k: nat)
    requires k <= s.retries
    ensures match Attempts(oracle, s, ctx, k)
            case Skip => false
            case Done(v, f) =>
              && k <= f <= s.retries && oracle(s, f, ctx) == Returned(v)
              && forall j: nat :: k <= j < f ==> oracle(s, j, ctx).Raised?
            case Dead(e, n) =>
              && n == s.retries && oracle(s, s.retries, ctx) == Raised(e)
              && forall j: nat :: k <= j <= s.retries ==> oracle(s, j, ctx).Raised?
    decreases s.retries - k
  {
    if oracle(s, k, ctx).Raised? && k < s.retries {
      AttemptsMeaning(oracle, s, ctx, k + 1);
    }
  }

  // ----- Oracles that look only at what a step waits for -----

  ghost predicate Ancestor(g: Arrows, x: Id, a: Id) {
    exists w :: Walk(g, w) && |w| > 1 && w[0] == x && w[|w| - 1] == a
  }

  /** The two contexts are indistinguishable to a step that reads only its ancestors' results. */
  ghost predicate AgreeAbove(g: Arrows, x: Id, c: Context, c': Context) {
    forall a :: Ancestor(g, x, a) ==> SameAt(a, c, c')
  }

  ghost predicate SameAt(a: Id, c: Context, c': Context) {
    (a in c <==> a in c') && (a in c ==> c[a] == c'[a])
  }

  /** All that can be known of a context handed to x: it holds results of other steps, none of which waits for x. */
  ghost predicate Possible(steps: seq<Step>, x: Id, c: Context) {
    forall y {:trigger y in c} :: y in c ==> y in Ids(steps) && y != x && !Ancestor(Dependencies(steps), y, x)
  }

  /** The attempts of every step, in the contexts it can be handed, depend only on the results of its ancestors. */
  ghost predicate Local(steps: seq<Step>, oracle: Oracle) {
    forall s: Step, k: nat, c: Context, c': Context {:trigger oracle(s, k, c), oracle(s, k, c')} ::
      s in steps && k <= s.retries && Possible(steps, s.id, c) && Possible(steps, s.id, c')
      && AgreeAbove(Dependencies(steps), s.id, c, c') ==>
        oracle(s, k, c) == oracle(s, k, c')
  }

  lemma ArrowIsAncestor(g: Arrows, x: Id, y: Id)
    requires (x, y) in g
    ensures Ancestor(g, x, y)
  {
    assert Walk(g, [x, y]);
  }

  lemma {:induction false} AttemptsLocal(
    steps: seq<Step>, oracle: Oracle, s: Step, c: Context, c': Context, k: nat)
    requires s in steps && Local(steps, oracle) && k <= s.retries
    requires Possible(steps, s.id, c) && Possible(steps, s.id, c') && AgreeAbove(Dependencies(steps), s.id, c, c')
    ensures Attempts(oracle, s, c, k) == Attempts(oracle, s, c', k)
    decreases s.retries - k
  {
    assert oracle(s, k, c) == oracle(s, k, c');
    if k < s.retries {
      AttemptsLocal(steps, oracle, s, c, c', k + 1);
    }
  }

  /** Whether a step runs depends only on its ancestors' results, whatever its task looks at. */
  lemma EnabledLocal(steps: seq<Step>, s: Step, c: Context, c': Context)
    requires s in steps && AgreeAbove(Dependencies(steps), s.id, c, c')
    ensures s.Enabled(c) == s.Enabled(c')
  {
    if s.condition.Some? {
      var d := s.condition.value.source;
      assert d in s.Sources();
      ArrowIsAncestor(Dependencies(steps), s.id, d);
      assert SameAt(d, c, c');
    }
  }

  lemma EvalLocal(steps: seq<Step>, oracle: Oracle, s: Step, c: Context, c': Context)
    requires s in steps && Local(steps, oracle)
    requires Possible(steps, s.id, c) && Possible(steps, s.id, c') && AgreeAbove(Dependencies(steps), s.id, c, c')
    ensures Eval(oracle, s, c) == Eval(oracle, s, c')
  {
    AttemptsLocal(steps, oracle, s, c, c', 0);
    EnabledLocal(steps, s, c, c');
  }

  lemma {:induction false} WalkStaysInside(g: Arrows, done: set<Id>, w: seq<Id>)
    requires forall x :: x in done ==> Met(g, x, done)
    requires Walk(g, w) && |w| > 1 && Met(g, w[0], done)
    ensures w[|w| - 1] in done
  {
    assert (w[0], w[1]) in g;
    if |w| > 2 {
      WalkTail(g, w, 1);
      WalkStaysInside(g, done, w[1..]);
    }
  }

  lemma AncestorIsInside(g: Arrows, done: set<Id>, x: Id, a: Id)
    requires forall y :: y in done ==> Met(g, y, done)
    requires Met(g, x, done) && Ancestor(g, x, a)
    ensures a in done
  {
    var w :| Walk(g, w) && |w| > 1 && w[0] == x && w[|w| - 1] == a;
    WalkStaysInside(g, done, w);
  }

  lemma AncestorIsEarlier(ids: set<Id>, g: Arrows, k: nat, x: Id, a: Id) returns (j: nat)
    requires x in Resolved(ids, g, k) && Ancestor(g, x, a)
    ensures j < k && a in Resolved(ids, g, j)
  {
    var w :| Walk(g, w) && |w| > 1 && w[0] == x && w[|w| - 1] == a;
    WalkDescends(ids, g, k, w);
    j := k + 1 - |w|;
  }

  // ----- Ledgers -----

  /** No closed set of steps leaves any of these out: they can be resolved one after another. */
  ghost predicate Grounded(ids: set<Id>, g: Arrows, done: set<Id>) {
    forall c {:trigger Closed(ids, g, c)} :: Closed(ids, g, c) ==> done <= c
  }

  ghost predicate Part(c: Context, results: Context) {
    forall y {:trigger y in c} :: y in c ==> y in results && c[y] == results[y]
  }

  /** The context is one that s can be handed: some of the results, those of its ancestors among them. */
  ghost predicate Handed(steps: seq<Step>, s: Step, ctx: Context, results: Context) {
    && Possible(steps, s.id, ctx) && Part(ctx, results)
    && AgreeAbove(Dependencies(steps), s.id, ctx, results)
  }

  /** The outcome is that of the retry loop in some context the step can have been handed. */
  ghost predicate Justified(steps: seq<Step>, oracle: Oracle, s: Step, o: Outcome, results: Context) {
    exists ctx :: Handed(steps, s, ctx, results) && o == Eval(oracle, s, ctx)
  }

  /** Steps ended one after another, each with an outcome it can have had, given the results recorded. */
  ghost predicate Consistent(steps: seq<Step>, oracle: Oracle, ledger: Ledger) {
    && Grounded(Ids(steps), Dependencies(steps), ledger.Keys)
    && (forall x :: x in ledger ==> Met(Dependencies(steps), x, ledger.Keys))
    && (forall s {:trigger ledger[s.id]} ::
          s in steps && s.id in ledger ==> Justified(steps, oracle, s, ledger[s.id], ResultsOf(ledger)))
  }

  ghost predicate Solution(steps: seq<Step>, oracle: Oracle, ledger: Ledger) {
    Consistent(steps, oracle, ledger) && ledger.Keys == Resolvable(Ids(steps), Dependencies(steps))
  }

  /** Recording the outcome of x changes nothing above a step whose sources were already done. */
  lemma RecordingIsInvisible(g: Arrows, ledger: Ledger, x: Id, o: Outcome, t: Id)
    requires forall y :: y in ledger ==> Met(g, y, ledger.Keys)
    requires x !in ledger && Met(g, t, ledger.Keys)
    ensures AgreeAbove(g, t, ResultsOf(ledger), ResultsOf(ledger[x := o]))
  {
    forall a | Ancestor(g, t, a) ensures SameAt(a, ResultsOf(ledger), ResultsOf(ledger[x := o])) {
      AncestorIsInside(g, ledger.Keys, t, a);
    }
  }

  lemma AgreeTransitive(g: Arrows, x: Id, a: Context, b: Context, c: Context)
    requires AgreeAbove(g, x, a, b) && AgreeAbove(g, x, b, c)
    ensures AgreeAbove(g, x, a, c) && AgreeAbove(g, x, b, a)
  {
    forall y | Ancestor(g, x, y) ensures SameAt(y, a, c) && SameAt(y, b, a) {
      assert SameAt(y, a, b) && SameAt(y, b, c);
    }
  }

  lemma AgreeSymmetric(g: Arrows, x: Id, a: Context, b: Context)
    requires AgreeAbove(g, x, a, b)
    ensures AgreeAbove(g, x, b, a)
  {
    forall y | Ancestor(g, x, y) ensures SameAt(y, b, a) {
      assert SameAt(y, a, b);
    }
  }

  lemma GroundedGrows(ids: set<Id>, g: Arrows, done: set<Id>, x: Id)
    requires Grounded(ids, g, done) && x in ids && Met(g, x, done)
    ensures Grounded(ids, g, done + {x})
  {
    forall c | Closed(ids, g, c) ensures done + {x} <= c {
      assert Met(g, x, c);
    }
  }

  /** The results so far are a context that a step which has not ended can be handed. */
  lemma ResultsArePossible(steps: seq<Step>, oracle: Oracle, ledger: Ledger, x: Id)
    requires Consistent(steps, oracle, ledger) && x !in ledger
    ensures Possible(steps, x, ResultsOf(ledger))
  {
    var g := Dependencies(steps);
    assert Closed(Ids(steps), g, Ids(steps));
    forall y | y in ResultsOf(ledger) ensures y in Ids(steps) && !Ancestor(g, y, x) {
      if Ancestor(g, y, x) {
        AncestorIsInside(g, ledger.Keys, y, x);
      }
    }
  }

  /** Recording an outcome keeps the results there are. */
  lemma ResultsStay(ledger: Ledger, x: Id, o: Outcome)
    requires x !in ledger
    ensures Part(ResultsOf(ledger), ResultsOf(ledger[x := o]))
  {
  }

  lemma JustifiedLater(steps: seq<Step>, oracle: Oracle, s: Step, o: Outcome, before: Context, after: Context)
    requires Justified(steps, oracle, s, o, before)
    requires AgreeAbove(Dependencies(steps), s.id, before, after) && Part(before, after)
    ensures Justified(steps, oracle, s, o, after)
  {
    var ctx :| Handed(steps, s, ctx, before) && o == Eval(oracle, s, ctx);
    AgreeTransitive(Dependencies(steps), s.id, ctx, before, after);
    assert Handed(steps, s, ctx, after);
  }

  /**
   A ready step may be evaluated at any time, in any context it can be handed: recording the
   outcome keeps the ledger consistent, whatever the tasks look at.
   */
  lemma ExtendLedger(steps: seq<Step>, oracle: Oracle, ledger: Ledger, s: Step, ctx: Context)
    requires UniqueIds(steps) && Consistent(steps, oracle, ledger)
    requires s in steps && s.id !in ledger && s.Ready(ledger.Keys)
    requires Handed(steps, s, ctx, ResultsOf(ledger))
    ensures Consistent(steps, oracle, ledger[s.id := Eval(oracle, s, ctx)])
  {
    hide Possible, Attempts, Eval, Part;
    ResultsStay(ledger, s.id, Eval(oracle, s, ctx));
    var g, o := Dependencies(steps), Eval(oracle, s, ctx);
    var ledger' := ledger[s.id := o];
    ReadyIsMet(steps, s, ledger.Keys);
    GroundedGrows(Ids(steps), g, ledger.Keys, s.id);
    assert ledger'.Keys == ledger.Keys + {s.id};
    forall t | t in steps && t.id in ledger'
      ensures Justified(steps, oracle, t, ledger'[t.id], ResultsOf(ledger'))
    {
      RecordingIsInvisible(g, ledger, s.id, o, t.id);
      if t.id == s.id {
        SameIdSameStep(steps, s, t);
        assert Justified(steps, oracle, s, o, ResultsOf(ledger));
      }
      JustifiedLater(steps, oracle, t, ledger'[t.id], ResultsOf(ledger), ResultsOf(ledger'));
    }
  }

  /** What a justified outcome can be: skipped iff the condition does not hold, and within the step's retries. */
  lemma JustifiedMeaning(steps: seq<Step>, oracle: Oracle, s: Step, o: Outcome, results: Context)
    requires s in steps && Justified(steps, oracle, s, o, results)
    ensures o.Skip? <==> !s.Enabled(results)
    ensures o.Done? ==> o.failures <= s.retries
    ensures o.Dead? ==> o.retries == s.retries
  {
    var ctx :| Handed(steps, s, ctx, results) && o == Eval(oracle, s, ctx);
    EnabledLocal(steps, s, ctx, results);
    AttemptsMeaning(oracle, s, ctx, 0);
  }

  /**
   A step is skipped exactly when it has a condition and the source did not complete, or
   completed with a result the condition refuses. In particular a step without a condition
   runs even if steps it depends on failed or were skipped.
   */
  lemma SkippedIff(steps: seq<Step>, oracle: Oracle, ledger: Ledger, s: Step)
    requires UniqueIds(steps) && Consistent(steps, oracle, ledger) && s in steps && s.id in ledger
    ensures s.condition.Some? ==> s.condition.value.source in ledger
    ensures s.condition.None? ==> ledger[s.id] != Skip
    ensures s.condition.Some? && !ledger[s.condition.value.source].Done? ==> ledger[s.id] == Skip
    ensures s.condition.Some? && ledger[s.condition.value.source].Done? ==>
              var text := ledger[s.condition.value.source].value.text;
              ledger[s.id] != Skip <==>
              && (s.condition.value.equals.Some? ==> text == s.condition.value.equals.value)
              && (s.condition.value.notEquals.Some? ==> text != s.condition.value.notEquals.value)
              && (s.condition.value.contains.Some? ==> Occurs(s.condition.value.contains.value, text))
  {
    ReadyIsMet(steps, s, ledger.Keys);
    if s.condition.Some? {
      EvaluateIff(s.condition.value, ResultsOf(ledger));
      if s.condition.value.contains.Some? && ledger[s.condition.value.source].Done? {
        OccursIff(s.condition.value.contains.value, ledger[s.condition.value.source].value.text);
      }
    }
    JustifiedMeaning(steps, oracle, s, ledger[s.id], ResultsOf(ledger));
  }

  lemma EmptyLedgerIsConsistent(steps: seq<Step>, oracle: Oracle)
    ensures Consistent(steps, oracle, map[])
  {
  }

  /** A consistent ledger that nothing can be added to is a solution. */
  lemma StuckLedgerIsSolution(steps: seq<Step>, oracle: Oracle, ledger: Ledger)
    requires Consistent(steps, oracle, ledger)
    requires Closed(Ids(steps), Dependencies(steps), ledger.Keys)
    ensures Solution(steps, oracle, ledger)
  {
    var ids, g := Ids(steps), Dependencies(steps);
    ResolvableIsClosed(ids, g);
    ResolvableIsLeast(ids, g, ledger.Keys, |ids|);
  }

  ghost predicate SameOutcome(a: Ledger, b: Ledger, x: Id) {
    x in a && x in b && a[x] == b[x]
  }

  lemma OutcomeForced(steps: seq<Step>, oracle: Oracle, a: Ledger, b: Ledger, x: Id)
    requires Local(steps, oracle)
    requires Consistent(steps, oracle, a) && Consistent(steps, oracle, b)
    requires x in Ids(steps) && x in a && x in b
    requires forall y :: Ancestor(Dependencies(steps), x, y) ==> SameOutcome(a, b, y)
    ensures a[x] == b[x]
  {
    var g := Dependencies(steps);
    var s :| s in steps && s.id == x;
    forall y | Ancestor(g, x, y) ensures SameAt(y, ResultsOf(a), ResultsOf(b)) {
      assert SameOutcome(a, b, y);
    }
    assert Justified(steps, oracle, s, a[s.id], ResultsOf(a)) && Justified(steps, oracle, s, b[s.id], ResultsOf(b));
    var ctxA :| Handed(steps, s, ctxA, ResultsOf(a)) && a[x] == Eval(oracle, s, ctxA);
    var ctxB :| Handed(steps, s, ctxB, ResultsOf(b)) && b[x] == Eval(oracle, s, ctxB);
    AgreeTransitive(g, x, ctxA, ResultsOf(a), ResultsOf(b));
    AgreeSymmetric(g, x, ctxB, ResultsOf(b));
    AgreeTransitive(g, x, ctxA, ResultsOf(b), ctxB);
    EvalLocal(steps, oracle, s, ctxA, ctxB);
  }

  /** Outcomes are forced round by round. */
  lemma {:induction false} OutcomesForced(steps: seq<Step>, oracle: Oracle, a: Ledger, b: Ledger, k: nat, x: Id)
    requires Local(steps, oracle)
    requires Consistent(steps, oracle, a) && Consistent(steps, oracle, b)
    requires x in Resolved(Ids(steps), Dependencies(steps), k) && x in a && x in b
    ensures SameOutcome(a, b, x)
    decreases k
  {
    var ids, g := Ids(steps), Dependencies(steps);
    forall y | Ancestor(g, x, y) ensures SameOutcome(a, b, y) {
      var j := AncestorIsEarlier(ids, g, k, x, y);
      AncestorIsInside(g, a.Keys, x, y);
      AncestorIsInside(g, b.Keys, x, y);
      OutcomesForced(steps, oracle, a, b, j, y);
    }
    ResolvedGrows(ids, g, k, k);
    OutcomeForced(steps, oracle, a, b, x);
  }

  /** The recursive meaning of a workflow has at most one solution. */
  lemma SolutionIsUnique(steps: seq<Step>, oracle: Oracle, a: Ledger, b: Ledger)
    requires Local(steps, oracle)
    requires Solution(steps, oracle, a) && Solution(steps, oracle, b)
    ensures a == b
  {
    forall x | x in a ensures a[x] == b[x] {
      OutcomesForced(steps, oracle, a, b, |Ids(steps)|, x);
    }
  }

  /** Two steps that wait for nothing, in the order in which they stand. */
  ghost predicate Siblings(steps: seq<Step>, a: Step, b: Step) {
    steps == [a, b] && a.id != b.id && a.Sources() == b.Sources() == [] && a.condition.None? && b.condition.None?
  }

  /**
   Without that condition runs may disagree: if the second of two siblings answers differently
   once it sees the first one's result, both answers belong to a solution.
   */
  lemma SiblingsMayDiffer(steps: seq<Step>, oracle: Oracle, a: Step, b: Step, v: Value)
    requires Siblings(steps, a, b) && oracle(a, 0, map[]) == Returned(v)
    requires Eval(oracle, b, map[]) != Eval(oracle, b, map[a.id := v])
    ensures var first: Ledger := map[a.id := Done(v, 0)];
            var alone, after := first[b.id := Eval(oracle, b, map[])], first[b.id := Eval(oracle, b, map[a.id := v])];
            Solution(steps, oracle, alone) && Solution(steps, oracle, after) && alone != after
  {
    var first: Ledger := map[a.id := Done(v, 0)];
    assert steps[0] == a && steps[1] == b;
    assert UniqueIds(steps) && Ids(steps) == {a.id, b.id};
    NothingAbove(steps, a, b);
    EmptyLedgerIsConsistent(steps, oracle);
    assert ResultsOf(map[]) == map[];
    assert Eval(oracle, a, map[]) == Done(v, 0);
    ExtendLedger(steps, oracle, map[], a, map[]);
    assert ResultsOf(first) == map[a.id := v];
    SiblingEnds(steps, oracle, first, b, map[]);
    SiblingEnds(steps, oracle, first, b, map[a.id := v]);
    assert first[b.id := Eval(oracle, b, map[])][b.id] != first[b.id := Eval(oracle, b, map[a.id := v])][b.id];
  }

  lemma NothingAbove(steps: seq<Step>, a: Step, b: Step)
    requires Siblings(steps, a, b)
    ensures Dependencies(steps) == {} && forall x, y :: !Ancestor(Dependencies(steps), x, y)
  {
    forall p ensures p !in Dependencies(steps) {
      assert forall s :: s in steps ==> s.Sources() == [];
    }
    assert forall w :: Walk(Dependencies(steps), w) && |w| > 1 ==> (w[0], w[1]) in Dependencies(steps);
  }

  lemma SiblingEnds(steps: seq<Step>, oracle: Oracle, ledger: Ledger, b: Step, ctx: Context)
    requires UniqueIds(steps) && Consistent(steps, oracle, ledger) && b in steps && b.id !in ledger
    requires forall x, y :: !Ancestor(Dependencies(steps), x, y)
    requires Dependencies(steps) == {} && ledger.Keys + {b.id} == Ids(steps)
    requires Part(ctx, ResultsOf(ledger))
    ensures Solution(steps, oracle, ledger[b.id := Eval(oracle, b, ctx)])
  {
    ResultsArePossible(steps, oracle, ledger, b.id);
    ReadyIsMet(steps, b, ledger.Keys);
    assert Handed(steps, b, ctx, ResultsOf(ledger));
    ExtendLedger(steps, oracle, ledger, b, ctx);
    StuckLedgerIsSolution(steps, oracle, ledger[b.id := Eval(oracle, b, ctx)]);
  }
}

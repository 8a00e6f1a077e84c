/**
 contracts.TaskRunner: how typed task objects and plain callables become the attempts the
 retry loop sees, with and without typed I/O.
 */
module TypedTasks {
  import opened Wrappers
  import opened Graphs
  import opened Definitions
  import opened Semantics

  /** A Python call: the context, the parameters, and how often the step was attempted before. */
  type Call = (Context, Params, nat) -> Attempt

  /** A registered object: it may have a run method, it may be callable, it may be both. */
  datatype Task = Task(run: Option<Call>, call: Option<Call>)

  type Registry = map<string, Task>

  function NotATaskResult(name: string): string {
    "Typed task '" + name + "' must return TaskResult"
  }

  function Unwrap(r: TaskResult): Attempt {
    if r.error.Some? then Raised(r.error.value) else Returned(r.output)
  }

  /** What TaskRunner.run returns or raises. */
  function RunTask(name: string, task: Task, ctx: Context, params: Params, k: nat): Result<TaskResult, string> {
    if task.run.Some? then
      match task.run.value(ctx, params, k)
      case Raised(m) => Err(m)
      case Returned(Boxed(r, _)) => Ok(r)
      case Returned(Plain(_, _)) => Err(NotATaskResult(name))
    else if task.call.Some? then
      match task.call.value(ctx, params, k)
      case Raised(m) => Err(m)
      case Returned(Boxed(r, _)) => Ok(r)
      case Returned(Plain(p, t)) => Ok(TaskResult(Plain(p, t), None))
    else
      Err("object is not callable")
  }

  function TypedAttempt(name: string, task: Task, ctx: Context, params: Params, k: nat): Attempt {
    match RunTask(name, task, ctx, params, k)
    case Err(m) => Raised(m)
    case Ok(r) => Unwrap(r)
  }

  function LegacyAttempt(task: Task, ctx: Context, params: Params, k: nat): Attempt {
    if task.call.Some? then task.call.value(ctx, params, k) else Raised("object is not callable")
  }

  /** The attempts the retry loop makes. validate_registry has checked that the task is there. */
  function TaskOracle(registry: Registry, typedIo: bool): Oracle {
    (s: Step, k: nat, ctx: Context) =>
      if s.task !in registry then Raised(s.task)
      else if typedIo then TypedAttempt(s.task, registry[s.task], ctx, s.params, k)
      else LegacyAttempt(registry[s.task], ctx, s.params, k)
  }

  /**
   What an attempt comes to without typed I/O: whatever the object's own call returns or
   raises, a TaskResult included. An object that is not callable makes every attempt raise.
   */
  lemma LegacyAnswers(registry: Registry, s: Step, k: nat, ctx: Context)
    requires s.task in registry
    ensures var task, attempt := registry[s.task], TaskOracle(registry, false)(s, k, ctx);
            if task.call.Some? then attempt == task.call.value(ctx, s.params, k) else attempt.Raised?
  {
  }

  /**
   With typed I/O: a run method goes before a call and has to return a TaskResult, which is
   opened. A plain callable may return one, and it is opened too; anything else it returns is
   the result.
   */
  lemma TypedAnswers(registry: Registry, s: Step, k: nat, ctx: Context)
    requires s.task in registry
    ensures var task, attempt := registry[s.task], TaskOracle(registry, true)(s, k, ctx);
            if task.run.Some? || task.call.Some? then
              match (if task.run.Some? then task.run else task.call).value(ctx, s.params, k)
              case Raised(m) => attempt == Raised(m)
              case Returned(Boxed(r, _)) =>
                && (r.error == None ==> attempt == Returned(r.output))
                && (r.error != None ==> attempt == Raised(r.error.value))
              case Returned(Plain(p, t)) =>
                if task.run.Some? then attempt.Raised? else attempt == Returned(Plain(p, t))
            else attempt.Raised?
  {
  }

  /** A callable that answers every attempt of its step with one and the same TaskResult. */
  ghost predicate AlwaysBoxed(registry: Registry, s: Step, r: TaskResult, text: string) {
    && s.task in registry && registry[s.task].run == None && registry[s.task].call.Some?
    && forall ctx: Context, k: nat {:trigger registry[s.task].call.value(ctx, s.params, k)} ::
         registry[s.task].call.value(ctx, s.params, k) == Returned(Boxed(r, text))
  }

  /** What a step comes to in each mode if its callable always returns a failed TaskResult. */
  lemma FailedResultOutcome(registry: Registry, s: Step, ctx: Context, r: TaskResult, text: string)
    requires AlwaysBoxed(registry, s, r, text) && r.error.Some? && s.condition == None
    ensures Eval(TaskOracle(registry, true), s, ctx) == Dead(r.error.value, s.retries)
    ensures Eval(TaskOracle(registry, false), s, ctx) == Done(Boxed(r, text), 0)
  {
    var typed, legacy := TaskOracle(registry, true), TaskOracle(registry, false);
    forall k: nat ensures typed(s, k, ctx) == Raised(r.error.value) && legacy(s, k, ctx) == Returned(Boxed(r, text)) {
      TypedAnswers(registry, s, k, ctx);
      LegacyAnswers(registry, s, k, ctx);
      assert registry[s.task].call.value(ctx, s.params, k) == Returned(Boxed(r, text));
    }
    AttemptsMeaning(typed, s, ctx, 0);
    AttemptsMeaning(legacy, s, ctx, 0);
  }

  /** Called for the step s, the call gives the same answer in contexts that agree on what s waits for. */
  ghost predicate CallLocal(steps: seq<Step>, s: Step, call: Call) {
    forall c: Context, c': Context, k: nat {:trigger call(c, s.params, k), call(c', s.params, k)} ::
      Possible(steps, s.id, c) && Possible(steps, s.id, c') && AgreeAbove(Dependencies(steps), s.id, c, c') ==>
        call(c, s.params, k) == call(c', s.params, k)
  }

  ghost predicate TaskLocal(steps: seq<Step>, s: Step, task: Task) {
    && (task.run.Some? ==> CallLocal(steps, s, task.run.value))
    && (task.call.Some? ==> CallLocal(steps, s, task.call.value))
  }

  /** Every step's own task, called for that step, looks only at what the step waits for. */
  ghost predicate RegistryLocal(steps: seq<Step>, registry: Registry) {
    forall s {:trigger registry[s.task]} ::
      s in steps && s.task in registry ==> TaskLocal(steps, s, registry[s.task])
  }

  /** Adapting tasks lets them look at no more than the tasks themselves look at. */
  lemma AdaptingKeepsLocality(steps: seq<Step>, registry: Registry, typedIo: bool)
    requires RegistryLocal(steps, registry)
    ensures Local(steps, TaskOracle(registry, typedIo))
  {
    var oracle := TaskOracle(registry, typedIo);
    forall s: Step, k: nat, c: Context, c': Context
      | s in steps && k <= s.retries && Possible(steps, s.id, c) && Possible(steps, s.id, c')
        && AgreeAbove(Dependencies(steps), s.id, c, c')
      ensures oracle(s, k, c) == oracle(s, k, c')
    {
      if s.task in registry {
        var task := registry[s.task];
        assert TaskLocal(steps, s, task);
        assert task.run.Some? ==> task.run.value(c, s.params, k) == task.run.value(c', s.params, k);
        assert task.call.Some? ==> task.call.value(c, s.params, k) == task.call.value(c', s.params, k);
      }
    }
  }

  /** Called for s, the call looks at nothing in its context but the result of y. */
  ghost predicate ReadsOnly(s: Step, call: Call, y: Id) {
    forall c: Context, c': Context, k: nat {:trigger call(c, s.params, k), call(c', s.params, k)} ::
      SameAt(y, c, c') ==> call(c, s.params, k) == call(c', s.params, k)
  }

  /** Called for s, the call makes nothing of any context it can be handed. */
  ghost predicate Ignores(steps: seq<Step>, s: Step, call: Call) {
    forall c: Context, c': Context, k: nat {:trigger call(c, s.params, k), call(c', s.params, k)} ::
      Possible(steps, s.id, c) && Possible(steps, s.id, c') ==> call(c, s.params, k) == call(c', s.params, k)
  }

  /**
   A task that reads the result of one step by its id, as a parameter tells it to, is local
   for every step that waits for that step, and for no other unless it ignores what it reads.
   */
  lemma ReadingOneResult(steps: seq<Step>, s: Step, call: Call, y: Id)
    requires ReadsOnly(s, call, y)
    ensures CallLocal(steps, s, call) <==> Ancestor(Dependencies(steps), s.id, y) || Ignores(steps, s, call)
  {
    if CallLocal(steps, s, call) && !Ancestor(Dependencies(steps), s.id, y) {
      forall c: Context, c': Context, k: nat | Possible(steps, s.id, c) && Possible(steps, s.id, c')
        ensures call(c, s.params, k) == call(c', s.params, k)
      {
        var mixed := if y in c' then c[y := c'[y]] else c - {y};
        assert Possible(steps, s.id, mixed) && AgreeAbove(Dependencies(steps), s.id, c, mixed);
        assert SameAt(y, mixed, c');
        assert call(c, s.params, k) == call(mixed, s.params, k) == call(c', s.params, k);
      }
    }
  }

  /** All other steps of the workflow come before s or after it. */
  ghost predicate InLine(steps: seq<Step>, s: Step) {
    forall y {:trigger y in Ids(steps)} :: y in Ids(steps) && y != s.id ==>
      Ancestor(Dependencies(steps), s.id, y) || Ancestor(Dependencies(steps), y, s.id)
  }

  /** A step beside which no other can run may use any task, even one that lists its whole context. */
  lemma InLineIsLocal(steps: seq<Step>, s: Step, call: Call)
    requires InLine(steps, s)
    ensures CallLocal(steps, s, call)
  {
    forall c: Context, c': Context, k: nat
      | Possible(steps, s.id, c) && Possible(steps, s.id, c') && AgreeAbove(Dependencies(steps), s.id, c, c')
      ensures call(c, s.params, k) == call(c', s.params, k)
    {
      forall y ensures SameAt(y, c, c') {
        if y in c || y in c' {
          assert Ancestor(Dependencies(steps), s.id, y);
        }
      }
      assert c == c';
    }
  }

  /**
   For a plain callable the two ways of calling differ exactly when it returns a TaskResult
   object: typed I/O opens it (and fails if it carries an error), legacy I/O takes the
   object itself as the result of a completed step.
   */
  lemma TypedIoMatters(name: string, task: Task, ctx: Context, params: Params, k: nat)
    requires task.run.None? && task.call.Some?
    ensures TypedAttempt(name, task, ctx, params, k) == LegacyAttempt(task, ctx, params, k)
            <==> !(task.call.value(ctx, params, k).Returned? && task.call.value(ctx, params, k).value.Boxed?)
  {
    match task.call.value(ctx, params, k)
    case Returned(Boxed(r, t)) =>
      assert r < Boxed(r, t) && r.output < r;
    case _ =>
  }

  /** A typed object attempts successfully exactly when it returns a TaskResult without an error. */
  lemma TypedSuccess(name: string, task: Task, ctx: Context, params: Params, k: nat, v: Value)
    requires task.run.Some?
    ensures TypedAttempt(name, task, ctx, params, k) == Returned(v) <==>
            exists text :: task.run.value(ctx, params, k) == Returned(Boxed(TaskResult(v, None), text))
  {
    match task.run.value(ctx, params, k)
    case Returned(Boxed(TaskResult(w, e), t)) =>
      if w == v && e == None {
        assert task.run.value(ctx, params, k) == Returned(Boxed(TaskResult(v, None), t));
      }
    case _ =>
  }

  /** The oracles answer alike in every context a step can be handed. */
  ghost predicate SameAttempts(steps: seq<Step>, a: Oracle, b: Oracle) {
    forall s: Step, k: nat, c: Context {:trigger a(s, k, c)} :: s in steps && Possible(steps, s.id, c) ==>
      a(s, k, c) == b(s, k, c)
  }

  lemma {:induction false} SameAttemptsSameOutcome(
    steps: seq<Step>, a: Oracle, b: Oracle, s: Step, c: Context, k: nat)
    requires SameAttempts(steps, a, b) && s in steps && Possible(steps, s.id, c) && k <= s.retries
    ensures Attempts(a, s, c, k) == Attempts(b, s, c, k)
    decreases s.retries - k
  {
    assert a(s, k, c) == b(s, k, c);
    if k < s.retries {
      SameAttemptsSameOutcome(steps, a, b, s, c, k + 1);
    }
  }

  /** The call, made for s in a context it can be handed, never returns a TaskResult object. */
  ghost predicate ReturnsPlain(steps: seq<Step>, s: Step, call: Call) {
    forall c: Context, k: nat {:trigger call(c, s.params, k)} ::
      Possible(steps, s.id, c) && call(c, s.params, k).Returned? ==> call(c, s.params, k).value.Plain?
  }

  ghost predicate OnlyPlainCallables(steps: seq<Step>, registry: Registry) {
    forall s {:trigger registry[s.task]} :: s in steps && s.task in registry ==>
      && registry[s.task].run.None? && registry[s.task].call.Some?
      && ReturnsPlain(steps, s, registry[s.task].call.value)
  }

  /** Oracles that answer alike have the same solutions, whatever the tasks look at. */
  lemma SameSolutions(steps: seq<Step>, a: Oracle, b: Oracle, ledger: Ledger)
    requires SameAttempts(steps, a, b) && Solution(steps, b, ledger)
    ensures Solution(steps, a, ledger)
  {
    forall s {:trigger ledger[s.id]} | s in steps && s.id in ledger
      ensures Justified(steps, a, s, ledger[s.id], ResultsOf(ledger))
    {
      assert Justified(steps, b, s, ledger[s.id], ResultsOf(ledger));
      var ctx :| Handed(steps, s, ctx, ResultsOf(ledger)) && ledger[s.id] == Eval(b, s, ctx);
      SameAttemptsSameOutcome(steps, a, b, s, ctx, 0);
    }
  }

  /** If every task is a callable that never returns a TaskResult, typed I/O changes no attempt. */
  lemma IoModesAgree(steps: seq<Step>, registry: Registry, typedA: bool, typedB: bool)
    requires OnlyPlainCallables(steps, registry)
    ensures SameAttempts(steps, TaskOracle(registry, typedA), TaskOracle(registry, typedB))
  {
    var a, b := TaskOracle(registry, typedA), TaskOracle(registry, typedB);
    forall s: Step, k: nat, c: Context | s in steps && Possible(steps, s.id, c) ensures a(s, k, c) == b(s, k, c) {
      if s.task in registry {
        TypedIoMatters(s.task, registry[s.task], c, s.params, k);
      }
    }
  }
}

/** Decoded workflow definitions: steps, conditions and the dependency graph they declare. */
module Definitions {
  import opened Wrappers
  import opened Graphs

  /** What a task hands back: an ordinary object, or a TaskResult object. text is its str(). */
  datatype Value = Plain(payload: int, text: string) | Boxed(result: TaskResult, text: string)

  datatype TaskResult = TaskResult(output: Value, error: Option<string>)

  type Context = map<Id, Value>

  type Params = map<string, Value>

  datatype Condition = Condition(
    source: Id,
    equals: Option<string>,
    notEquals: Option<string>,
    contains: Option<string>)
  {
    predicate Evaluate(results: Context) {
      source in results && Holds(results[source].text)
    }

    /** The comparisons with the text of the source's result. */
    predicate Holds(actual: string) {
      && (equals.Some? ==> actual == equals.value)
      && (notEquals.Some? ==> actual != notEquals.value)
      && (contains.Some? ==> Occurs(contains.value, actual))
    }
  }

  predicate Occurs(needle: string, hay: string) {
    exists i :: 0 <= i <= |hay| && needle <= hay[i..]
  }

  /** retries is a nat: the decoder refuses negative counts. */
  datatype Step = Step(
    id: Id,
    task: string,
    dependsOn: Option<seq<Id>>,
    retries: nat,
    params: Params,
    condition: Option<Condition>)
  {
    function Declared(): seq<Id> {
      if dependsOn.Some? then dependsOn.value else []
    }

    /** The declared dependencies, then the condition's source unless it is one of them. */
    function Sources(): seq<Id> {
      if condition.Some? && condition.value.source !in Declared() then
        Declared() + [condition.value.source]
      else
        Declared()
    }

    /** The check both schedulers make before a step may be looked at. */
    predicate Ready(done: set<Id>) {
      && (forall d :: d in Declared() ==> d in done)
      && (condition.Some? ==> condition.value.source in done)
    }

    /** Whether the step runs or is skipped, once it is ready. */
    predicate Enabled(results: Context) {
      condition.Some? ==> condition.value.Evaluate(results)
    }
  }

  /** When a condition lets its step run, given what the source completed with. */
  lemma EvaluateIff(c: Condition, results: Context)
    ensures c.Evaluate(results) <==>
            && c.source in results
            && var text := results[c.source].text;
               && (c.equals.Some? ==> text == c.equals.value)
               && (c.notEquals.Some? ==> text != c.notEquals.value)
               && (c.contains.Some? ==> exists pre, post :: text == pre + c.contains.value + post)
  {
    if c.source in results && c.contains.Some? {
      OccursIff(c.contains.value, results[c.source].text);
    }
  }

  /** One string occurs in another if something before it and something after it make up the other. */
  lemma OccursIff(needle: string, hay: string)
    ensures Occurs(needle, hay) <==> exists pre, post :: hay == pre + needle + post
  {
    if Occurs(needle, hay) {
      var i :| 0 <= i <= |hay| && needle <= hay[i..];
      CutOut(needle, hay, i);
    }
    if exists pre, post :: hay == pre + needle + post {
      var pre, post :| hay == pre + needle + post;
      assert needle + post == hay[|pre|..];
    }
  }

  lemma CutOut(needle: string, hay: string, i: nat)
    requires i <= |hay| && needle <= hay[i..]
    ensures hay == hay[..i] + needle + hay[i + |needle|..]
  {
    var rest := hay[i..];
    assert rest == needle + rest[|needle|..] && rest[|needle|..] == hay[i + |needle|..];
    assert hay == hay[..i] + rest;
  }

  ghost predicate UniqueIds(steps: seq<Step>) {
    forall i, j {:trigger steps[i].id, steps[j].id} :: 0 <= i < j < |steps| ==> steps[i].id != steps[j].id
  }

  ghost function Ids(steps: seq<Step>): set<Id> {
    set s | s in steps :: s.id
  }

  /** (x, y): step x waits for y, because of a dependency or because of its condition. */
  ghost function Dependencies(steps: seq<Step>): Arrows {
    set s, d | s in steps && d in s.Sources() :: (s.id, d)
  }

  /** The validator of WorkflowConfig.steps; the result is the id it complains about. */
  method FindDuplicateId(steps: seq<Step>) returns (duplicate: Option<Id>)
    ensures duplicate.None? <==> UniqueIds(steps)
    ensures duplicate.Some? ==>
              exists j :: 0 <= j < |steps| && steps[j].id == duplicate.value
                          && steps[j].id in Ids(steps[..j]) && UniqueIds(steps[..j])
  {
    var seen: set<Id> := {};
    for i := 0 to |steps|
      invariant seen == Ids(steps[..i]) && UniqueIds(steps[..i])
    {
      assert steps[..i + 1] == steps[..i] + [steps[i]];
      if steps[i].id in seen {
        var first :| first in steps[..i] && first.id == steps[i].id;
        return Some(steps[i].id);
      }
      seen := seen + {steps[i].id};
      forall a, b | 0 <= a < b < i + 1 ensures steps[a].id != steps[b].id {
        assert steps[..i][a] in steps[..i];
      }
    }
    assert steps[..|steps|] == steps;
    return None;
  }

  lemma SameIdSameStep(steps: seq<Step>, s: Step, t: Step)
    requires UniqueIds(steps) && s in steps && t in steps && s.id == t.id
    ensures s == t
  {
  }

  lemma UniqueLast(steps: seq<Step>)
    requires UniqueIds(steps) && steps != []
    ensures var init, last := steps[..|steps| - 1], steps[|steps| - 1];
            steps == init + [last] && UniqueIds(init) && last.id !in Ids(init)
  {
  }

  lemma {:induction false} UniqueIdsCount(steps: seq<Step>)
    requires UniqueIds(steps)
    ensures |Ids(steps)| == |steps|
  {
    if steps != [] {
      var rest := steps[..|steps| - 1];
      var last := steps[|steps| - 1];
      UniqueIdsCount(rest);
      assert steps == rest + [last];
      assert last.id !in Ids(rest);
      assert Ids(steps) == Ids(rest) + {last.id};
    }
  }

  /** For a step of the workflow, "ready" is the graph's "all sources done". */
  lemma ReadyIsMet(steps: seq<Step>, s: Step, done: set<Id>)
    requires UniqueIds(steps) && s in steps
    ensures s.Ready(done) <==> Met(Dependencies(steps), s.id, done)
    ensures s.Ready(done) <==> forall d :: d in s.Sources() ==> d in done
  {
    var g := Dependencies(steps);
    forall d ensures (s.id, d) in g <==> d in s.Sources() {
      if (s.id, d) in g {
        var t :| t in steps && d in t.Sources() && (s.id, d) == (t.id, d);
        SameIdSameStep(steps, s, t);
      }
    }
    if s.Ready(done) {
      assert forall d :: d in s.Sources() ==> d in done;
    }
  }

  /** Who waits for whom, on the fields of the definition. */
  lemma DependenciesIff(steps: seq<Step>, x: Id, y: Id)
    ensures (x, y) in Dependencies(steps) <==>
            exists s :: s in steps && s.id == x
                        && ((s.dependsOn.Some? && y in s.dependsOn.value)
                            || (s.condition.Some? && y == s.condition.value.source))
  {
    forall s: Step {
      SourcesIff(s, y);
    }
    if (x, y) in Dependencies(steps) {
      var s :| s in steps && y in s.Sources() && (s.id, y) == (x, y);
    }
  }

  lemma SourcesIff(s: Step, y: Id)
    ensures y in s.Sources() <==> (s.dependsOn.Some? && y in s.dependsOn.value)
                                  || (s.condition.Some? && y == s.condition.value.source)
  {
  }

  /** A step is ready when everything it depends on has ended, and the source of its condition too. */
  lemma ReadyIff(s: Step, done: set<Id>)
    ensures s.Ready(done) <==>
            && (s.dependsOn.Some? ==> forall d :: d in s.dependsOn.value ==> d in done)
            && (s.condition.Some? ==> s.condition.value.source in done)
  {
  }

  lemma ReadyGrows(s: Step, before: set<Id>, after: set<Id>)
    requires s.Ready(before) && before <= after
    ensures s.Ready(after)
  {
  }

  lemma ArrowsStartAtSteps(steps: seq<Step>)
    ensures forall p :: p in Dependencies(steps) ==> p.0 in Ids(steps)
  {
  }
}

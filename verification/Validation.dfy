/** parser.detect_cycles: Kahn's algorithm over dependencies and implicit condition edges. */
module Validation {
  import opened Wrappers
  import opened Graphs
  import opened Definitions

  datatype Rejection =
    | UnknownDependency(step: Id, source: Id)
    | CycleDetected(unresolved: set<Id>)

  /** adjacency[d] lists the steps waiting for d; inDegree counts the sources still missing. */
  datatype Tables = Tables(inDegree: map<Id, int>, adjacency: map<Id, seq<Id>>)

  /** x is on a cycle, or waits for a step that is. */
  ghost predicate DownstreamOfCycle(g: Arrows, x: Id) {
    exists y :: Reaches(g, x, y) && OnCycle(g, y)
  }

  /** The cycle report is non-empty and lists those steps, all of them and no other. */
  ghost predicate ListsDownstream(ids: set<Id>, g: Arrows, unresolved: set<Id>) {
    && unresolved != {}
    && forall x {:trigger x in unresolved} {:trigger DownstreamOfCycle(g, x)} ::
         x in unresolved <==> x in ids && DownstreamOfCycle(g, x)
  }

  ghost predicate AllKnown(sources: seq<Id>, ids: set<Id>) {
    forall k :: 0 <= k < |sources| ==> sources[k] in ids
  }

  ghost predicate KnownUpTo(steps: seq<Step>, n: nat) {
    forall k {:trigger steps[k].Sources()} ::
      0 <= k < n && k < |steps| ==> AllKnown(steps[k].Sources(), Ids(steps))
  }

  /** (i, j) is the first place, in reading order, where an unknown source is named. */
  ghost predicate FirstUnknown(steps: seq<Step>, i: nat, j: nat) {
    && i < |steps| && j < |steps[i].Sources()|
    && steps[i].Sources()[j] !in Ids(steps)
    && AllKnown(steps[i].Sources()[..j], Ids(steps))
    && KnownUpTo(steps, i)
  }

  /** The rejection names the first unknown source and the step that waits for it. */
  ghost predicate NamesFirstUnknown(steps: seq<Step>, r: Rejection) {
    exists i: nat, j: nat :: FirstUnknown(steps, i, j)
                             && r == UnknownDependency(steps[i].id, steps[i].Sources()[j])
  }

  /** How often x is named. */
  ghost function Count(xs: seq<Id>, x: Id): nat {
    if xs == [] then 0 else (if xs[0] == x then 1 else 0) + Count(xs[1..], x)
  }

  lemma {:induction false} CountSnoc(xs: seq<Id>, y: Id, x: Id)
    ensures Count(xs + [y], x) == Count(xs, x) + (if x == y then 1 else 0)
  {
    if xs == [] {
      assert Count([y], x) == (if y == x then 1 else 0) + Count([], x);
    } else {
      CountSnoc(xs[1..], y, x);
      assert (xs + [y])[1..] == xs[1..] + [y];
    }
  }

  /** How many entries of sources are not done yet. */
  ghost function Missing(sources: seq<Id>, done: set<Id>): nat {
    if sources == [] then 0
    else (if sources[0] in done then 0 else 1) + Missing(sources[1..], done)
  }

  lemma {:induction false} MissingIsZero(sources: seq<Id>, done: set<Id>)
    ensures Missing(sources, done) == 0 <==> forall d :: d in sources ==> d in done
  {
    if sources != [] {
      MissingIsZero(sources[1..], done);
      assert sources == [sources[0]] + sources[1..];
    }
  }

  /** Finishing one more step lowers the count by the number of times it is named. */
  lemma {:induction false} MissingDrops(sources: seq<Id>, done: set<Id>, node: Id)
    requires node !in done
    ensures Missing(sources, done) == Missing(sources, done + {node}) + Count(sources, node)
  {
    if sources != [] {
      MissingDrops(sources[1..], done, node);
      assert sources == [sources[0]] + sources[1..];
    }
  }

  lemma {:induction false} MissingAtStart(sources: seq<Id>)
    ensures Missing(sources, {}) == |sources|
  {
    if sources != [] {
      MissingAtStart(sources[1..]);
    }
  }

  /** The tables record, with multiplicity, the sources named[x] of every known step x. */
  ghost predicate Mirrors(t: Tables, ids: set<Id>, named: map<Id, seq<Id>>) {
    && t.inDegree.Keys == t.adjacency.Keys == named.Keys == ids
    && (forall x {:trigger t.inDegree[x]} :: x in ids ==> t.inDegree[x] == |named[x]|)
    && (forall d, i {:trigger t.adjacency[d][i]} ::
          d in ids && 0 <= i < |t.adjacency[d]| ==> t.adjacency[d][i] in ids)
    && (forall d, x {:trigger Count(t.adjacency[d], x)} {:trigger Count(named[x], d)} ::
          d in ids && x in ids ==> Count(t.adjacency[d], x) == Count(named[x], d))
  }

  /** The sources registered once the first n steps have been read. */
  ghost predicate RegisteredUpTo(steps: seq<Step>, n: nat, named: map<Id, seq<Id>>) {
    forall k {:trigger named[steps[k].id]} {:trigger steps[k].id in named} :: 0 <= k < |steps| ==>
                  && steps[k].id in named
                  && named[steps[k].id] == if k < n then steps[k].Sources() else []
  }

  lemma RegisterNext(steps: seq<Step>, i: nat, named: map<Id, seq<Id>>)
    requires UniqueIds(steps) && i < |steps| && RegisteredUpTo(steps, i, named)
    requires KnownUpTo(steps, i) && AllKnown(steps[i].Sources(), Ids(steps))
    ensures KnownUpTo(steps, i + 1)
    ensures RegisteredUpTo(steps, i + 1, named[steps[i].id := steps[i].Sources()])
  {
  }

  method EmptyTables(steps: seq<Step>) returns (t: Tables, ghost named: map<Id, seq<Id>>)
    ensures Mirrors(t, Ids(steps), named) && RegisteredUpTo(steps, 0, named)
  {
    t := Tables(map s | s in steps :: s.id := 0, map s | s in steps :: s.id := []);
    named := map x | x in Ids(steps) :: [];
  }

  /** One pass of the inner loop: step x names one more source d. */
  lemma RecordSource(t: Tables, ids: set<Id>, named: map<Id, seq<Id>>, x: Id, d: Id)
    requires Mirrors(t, ids, named) && x in ids && d in ids
    ensures Mirrors(
              Tables(t.inDegree[x := t.inDegree[x] + 1], t.adjacency[d := t.adjacency[d] + [x]]),
              ids,
              named[x := named[x] + [d]])
  {
    var adjacency' := t.adjacency[d := t.adjacency[d] + [x]];
    var named' := named[x := named[x] + [d]];
    forall e, y {:trigger Count(adjacency'[e], y)} {:trigger Count(named'[y], e)} | e in ids && y in ids
      ensures Count(adjacency'[e], y) == Count(named'[y], e)
    {
      CountSnoc(t.adjacency[d], x, y);
      CountSnoc(named[x], d, e);
      assert Count(t.adjacency[e], y) == Count(named[y], e);
    }
  }

  /** The inner loop of the first half: register the sources of one step, or stop at an unknown one. */
  method RegisterStep(t: Tables, step: Step, ghost ids: set<Id>, ghost named: map<Id, seq<Id>>)
    returns (r: Result<Tables, nat>)
    requires Mirrors(t, ids, named) && step.id in ids && named[step.id] == []
    ensures r.Ok? ==> Mirrors(r.value, ids, named[step.id := step.Sources()]) && AllKnown(step.Sources(), ids)
    ensures r.Err? ==> r.error < |step.Sources()| && step.Sources()[r.error] !in ids
                       && AllKnown(step.Sources()[..r.error], ids)
  {
    var x, deps := step.id, step.Sources();
    var tables := t;
    ghost var current := named;
    for j := 0 to |deps|
      invariant Mirrors(tables, ids, current)
      invariant current == named[x := deps[..j]]
      invariant AllKnown(deps[..j], ids)
    {
      assert deps[..j + 1] == deps[..j] + [deps[j]];
      if deps[j] !in tables.inDegree {
        return Err(j);
      }
      RecordSource(tables, ids, current, x, deps[j]);
      current := current[x := current[x] + [deps[j]]];
      tables := Tables(tables.inDegree[x := tables.inDegree[x] + 1],
                       tables.adjacency[deps[j] := tables.adjacency[deps[j]] + [x]]);
    }
    assert deps[..|deps|] == deps;
    r := Ok(tables);
  }

  lemma NothingRead(steps: seq<Step>)
    ensures KnownUpTo(steps, 0)
  {
  }

  lemma MirrorsKnown(t: Tables, ids: set<Id>, named: map<Id, seq<Id>>)
    requires Mirrors(t, ids, named)
    ensures named.Keys == ids
  {
  }

  lemma NotYetRegistered(steps: seq<Step>, i: nat, named: map<Id, seq<Id>>)
    requires UniqueIds(steps) && RegisteredUpTo(steps, i, named) && i < |steps|
    ensures steps[i].id in Ids(steps) && steps[i].id in named && named[steps[i].id] == []
  {
    assert steps[i] in steps;
  }

  /** The first half of detect_cycles: fill the tables, or stop at the first unknown source. */
  method BuildTables(steps: seq<Step>) returns (r: Result<Tables, Rejection>, ghost named: map<Id, seq<Id>>)
    requires UniqueIds(steps)
    ensures r.Ok? ==> SourcesKnown(Ids(steps), Dependencies(steps))
    ensures r.Ok? ==> Mirrors(r.value, Ids(steps), named) && NamesArrows(Ids(steps), Dependencies(steps), named)
    ensures r.Err? ==> !SourcesKnown(Ids(steps), Dependencies(steps))
    ensures r.Err? ==> NamesFirstUnknown(steps, r.error)
  {
    hide UniqueIds, RegisteredUpTo, KnownUpTo, Mirrors, AllKnown, NamesArrows, SourcesKnown, NamesFirstUnknown,
         Dependencies;
    ghost var ids := Ids(steps);
    var t: Tables;
    t, named := EmptyTables(steps);
    NothingRead(steps);
    for i := 0 to |steps|
      invariant Mirrors(t, ids, named) && RegisteredUpTo(steps, i, named)
      invariant KnownUpTo(steps, i)
    {
      NotYetRegistered(steps, i, named);
      var registered := RegisterStep(t, steps[i], ids, named);
      if registered.Err? {
        UnknownFound(steps, i, registered.error);
        return Err(UnknownDependency(steps[i].id, steps[i].Sources()[registered.error])), named;
      }
      t := registered.value;
      RegisterNext(steps, i, named);
      named := named[steps[i].id := steps[i].Sources()];
    }
    AllKnownIsSourcesKnown(steps);
    MirrorsKnown(t, ids, named);
    RegisteredNamesArrows(steps, named);
    r := Ok(t);
  }

  /**
   What the queue loop keeps: finished are the visited steps, pending the arrows still to
   be crossed, and good any closed set of steps, which the loop never leaves.
   */
  ghost predicate Draining(ids: set<Id>, named: map<Id, seq<Id>>, inDegree: map<Id, int>,
                           queue: seq<Id>, finished: set<Id>, pending: seq<Id>, good: set<Id>)
  {
    && inDegree.Keys == named.Keys == ids
    && finished <= ids
    && (forall x {:trigger inDegree[x]} :: x in ids ==> inDegree[x] == Missing(named[x], finished) + Count(pending, x))
    && (forall a :: 0 <= a < |queue| ==> queue[a] in ids && queue[a] !in finished && queue[a] in good)
    && (forall a, b :: 0 <= a < b < |queue| ==> queue[a] != queue[b])
    && (forall x {:trigger inDegree[x]} :: x in ids ==> (inDegree[x] == 0 <==> x in finished || x in queue))
    && finished <= good
  }

  ghost predicate NamesArrows(ids: set<Id>, g: Arrows, named: map<Id, seq<Id>>) {
    && named.Keys == ids
    && forall x, d :: x in ids ==> (d in named[x] <==> (x, d) in g)
  }

  lemma RegisteredNamesArrows(steps: seq<Step>, named: map<Id, seq<Id>>)
    requires UniqueIds(steps) && RegisteredUpTo(steps, |steps|, named) && named.Keys == Ids(steps)
    ensures NamesArrows(Ids(steps), Dependencies(steps), named)
  {
    var g := Dependencies(steps);
    forall x, d | x in Ids(steps) ensures d in named[x] <==> (x, d) in g {
      var s :| s in steps && s.id == x;
      var k :| 0 <= k < |steps| && steps[k] == s;
      if (x, d) in g {
        var t :| t in steps && d in t.Sources() && (x, d) == (t.id, d);
        SameIdSameStep(steps, t, s);
      }
    }
  }

  /** Crossing one arrow out of the node being visited keeps the loop invariant. */
  lemma CrossArrow(ids: set<Id>, g: Arrows, named: map<Id, seq<Id>>, inDegree: map<Id, int>,
                   queue: seq<Id>, finished: set<Id>, pending: seq<Id>, good: set<Id>)
    requires NamesArrows(ids, g, named) && Closed(ids, g, good)
    requires Draining(ids, named, inDegree, queue, finished, pending, good)
    requires pending != [] && pending[0] in ids
    ensures var x := pending[0];
            var left := inDegree[x] - 1;
            Draining(ids, named, inDegree[x := left], if left == 0 then queue + [x] else queue,
                     finished, pending[1..], good)
  {
    var x := pending[0];
    assert pending == [x] + pending[1..];
    if inDegree[x] == 1 {
      MissingIsZero(named[x], finished);
      assert Met(g, x, good);
    }
  }

  /** Taking the head of the queue exposes all the arrows out of it. */
  lemma VisitHead(ids: set<Id>, named: map<Id, seq<Id>>, inDegree: map<Id, int>,
                  queue: seq<Id>, finished: set<Id>, waiting: seq<Id>, good: set<Id>)
    requires Draining(ids, named, inDegree, queue, finished, [], good)
    requires queue != [] && forall x :: x in ids ==> Count(waiting, x) == Count(named[x], queue[0])
    ensures Draining(ids, named, inDegree, queue[1..], finished + {queue[0]}, waiting, good)
  {
    forall x | x in ids
      ensures Missing(named[x], finished) == Missing(named[x], finished + {queue[0]}) + Count(named[x], queue[0])
    {
      MissingDrops(named[x], finished, queue[0]);
    }
    assert queue == [queue[0]] + queue[1..];
  }

  method InitialQueue(steps: seq<Step>, inDegree: map<Id, int>) returns (queue: seq<Id>)
    requires UniqueIds(steps) && inDegree.Keys == Ids(steps)
    ensures forall x :: x in queue <==> x in inDegree && inDegree[x] == 0
    ensures forall a, b :: 0 <= a < b < |queue| ==> queue[a] != queue[b]
  {
    queue := [];
    for i := 0 to |steps|
      invariant forall x :: x in queue <==> x in Ids(steps[..i]) && inDegree[x] == 0
      invariant forall a, b :: 0 <= a < b < |queue| ==> queue[a] != queue[b]
    {
      assert steps[..i + 1] == steps[..i] + [steps[i]];
      assert steps[i].id !in Ids(steps[..i]);
      if inDegree[steps[i].id] == 0 {
        queue := queue + [steps[i].id];
      }
    }
    assert steps[..|steps|] == steps;
  }

  /**
   The second half of detect_cycles. The loop visits a closed set of steps and stays inside
   every closed set, so what it visits is exactly the resolvable steps.
   */
  method Drain(initial: seq<Id>, t: Tables, ghost ids: set<Id>, ghost g: Arrows,
               ghost named: map<Id, seq<Id>>, ghost good: set<Id>)
    returns (visited: nat, inDegree: map<Id, int>, ghost finished: set<Id>)
    requires Mirrors(t, ids, named) && NamesArrows(ids, g, named) && Closed(ids, g, good)
    requires forall x :: x in initial <==> x in t.inDegree && t.inDegree[x] == 0
    requires forall a, b :: 0 <= a < b < |initial| ==> initial[a] != initial[b]
    ensures visited == |finished| && inDegree.Keys == ids
    ensures finished <= good && Closed(ids, g, finished)
    ensures (set x | x in inDegree && inDegree[x] > 0) == ids - finished
  {
    inDegree := t.inDegree;
    var queue := initial;
    StartDraining(ids, g, named, inDegree, queue, good);
    finished := {};
    visited := 0;
    while queue != []
      invariant Draining(ids, named, inDegree, queue, finished, [], good)
      invariant visited == |finished|
      decreases ids - finished
    {
      var node := queue[0];
      VisitHead(ids, named, inDegree, queue, finished, t.adjacency[node], good);
      finished := finished + {node};
      visited := visited + 1;
      inDegree, queue := CrossArrows(t.adjacency[node], inDegree, queue[1..], ids, g, named, finished, good);
    }
    EndDraining(ids, g, named, inDegree, finished, good);
  }

  /** The inner loop: every step waiting for the visited node loses one missing source. */
  method CrossArrows(waiting: seq<Id>, inDegree: map<Id, int>, queue: seq<Id>,
                     ghost ids: set<Id>, ghost g: Arrows, ghost named: map<Id, seq<Id>>,
                     ghost finished: set<Id>, ghost good: set<Id>)
    returns (inDegree': map<Id, int>, queue': seq<Id>)
    requires NamesArrows(ids, g, named) && Closed(ids, g, good)
    requires Draining(ids, named, inDegree, queue, finished, waiting, good)
    requires forall i :: 0 <= i < |waiting| ==> waiting[i] in ids
    ensures Draining(ids, named, inDegree', queue', finished, [], good)
  {
    inDegree', queue' := inDegree, queue;
    for i := 0 to |waiting|
      invariant Draining(ids, named, inDegree', queue', finished, waiting[i..], good)
    {
      var neighbor := waiting[i];
      CrossArrow(ids, g, named, inDegree', queue', finished, waiting[i..], good);
      assert waiting[i..][1..] == waiting[i + 1..];
      inDegree' := inDegree'[neighbor := inDegree'[neighbor] - 1];
      if inDegree'[neighbor] == 0 {
        queue' := queue' + [neighbor];
      }
    }
  }

  lemma StartDraining(ids: set<Id>, g: Arrows, named: map<Id, seq<Id>>, inDegree: map<Id, int>,
                      queue: seq<Id>, good: set<Id>)
    requires NamesArrows(ids, g, named) && Closed(ids, g, good) && inDegree.Keys == ids
    requires forall x :: x in ids ==> inDegree[x] == |named[x]|
    requires forall x :: x in queue <==> x in ids && inDegree[x] == 0
    requires forall a, b :: 0 <= a < b < |queue| ==> queue[a] != queue[b]
    ensures Draining(ids, named, inDegree, queue, {}, [], good)
  {
    forall x | x in ids ensures Missing(named[x], {}) == |named[x]| {
      MissingAtStart(named[x]);
    }
    forall x | x in queue ensures x in good {
      assert named[x] == [];
      assert Met(g, x, good);
    }
  }

  lemma EndDraining(ids: set<Id>, g: Arrows, named: map<Id, seq<Id>>, inDegree: map<Id, int>,
                    finished: set<Id>, good: set<Id>)
    requires NamesArrows(ids, g, named) && Draining(ids, named, inDegree, [], finished, [], good)
    ensures Closed(ids, g, finished)
    ensures (set x | x in inDegree && inDegree[x] > 0) == ids - finished
  {
    forall x | x in ids && Met(g, x, finished) ensures x in finished {
      MissingIsZero(named[x], finished);
    }
  }

  lemma StuckIsDownstream(ids: set<Id>, g: Arrows, x: Id)
    requires SourcesKnown(ids, g) && x in ids
    ensures x !in Resolvable(ids, g) <==> DownstreamOfCycle(g, x)
  {
    UnresolvedIffBlocked(ids, g, x);
    if Blocked(ids, g, x) {
      var y :| Reaches(g, x, y) && (y !in ids || OnCycle(g, y));
      WalksStayKnown(ids, g, x, y);
    }
  }

  /** The steps left over are those on a cycle or waiting for one; none are left iff there is no cycle. */
  lemma LeftOverIsDownstream(ids: set<Id>, g: Arrows, finished: set<Id>)
    requires SourcesKnown(ids, g) && forall p :: p in g ==> p.0 in ids
    requires finished <= Resolvable(ids, g) && Closed(ids, g, finished)
    ensures finished == ids <==> Acyclic(g)
    ensures |finished| == |ids| <==> finished == ids
    ensures finished != ids ==> ListsDownstream(ids, g, ids - finished)
  {
    ResolvableIsLeast(ids, g, finished, |ids|);
    ResolvableWithin(ids, g);
    AllResolveIffAcyclic(ids, g);
    if finished != ids {
      SmallerSubset(finished, ids);
      NonEmptyRest(finished, ids);
    }
    forall x | x in ids ensures x !in finished <==> DownstreamOfCycle(g, x) {
      StuckIsDownstream(ids, g, x);
    }
  }

  lemma NonEmptyRest<T>(a: set<T>, b: set<T>)
    requires a < b
    ensures b - a != {}
  {
    var x :| x in b && x !in a;
    assert x in b - a;
  }

  lemma AllKnownIsSourcesKnown(steps: seq<Step>)
    requires KnownUpTo(steps, |steps|)
    ensures SourcesKnown(Ids(steps), Dependencies(steps))
  {
    var ids := Ids(steps);
    forall p | p in Dependencies(steps) ensures p.1 in ids {
      var s, d :| s in steps && d in s.Sources() && p == (s.id, d);
      var k :| 0 <= k < |steps| && steps[k] == s;
      assert AllKnown(steps[k].Sources(), ids);
    }
  }

  lemma UnknownFound(steps: seq<Step>, i: nat, j: nat)
    requires FirstUnknown(steps, i, j)
    ensures NamesFirstUnknown(steps, UnknownDependency(steps[i].id, steps[i].Sources()[j]))
    ensures !SourcesKnown(Ids(steps), Dependencies(steps))
  {
    var d := steps[i].Sources()[j];
    assert steps[i] in steps && d in steps[i].Sources();
    assert (steps[i].id, d) in Dependencies(steps);
    assert (steps[i].id, d).1 !in Ids(steps);
  }

  /**
   Accepts exactly the definitions whose sources are all known and whose graph has no
   cycle; otherwise names the first unknown source, or exactly the steps that are on a
   cycle or wait for one.
   */
  method DetectCycles(steps: seq<Step>) returns (r: Result<(), Rejection>)
    requires UniqueIds(steps)
    ensures r.Ok? <==> SourcesKnown(Ids(steps), Dependencies(steps)) && Acyclic(Dependencies(steps))
    ensures r.Err? && r.error.UnknownDependency? <==> !SourcesKnown(Ids(steps), Dependencies(steps))
    ensures r.Err? && r.error.UnknownDependency? ==> NamesFirstUnknown(steps, r.error)
    ensures r.Err? && r.error.CycleDetected? ==>
              ListsDownstream(Ids(steps), Dependencies(steps), r.error.unresolved)
  {
    ghost var ids, g := Ids(steps), Dependencies(steps);
    var tables, named := BuildTables(steps);
    if tables.Err? {
      return Err(tables.error);
    }
    ArrowsStartAtSteps(steps);
    UniqueIdsCount(steps);
    ResolvableIsClosed(ids, g);
    var queue := InitialQueue(steps, tables.value.inDegree);
    var visited, inDegree, finished := Drain(queue, tables.value, ids, g, named, Resolvable(ids, g));
    LeftOverIsDownstream(ids, g, finished);
    if visited != |steps| {
      return Err(CycleDetected(set x | x in inDegree && inDegree[x] > 0));
    }
    return Ok(());
  }
}

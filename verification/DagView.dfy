/** dag.build_dag and the longest-path layering of DagGraph.tsx. */
module DagView {
  import opened Wrappers
  import opened Graphs
  import opened Definitions
  import opened Books

  datatype EdgeType = DependencyEdge | ConditionalEdge

  datatype Edge = Edge(source: Id, target: Id, kind: EdgeType)

  datatype Node = Node(id: Id, task: string, status: Status, conditional: bool, retries: nat)

  datatype Dag = Dag(nodes: seq<Node>, edges: seq<Edge>)

  // ----- Projecting a workflow -----

  function NodeOf(s: Step, statuses: map<Id, Status>): Node {
    Node(s.id, s.task, if s.id in statuses then statuses[s.id] else Pending, s.condition.Some?, s.retries)
  }

  function DependencyEdges(x: Id, declared: seq<Id>): seq<Edge> {
    seq(|declared|, i requires 0 <= i < |declared| => Edge(declared[i], x, DependencyEdge))
  }

  function EdgesOf(s: Step): seq<Edge> {
    DependencyEdges(s.id, s.Declared())
    + if s.condition.Some? then [Edge(s.condition.value.source, s.id, ConditionalEdge)] else []
  }

  function AllEdges(steps: seq<Step>): seq<Edge> {
    if steps == [] then [] else AllEdges(steps[..|steps| - 1]) + EdgesOf(steps[|steps| - 1])
  }

  /** How many edges the definition calls for: one per entry of depends_on, and one per condition. */
  ghost function EdgeCount(steps: seq<Step>): nat {
    if steps == [] then 0 else
    var last := steps[|steps| - 1];
    EdgeCount(steps[..|steps| - 1])
    + (if last.dependsOn.Some? then |last.dependsOn.value| else 0) + (if last.condition.Some? then 1 else 0)
  }

  ghost predicate EdgeAt(edges: seq<Edge>, k: int, e: Edge) {
    0 <= k < |edges| && edges[k] == e
  }

  lemma {:induction false} EdgesCounted(steps: seq<Step>)
    ensures |AllEdges(steps)| == EdgeCount(steps)
  {
    if steps != [] {
      EdgesCounted(steps[..|steps| - 1]);
    }
  }

  lemma LastEdges(steps: seq<Step>)
    requires steps != []
    ensures AllEdges(steps) == AllEdges(steps[..|steps| - 1]) + EdgesOf(steps[|steps| - 1])
  {
  }

  /** The edges of step i follow those of the steps before it. */
  lemma {:induction false} StepEdges(steps: seq<Step>, i: nat)
    requires i < |steps|
    ensures var low, high := EdgeCount(steps[..i]), EdgeCount(steps[..i + 1]);
            low <= high <= |AllEdges(steps)| && AllEdges(steps)[low..high] == EdgesOf(steps[i])
  {
    hide AllEdges, EdgeCount, EdgesOf;
    var rest, last := steps[..|steps| - 1], steps[|steps| - 1];
    EdgesCounted(steps);
    EdgesCounted(rest);
    LastEdges(steps);
    if i == |steps| - 1 {
      assert steps[..i + 1] == steps;
    } else {
      assert rest[..i] == steps[..i] && rest[..i + 1] == steps[..i + 1];
      StepEdges(rest, i);
    }
  }

  /** A step's edges: one per entry of depends_on, in order, then one for its condition. */
  lemma EdgesOfStep(s: Step)
    ensures s.dependsOn.Some? ==> |EdgesOf(s)| >= |s.dependsOn.value|
    ensures s.dependsOn.Some? ==> forall j :: 0 <= j < |s.dependsOn.value| ==>
              EdgesOf(s)[j] == Edge(s.dependsOn.value[j], s.id, DependencyEdge)
    ensures s.condition.Some? ==>
              && |EdgesOf(s)| > 0
              && EdgesOf(s)[|EdgesOf(s)| - 1] == Edge(s.condition.value.source, s.id, ConditionalEdge)
  {
  }

  /** The edges stand in the order of the steps; a step's dependencies come first, its condition last. */
  lemma EdgesInOrder(steps: seq<Step>)
    ensures |AllEdges(steps)| == EdgeCount(steps)
    ensures forall i, j: nat :: 0 <= i < |steps| && steps[i].dependsOn.Some? && j < |steps[i].dependsOn.value| ==>
              EdgeAt(AllEdges(steps), EdgeCount(steps[..i]) + j,
                     Edge(steps[i].dependsOn.value[j], steps[i].id, DependencyEdge))
    ensures forall i :: 0 <= i < |steps| && steps[i].condition.Some? ==>
              EdgeAt(AllEdges(steps), EdgeCount(steps[..i + 1]) - 1,
                     Edge(steps[i].condition.value.source, steps[i].id, ConditionalEdge))
  {
    hide AllEdges, EdgeCount, EdgesOf;
    EdgesCounted(steps);
    forall i | 0 <= i < |steps|
      ensures steps[i].dependsOn.Some? ==> forall j: nat :: j < |steps[i].dependsOn.value| ==>
                EdgeAt(AllEdges(steps), EdgeCount(steps[..i]) + j,
                       Edge(steps[i].dependsOn.value[j], steps[i].id, DependencyEdge))
      ensures steps[i].condition.Some? ==>
                EdgeAt(AllEdges(steps), EdgeCount(steps[..i + 1]) - 1,
                       Edge(steps[i].condition.value.source, steps[i].id, ConditionalEdge))
    {
      StepEdges(steps, i);
      EdgesOfStep(steps[i]);
      var low, high := EdgeCount(steps[..i]), EdgeCount(steps[..i + 1]);
      forall k | 0 <= k < high - low ensures AllEdges(steps)[low + k] == EdgesOf(steps[i])[k] {
        assert AllEdges(steps)[low..high][k] == EdgesOf(steps[i])[k];
      }
    }
  }

  method BuildDag(steps: seq<Step>, statuses: map<Id, Status>) returns (dag: Dag)
    ensures |dag.nodes| == |steps| && forall i :: 0 <= i < |steps| ==> dag.nodes[i] == NodeOf(steps[i], statuses)
    ensures forall i :: 0 <= i < |steps| ==>
              var s, n := steps[i], dag.nodes[i];
              && n.id == s.id && n.task == s.task && n.retries == s.retries
              && (n.conditional <==> s.condition != None)
              && (s.id in statuses ==> n.status == statuses[s.id]) && (s.id !in statuses ==> n.status == Pending)
    ensures dag.edges == AllEdges(steps) && |dag.edges| == EdgeCount(steps)
    ensures forall i, j: nat :: 0 <= i < |steps| && steps[i].dependsOn.Some? && j < |steps[i].dependsOn.value| ==>
              EdgeAt(dag.edges, EdgeCount(steps[..i]) + j,
                     Edge(steps[i].dependsOn.value[j], steps[i].id, DependencyEdge))
    ensures forall i :: 0 <= i < |steps| && steps[i].condition.Some? ==>
              EdgeAt(dag.edges, EdgeCount(steps[..i + 1]) - 1,
                     Edge(steps[i].condition.value.source, steps[i].id, ConditionalEdge))
  {
    hide AllEdges, EdgesOf, DependencyEdges, NodeOf, EdgeCount, EdgeAt;
    var nodes: seq<Node>, edges: seq<Edge> := [], [];
    NoEdges();
    for i := 0 to |steps|
      invariant |nodes| == i && forall j :: 0 <= j < i ==> nodes[j] == NodeOf(steps[j], statuses)
      invariant edges == AllEdges(steps[..i])
    {
      var step := steps[i];
      assert steps[..i + 1][..i] == steps[..i];
      LastEdges(steps[..i + 1]);
      nodes := nodes + [NodeOf(step, statuses)];
      var declared := step.Declared();
      ghost var before := edges;
      NoDependencyEdges(step.id);
      for j := 0 to |declared|
        invariant edges == before + DependencyEdges(step.id, declared[..j])
      {
        OneMoreDependency(step.id, declared, j);
        edges := edges + [Edge(declared[j], step.id, DependencyEdge)];
      }
      assert declared[..|declared|] == declared;
      EdgesSplit(step);
      if step.condition.Some? {
        edges := edges + [Edge(step.condition.value.source, step.id, ConditionalEdge)];
      }
    }
    assert steps[..|steps|] == steps;
    dag := Dag(nodes, edges);
    EdgesInOrder(steps);
    forall i | 0 <= i < |steps| {
      NodeReads(steps[i], statuses);
    }
  }

  lemma NoEdges()
    ensures AllEdges([]) == []
  {
  }

  lemma NoDependencyEdges(x: Id)
    ensures DependencyEdges(x, []) == []
  {
  }

  lemma OneMoreDependency(x: Id, declared: seq<Id>, j: nat)
    requires j < |declared|
    ensures DependencyEdges(x, declared[..j + 1]) ==
            DependencyEdges(x, declared[..j]) + [Edge(declared[j], x, DependencyEdge)]
  {
  }

  lemma EdgesSplit(s: Step)
    ensures EdgesOf(s) ==
            DependencyEdges(s.id, s.Declared())
            + if s.condition.Some? then [Edge(s.condition.value.source, s.id, ConditionalEdge)] else []
  {
  }

  /** What a node says about its step. */
  lemma NodeReads(s: Step, statuses: map<Id, Status>)
    ensures var n := NodeOf(s, statuses);
            && n.id == s.id && n.task == s.task && n.retries == s.retries
            && (n.conditional <==> s.condition != None)
            && (s.id in statuses ==> n.status == statuses[s.id]) && (s.id !in statuses ==> n.status == Pending)
  {
  }

  /** The arrows that edges draw: an edge from y to x means that x waits for y. */
  ghost function ArrowsOf(edges: seq<Edge>): Arrows {
    set e | e in edges :: (e.target, e.source)
  }

  lemma StepArrows(s: Step, p: (Id, Id))
    ensures p in ArrowsOf(EdgesOf(s)) <==> p.0 == s.id && p.1 in s.Sources()
  {
    var edges, n := EdgesOf(s), |s.Declared()|;
    if p.0 == s.id && p.1 in s.Sources() {
      if p.1 in s.Declared() {
        var i :| 0 <= i < n && s.Declared()[i] == p.1;
        assert edges[i] == Edge(p.1, p.0, DependencyEdge);
      } else {
        assert edges[n] == Edge(p.1, p.0, ConditionalEdge);
      }
    }
  }

  /** The drawn edges are the dependency graph that validation and the schedulers use. */
  lemma {:induction false} EdgesAreDependencies(steps: seq<Step>)
    ensures ArrowsOf(AllEdges(steps)) == Dependencies(steps)
  {
    if steps != [] {
      var rest, last := steps[..|steps| - 1], steps[|steps| - 1];
      EdgesAreDependencies(rest);
      assert steps == rest + [last];
      forall p ensures p in ArrowsOf(AllEdges(steps)) <==> p in Dependencies(steps) {
        StepArrows(last, p);
        ArrowsOfBoth(AllEdges(rest), EdgesOf(last), p);
        DependenciesOfBoth(rest, last, p);
      }
    }
  }

  lemma ArrowsOfBoth(a: seq<Edge>, b: seq<Edge>, p: (Id, Id))
    ensures p in ArrowsOf(a + b) <==> p in ArrowsOf(a) || p in ArrowsOf(b)
  {
  }

  lemma DependenciesOfBoth(rest: seq<Step>, last: Step, p: (Id, Id))
    ensures p in Dependencies(rest + [last]) <==> p in Dependencies(rest) || (p.0 == last.id && p.1 in last.Sources())
  {
    if p.0 == last.id && p.1 in last.Sources() {
      assert last in rest + [last];
    }
  }

  // ----- Longest-path layering -----

  ghost function NodeIds(nodes: seq<Node>): set<Id> {
    set n | n in nodes :: n.id
  }

  /** The arrows between nodes that exist; the others are skipped by the relaxation. */
  ghost function Drawn(dag: Dag): Arrows {
    set p | p in ArrowsOf(dag.edges) && p.0 in NodeIds(dag.nodes) && p.1 in NodeIds(dag.nodes)
  }

  /** Some walk from x has this many nodes after x. */
  ghost predicate Witnessed(g: Arrows, x: Id, level: nat) {
    exists w :: Walk(g, w) && w[0] == x && |w| == level + 1
  }

  ghost predicate AllWitnessed(g: Arrows, level: map<Id, nat>) {
    forall x {:trigger level[x]} :: x in level ==> Witnessed(g, x, level[x])
  }

  /** Every walk of at most r + 1 nodes is already counted in the level of its first node. */
  ghost predicate Counted(g: Arrows, level: map<Id, nat>, r: nat) {
    forall w :: Walk(g, w) && w[0] in level && |w| <= r + 1 ==> level[w[0]] >= |w| - 1
  }

  ghost predicate Relaxed(level: map<Id, nat>, e: Edge) {
    e.source in level && e.target in level ==> level[e.target] >= level[e.source] + 1
  }

  /** e has been relaxed against the levels at the start of the pass. */
  ghost predicate CaughtUp(start: map<Id, nat>, level: map<Id, nat>, e: Edge) {
    e.source in start && e.target in level ==> level[e.target] >= start[e.source] + 1
  }

  ghost predicate Raised(before: map<Id, nat>, after: map<Id, nat>) {
    before.Keys == after.Keys && forall x {:trigger after[x]} :: x in after ==> before[x] <= after[x]
  }

  /** The level of x is the exact length of the longest path that ends in x. */
  ghost predicate LongestPaths(g: Arrows, level: map<Id, nat>) {
    && AllWitnessed(g, level)
    && forall w :: Walk(g, w) && w[0] in level ==> level[w[0]] >= |w| - 1
  }

  lemma RaiseOne(dag: Dag, level: map<Id, nat>, e: Edge)
    requires level.Keys == NodeIds(dag.nodes) && AllWitnessed(Drawn(dag), level) && e in dag.edges
    requires e.source in level && e.target in level
    ensures AllWitnessed(Drawn(dag), level[e.target := level[e.source] + 1])
  {
    var g := Drawn(dag);
    assert Witnessed(g, e.source, level[e.source]);
    var w :| Walk(g, w) && w[0] == e.source && |w| == level[e.source] + 1;
    assert (e.target, e.source) in ArrowsOf(dag.edges);
    WalkJoin(g, [e.target], w);
    assert ([e.target] + w)[0] == e.target;
    assert Witnessed(g, e.target, level[e.source] + 1);
  }

  /** One pass over all edges: levels only rise, and no edge is left behind the levels before the pass. */
  method Pass(dag: Dag, start: map<Id, nat>) returns (level: map<Id, nat>, changed: bool)
    requires start.Keys == NodeIds(dag.nodes) && AllWitnessed(Drawn(dag), start)
    ensures Raised(start, level) && AllWitnessed(Drawn(dag), level)
    ensures forall i {:trigger dag.edges[i]} :: 0 <= i < |dag.edges| ==> CaughtUp(start, level, dag.edges[i])
    ensures changed <==> level != start
  {
    hide AllWitnessed, Drawn, NodeIds;
    level, changed := start, false;
    ghost var moved: Option<Id> := None;
    for i := 0 to |dag.edges|
      invariant Raised(start, level) && AllWitnessed(Drawn(dag), level)
      invariant forall j {:trigger dag.edges[j]} :: 0 <= j < i ==> CaughtUp(start, level, dag.edges[j])
      invariant if changed then moved.Some? && moved.value in level && level[moved.value] > start[moved.value]
                else level == start
    {
      var e := dag.edges[i];
      if e.source in level && e.target in level {
        if level[e.target] < level[e.source] + 1 {
          RaiseOne(dag, level, e);
          moved := Some(e.target);
          level := level[e.target := level[e.source] + 1];
          changed := true;
        }
      }
    }
  }

  /** In a graph without cycles no walk repeats a node. */
  lemma WalksAreShort(ids: set<Id>, g: Arrows, w: seq<Id>)
    requires Acyclic(g) && Walk(g, w) && w[0] in ids && SourcesKnown(ids, g)
    ensures |w| <= |ids|
  {
    if |w| > |ids| {
      forall i | 0 <= i < |w| ensures w[i] in ids {
        if i > 0 { assert (w[i - 1], w[i]).1 in ids; }
      }
      Pigeonhole(w, ids);
      var i, j :| 0 <= i < j < |w| && w[i] == w[j];
      RepeatIsCycle(g, w, i, j);
    }
  }

  /** A pass counts walks one node longer than before. */
  lemma PassCounts(dag: Dag, start: map<Id, nat>, level: map<Id, nat>, r: nat)
    requires start.Keys == NodeIds(dag.nodes) && Counted(Drawn(dag), start, r) && Raised(start, level)
    requires forall i {:trigger dag.edges[i]} :: 0 <= i < |dag.edges| ==> CaughtUp(start, level, dag.edges[i])
    ensures Counted(Drawn(dag), level, r + 1)
  {
    var g := Drawn(dag);
    forall w | Walk(g, w) && w[0] in level && |w| <= r + 2 ensures level[w[0]] >= |w| - 1 {
      if |w| > 1 {
        assert (w[0], w[1]) in g;
        var e :| e in dag.edges && (e.target, e.source) == (w[0], w[1]);
        var i :| 0 <= i < |dag.edges| && dag.edges[i] == e;
        assert CaughtUp(start, level, dag.edges[i]);
        WalkTail(g, w, 1);
        assert w[1..][0] == w[1];
      }
    }
  }

  /** Once all walks are counted, a pass changes nothing. */
  lemma ExactLevelsStay(g: Arrows, start: map<Id, nat>, level: map<Id, nat>, r: nat)
    requires Counted(g, start, r) && Raised(start, level) && AllWitnessed(g, level)
    requires forall w :: Walk(g, w) && w[0] in start ==> |w| <= r + 1
    ensures level == start
  {
    forall x | x in level ensures level[x] == start[x] {
      assert Witnessed(g, x, level[x]);
      var w :| Walk(g, w) && w[0] == x && |w| == level[x] + 1;
    }
  }

  lemma {:induction false} RelaxedWalk(dag: Dag, level: map<Id, nat>, w: seq<Id>)
    requires level.Keys == NodeIds(dag.nodes) && forall e :: e in dag.edges ==> Relaxed(level, e)
    requires Walk(Drawn(dag), w) && w[0] in level
    ensures w[|w| - 1] in level && level[w[0]] >= level[w[|w| - 1]] + |w| - 1
  {
    if |w| > 1 {
      assert (w[0], w[1]) in Drawn(dag);
      var e :| e in dag.edges && (e.target, e.source) == (w[0], w[1]);
      assert Relaxed(level, e);
      WalkTail(Drawn(dag), w, 1);
      RelaxedWalk(dag, level, w[1..]);
    }
  }

  /** Levels that no edge can raise are exact, and exist only without cycles. */
  lemma SettledIsExact(dag: Dag, level: map<Id, nat>)
    requires level.Keys == NodeIds(dag.nodes) && AllWitnessed(Drawn(dag), level)
    requires forall i {:trigger dag.edges[i]} :: 0 <= i < |dag.edges| ==> CaughtUp(level, level, dag.edges[i])
    ensures LongestPaths(Drawn(dag), level) && Acyclic(Drawn(dag))
  {
    var g := Drawn(dag);
    forall e | e in dag.edges ensures Relaxed(level, e) {
      var i :| 0 <= i < |dag.edges| && dag.edges[i] == e;
      assert CaughtUp(level, level, dag.edges[i]);
    }
    forall w | Walk(g, w) && w[0] in level ensures level[w[0]] >= |w| - 1 {
      RelaxedWalk(dag, level, w);
    }
    forall x ensures !OnCycle(g, x) {
      if OnCycle(g, x) {
        var w :| Walk(g, w) && |w| > 1 && w[0] == x && w[|w| - 1] == x;
        assert (w[0], w[1]) in g;
        RelaxedWalk(dag, level, w);
      }
    }
  }

  /**
   computeLevels. The relaxation reaches its fixed point within the guard of n + 1 passes
   exactly when the drawn graph has no cycle, and then every level is the exact length of
   the longest path to its node. With a cycle all n + 1 passes are spent.
   */
  method ComputeLevels(dag: Dag) returns (level: map<Id, nat>, ghost settled: bool)
    ensures level.Keys == NodeIds(dag.nodes)
    ensures settled <==> Acyclic(Drawn(dag))
    ensures settled ==> LongestPaths(Drawn(dag), level)
    ensures !settled ==> AllWitnessed(Drawn(dag), level) && Counted(Drawn(dag), level, |dag.nodes| + 1)
  {
    ghost var ids, g := NodeIds(dag.nodes), Drawn(dag);
    level := map n | n in dag.nodes :: n.id := 0;
    ZeroLevels(g, level);
    NodeCount(dag.nodes);
    hide Drawn, AllWitnessed, Counted, Acyclic, Walk;
    var changed := true;
    var guard := |dag.nodes| + 1;
    while changed && guard > 0
      invariant level.Keys == ids && AllWitnessed(g, level)
      invariant 0 <= guard <= |dag.nodes| + 1
      invariant Counted(g, level, |dag.nodes| + 1 - guard)
      invariant changed && guard <= |dag.nodes| && Acyclic(g) ==> |dag.nodes| + 1 - guard < |ids|
      invariant !changed ==> LongestPaths(g, level) && Acyclic(g)
      decreases guard
    {
      guard := guard - 1;
      ghost var passes := |dag.nodes| + 1 - guard;
      var next;
      next, changed := Pass(dag, level);
      PassCounts(dag, level, next, passes - 1);
      if Acyclic(g) && passes >= |ids| {
        AllWalksAreShort(dag);
        ExactLevelsStay(g, level, next, passes - 1);
      }
      if !changed {
        SettledIsExact(dag, next);
      }
      level := next;
    }
    settled := !changed;
  }

  lemma AllWalksAreShort(dag: Dag)
    requires Acyclic(Drawn(dag))
    ensures forall w :: Walk(Drawn(dag), w) && w[0] in NodeIds(dag.nodes) ==> |w| <= |NodeIds(dag.nodes)|
  {
    forall w | Walk(Drawn(dag), w) && w[0] in NodeIds(dag.nodes) ensures |w| <= |NodeIds(dag.nodes)| {
      WalksAreShort(NodeIds(dag.nodes), Drawn(dag), w);
    }
  }

  lemma ZeroLevels(g: Arrows, level: map<Id, nat>)
    requires forall x :: x in level ==> level[x] == 0
    ensures AllWitnessed(g, level) && Counted(g, level, 0)
  {
    forall x | x in level ensures Witnessed(g, x, level[x]) {
      assert Walk(g, [x]);
    }
  }

  lemma {:induction false} NodeCount(nodes: seq<Node>)
    ensures |NodeIds(nodes)| <= |nodes|
  {
    if nodes != [] {
      var rest, last := nodes[..|nodes| - 1], nodes[|nodes| - 1];
      NodeCount(rest);
      assert nodes == rest + [last];
      assert NodeIds(nodes) == NodeIds(rest) + {last.id};
    }
  }

  /** A node is in the first k columns exactly when k rounds of the schedulers are enough for it. */
  lemma LevelsAreRounds(dag: Dag, level: map<Id, nat>, x: Id, k: nat)
    requires level.Keys == NodeIds(dag.nodes) && x in level && LongestPaths(Drawn(dag), level)
    ensures level[x] < k <==> x in Resolved(NodeIds(dag.nodes), Drawn(dag), k)
  {
    var g := Drawn(dag);
    RoundsMeasureWalks(NodeIds(dag.nodes), g, k, x);
    assert Witnessed(g, x, level[x]);
    var w :| Walk(g, w) && w[0] == x && |w| == level[x] + 1;
  }

  lemma NodesAreSteps(steps: seq<Step>, statuses: map<Id, Status>, nodes: seq<Node>)
    requires |nodes| == |steps| && forall i :: 0 <= i < |steps| ==> nodes[i] == NodeOf(steps[i], statuses)
    ensures NodeIds(nodes) == Ids(steps)
  {
    forall x ensures x in NodeIds(nodes) <==> x in Ids(steps) {
      if x in NodeIds(nodes) {
        var i :| 0 <= i < |nodes| && nodes[i].id == x;
        assert steps[i] in steps;
      }
      if x in Ids(steps) {
        var i :| 0 <= i < |steps| && steps[i].id == x;
        assert nodes[i] in nodes;
      }
    }
  }

  /** For a workflow whose sources are all known, the drawn graph is its dependency graph. */
  lemma DrawnIsDependencies(steps: seq<Step>, dag: Dag)
    requires NodeIds(dag.nodes) == Ids(steps) && dag.edges == AllEdges(steps)
    requires SourcesKnown(Ids(steps), Dependencies(steps))
    ensures Drawn(dag) == Dependencies(steps)
  {
    EdgesAreDependencies(steps);
    ArrowsStartAtSteps(steps);
  }
}

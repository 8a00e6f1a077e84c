/**
 The order in which the two schedulers of the executor take steps, and the log line by line
 that they leave. Both go through the steps in the order of the definition again and again;
 with the outcomes given, nothing about the log is left to chance.
 */
module Rounds {
  import opened Wrappers
  import opened Graphs
  import opened Definitions
  import opened Semantics
  import opened Trace

  ghost function SkipsOf(ledger: Ledger): set<Id> {
    set x | x in ledger && ledger[x].Skip?
  }

  ghost function IdList(steps: seq<Step>): seq<Id> {
    seq(|steps|, i requires 0 <= i < |steps| => steps[i].id)
  }

  // ----- One round of either scheduler -----

  /** What has ended after a sequential pass: a step that ends is seen by the steps after it. */
  ghost function Passed(steps: seq<Step>, done: set<Id>): set<Id> {
    if steps == [] then done else
    var before, s := Passed(steps[..|steps| - 1], done), steps[|steps| - 1];
    if s.Ready(before) then before + {s.id} else before
  }

  /** What a sequential pass logs. */
  ghost function PassLines(steps: seq<Step>, done: set<Id>, ledger: Ledger): seq<Line> {
    if steps == [] then [] else
    var before, s := Passed(steps[..|steps| - 1], done), steps[|steps| - 1];
    PassLines(steps[..|steps| - 1], done, ledger)
    + if s.Ready(before) && s.id !in before && s.id in ledger then LinesOf(s.id, TraceOf(ledger[s.id])) else []
  }

  /** What has ended after the scan for a layer: a step that is skipped is seen by the steps after it. */
  ghost function Scanned(steps: seq<Step>, done: set<Id>, skips: set<Id>): set<Id> {
    if steps == [] then done else
    var before, s := Scanned(steps[..|steps| - 1], done, skips), steps[|steps| - 1];
    if s.Ready(before) && s.id in skips then before + {s.id} else before
  }

  /** The layer that the scan collects. */
  ghost function Collected(steps: seq<Step>, done: set<Id>, skips: set<Id>): seq<Step> {
    if steps == [] then [] else
    var before, s := Scanned(steps[..|steps| - 1], done, skips), steps[|steps| - 1];
    Collected(steps[..|steps| - 1], done, skips)
    + if s.Ready(before) && s.id !in before && s.id !in skips then [s] else []
  }

  /** What the scan logs. */
  ghost function ScanLines(steps: seq<Step>, done: set<Id>, skips: set<Id>): seq<Line> {
    if steps == [] then [] else
    var before, s := Scanned(steps[..|steps| - 1], done, skips), steps[|steps| - 1];
    ScanLines(steps[..|steps| - 1], done, skips)
    + if s.Ready(before) && s.id !in before && s.id in skips then LinesOf(s.id, TraceOf(Skip)) else []
  }

  /** A layer starts in the order of the definition. */
  ghost function StartLines(layer: seq<Step>): seq<Line> {
    if layer == [] then [] else
    StartLines(layer[..|layer| - 1]) + LinesOf(layer[|layer| - 1].id, [Mark(StepStarted, None)])
  }

  /** And it is published in that order, however its threads interleaved. */
  ghost function EndLines(layer: seq<Step>, ledger: Ledger): seq<Line> {
    if layer == [] then [] else
    var s := layer[|layer| - 1];
    EndLines(layer[..|layer| - 1], ledger) + if s.id in ledger then LinesOf(s.id, Closing(ledger[s.id])) else []
  }

  ghost function AfterRound(parallel: bool, steps: seq<Step>, done: set<Id>, ledger: Ledger): set<Id> {
    if parallel
    then Scanned(steps, done, SkipsOf(ledger)) + Ids(Collected(steps, done, SkipsOf(ledger)))
    else Passed(steps, done)
  }

  ghost function RoundLines(parallel: bool, steps: seq<Step>, done: set<Id>, ledger: Ledger): seq<Line> {
    if parallel then
      var layer := Collected(steps, done, SkipsOf(ledger));
      ScanLines(steps, done, SkipsOf(ledger)) + StartLines(layer) + EndLines(layer, ledger)
    else
      PassLines(steps, done, ledger)
  }

  // ----- Whole runs -----

  /** What has ended after this many rounds. */
  ghost function Reached(parallel: bool, steps: seq<Step>, ledger: Ledger, rounds: nat): set<Id> {
    if rounds == 0 then {} else AfterRound(parallel, steps, Reached(parallel, steps, ledger, rounds - 1), ledger)
  }

  /** The log of the first rounds. */
  ghost function RunLines(parallel: bool, steps: seq<Step>, ledger: Ledger, rounds: nat): seq<Line> {
    if rounds == 0 then [] else
    RunLines(parallel, steps, ledger, rounds - 1)
    + RoundLines(parallel, steps, Reached(parallel, steps, ledger, rounds - 1), ledger)
  }

  /** The second ledger still has what the first one has. */
  ghost predicate Kept(a: Ledger, b: Ledger) {
    forall x :: x in a ==> x in b && a[x] == b[x]
  }

  lemma NothingLost(ledger: Ledger)
    ensures Kept(ledger, ledger)
  {
  }

  /** What was there before a layer is there after it. */
  lemma KeptApart(a: Ledger, b: Ledger, c: Ledger, layer: set<Id>)
    requires Kept(a, b) && c - layer == b
    ensures Kept(b, c) && Kept(a, c)
  {
    forall x | x in b ensures x in c && b[x] == c[x] {
      assert x in c - layer;
    }
  }

  lemma KeptOneMore(a: Ledger, b: Ledger, x: Id, o: Outcome)
    requires Kept(a, b) && x !in b
    ensures Kept(a, b[x := o])
  {
  }

  // ----- One step more of a pass or a scan -----

  lemma PassOneMore(steps: seq<Step>, i: nat, done: set<Id>, ledger: Ledger)
    requires i < |steps|
    ensures var before, s := Passed(steps[..i], done), steps[i];
            && Passed(steps[..i + 1], done) == (if s.Ready(before) then before + {s.id} else before)
            && PassLines(steps[..i + 1], done, ledger) ==
               PassLines(steps[..i], done, ledger)
               + if s.Ready(before) && s.id !in before && s.id in ledger
                 then LinesOf(s.id, TraceOf(ledger[s.id])) else []
  {
    assert steps[..i + 1][..i] == steps[..i];
  }

  lemma ScanOneMore(steps: seq<Step>, i: nat, done: set<Id>, skips: set<Id>)
    requires i < |steps|
    ensures var before, s := Scanned(steps[..i], done, skips), steps[i];
            && Scanned(steps[..i + 1], done, skips) ==
               (if s.Ready(before) && s.id in skips then before + {s.id} else before)
            && Collected(steps[..i + 1], done, skips) ==
               Collected(steps[..i], done, skips)
               + (if s.Ready(before) && s.id !in before && s.id !in skips then [s] else [])
            && ScanLines(steps[..i + 1], done, skips) ==
               ScanLines(steps[..i], done, skips)
               + if s.Ready(before) && s.id !in before && s.id in skips then LinesOf(s.id, TraceOf(Skip)) else []
  {
    assert steps[..i + 1][..i] == steps[..i];
  }

  lemma LayerOneMore(layer: seq<Step>, i: nat, ledger: Ledger)
    requires i < |layer|
    ensures StartLines(layer[..i + 1]) == StartLines(layer[..i]) + LinesOf(layer[i].id, [Mark(StepStarted, None)])
    ensures EndLines(layer[..i + 1], ledger) ==
            EndLines(layer[..i], ledger)
            + if layer[i].id in ledger then LinesOf(layer[i].id, Closing(ledger[layer[i].id])) else []
  {
    assert layer[..i + 1][..i] == layer[..i];
  }

  lemma NothingYet(done: set<Id>, ledger: Ledger, skips: set<Id>)
    ensures Passed([], done) == done == Scanned([], done, skips)
    ensures PassLines([], done, ledger) == ScanLines([], done, skips) == StartLines([]) == EndLines([], ledger) == []
    ensures Collected([], done, skips) == []
  {
  }

  // ----- Outcomes recorded later do not matter -----

  /** Nothing of what had ended is given up. */
  lemma {:induction false} PassGrows(steps: seq<Step>, done: set<Id>)
    ensures done <= Passed(steps, done)
  {
    if steps != [] {
      PassGrows(steps[..|steps| - 1], done);
    }
  }

  /** A pass that ends only recorded steps logs what their records say, whatever else is recorded. */
  lemma {:induction false} PassStable(steps: seq<Step>, done: set<Id>, a: Ledger, b: Ledger)
    requires Passed(steps, done) <= a.Keys && Kept(a, b)
    ensures PassLines(steps, done, a) == PassLines(steps, done, b)
  {
    if steps != [] {
      PassStable(steps[..|steps| - 1], done, a, b);
    }
  }

  /** Every step that the scan finds ready is skipped, or collected, or had ended. */
  lemma {:induction false} ScanStable(steps: seq<Step>, done: set<Id>, a: Ledger, b: Ledger)
    requires Scanned(steps, done, SkipsOf(a)) + Ids(Collected(steps, done, SkipsOf(a))) <= a.Keys
    requires Kept(a, b)
    ensures Scanned(steps, done, SkipsOf(a)) == Scanned(steps, done, SkipsOf(b))
    ensures Collected(steps, done, SkipsOf(a)) == Collected(steps, done, SkipsOf(b))
    ensures ScanLines(steps, done, SkipsOf(a)) == ScanLines(steps, done, SkipsOf(b))
  {
    if steps != [] {
      var n, init, s := |steps| - 1, steps[..|steps| - 1], steps[|steps| - 1];
      assert Ids(Collected(init, done, SkipsOf(a))) <= Ids(Collected(steps, done, SkipsOf(a))) by {
        assert forall t :: t in Collected(init, done, SkipsOf(a)) ==> t in Collected(steps, done, SkipsOf(a));
      }
      ScanStable(init, done, a, b);
      var before := Scanned(init, done, SkipsOf(a));
      if s.Ready(before) && s.id !in before {
        if s.id !in SkipsOf(a) {
          assert s in Collected(steps, done, SkipsOf(a));
        }
        assert s.id in a;
      }
    }
  }

  lemma {:induction false} EndsStable(layer: seq<Step>, a: Ledger, b: Ledger)
    requires Ids(layer) <= a.Keys && Kept(a, b)
    ensures EndLines(layer, a) == EndLines(layer, b)
  {
    if layer != [] {
      var init, last := layer[..|layer| - 1], layer[|layer| - 1];
      assert layer == init + [last];
      assert last in layer && last.id in Ids(layer);
      assert Ids(init) <= Ids(layer) by {
        assert forall s :: s in init ==> s in layer;
      }
      EndsStable(init, a, b);
    }
  }

  lemma RoundStable(parallel: bool, steps: seq<Step>, done: set<Id>, a: Ledger, b: Ledger)
    requires AfterRound(parallel, steps, done, a) <= a.Keys && Kept(a, b)
    ensures AfterRound(parallel, steps, done, a) == AfterRound(parallel, steps, done, b)
    ensures RoundLines(parallel, steps, done, a) == RoundLines(parallel, steps, done, b)
  {
    if parallel {
      ScanStable(steps, done, a, b);
      EndsStable(Collected(steps, done, SkipsOf(a)), a, b);
    } else {
      PassStable(steps, done, a, b);
    }
  }

  lemma {:induction false} ScanGrows(steps: seq<Step>, done: set<Id>, skips: set<Id>)
    ensures done <= Scanned(steps, done, skips)
  {
    if steps != [] {
      ScanGrows(steps[..|steps| - 1], done, skips);
    }
  }

  lemma RoundGrows(parallel: bool, steps: seq<Step>, done: set<Id>, ledger: Ledger)
    ensures done <= AfterRound(parallel, steps, done, ledger)
  {
    PassGrows(steps, done);
    ScanGrows(steps, done, SkipsOf(ledger));
  }

  /** What is recorded after some rounds does not change what these rounds did. */
  lemma {:induction false} RunStable(parallel: bool, steps: seq<Step>, a: Ledger, b: Ledger, rounds: nat)
    requires Reached(parallel, steps, a, rounds) <= a.Keys && Kept(a, b)
    ensures Reached(parallel, steps, a, rounds) == Reached(parallel, steps, b, rounds)
    ensures RunLines(parallel, steps, a, rounds) == RunLines(parallel, steps, b, rounds)
  {
    if rounds > 0 {
      var done := Reached(parallel, steps, a, rounds - 1);
      RoundGrows(parallel, steps, done, a);
      RunStable(parallel, steps, a, b, rounds - 1);
      RoundStable(parallel, steps, done, a, b);
    }
  }

  /** What was ready before a pass has ended after it. */
  lemma PassCovers(steps: seq<Step>, done: set<Id>, ledger: Ledger)
    ensures forall s :: s in steps && s.Ready(done) ==> s.id in AfterRound(false, steps, done, ledger)
  {
    forall s | s in steps && s.Ready(done) ensures s.id in Passed(steps, done) {
      PassReaches(steps, done, s);
    }
  }

  lemma {:induction false} PassReaches(steps: seq<Step>, done: set<Id>, s: Step)
    requires s in steps && s.Ready(done)
    ensures s.id in Passed(steps, done)
  {
    var init, last := steps[..|steps| - 1], steps[|steps| - 1];
    if s == last {
      PassGrows(init, done);
      ReadyGrows(s, done, Passed(init, done));
    } else {
      assert s in init;
      PassReaches(init, done, s);
    }
  }

  // ----- A pass under way -----

  /** The first i steps have been looked at, those that were ready have ended, and their lines are in the log. */
  ghost predicate PassSoFar(steps: seq<Step>, i: nat, done: set<Id>, ledger: Ledger,
                            start: seq<Event>, now: seq<Event>)
  {
    && i <= |steps| && ledger.Keys == Passed(steps[..i], done)
    && Told(start, now, PassLines(steps[..i], done, ledger))
  }

  lemma PassBegins(steps: seq<Step>, ledger: Ledger, events: seq<Event>)
    ensures PassSoFar(steps, 0, ledger.Keys, ledger, events, events)
  {
    NothingYet(ledger.Keys, ledger, {});
    NothingTold(events);
  }

  /** The next step is ready: it ends now. */
  lemma PassTakes(steps: seq<Step>, i: nat, done: set<Id>, ledger: Ledger, ledger': Ledger,
                  start: seq<Event>, before: seq<Event>, after: seq<Event>)
    requires i < |steps| && PassSoFar(steps, i, done, ledger, start, before)
    requires steps[i].Ready(ledger.Keys) && steps[i].id !in ledger
    requires steps[i].id in ledger' && ledger' == ledger[steps[i].id := ledger'[steps[i].id]]
    requires LogExtends(before, after, steps[i].id, TraceOf(ledger'[steps[i].id]))
    ensures PassSoFar(steps, i + 1, done, ledger', start, after)
  {
    hide Passed, PassLines, TraceOf, Told, Project;
    PassStable(steps[..i], done, ledger, ledger');
    PassOneMore(steps, i, done, ledger');
    ToldJoined(start, before, after, PassLines(steps[..i], done, ledger),
               LinesOf(steps[i].id, TraceOf(ledger'[steps[i].id])));
  }

  /** The next step is not ready, or has ended: nothing happens. */
  lemma PassLeaves(steps: seq<Step>, i: nat, done: set<Id>, ledger: Ledger, start: seq<Event>, now: seq<Event>)
    requires i < |steps| && PassSoFar(steps, i, done, ledger, start, now)
    requires steps[i].id in ledger || !steps[i].Ready(ledger.Keys)
    ensures PassSoFar(steps, i + 1, done, ledger, start, now)
  {
    hide Passed, PassLines;
    PassOneMore(steps, i, done, ledger);
    assert PassLines(steps[..i], done, ledger) + [] == PassLines(steps[..i], done, ledger);
  }

  lemma PassEnds(steps: seq<Step>, done: set<Id>, ledger: Ledger, start: seq<Event>, now: seq<Event>)
    requires PassSoFar(steps, |steps|, done, ledger, start, now)
    ensures ledger.Keys == AfterRound(false, steps, done, ledger)
    ensures Told(start, now, RoundLines(false, steps, done, ledger))
  {
    assert steps[..|steps|] == steps;
  }

  // ----- A scan under way -----

  /** The first i steps have been looked at, and skipped or collected if they were ready. */
  ghost predicate ScanSoFar(steps: seq<Step>, i: nat, done: set<Id>, ledger: Ledger, layer: seq<Step>,
                            start: seq<Event>, now: seq<Event>)
  {
    && i <= |steps| && ledger.Keys == Scanned(steps[..i], done, SkipsOf(ledger))
    && layer == Collected(steps[..i], done, SkipsOf(ledger))
    && Told(start, now, ScanLines(steps[..i], done, SkipsOf(ledger)))
  }

  lemma ScanBegins(steps: seq<Step>, ledger: Ledger, events: seq<Event>)
    ensures ScanSoFar(steps, 0, ledger.Keys, ledger, [], events, events)
  {
    NothingYet(ledger.Keys, ledger, SkipsOf(ledger));
    NothingTold(events);
  }

  /** Which steps are skipped matters for the steps looked at only. */
  lemma {:induction false} ScanReadsSkips(steps: seq<Step>, done: set<Id>, a: set<Id>, b: set<Id>)
    requires forall s :: s in steps ==> (s.id in a <==> s.id in b)
    ensures Scanned(steps, done, a) == Scanned(steps, done, b)
    ensures Collected(steps, done, a) == Collected(steps, done, b)
    ensures ScanLines(steps, done, a) == ScanLines(steps, done, b)
  {
    if steps != [] {
      var init, last := steps[..|steps| - 1], steps[|steps| - 1];
      assert last in steps && forall s :: s in init ==> s in steps;
      ScanReadsSkips(init, done, a, b);
    }
  }

  /** The next step is ready, but its condition does not hold: it is skipped now. */
  lemma ScanSkips(steps: seq<Step>, i: nat, done: set<Id>, ledger: Ledger, layer: seq<Step>,
                  start: seq<Event>, before: seq<Event>, after: seq<Event>)
    requires UniqueIds(steps) && i < |steps| && ScanSoFar(steps, i, done, ledger, layer, start, before)
    requires steps[i].Ready(ledger.Keys) && steps[i].id !in ledger
    requires LogExtends(before, after, steps[i].id, TraceOf(Skip))
    ensures ScanSoFar(steps, i + 1, done, ledger[steps[i].id := Skip], layer, start, after)
  {
    hide Scanned, Collected, ScanLines, TraceOf, Told, Project;
    var ledger' := ledger[steps[i].id := Skip];
    assert SkipsOf(ledger') == SkipsOf(ledger) + {steps[i].id};
    assert forall s :: s in steps[..i] ==> s.id != steps[i].id;
    ScanReadsSkips(steps[..i], done, SkipsOf(ledger), SkipsOf(ledger'));
    ScanOneMore(steps, i, done, SkipsOf(ledger'));
    ToldJoined(start, before, after, ScanLines(steps[..i], done, SkipsOf(ledger)),
               LinesOf(steps[i].id, TraceOf(Skip)));
    assert layer + [] == layer;
  }

  /** The next step is ready and will run: it joins the layer. */
  lemma ScanCollects(steps: seq<Step>, i: nat, done: set<Id>, ledger: Ledger, layer: seq<Step>,
                     start: seq<Event>, now: seq<Event>)
    requires i < |steps| && ScanSoFar(steps, i, done, ledger, layer, start, now)
    requires steps[i].Ready(ledger.Keys) && steps[i].id !in ledger
    ensures ScanSoFar(steps, i + 1, done, ledger, layer + [steps[i]], start, now)
  {
    hide Scanned, Collected, ScanLines, Told;
    ScanOneMore(steps, i, done, SkipsOf(ledger));
    assert ScanLines(steps[..i], done, SkipsOf(ledger)) + [] == ScanLines(steps[..i], done, SkipsOf(ledger));
  }

  /** The next step is not ready, or has ended: nothing happens. */
  lemma ScanLeaves(steps: seq<Step>, i: nat, done: set<Id>, ledger: Ledger, layer: seq<Step>,
                   start: seq<Event>, now: seq<Event>)
    requires i < |steps| && ScanSoFar(steps, i, done, ledger, layer, start, now)
    requires steps[i].id in ledger || !steps[i].Ready(ledger.Keys)
    ensures ScanSoFar(steps, i + 1, done, ledger, layer, start, now)
  {
    hide Scanned, Collected, ScanLines, Told;
    ScanOneMore(steps, i, done, SkipsOf(ledger));
    assert ScanLines(steps[..i], done, SkipsOf(ledger)) + [] == ScanLines(steps[..i], done, SkipsOf(ledger));
    assert layer + [] == layer;
  }

  lemma ScanEnds(steps: seq<Step>, done: set<Id>, ledger: Ledger, layer: seq<Step>,
                 start: seq<Event>, now: seq<Event>)
    requires ScanSoFar(steps, |steps|, done, ledger, layer, start, now)
    ensures ledger.Keys == Scanned(steps, done, SkipsOf(ledger))
    ensures layer == Collected(steps, done, SkipsOf(ledger))
    ensures Told(start, now, ScanLines(steps, done, SkipsOf(ledger)))
  {
    assert steps[..|steps|] == steps;
  }

  // ----- A layer under way -----

  lemma NothingStarted(events: seq<Event>, ledger: Ledger)
    ensures Told(events, events, StartLines([])) && Told(events, events, EndLines([], ledger))
  {
    NothingTold(events);
  }

  lemma OneStartTold(layer: seq<Step>, i: nat, start: seq<Event>, before: seq<Event>, after: seq<Event>)
    requires i < |layer| && Told(start, before, StartLines(layer[..i]))
    requires LogExtends(before, after, layer[i].id, [Mark(StepStarted, None)])
    ensures Told(start, after, StartLines(layer[..i + 1]))
  {
    hide StartLines, EndLines, Told, Project;
    LayerOneMore(layer, i, map[]);
    ToldJoined(start, before, after, StartLines(layer[..i]), LinesOf(layer[i].id, [Mark(StepStarted, None)]));
  }

  lemma OneEndTold(layer: seq<Step>, i: nat, ledger: Ledger, start: seq<Event>, closed: seq<Event>,
                   retried: seq<Event>, after: seq<Event>)
    requires i < |layer| && layer[i].id in ledger && Told(start, closed, EndLines(layer[..i], ledger))
    requires LogExtends(closed, retried, layer[i].id, Retries(RetryEvents(ledger[layer[i].id])))
    requires LogExtends(retried, after, layer[i].id, EndMarks(ledger[layer[i].id]))
    ensures Told(start, after, EndLines(layer[..i + 1], ledger))
  {
    hide StartLines, EndLines, Told, Project, Retries, EndMarks, RetryEvents;
    var x := layer[i].id;
    LayerOneMore(layer, i, ledger);
    LogJoined(closed, retried, after, x, Retries(RetryEvents(ledger[x])), EndMarks(ledger[x]));
    ToldJoined(start, closed, after, EndLines(layer[..i], ledger), LinesOf(x, Closing(ledger[x])));
  }

  /** An empty layer. */
  lemma NoLayer(ledger: Ledger, events: seq<Event>)
    ensures Told(events, events, StartLines([]) + EndLines([], ledger)) && NoneSkipped(ledger, Ids([]))
    ensures Ids([]) == {}
  {
    NothingTold(events);
  }

  /** After the scan, the layer: it completes the round. */
  lemma LayerCompletes(steps: seq<Step>, done: set<Id>, ledger: Ledger, layer: seq<Step>, ledger': Ledger,
                       start: seq<Event>, scanned: seq<Event>, after: seq<Event>)
    requires ledger.Keys == Scanned(steps, done, SkipsOf(ledger)) && layer == Collected(steps, done, SkipsOf(ledger))
    requires Told(start, scanned, ScanLines(steps, done, SkipsOf(ledger)))
    requires Told(scanned, after, StartLines(layer) + EndLines(layer, ledger'))
    requires ledger'.Keys == ledger.Keys + Ids(layer) && ledger' - Ids(layer) == ledger
    requires NoneSkipped(ledger', Ids(layer))
    ensures ledger'.Keys == AfterRound(true, steps, done, ledger')
    ensures Told(start, after, RoundLines(true, steps, done, ledger'))
  {
    hide Scanned, Collected, ScanLines, StartLines, EndLines, Told;
    assert SkipsOf(ledger') == SkipsOf(ledger) by {
      forall x ensures x in SkipsOf(ledger') <==> x in SkipsOf(ledger) {
        assert x in ledger' - Ids(layer) <==> x in ledger;
      }
    }
    ToldJoined(start, scanned, after, ScanLines(steps, done, SkipsOf(ledger)),
               StartLines(layer) + EndLines(layer, ledger'));
    assert ScanLines(steps, done, SkipsOf(ledger)) + (StartLines(layer) + EndLines(layer, ledger'))
        == ScanLines(steps, done, SkipsOf(ledger)) + StartLines(layer) + EndLines(layer, ledger');
  }

  // ----- Rounds under way -----

  /** After some rounds: who has ended, and what the log has to say. */
  ghost predicate RunSoFar(parallel: bool, steps: seq<Step>, ledger: Ledger, rounds: nat,
                           start: seq<Event>, now: seq<Event>)
  {
    ledger.Keys == Reached(parallel, steps, ledger, rounds)
    && Told(start, now, RunLines(parallel, steps, ledger, rounds))
  }

  lemma RunBegins(parallel: bool, steps: seq<Step>, ledger: Ledger, events: seq<Event>)
    requires ledger == map[]
    ensures RunSoFar(parallel, steps, ledger, 0, events, events)
  {
    NothingTold(events);
  }

  lemma RunGoesOn(parallel: bool, steps: seq<Step>, ledger: Ledger, ledger': Ledger, rounds: nat,
                  start: seq<Event>, before: seq<Event>, after: seq<Event>)
    requires RunSoFar(parallel, steps, ledger, rounds, start, before) && Kept(ledger, ledger')
    requires ledger'.Keys == AfterRound(parallel, steps, ledger.Keys, ledger')
    requires Told(before, after, RoundLines(parallel, steps, ledger.Keys, ledger'))
    ensures RunSoFar(parallel, steps, ledger', rounds + 1, start, after)
  {
    hide AfterRound, RoundLines, Told, Kept;
    RunStable(parallel, steps, ledger, ledger', rounds);
    ToldJoined(start, before, after, RunLines(parallel, steps, ledger, rounds),
               RoundLines(parallel, steps, ledger.Keys, ledger'));
  }

  // ----- Once everything that can end has ended -----

  /** Every step that is ready has ended. */
  ghost predicate NothingReady(steps: seq<Step>, done: set<Id>) {
    forall s :: s in steps && s.Ready(done) ==> s.id in done
  }

  /** A further round of either scheduler then does nothing. */
  lemma {:induction false} IdleRound(steps: seq<Step>, done: set<Id>, ledger: Ledger, skips: set<Id>)
    requires NothingReady(steps, done)
    ensures Passed(steps, done) == done == Scanned(steps, done, skips)
    ensures PassLines(steps, done, ledger) == ScanLines(steps, done, skips) == []
    ensures Collected(steps, done, skips) == []
  {
    hide Passed, PassLines, Scanned, Collected, ScanLines;
    if steps == [] {
      NothingYet(done, ledger, skips);
    } else {
      var n, init, last := |steps| - 1, steps[..|steps| - 1], steps[|steps| - 1];
      assert last in steps && forall s :: s in init ==> s in steps;
      IdleRound(init, done, ledger, skips);
      PassOneMore(steps, n, done, ledger);
      ScanOneMore(steps, n, done, skips);
      assert steps[..n + 1] == steps && (last.Ready(done) ==> done + {last.id} == done);
    }
  }

  /** So it does not matter how many rounds more one counts. */
  lemma {:induction false} IdleRounds(parallel: bool, steps: seq<Step>, ledger: Ledger, rounds: nat, more: nat)
    requires NothingReady(steps, Reached(parallel, steps, ledger, rounds))
    ensures Reached(parallel, steps, ledger, rounds + more) == Reached(parallel, steps, ledger, rounds)
    ensures RunLines(parallel, steps, ledger, rounds + more) == RunLines(parallel, steps, ledger, rounds)
  {
    if more > 0 {
      IdleRounds(parallel, steps, ledger, rounds, more - 1);
      IdleRound(steps, Reached(parallel, steps, ledger, rounds), ledger, SkipsOf(ledger));
      assert StartLines([]) == EndLines([], ledger) == [];
    }
  }

  /** Two runs that end with the same outcomes, having left no step ready, logged the same lines. */
  lemma SameLines(parallel: bool, steps: seq<Step>, ledger: Ledger, a: nat, b: nat)
    requires NothingReady(steps, Reached(parallel, steps, ledger, a))
    requires NothingReady(steps, Reached(parallel, steps, ledger, b))
    ensures RunLines(parallel, steps, ledger, a) == RunLines(parallel, steps, ledger, b)
  {
    if a <= b {
      IdleRounds(parallel, steps, ledger, a, b - a);
    } else {
      IdleRounds(parallel, steps, ledger, b, a - b);
    }
  }
}

/**
 A dependency graph is a set of arrows: (x, y) in g says that x waits for y.

 Resolved(ids, g, k) holds the nodes that k rounds of "run whatever has all its
 sources done" reach. Everything that looks at a workflow graph (validation, both
 schedulers, the column layout) is compared with this one definition, and the lemmas
 here say what it means in terms of walks and cycles.
 */
module Graphs {

  /** Step ids are only ever compared for equality. */
  type Id(==, !new)

  type Arrows = set<(Id, Id)>

  /** Every source of x lies in done. */
  ghost predicate Met(g: Arrows, x: Id, done: set<Id>) {
    forall y :: (x, y) in g ==> y in done
  }

  ghost function Resolved(ids: set<Id>, g: Arrows, k: nat): set<Id> {
    if k == 0 then {} else set x | x in ids && Met(g, x, Resolved(ids, g, k - 1))
  }

  /** The nodes some number of rounds resolves; |ids| rounds are always enough. */
  ghost function Resolvable(ids: set<Id>, g: Arrows): set<Id> {
    Resolved(ids, g, |ids|)
  }

  /** w[0] waits for w[1], which waits for w[2], and so on. */
  ghost predicate Walk(g: Arrows, w: seq<Id>) {
    |w| > 0 && forall i :: 0 <= i < |w| - 1 ==> (w[i], w[i + 1]) in g
  }

  /** a is b, or waits for b directly or through other nodes. */
  ghost predicate Reaches(g: Arrows, a: Id, b: Id) {
    exists w :: Walk(g, w) && w[0] == a && w[|w| - 1] == b
  }

  ghost predicate OnCycle(g: Arrows, x: Id) {
    exists w :: Walk(g, w) && |w| > 1 && w[0] == x && w[|w| - 1] == x
  }

  ghost predicate Acyclic(g: Arrows) {
    forall x :: !OnCycle(g, x)
  }

  ghost predicate SourcesKnown(ids: set<Id>, g: Arrows) {
    forall p :: p in g ==> p.1 in ids
  }

  // ----- Rounds -----

  lemma {:induction false} ResolvedGrows(ids: set<Id>, g: Arrows, j: nat, k: nat)
    requires j <= k
    ensures Resolved(ids, g, j) <= Resolved(ids, g, k) <= ids
  {
    if j > 0 {
      ResolvedGrows(ids, g, j - 1, k - 1);
    }
  }

  /** Each round either adds a node or leaves every later round unchanged. */
  lemma {:induction false} RoundsSettle(ids: set<Id>, g: Arrows, k: nat)
    ensures |Resolved(ids, g, k)| >= k || Resolved(ids, g, k) == Resolved(ids, g, k + 1)
  {
    if k > 0 {
      RoundsSettle(ids, g, k - 1);
      var before, after := Resolved(ids, g, k - 1), Resolved(ids, g, k);
      ResolvedGrows(ids, g, k - 1, k);
      if before != after {
        SmallerSubset(before, after);
      }
    }
  }

  lemma SmallerSubset<T>(a: set<T>, b: set<T>)
    requires a < b
    ensures |a| < |b|
  {
    var x :| x in b && x !in a;
    SubsetSize(a + {x}, b);
  }

  lemma {:induction false} SubsetSize<T>(a: set<T>, b: set<T>)
    requires a <= b
    ensures |a| <= |b|
  {
    if a != {} {
      var x :| x in a;
      SubsetSize(a - {x}, b - {x});
    }
  }

  lemma ResolvableWithin(ids: set<Id>, g: Arrows)
    ensures Resolvable(ids, g) <= ids
  {
    ResolvedGrows(ids, g, 0, |ids|);
  }

  /** One more round after |ids| rounds adds nothing. */
  lemma ResolvableSettled(ids: set<Id>, g: Arrows)
    ensures Resolvable(ids, g) == Resolved(ids, g, |ids| + 1)
  {
    var n := |ids|;
    ResolvedGrows(ids, g, n, n + 1);
    RoundsSettle(ids, g, n);
    if |Resolved(ids, g, n)| >= n && Resolved(ids, g, n) != ids {
      SmallerSubset(Resolved(ids, g, n), ids);
    }
  }

  /** A node is resolvable exactly when it is known and all its sources are resolvable. */
  lemma ResolvableIsFixed(ids: set<Id>, g: Arrows, x: Id)
    ensures x in Resolvable(ids, g) <==> x in ids && Met(g, x, Resolvable(ids, g))
  {
    ResolvableSettled(ids, g);
  }

  lemma {:induction false} RoundsStayResolvable(ids: set<Id>, g: Arrows, k: nat)
    ensures Resolved(ids, g, k) <= Resolvable(ids, g)
  {
    if k > 0 {
      RoundsStayResolvable(ids, g, k - 1);
      ResolvableSettled(ids, g);
    }
  }

  ghost predicate Closed(ids: set<Id>, g: Arrows, done: set<Id>) {
    forall x :: x in ids && Met(g, x, done) ==> x in done
  }

  /** The resolvable nodes are the least set closed under "all sources inside". */
  lemma {:induction false} ResolvableIsLeast(ids: set<Id>, g: Arrows, closed: set<Id>, k: nat)
    requires Closed(ids, g, closed)
    ensures Resolved(ids, g, k) <= closed
  {
    if k > 0 {
      ResolvableIsLeast(ids, g, closed, k - 1);
      forall x | x in Resolved(ids, g, k) ensures x in closed {
        assert Met(g, x, closed);
      }
    }
  }

  lemma ResolvableIsClosed(ids: set<Id>, g: Arrows)
    ensures Closed(ids, g, Resolvable(ids, g))
  {
    forall x | x in ids && Met(g, x, Resolvable(ids, g)) ensures x in Resolvable(ids, g) {
      ResolvableIsFixed(ids, g, x);
    }
  }

  // ----- Walks -----

  lemma WalkTail(g: Arrows, w: seq<Id>, i: nat)
    requires Walk(g, w) && i < |w|
    ensures Walk(g, w[i..]) && Walk(g, w[..i + 1])
  {
  }

  lemma WalkJoin(g: Arrows, a: seq<Id>, b: seq<Id>)
    requires Walk(g, a) && Walk(g, b) && (a[|a| - 1], b[0]) in g
    ensures Walk(g, a + b)
  {
    var w := a + b;
    forall i | 0 <= i < |w| - 1 ensures (w[i], w[i + 1]) in g {
      if i < |a| - 1 {
        assert (a[i], a[i + 1]) in g;
      } else if i >= |a| {
        assert (b[i - |a|], b[i - |a| + 1]) in g;
      }
    }
  }

  /** A walk from a node resolved in k rounds has at most k nodes, all of them resolved earlier. */
  lemma {:induction false} WalkDescends(ids: set<Id>, g: Arrows, k: nat, w: seq<Id>)
    requires Walk(g, w) && w[0] in Resolved(ids, g, k)
    ensures |w| <= k && w[|w| - 1] in Resolved(ids, g, k + 1 - |w|)
  {
    if |w| > 1 {
      assert (w[0], w[1]) in g;
      WalkTail(g, w, 1);
      WalkDescends(ids, g, k - 1, w[1..]);
    }
  }

  /** Rounds measure walks: x is in by round k iff no walk from it has more than k nodes. */
  lemma {:induction false} RoundsMeasureWalks(ids: set<Id>, g: Arrows, k: nat, x: Id)
    requires SourcesKnown(ids, g) && x in ids
    ensures x in Resolved(ids, g, k) <==> forall w :: Walk(g, w) && w[0] == x ==> |w| <= k
  {
    if x in Resolved(ids, g, k) {
      forall w | Walk(g, w) && w[0] == x ensures |w| <= k {
        WalkDescends(ids, g, k, w);
      }
    } else if k == 0 {
      assert Walk(g, [x]);
    } else {
      var y :| (x, y) in g && y !in Resolved(ids, g, k - 1);
      assert (x, y).1 in ids;
      RoundsMeasureWalks(ids, g, k - 1, y);
      var w :| Walk(g, w) && w[0] == y && |w| > k - 1;
      WalkJoin(g, [x], w);
      assert ([x] + w)[0] == x && |[x] + w| > k;
    }
  }

  lemma {:induction false} CyclesNeverResolve(ids: set<Id>, g: Arrows, k: nat, x: Id)
    requires OnCycle(g, x)
    ensures x !in Resolved(ids, g, k)
  {
    if x in Resolved(ids, g, k) {
      var w :| Walk(g, w) && |w| > 1 && w[0] == x && w[|w| - 1] == x;
      WalkDescends(ids, g, k, w);
      CyclesNeverResolve(ids, g, k + 1 - |w|, x);
    }
  }

  lemma {:induction false} Pigeonhole<T>(w: seq<T>, s: set<T>)
    requires |w| > |s| && forall i :: 0 <= i < |w| ==> w[i] in s
    ensures exists i, j :: 0 <= i < j < |w| && w[i] == w[j]
  {
    var last := w[|w| - 1];
    if i :| 0 <= i < |w| - 1 && w[i] == last {
    } else {
      var rest := w[..|w| - 1];
      forall i | 0 <= i < |rest| ensures rest[i] in s - {last} {
        assert w[i] in s;
      }
      Pigeonhole(rest, s - {last});
      var i, j :| 0 <= i < j < |rest| && rest[i] == rest[j];
      assert w[i] == w[j];
    }
  }

  /** From a stuck node one can keep walking to stuck sources, unless an unknown node turns up. */
  lemma {:induction false} StuckWalk(ids: set<Id>, g: Arrows, x: Id, n: nat) returns (w: seq<Id>)
    requires x !in Resolvable(ids, g)
    ensures Walk(g, w) && w[0] == x
    ensures w[|w| - 1] !in ids || |w| == n + 1
    ensures forall i :: 0 <= i < |w| - 1 ==> w[i] in ids
    decreases n
  {
    if x !in ids || n == 0 {
      w := [x];
    } else {
      ResolvableIsFixed(ids, g, x);
      var y :| (x, y) in g && y !in Resolvable(ids, g);
      var rest := StuckWalk(ids, g, y, n - 1);
      WalkJoin(g, [x], rest);
      w := [x] + rest;
      forall i | 0 <= i < |w| - 1 ensures w[i] in ids {
        if i > 0 { assert rest[i - 1] in ids; }
      }
    }
  }

  /** What blocks a node: it waits, however indirectly, for an unknown node or for a cycle. */
  ghost predicate Blocked(ids: set<Id>, g: Arrows, x: Id) {
    exists y :: Reaches(g, x, y) && (y !in ids || OnCycle(g, y))
  }

  /** The nodes no number of rounds resolves are exactly the blocked ones. */
  lemma UnresolvedIffBlocked(ids: set<Id>, g: Arrows, x: Id)
    requires x in ids
    ensures x !in Resolvable(ids, g) <==> Blocked(ids, g, x)
  {
    if Blocked(ids, g, x) && x in Resolvable(ids, g) {
      var y :| Reaches(g, x, y) && (y !in ids || OnCycle(g, y));
      var w :| Walk(g, w) && w[0] == x && w[|w| - 1] == y;
      WalkDescends(ids, g, |ids|, w);
      ResolvedGrows(ids, g, |ids| + 1 - |w|, |ids|);
      CyclesNeverResolve(ids, g, |ids|, y);
    }
    if x !in Resolvable(ids, g) {
      var w := StuckWalk(ids, g, x, |ids|);
      if w[|w| - 1] !in ids {
        assert Reaches(g, x, w[|w| - 1]);
      } else {
        Pigeonhole(w, ids);
        var i, j :| 0 <= i < j < |w| && w[i] == w[j];
        RepeatIsCycle(g, w, i, j);
      }
    }
  }

  lemma RepeatIsCycle(g: Arrows, w: seq<Id>, i: nat, j: nat)
    requires Walk(g, w) && i < j < |w| && w[i] == w[j]
    ensures Reaches(g, w[0], w[i]) && OnCycle(g, w[i])
  {
    WalkTail(g, w, i);
    var front := w[..i + 1];
    assert front[0] == w[0] && front[|front| - 1] == w[i];
    WalkTail(g, w, j);
    WalkTail(g, w[..j + 1], i);
    var loop := w[..j + 1][i..];
    assert Walk(g, loop) && |loop| > 1 && loop[0] == w[i] && loop[|loop| - 1] == w[j];
  }

  /** Every node resolves exactly when no source is unknown and there is no cycle. */
  lemma AllResolveIffAcyclic(ids: set<Id>, g: Arrows)
    requires forall p :: p in g ==> p.0 in ids
    ensures Resolvable(ids, g) == ids <==> SourcesKnown(ids, g) && Acyclic(g)
  {
    ResolvableWithin(ids, g);
    if Resolvable(ids, g) == ids {
      forall p | p in g ensures p.1 in ids {
        ResolvableIsFixed(ids, g, p.0);
        assert (p.0, p.1) in g;
      }
      forall x ensures !OnCycle(g, x) {
        if OnCycle(g, x) {
          var w :| Walk(g, w) && |w| > 1 && w[0] == x && w[|w| - 1] == x;
          assert (w[0], w[1]).0 in ids;
          CyclesNeverResolve(ids, g, |ids|, x);
        }
      }
    }
    if SourcesKnown(ids, g) && Acyclic(g) {
      forall x | x in ids ensures x in Resolvable(ids, g) {
        UnresolvedIffBlocked(ids, g, x);
        if Blocked(ids, g, x) {
          var y :| Reaches(g, x, y) && (y !in ids || OnCycle(g, y));
          WalksStayKnown(ids, g, x, y);
        }
      }
    }
  }

  lemma WalksStayKnown(ids: set<Id>, g: Arrows, x: Id, y: Id)
    requires SourcesKnown(ids, g) && x in ids && Reaches(g, x, y)
    ensures y in ids
  {
    var w :| Walk(g, w) && w[0] == x && w[|w| - 1] == y;
    if |w| > 1 {
      assert (w[|w| - 2], w[|w| - 1]).1 in ids;
    }
  }
}

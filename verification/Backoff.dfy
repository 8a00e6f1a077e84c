/** The delays between the attempts of one step: 0.5 * 2^i, capped. */
module Backoff {
  import opened Graphs
  import opened Definitions

  function Pow2(i: nat): (p: nat)
    ensures p > 0
  {
    if i == 0 then 1 else 2 * Pow2(i - 1)
  }

  /** The delay before the cap is applied: 0.5 * 2^i. */
  function Raw(i: nat): (r: real)
    ensures r > 0.0
  {
    if i == 0 then 0.5 else 2.0 * Raw(i - 1)
  }

  lemma {:induction false} RawIsPower(i: nat)
    ensures Raw(i) == 0.5 * (Pow2(i) as real)
  {
    if i > 0 {
      RawIsPower(i - 1);
    }
  }

  function Delay(i: nat, cap: real): real {
    if Raw(i) <= cap then Raw(i) else cap
  }

  /** The delays slept by a step whose first n attempts that may be retried all fail. */
  function Delays(n: nat, cap: real): seq<real> {
    if n == 0 then [] else Delays(n - 1, cap) + [Delay(n - 1, cap)]
  }

  ghost function Sum(xs: seq<real>): real {
    if xs == [] then 0.0 else Sum(xs[..|xs| - 1]) + xs[|xs| - 1]
  }

  /** 0.5 * (2^n - 1), the sum of the first n delays when the cap cuts none of them. */
  ghost function Geometric(n: nat): real {
    Raw(n) - 0.5
  }

  /** n times the cap. */
  ghost function Times(n: nat, cap: real): real {
    if n == 0 then 0.0 else Times(n - 1, cap) + cap
  }

  lemma {:induction false} TimesIsProduct(n: nat, cap: real)
    ensures Times(n, cap) == (n as real) * cap
  {
    if n > 0 {
      TimesIsProduct(n - 1, cap);
    }
  }

  lemma {:induction false} TimesGrows(i: nat, j: nat, cap: real)
    requires i <= j && cap >= 0.0
    ensures Times(i, cap) <= Times(j, cap)
  {
    if i < j {
      TimesGrows(i, j - 1, cap);
    }
  }

  function Min(a: nat, b: nat): nat {
    if a <= b then a else b
  }

  /** A step that fails f times sleeps before every retry it is still allowed. */
  ghost function TotalBackoff(failures: nat, retries: nat, cap: real): real {
    Sum(Delays(Min(failures, retries), cap))
  }

  lemma {:induction false} DelaysAt(n: nat, cap: real, i: nat)
    requires i < n
    ensures |Delays(n, cap)| == n && Delays(n, cap)[i] == Delay(i, cap)
  {
    if i < n - 1 {
      DelaysAt(n - 1, cap, i);
    } else if n > 1 {
      DelaysAt(n - 1, cap, 0);
    }
  }

  /** No delay is shorter than the one before it, and none is longer than the cap. */
  lemma {:induction false} DelaysNeverShrink(n: nat, cap: real, i: nat, j: nat)
    requires i <= j < n
    ensures |Delays(n, cap)| == n && Delays(n, cap)[i] <= Delays(n, cap)[j] <= cap
    decreases j - i
  {
    DelaysAt(n, cap, i);
    DelaysAt(n, cap, j);
    if i < j {
      DelaysNeverShrink(n, cap, i, j - 1);
      DelaysAt(n, cap, j - 1);
    }
  }

  lemma SumDelays(n: nat, cap: real)
    ensures Sum(Delays(n + 1, cap)) == Sum(Delays(n, cap)) + Delay(n, cap)
  {
    var ds := Delays(n, cap);
    assert (ds + [Delay(n, cap)])[..|ds|] == ds;
  }

  /** The total is bounded by the uncapped geometric sum and by the capped number of retries. */
  lemma {:induction false} TotalBackoffBound(failures: nat, retries: nat, cap: real)
    requires cap >= 0.0
    ensures 0.0 <= TotalBackoff(failures, retries, cap)
    ensures TotalBackoff(failures, retries, cap) <= Geometric(retries)
    ensures TotalBackoff(failures, retries, cap) <= Times(retries, cap)
  {
    SumBound(Min(failures, retries), cap);
    RawGrows(Min(failures, retries), retries);
    TimesGrows(Min(failures, retries), retries, cap);
  }

  lemma {:induction false} SumBound(n: nat, cap: real)
    requires cap >= 0.0
    ensures 0.0 <= Sum(Delays(n, cap)) <= Geometric(n)
    ensures Sum(Delays(n, cap)) <= Times(n, cap)
  {
    if n > 0 {
      SumBound(n - 1, cap);
      SumDelays(n - 1, cap);
    }
  }

  lemma {:induction false} RawGrows(i: nat, j: nat)
    requires i <= j
    ensures Raw(i) <= Raw(j)
  {
    if i < j {
      RawGrows(i, j - 1);
    }
  }

  /** c is the first delay the cap cuts. */
  ghost predicate FirstCapped(c: nat, cap: real) {
    Raw(c) > cap && (c > 0 ==> Raw(c - 1) <= cap)
  }

  lemma DelayIsRawThenCap(i: nat, c: nat, cap: real)
    requires FirstCapped(c, cap)
    ensures Delay(i, cap) == if i < c then Geometric(i + 1) - Geometric(i) else cap
  {
    if i < c {
      RawGrows(i, c - 1);
    } else {
      RawGrows(c, i);
    }
  }

  /**
   The closed form: n delays sum to the geometric sum while none is capped, and to the
   geometric sum of the first c delays plus n - c times the cap after that.
   */
  lemma {:induction false} TotalClosedForm(n: nat, c: nat, cap: real)
    requires FirstCapped(c, cap)
    ensures Sum(Delays(n, cap)) == ClosedForm(n, c, cap)
  {
    if n > 0 {
      TotalClosedForm(n - 1, c, cap);
      SumDelays(n - 1, cap);
      DelayIsRawThenCap(n - 1, c, cap);
      ClosedFormNext(n - 1, c, cap);
    }
  }

  ghost function ClosedForm(n: nat, c: nat, cap: real): real {
    if n <= c then Geometric(n) else Geometric(c) + Times(n - c, cap)
  }

  lemma ClosedFormNext(n: nat, c: nat, cap: real)
    ensures ClosedForm(n + 1, c, cap) == ClosedForm(n, c, cap) + if n < c then Geometric(n + 1) - Geometric(n) else cap
  {
    if n == c {
      assert Times(1, cap) == Times(0, cap) + cap;
    }
  }

  // ----- The delays of a whole run -----

  function CountAt(counts: map<Id, nat>, x: Id): nat {
    if x in counts then counts[x] else 0
  }

  /** The delays of one step that has failed so often. */
  ghost function SleptBy(s: Step, counts: map<Id, nat>, cap: real): multiset<real> {
    multiset(Delays(Min(CountAt(counts, s.id), s.retries), cap))
  }

  /** All delays slept, given how often every step has failed; threads mix them in any order. */
  ghost function Slept(steps: seq<Step>, counts: map<Id, nat>, cap: real): multiset<real> {
    if steps == [] then multiset{} else
    Slept(steps[..|steps| - 1], counts, cap) + SleptBy(steps[|steps| - 1], counts, cap)
  }

  lemma {:induction false} NothingSlept(steps: seq<Step>, counts: map<Id, nat>, cap: real)
    requires forall x :: x in counts ==> counts[x] == 0
    ensures Slept(steps, counts, cap) == multiset{}
  {
    if steps != [] {
      NothingSlept(steps[..|steps| - 1], counts, cap);
    }
  }

  lemma {:induction false} SleptElsewhere(steps: seq<Step>, counts: map<Id, nat>, cap: real, x: Id, k: nat)
    requires x !in Ids(steps)
    ensures Slept(steps, counts[x := k], cap) == Slept(steps, counts, cap)
  {
    if steps != [] {
      var init, last := steps[..|steps| - 1], steps[|steps| - 1];
      assert last in steps && last.id != x;
      assert forall s :: s in init ==> s in steps;
      SleptElsewhere(init, counts, cap, x, k);
    }
  }

  lemma SleptByOnceMore(s: Step, counts: map<Id, nat>, cap: real, k: nat)
    requires CountAt(counts, s.id) == k
    ensures SleptBy(s, counts[s.id := k + 1], cap) ==
            SleptBy(s, counts, cap) + multiset(if k < s.retries then [Delay(k, cap)] else [])
  {
  }

  /** One more failure of a step adds the delay before its next attempt, if it has one left. */
  lemma {:induction false} SleptOnceMore(steps: seq<Step>, counts: map<Id, nat>, cap: real, s: Step, k: nat)
    requires UniqueIds(steps) && s in steps && CountAt(counts, s.id) == k
    ensures Slept(steps, counts[s.id := k + 1], cap) ==
            Slept(steps, counts, cap) + multiset(if k < s.retries then [Delay(k, cap)] else [])
  {
    hide UniqueIds, SleptBy;
    var init, last := steps[..|steps| - 1], steps[|steps| - 1];
    UniqueLast(steps);
    if s == last {
      SleptElsewhere(init, counts, cap, s.id, k + 1);
      SleptByOnceMore(s, counts, cap, k);
    } else {
      assert s in init && s.id in Ids(init);
      SleptOnceMore(init, counts, cap, s, k);
      SleptByElsewhere(last, counts, cap, s.id, k + 1);
    }
    hide CountAt, Delay;
  }

  lemma SleptByElsewhere(s: Step, counts: map<Id, nat>, cap: real, x: Id, k: nat)
    requires s.id != x
    ensures SleptBy(s, counts[x := k], cap) == SleptBy(s, counts, cap)
  {
  }
}

/**
 auth.LocalRateLimiter: a fixed window of calls per bucket.

 The clock is read inside the limiter's lock, so calls are decided in the order of their
 times. Times are real numbers and an explicit argument.
 */
module RateLimit {
  import opened Wrappers

  datatype Slot = Slot(start: real, count: int)

  datatype Call = Call(bucket: string, time: real)

  datatype Entry = Entry(call: Call, admitted: bool)

  datatype Decision = Decision(admitted: bool, slot: Option<Slot>)

  datatype History = History(buckets: map<string, Slot>, log: seq<Entry>)

  function BucketOf(recognized: set<string>, apiKey: Option<string>, clientId: Option<string>): string {
    if apiKey.Some? && apiKey.value != "" && apiKey.value in recognized then "key:" + apiKey.value
    else "client:" + if clientId.Some? && clientId.value != "" then clientId.value else "anonymous"
  }

  function SlotOf(buckets: map<string, Slot>, bucket: string): Option<Slot> {
    if bucket in buckets then Some(buckets[bucket]) else None
  }

  /** What one call does to its bucket. */
  function Decide(limit: int, window: real, slot: Option<Slot>, now: real): Decision {
    var current := if slot.None? || now - slot.value.start >= window then Slot(now, 0) else slot.value;
    if current.count >= limit then Decision(false, slot)
    else Decision(true, Some(Slot(current.start, current.count + 1)))
  }

  function Run(limit: int, window: real, calls: seq<Call>): History {
    if calls == [] then History(map[], []) else
    var h, call := Run(limit, window, calls[..|calls| - 1]), calls[|calls| - 1];
    var d := Decide(limit, window, SlotOf(h.buckets, call.bucket), call.time);
    History(if d.admitted then h.buckets[call.bucket := d.slot.value] else h.buckets, h.log + [Entry(call, d.admitted)])
  }

  class LocalRateLimiter {
    const limit: int
    const window: real
    const recognized: set<string>
    var buckets: map<string, Slot>
    ghost var calls: seq<Call>

    ghost predicate Valid()
      reads this
    {
      buckets == Run(limit, window, calls).buckets
    }

    constructor (limit: int, window: real, recognized: set<string>)
      ensures this.limit == limit && this.window == window && this.recognized == recognized
      ensures Valid() && calls == []
    {
      this.limit := limit;
      this.window := window;
      this.recognized := recognized;
      buckets := map[];
      calls := [];
    }

    /** The answer is the one the run over all calls so far gives to its last call. */
    method Allow(apiKey: Option<string>, clientId: Option<string>, now: real) returns (admitted: bool)
      requires Valid()
      modifies this
      ensures Valid()
      ensures calls == old(calls) + [Call(BucketOf(recognized, apiKey, clientId), now)]
      ensures Run(limit, window, calls).log ==
              Run(limit, window, old(calls)).log + [Entry(calls[|calls| - 1], admitted)]
      ensures forall b :: b != BucketOf(recognized, apiKey, clientId) ==> SlotOf(buckets, b) == SlotOf(old(buckets), b)
    {
      hide Run, BucketOf;
      var bucket := BucketOf(recognized, apiKey, clientId);
      RunSnoc(limit, window, calls, Call(bucket, now));
      calls := calls + [Call(bucket, now)];
      var slot := if bucket in buckets then buckets[bucket] else Slot(now, 0);
      if now - slot.start >= window {
        slot := Slot(now, 0);
      }
      if slot.count >= limit {
        return false;
      }
      buckets := buckets[bucket := Slot(slot.start, slot.count + 1)];
      return true;
    }
  }

  lemma {:induction false} LogLength(limit: int, window: real, calls: seq<Call>)
    ensures |Run(limit, window, calls).log| == |calls|
  {
    if calls != [] {
      LogLength(limit, window, calls[..|calls| - 1]);
    }
  }

  /** Recognized keys and clients never share a bucket; everybody without a name is "anonymous". */
  lemma BucketsAreSeparate(recognized: set<string>, k: Option<string>, c: Option<string>,
                           k': Option<string>, c': Option<string>)
    ensures BucketOf(recognized, k, c) == BucketOf(recognized, k', c') <==>
            if k.Some? && k.value != "" && k.value in recognized then k' == k
            else
              && !(k'.Some? && k'.value != "" && k'.value in recognized)
              && ClientName(c) == ClientName(c')
  {
    var a, b := BucketOf(recognized, k, c), BucketOf(recognized, k', c');
    assert a[0] == (if k.Some? && k.value != "" && k.value in recognized then 'k' else 'c');
    assert b[0] == (if k'.Some? && k'.value != "" && k'.value in recognized then 'k' else 'c');
    if a[0] == 'k' && b[0] == 'k' {
      assert a[4..] == k.value && b[4..] == k'.value;
    } else if a[0] == 'c' && b[0] == 'c' {
      assert a[7..] == ClientName(c) && b[7..] == ClientName(c');
    }
  }

  function ClientName(c: Option<string>): string {
    if c.Some? && c.value != "" then c.value else "anonymous"
  }

  // ----- Counting admissions -----

  ghost predicate Monotone(calls: seq<Call>) {
    forall i, j :: 0 <= i <= j < |calls| ==> calls[i].time <= calls[j].time
  }

  /** How many calls of the bucket were admitted from time a on. */
  ghost function CountFrom(log: seq<Entry>, bucket: string, a: real): nat {
    if log == [] then 0 else
    var last := log[|log| - 1];
    CountFrom(log[..|log| - 1], bucket, a)
    + if last.call.bucket == bucket && last.admitted && last.call.time >= a then 1 else 0
  }

  /** How many calls of the bucket were admitted at times in [a, b). */
  ghost function CountIn(log: seq<Entry>, bucket: string, a: real, b: real): nat {
    if log == [] then 0 else
    var last := log[|log| - 1];
    CountIn(log[..|log| - 1], bucket, a, b)
    + if last.call.bucket == bucket && last.admitted && a <= last.call.time < b then 1 else 0
  }

  lemma RunStep(limit: int, window: real, calls: seq<Call>)
    requires calls != []
    ensures var h, h' := Run(limit, window, calls[..|calls| - 1]), Run(limit, window, calls);
            && |h'.log| > 0 && h'.log[..|h'.log| - 1] == h.log
            && h'.log[|h'.log| - 1].call == calls[|calls| - 1]
  {
  }

  /** Times in the log are those of the calls; none lies after the last call. */
  lemma {:induction false} NothingLater(limit: int, window: real, calls: seq<Call>, bucket: string, a: real)
    requires forall i :: 0 <= i < |calls| ==> calls[i].time < a
    ensures CountFrom(Run(limit, window, calls).log, bucket, a) == 0
  {
    if calls != [] {
      RunStep(limit, window, calls);
      NothingLater(limit, window, calls[..|calls| - 1], bucket, a);
    }
  }

  /** m windows, as a real length. */
  ghost function Span(m: nat, window: real): real {
    if m == 0 then 0.0 else Span(m - 1, window) + window
  }

  /** m times the limit. */
  ghost function Quota(m: nat, limit: nat): nat {
    if m == 0 then 0 else Quota(m - 1, limit) + limit
  }

  /** The slot of a bucket that has been used holds the start of its window and a count within the limit. */
  ghost predicate Sane(limit: int, calls: seq<Call>, slot: Option<Slot>) {
    slot.Some? ==> 1 <= slot.value.count <= limit && calls != [] && slot.value.start <= calls[|calls| - 1].time
  }

  lemma {:induction false} SlotsAreSane(limit: int, window: real, calls: seq<Call>, bucket: string)
    requires limit >= 1 && window > 0.0 && Monotone(calls)
    ensures Sane(limit, calls, SlotOf(Run(limit, window, calls).buckets, bucket))
  {
    if calls != [] {
      var before := calls[..|calls| - 1];
      SlotsAreSane(limit, window, before, bucket);
      if before != [] {
        assert calls[|before| - 1].time <= calls[|calls| - 1].time;
      }
    }
  }

  /**
   n admissions from a on: if the current window started less than m windows after a, at most
   m full quotas and this window.
   */
  ghost predicate Bounded(limit: nat, window: real, slot: Option<Slot>, n: nat, a: real, m: nat) {
    match slot
    case None => n == 0
    case Some(s) => s.start < a + Span(m, window) ==> n <= Quota(m, limit) + s.count
  }

  lemma BoundedStep(limit: nat, window: real, slot: Option<Slot>, now: real, n: nat, a: real, m: nat)
    requires limit >= 1 && window > 0.0
    requires slot.Some? ==> 1 <= slot.value.count <= limit && slot.value.start <= now
    requires Bounded(limit, window, slot, n, a, m) && (m > 0 ==> Bounded(limit, window, slot, n, a, m - 1))
    requires now < a ==> n == 0
    ensures var d := Decide(limit, window, slot, now);
            Bounded(limit, window, d.slot, n + if d.admitted && now >= a then 1 else 0, a, m)
  {
  }

  lemma CountFromSnoc(log: seq<Entry>, last: Entry, bucket: string, a: real)
    ensures CountFrom(log + [last], bucket, a) ==
            CountFrom(log, bucket, a)
            + if last.call.bucket == bucket && last.admitted && last.call.time >= a then 1 else 0
  {
    assert (log + [last])[..|log|] == log;
  }

  lemma MonotoneBefore(calls: seq<Call>)
    requires Monotone(calls) && calls != []
    ensures Monotone(calls[..|calls| - 1])
  {
  }

  lemma {:induction false} WindowsBound(limit: nat, window: real, calls: seq<Call>, bucket: string, a: real, m: nat)
    requires limit >= 1 && window > 0.0 && Monotone(calls)
    ensures var h := Run(limit, window, calls);
            Bounded(limit, window, SlotOf(h.buckets, bucket), CountFrom(h.log, bucket, a), a, m)
    decreases |calls|
  {
    if calls != [] {
      hide Run, CountFrom, Bounded, Decide, Monotone, SlotOf;
      var before, call := calls[..|calls| - 1], calls[|calls| - 1];
      assert calls == before + [call];
      MonotoneBefore(calls);
      WindowsBound(limit, window, before, bucket, a, m);
      if m > 0 {
        WindowsBound(limit, window, before, bucket, a, m - 1);
      }
      NotBefore(limit, window, calls, bucket, a);
      NextSlot(limit, window, before, call);
      var h := Run(limit, window, before);
      var d := Decide(limit, window, SlotOf(h.buckets, call.bucket), call.time);
      CountFromSnoc(h.log, Entry(call, d.admitted), bucket, a);
      if call.bucket == bucket {
        BoundedStep(limit, window, SlotOf(h.buckets, bucket), call.time, CountFrom(h.log, bucket, a), a, m);
      }
    }
  }

  /** What the clock guarantees about the state in which the last call is decided. */
  lemma NotBefore(limit: nat, window: real, calls: seq<Call>, bucket: string, a: real)
    requires limit >= 1 && window > 0.0 && Monotone(calls) && calls != []
    ensures var h, now := Run(limit, window, calls[..|calls| - 1]), calls[|calls| - 1].time;
            && (now < a ==> CountFrom(h.log, bucket, a) == 0)
            && (var slot := SlotOf(h.buckets, bucket);
                slot.Some? ==> 1 <= slot.value.count <= limit && slot.value.start <= now)
  {
    var before, now := calls[..|calls| - 1], calls[|calls| - 1].time;
    SlotsAreSane(limit, window, before, bucket);
    forall i | 0 <= i < |before| ensures before[i].time <= now {
      assert calls[i].time <= calls[|calls| - 1].time;
    }
    if now < a {
      NothingLater(limit, window, before, bucket, a);
    }
  }

  lemma {:induction false} QuotaIsProduct(m: nat, limit: nat)
    ensures Quota(m, limit) == m * limit
  {
    if m > 0 {
      QuotaIsProduct(m - 1, limit);
    }
  }

  lemma {:induction false} SpanIsProduct(m: nat, window: real)
    ensures Span(m, window) == (m as real) * window
  {
    if m > 0 {
      SpanIsProduct(m - 1, window);
    }
  }

  lemma {:induction false} CountInIsCountFrom(log: seq<Entry>, bucket: string, a: real, b: real)
    requires forall i :: 0 <= i < |log| ==> log[i].call.time < b
    ensures CountIn(log, bucket, a, b) == CountFrom(log, bucket, a)
  {
    if log != [] {
      CountInIsCountFrom(log[..|log| - 1], bucket, a, b);
    }
  }

  lemma {:induction false} LogTimes(limit: int, window: real, calls: seq<Call>, i: nat)
    requires i < |calls|
    ensures i < |Run(limit, window, calls).log| && Run(limit, window, calls).log[i].call == calls[i]
  {
    LogLength(limit, window, calls);
    RunStep(limit, window, calls);
    if i < |calls| - 1 {
      LogTimes(limit, window, calls[..|calls| - 1], i);
      assert Run(limit, window, calls[..|calls| - 1]).log[i] == Run(limit, window, calls).log[i];
    } else {
      LogLength(limit, window, calls[..|calls| - 1]);
    }
  }

  /** In any half-open interval no longer than m windows, a bucket admits at most limit * (m + 1) calls. */
  lemma {:induction false} RateBound(limit: nat, window: real, calls: seq<Call>, bucket: string,
                                     a: real, b: real, m: nat)
    requires limit >= 1 && window > 0.0 && Monotone(calls) && b <= a + (m as real) * window
    ensures CountIn(Run(limit, window, calls).log, bucket, a, b) <= limit * (m + 1)
    decreases |calls|
  {
    var h := Run(limit, window, calls);
    if calls == [] {
    } else if calls[|calls| - 1].time >= b {
      RunStep(limit, window, calls);
      RateBound(limit, window, calls[..|calls| - 1], bucket, a, b, m);
    } else {
      LogLength(limit, window, calls);
      forall i | 0 <= i < |h.log| ensures h.log[i].call.time < b {
        LogTimes(limit, window, calls, i);
        assert calls[i].time <= calls[|calls| - 1].time;
      }
      CountInIsCountFrom(h.log, bucket, a, b);
      WindowsBound(limit, window, calls, bucket, a, m);
      SlotsAreSane(limit, window, calls, bucket);
      SpanIsProduct(m, window);
      QuotaIsProduct(m, limit);
    }
  }

  ghost function Ceil(x: real): int {
    -((-x).Floor)
  }

  /** The same with the number of windows worked out: limit * (ceil(T / W) + 1) in any interval of length T. */
  lemma RateBoundForLength(limit: nat, window: real, calls: seq<Call>, bucket: string, a: real, length: real)
    requires limit >= 1 && window > 0.0 && Monotone(calls) && length >= 0.0
    ensures CountIn(Run(limit, window, calls).log, bucket, a, a + length) <= limit * (Ceil(length / window) + 1)
  {
    var q := length / window;
    var m := Ceil(q);
    assert q >= 0.0 && q * window == length && q <= m as real;
    ScaleUp(q, m as real, window);
    RateBound(limit, window, calls, bucket, a, a + length, m);
  }

  lemma ScaleUp(x: real, y: real, w: real)
    requires x <= y && w > 0.0
    ensures x * w <= y * w
  {
  }

  // ----- When a call is refused -----

  /**
   The admitted call that opened the bucket's current window: each one opens a window when the
   last opening is W old.
   */
  ghost function Opener(window: real, log: seq<Entry>, bucket: string): Option<nat> {
    if log == [] then None else
    var earlier, last := Opener(window, log[..|log| - 1], bucket), log[|log| - 1];
    if !last.admitted || last.call.bucket != bucket then earlier
    else if earlier.Some? && earlier.value < |log|
            && last.call.time - log[earlier.value].call.time < window then earlier
    else Some(|log| - 1)
  }

  /** How many calls of the bucket were admitted from index j on. */
  ghost function AdmittedSince(log: seq<Entry>, bucket: string, j: nat): nat {
    if |log| <= j then 0 else
    var last := log[|log| - 1];
    AdmittedSince(log[..|log| - 1], bucket, j) + if last.call.bucket == bucket && last.admitted then 1 else 0
  }

  lemma OpenerSnoc(window: real, log: seq<Entry>, last: Entry, bucket: string)
    ensures var earlier := Opener(window, log, bucket);
            Opener(window, log + [last], bucket) ==
            if !last.admitted || last.call.bucket != bucket then earlier
            else if earlier.Some? && earlier.value < |log|
                    && last.call.time - log[earlier.value].call.time < window then earlier
            else Some(|log|)
  {
    assert (log + [last])[..|log|] == log;
  }

  lemma SinceSnoc(log: seq<Entry>, last: Entry, bucket: string, j: nat)
    ensures AdmittedSince(log + [last], bucket, j) ==
            if |log| < j then 0
            else AdmittedSince(log, bucket, j) + if last.call.bucket == bucket && last.admitted then 1 else 0
    ensures AdmittedSince(log, bucket, |log|) == 0
  {
    assert (log + [last])[..|log|] == log;
  }

  /** The limiter's two numbers are what the log says: when the window opened, and how many came in since. */
  ghost predicate TellsOpener(limit: int, window: real, log: seq<Entry>, bucket: string, slot: Option<Slot>) {
    match slot
    case None => Opener(window, log, bucket) == None
    case Some(slot) =>
      && slot.count <= limit
      && Opener(window, log, bucket).Some?
      && var j := Opener(window, log, bucket).value;
         && j < |log| && log[j].admitted && log[j].call.bucket == bucket && log[j].call.time == slot.start
         && AdmittedSince(log, bucket, j) == slot.count
  }

  lemma CallKeepsOpener(limit: nat, window: real, log: seq<Entry>, bucket: string, slot: Option<Slot>, call: Call)
    requires limit >= 1 && window > 0.0 && TellsOpener(limit, window, log, bucket, slot)
    ensures var d := Decide(limit, window, slot, call.time);
            if call.bucket == bucket
            then TellsOpener(limit, window, log + [Entry(call, d.admitted)], bucket, d.slot)
            else forall admitted :: TellsOpener(limit, window, log + [Entry(call, admitted)], bucket, slot)
  {
    hide Opener, AdmittedSince;
    forall admitted, j: nat
      ensures AdmittedSince(log + [Entry(call, admitted)], bucket, j) ==
              if |log| < j then 0
              else AdmittedSince(log, bucket, j) + if call.bucket == bucket && admitted then 1 else 0
    {
      SinceSnoc(log, Entry(call, admitted), bucket, j);
    }
    forall admitted {
      OpenerSnoc(window, log, Entry(call, admitted), bucket);
    }
    SinceSnoc(log, Entry(call, true), bucket, |log|);
  }

  lemma {:induction false} SlotIsOpener(limit: nat, window: real, calls: seq<Call>, bucket: string)
    requires limit >= 1 && window > 0.0
    ensures var h := Run(limit, window, calls);
            TellsOpener(limit, window, h.log, bucket, SlotOf(h.buckets, bucket))
  {
    if calls != [] {
      var before, call := calls[..|calls| - 1], calls[|calls| - 1];
      hide Run, Decide, TellsOpener, SlotOf;
      SlotIsOpener(limit, window, before, bucket);
      assert calls == before + [call];
      NextSlot(limit, window, before, call);
      CallKeepsOpener(limit, window, Run(limit, window, before).log, bucket,
                      SlotOf(Run(limit, window, before).buckets, bucket), call);
    }
  }

  /** A call is refused exactly when a window opened less than W ago and has taken in exactly limit calls since. */
  lemma RefusedIffWindowFull(limit: nat, window: real, calls: seq<Call>, call: Call)
    requires limit >= 1 && window > 0.0
    ensures var log := Run(limit, window, calls).log;
            !Decide(limit, window, SlotOf(Run(limit, window, calls).buckets, call.bucket), call.time).admitted <==>
            && Opener(window, log, call.bucket).Some?
            && var j := Opener(window, log, call.bucket).value;
               j < |log| && call.time - log[j].call.time < window && AdmittedSince(log, call.bucket, j) == limit
  {
    SlotIsOpener(limit, window, calls, call.bucket);
  }

  /** How many calls of the bucket were admitted later than a. */
  ghost function CountAfter(log: seq<Entry>, bucket: string, a: real): nat {
    if log == [] then 0 else
    var last := log[|log| - 1];
    CountAfter(log[..|log| - 1], bucket, a)
    + if last.call.bucket == bucket && last.admitted && last.call.time > a then 1 else 0
  }

  /** A refused caller has seen at least limit admissions to its bucket within the last W. */
  lemma RefusalMeansLimitReached(limit: nat, window: real, calls: seq<Call>, call: Call)
    requires limit >= 1 && window > 0.0 && Monotone(calls + [call])
    requires !Decide(limit, window, SlotOf(Run(limit, window, calls).buckets, call.bucket), call.time).admitted
    ensures CountAfter(Run(limit, window, calls).log, call.bucket, call.time - window) >= limit
  {
    hide Run, Decide, Opener, AdmittedSince, CountAfter, SlotOf;
    var log := Run(limit, window, calls).log;
    RefusedIffWindowFull(limit, window, calls, call);
    var j := Opener(window, log, call.bucket).value;
    SinceOpenerIsRecent(limit, window, calls, call, j);
    AfterSplits(log, call.bucket, j, call.time - window);
  }

  /** No call of the bucket before index j was admitted later than a. */
  ghost predicate NoneBefore(log: seq<Entry>, bucket: string, j: nat, a: real) {
    forall i {:trigger log[i]} :: 0 <= i < j && i < |log| && log[i].call.bucket == bucket && log[i].admitted ==>
      log[i].call.time <= a
  }

  /** The admissions later than a: those from index j on, all of them later, and those before j that are later. */
  lemma {:induction false} AfterSplits(log: seq<Entry>, bucket: string, j: nat, a: real)
    requires forall i :: j <= i < |log| ==> log[i].call.time > a
    ensures CountAfter(log, bucket, a) >= AdmittedSince(log, bucket, j)
    ensures CountAfter(log, bucket, a) == AdmittedSince(log, bucket, j) <==> NoneBefore(log, bucket, j, a)
  {
    if log != [] {
      var init, last := log[..|log| - 1], log[|log| - 1];
      AfterSplits(init, bucket, j, a);
      assert NoneBefore(log, bucket, j, a) <==>
             NoneBefore(init, bucket, j, a)
             && (|log| - 1 < j && last.call.bucket == bucket && last.admitted ==> last.call.time <= a) by {
        if NoneBefore(log, bucket, j, a) {
          forall i | 0 <= i < j && i < |init| && init[i].call.bucket == bucket && init[i].admitted
            ensures init[i].call.time <= a
          {
            assert init[i] == log[i];
          }
        } else {
          var i :| 0 <= i < j && i < |log| && log[i].call.bucket == bucket && log[i].admitted && log[i].call.time > a;
          assert i == |log| - 1 || init[i] == log[i];
        }
      }
    }
  }

  /**
   At a refusal, exactly limit calls were admitted within the last W exactly when every
   admission to the bucket before its current window opened is at least W old by now.
   */
  lemma ExactlyLimitIff(limit: nat, window: real, calls: seq<Call>, call: Call)
    requires limit >= 1 && window > 0.0 && Monotone(calls + [call])
    requires !Decide(limit, window, SlotOf(Run(limit, window, calls).buckets, call.bucket), call.time).admitted
    ensures var log := Run(limit, window, calls).log;
            var opener := Opener(window, log, call.bucket);
            && opener.Some?
            && (CountAfter(log, call.bucket, call.time - window) == limit <==>
                NoneBefore(log, call.bucket, opener.value, call.time - window))
  {
    hide Run, Decide, Opener, AdmittedSince, CountAfter, SlotOf, NoneBefore;
    var log := Run(limit, window, calls).log;
    RefusedIffWindowFull(limit, window, calls, call);
    var j := Opener(window, log, call.bucket).value;
    SinceOpenerIsRecent(limit, window, calls, call, j);
    AfterSplits(log, call.bucket, j, call.time - window);
  }

  /** If the call with index j is less than W old, so are all later ones. */
  lemma SinceOpenerIsRecent(limit: nat, window: real, calls: seq<Call>, call: Call, j: nat)
    requires Monotone(calls + [call]) && j < |Run(limit, window, calls).log|
    requires call.time - Run(limit, window, calls).log[j].call.time < window
    ensures forall i :: j <= i < |Run(limit, window, calls).log| ==>
              Run(limit, window, calls).log[i].call.time > call.time - window
  {
    hide Run;
    var log := Run(limit, window, calls).log;
    LogLength(limit, window, calls);
    forall i | j <= i < |log| ensures log[i].call.time > call.time - window {
      LogTimes(limit, window, calls, i);
      LogTimes(limit, window, calls, j);
      assert (calls + [call])[j].time <= (calls + [call])[i].time;
    }
  }

  /**
   It may have been more than limit: with a limit of 2 and a window of 10, calls at 0, 9,
   10 and 11 are admitted, the call at 12 is refused, and three of them are less than 10 old.
   */
  lemma MoreThanLimitInWindow(limit: nat, window: real, bucket: string, calls: seq<Call>)
    requires limit == 2 && window == 10.0
    requires calls == [Call(bucket, 0.0), Call(bucket, 9.0), Call(bucket, 10.0), Call(bucket, 11.0)]
    ensures !Decide(limit, window, SlotOf(Run(limit, window, calls).buckets, bucket), 12.0).admitted
    ensures CountAfter(Run(limit, window, calls).log, bucket, 12.0 - window) == limit + 1
  {
    hide Run, CountAfter, Stands;
    FirstWindowStands(bucket);
    var two := [Call(bucket, 0.0), Call(bucket, 9.0)];
    StandsNext(2, 10.0, two, Call(bucket, 10.0), 2.0, Some(Slot(0.0, 2)), 1);
    StandsNext(2, 10.0, two + [Call(bucket, 10.0)], Call(bucket, 11.0), 2.0, Some(Slot(10.0, 1)), 2);
    assert calls == two + [Call(bucket, 10.0)] + [Call(bucket, 11.0)];
    StandsMeans(limit, window, calls, bucket, 2.0, Some(Slot(10.0, 2)), 3);
  }

  lemma FirstWindowStands(bucket: string)
    ensures Stands(2, 10.0, [Call(bucket, 0.0), Call(bucket, 9.0)], bucket, 2.0, Some(Slot(0.0, 2)), 1)
  {
    assert Stands(2, 10.0, [], bucket, 2.0, None, 0);
    hide Run, CountAfter, Stands;
    StandsNext(2, 10.0, [], Call(bucket, 0.0), 2.0, None, 0);
    StandsNext(2, 10.0, [] + [Call(bucket, 0.0)], Call(bucket, 9.0), 2.0, Some(Slot(0.0, 1)), 0);
    assert [] + [Call(bucket, 0.0)] + [Call(bucket, 9.0)] == [Call(bucket, 0.0), Call(bucket, 9.0)];
  }

  /** After these calls the bucket is in this state, with n admissions later than a. */
  ghost predicate Stands(limit: int, window: real, calls: seq<Call>, bucket: string, a: real,
                         slot: Option<Slot>, n: nat)
  {
    var h := Run(limit, window, calls);
    SlotOf(h.buckets, bucket) == slot && CountAfter(h.log, bucket, a) == n
  }

  lemma StandsMeans(limit: int, window: real, calls: seq<Call>, bucket: string, a: real, slot: Option<Slot>, n: nat)
    requires Stands(limit, window, calls, bucket, a, slot, n)
    ensures SlotOf(Run(limit, window, calls).buckets, bucket) == slot
    ensures CountAfter(Run(limit, window, calls).log, bucket, a) == n
  {
  }

  lemma StandsNext(limit: int, window: real, calls: seq<Call>, call: Call, a: real, slot: Option<Slot>, n: nat)
    requires Stands(limit, window, calls, call.bucket, a, slot, n)
    ensures var d := Decide(limit, window, slot, call.time);
            Stands(limit, window, calls + [call], call.bucket, a, d.slot,
                   n + if d.admitted && call.time > a then 1 else 0)
  {
    NextSlot(limit, window, calls, call);
    var h := Run(limit, window, calls);
    CountAfterSnoc(h.log, Entry(call, Decide(limit, window, slot, call.time).admitted), call.bucket, a);
  }

  lemma CountAfterSnoc(log: seq<Entry>, last: Entry, bucket: string, a: real)
    ensures CountAfter(log + [last], bucket, a) ==
            CountAfter(log, bucket, a)
            + if last.call.bucket == bucket && last.admitted && last.call.time > a then 1 else 0
  {
    assert (log + [last])[..|log|] == log;
  }

  /** One more call: its own bucket moves as decided, the others stay, and the log grows by the answer. */
  lemma NextSlot(limit: int, window: real, calls: seq<Call>, call: Call)
    ensures var h, h' := Run(limit, window, calls), Run(limit, window, calls + [call]);
            var d := Decide(limit, window, SlotOf(h.buckets, call.bucket), call.time);
            && SlotOf(h'.buckets, call.bucket) == d.slot
            && (forall b {:trigger SlotOf(h'.buckets, b)} :: b != call.bucket ==>
                  SlotOf(h'.buckets, b) == SlotOf(h.buckets, b))
            && h'.log == h.log + [Entry(call, d.admitted)]
  {
    RunSnoc(limit, window, calls, call);
  }

  lemma RunSnoc(limit: int, window: real, calls: seq<Call>, call: Call)
    ensures var h := Run(limit, window, calls);
            var d := Decide(limit, window, SlotOf(h.buckets, call.bucket), call.time);
            Run(limit, window, calls + [call]) ==
            History(if d.admitted then h.buckets[call.bucket := d.slot.value] else h.buckets,
                    h.log + [Entry(call, d.admitted)])
  {
    assert (calls + [call])[..|calls|] == calls;
  }

  /** With a limit of zero or less, no run of calls admits anybody or stores anything. */
  lemma {:induction false} NoLimitNoAdmission(limit: int, window: real, calls: seq<Call>)
    requires limit <= 0
    ensures var h := Run(limit, window, calls);
            h.buckets == map[] && |h.log| == |calls| && forall i :: 0 <= i < |h.log| ==> !h.log[i].admitted
  {
    if calls != [] {
      NoLimitNoAdmission(limit, window, calls[..|calls| - 1]);
    }
  }

  // ----- Buckets do not affect each other -----

  function Only(calls: seq<Call>, bucket: string): seq<Call> {
    if calls == [] then [] else
    Only(calls[..|calls| - 1], bucket)
    + if calls[|calls| - 1].bucket == bucket then [calls[|calls| - 1]] else []
  }

  /** A bucket is in the state in which its own calls alone would have left it. */
  lemma {:induction false} OtherBucketsDoNotMatter(limit: int, window: real, calls: seq<Call>, bucket: string)
    ensures SlotOf(Run(limit, window, calls).buckets, bucket) ==
            SlotOf(Run(limit, window, Only(calls, bucket)).buckets, bucket)
  {
    if calls != [] {
      var before, call := calls[..|calls| - 1], calls[|calls| - 1];
      OtherBucketsDoNotMatter(limit, window, before, bucket);
      assert calls == before + [call];
      NextSlot(limit, window, before, call);
      if call.bucket == bucket {
        NextSlot(limit, window, Only(before, bucket), call);
        assert Only(calls, bucket) == Only(before, bucket) + [call];
      } else {
        assert Only(calls, bucket) == Only(before, bucket);
      }
    }
  }
}

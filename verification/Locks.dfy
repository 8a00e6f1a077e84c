/**
 Locks with a time to live and an owner token: the Redis semantics of MockRedisClient, the
 two token locks on top of it, the in-memory provider, and what holds over whole runs.

 Time is an explicit argument of every call; SET reads the clock twice, once to see whether
 the key has expired and once to work out the new deadline.
 */
module Locks {
  import opened Wrappers

  datatype Lease = Lease(owner: string, until: Option<real>)

  type Leases = map<string, Lease>

  predicate Expired(lease: Lease, now: real) {
    lease.until.Some? && now > lease.until.value
  }

  /** Who holds the key at this time, if anybody does. */
  function LiveOwner(leases: Leases, key: string, now: real): Option<string> {
    if key in leases && !Expired(leases[key], now) then Some(leases[key].owner) else None
  }

  /** When a value set now runs out; a time to live of 0 counts as none. */
  function Deadline(ex: Option<int>, px: Option<int>, now: real): Option<real> {
    if ex.Some? && ex.value != 0 then Some(now + ex.value as real)
    else if px.Some? && px.value != 0 then Some(now + px.value as real / 1000.0)
    else None
  }

  /** How long a value lives that is set now: ex seconds, or px milliseconds, or for ever if neither is given. */
  lemma LivesUntil(key: string, value: string, ex: Option<int>, px: Option<int>, now: real, later: real)
    ensures var live := LiveOwner(map[key := Lease(value, Deadline(ex, px, now))], key, later) == Some(value);
            && (ex.Some? && ex.value != 0 ==> (live <==> later - now <= ex.value as real))
            && ((ex == None || ex == Some(0)) && px.Some? && px.value != 0 ==>
                  (live <==> (later - now) * 1000.0 <= px.value as real))
            && ((ex == None || ex == Some(0)) && (px == None || px == Some(0)) ==> live)
  {
  }

  function SetIfFree(leases: Leases, key: string, owner: string, until: Option<real>, now: real): Leases {
    if LiveOwner(leases, key, now).None? then leases[key := Lease(owner, until)] else leases
  }

  /** The release script: only the owner's unexpired lease, or an expired one, goes. */
  function ReleaseIfOwner(leases: Leases, key: string, owner: string, now: real): Leases {
    if key in leases && (Expired(leases[key], now) || leases[key].owner == owner) then leases - {key} else leases
  }

  // ----- The client -----

  /** The leases that a table of values and a table of deadlines stand for. */
  function Combined(data: map<string, string>, ttls: map<string, real>): Leases {
    map k | k in data :: Lease(data[k], if k in ttls then Some(ttls[k]) else None)
  }

  lemma CombinedPut(data: map<string, string>, ttls: map<string, real>, key: string, value: string, until: Option<real>)
    ensures var ttls' := if until.Some? then ttls[key := until.value] else ttls - {key};
            Combined(data[key := value], ttls') == Combined(data, ttls)[key := Lease(value, until)]
  {
  }

  lemma CombinedOwner(data: map<string, string>, ttls: map<string, real>, key: string, now: real)
    ensures LiveOwner(Combined(data, ttls), key, now) ==
            if key !in data || (key in ttls && now > ttls[key]) then None else Some(data[key])
  {
  }

  class MockRedisClient {
    var data: map<string, string>
    var ttls: map<string, real>

    ghost predicate Valid()
      reads this
    {
      ttls.Keys <= data.Keys
    }

    function Contents(): Leases
      reads this
    {
      Combined(data, ttls)
    }

    constructor ()
      ensures Valid() && Contents() == map[]
    {
      data := map[];
      ttls := map[];
    }

    /** Somebody else's doing: the client holds these leases now. */
    method Become(leases: Leases)
      modifies this
      ensures Valid() && Contents() == leases
    {
      data := map k | k in leases :: leases[k].owner;
      ttls := map k | k in leases && leases[k].until.Some? :: leases[k].until.value;
    }

    method Get(key: string, now: real) returns (r: Option<string>)
      requires Valid()
      modifies this
      ensures Valid() && r == LiveOwner(old(Contents()), key, now)
      ensures Contents() == if key in old(Contents()) && r.None? then old(Contents()) - {key} else old(Contents())
    {
      if key in ttls && now > ttls[key] {
        var count := Delete(key);
        return None;
      }
      return if key in data then Some(data[key]) else None;
    }

    method Set(key: string, value: string, ex: Option<int>, px: Option<int>, nx: bool, now: real, later: real)
      returns (ok: bool)
      requires Valid()
      modifies this
      ensures Valid() && (ok <==> !nx || LiveOwner(old(Contents()), key, now).None?)
      ensures Contents() ==
              if ok then old(Contents())[key := Lease(value, Deadline(ex, px, later))] else old(Contents())
    {
      hide Combined, LiveOwner;
      CombinedOwner(data, ttls, key, now);
      CombinedPut(data, ttls, key, value, Deadline(ex, px, later));
      if nx && key in data {
        if key !in ttls || now <= ttls[key] {
          return false;
        }
      }
      data := data[key := value];
      if ex.Some? && ex.value != 0 {
        ttls := ttls[key := later + ex.value as real];
      } else if px.Some? && px.value != 0 {
        ttls := ttls[key := later + px.value as real / 1000.0];
      } else {
        ttls := ttls - {key};
      }
      return true;
    }

    method Delete(key: string) returns (count: nat)
      requires Valid()
      modifies this
      ensures Valid() && Contents() == old(Contents()) - {key}
      ensures count == if key in old(Contents()) then 1 else 0
    {
      count := 0;
      if key in data {
        data := data - {key};
        ttls := ttls - {key};
        count := 1;
      }
    }

    /** EVAL of the release-if-owner script. */
    method Release(key: string, owner: string, now: real) returns (count: nat)
      requires Valid()
      modifies this
      ensures Valid() && Contents() == ReleaseIfOwner(old(Contents()), key, owner, now)
      ensures count == 1 <==> LiveOwner(old(Contents()), key, now) == Some(owner)
    {
      var holder := Get(key, now);
      if holder == Some(owner) {
        count := Delete(key);
        return 1;
      }
      return 0;
    }
  }

  // ----- The lock providers -----

  class RedisLockProvider {
    const client: MockRedisClient

    constructor (client: MockRedisClient)
      ensures this.client == client
    {
      this.client := client;
    }

    /** acquire, up to the yield; token is the fresh uuid of this context. */
    method Enter(key: string, token: string, ttlSeconds: int, now: real, later: real) returns (acquired: bool)
      requires client.Valid()
      modifies client
      ensures client.Valid() && (acquired <==> LiveOwner(old(client.Contents()), key, now).None?)
      ensures client.Contents() ==
              SetIfFree(old(client.Contents()), key, token, Deadline(Some(ttlSeconds), None, later), now)
    {
      acquired := client.Set(key, token, Some(ttlSeconds), None, true, now, later);
    }

    /** acquire, after the yield. */
    method Exit(key: string, token: string, acquired: bool, now: real)
      requires client.Valid()
      modifies client
      ensures client.Valid()
      ensures client.Contents() ==
              if acquired then ReleaseIfOwner(old(client.Contents()), key, token, now) else old(client.Contents())
    {
      if acquired {
        var count := client.Release(key, token, now);
      }
    }
  }

  /** What others do to the leases during the sleep after the n-th try. */
  type Meddling = (nat, Leases) -> Leases

  class RedisLock {
    const client: MockRedisClient
    const key: string
    const token: string
    const expireSeconds: int
    const acquireTimeout: real
    var acquired: bool

    constructor (client: MockRedisClient, lockName: string, token: string, expireSeconds: int, acquireTimeout: real)
      ensures this.client == client && key == "lock:" + lockName && this.token == token
      ensures this.expireSeconds == expireSeconds && this.acquireTimeout == acquireTimeout && !acquired
    {
      this.client := client;
      key := "lock:" + lockName;
      this.token := token;
      this.expireSeconds := expireSeconds;
      this.acquireTimeout := acquireTimeout;
      acquired := false;
    }

    /**
     The clocks of one __enter__. The timeout is counted on perf, a performance counter that
     reads start at the beginning and tick(i) before the i-th try; a tenth of a second is slept
     between two tries. The client goes by the time of day: now(i), and later(i) once more, in
     the SET of the i-th try. Nothing relates the two clocks.
     */
    ghost static predicate Ticking(tick: nat -> real) {
      forall i: nat :: tick(i + 1) >= tick(i) + 0.1
    }

    static lemma TickAt(tick: nat -> real, i: nat)
      requires Ticking(tick)
      ensures tick(i + 1) >= tick(i) + 0.1
    {
    }

    /** The leases at the n-th try, when anything may happen to them during the sleeps in between. */
    ghost static function Seen(leases: Leases, meddle: Meddling, n: nat): Leases {
      if n == 0 then leases else meddle(n - 1, Seen(leases, meddle, n - 1))
    }

    /** The first n tries were in time and found the key held. */
    ghost predicate FoundHeld(
      leases: Leases, meddle: Meddling, start: real, tick: nat -> real, now: nat -> real, n: nat)
    {
      forall i: nat {:trigger tick(i)} {:trigger now(i)} :: i < n ==>
        tick(i) - start < acquireTimeout && LiveOwner(Seen(leases, meddle, i), key, now(i)).Some?
    }

    lemma NothingFound(leases: Leases, meddle: Meddling, start: real, tick: nat -> real, now: nat -> real)
      ensures FoundHeld(leases, meddle, start, tick, now, 0)
    {
    }

    lemma FoundHeldOnce(
      leases: Leases, meddle: Meddling, start: real, tick: nat -> real, now: nat -> real, n: nat)
      requires FoundHeld(leases, meddle, start, tick, now, n) && tick(n) - start < acquireTimeout
      requires LiveOwner(Seen(leases, meddle, n), key, now(n)).Some?
      ensures FoundHeld(leases, meddle, start, tick, now, n + 1)
    {
    }

    /** How many tries the remaining time has room for. */
    ghost static function TriesLeft(left: real): int {
      (left * 10.0).Floor
    }

    static lemma TriesRunOut(left: real, left': real)
      requires left > 0.0 && left' <= left - 0.1
      ensures 0 <= TriesLeft(left) && TriesLeft(left') < TriesLeft(left)
    {
      assert left' * 10.0 <= left * 10.0 - 1.0;
    }

    /**
     __enter__, whatever others do to the client while it sleeps: the lock is taken at the
     first try that finds the key free; otherwise, when the time is up, TimeoutError.
     */
    method Enter(start: real, tick: nat -> real, now: nat -> real, later: nat -> real, meddle: Meddling)
      returns (ok: bool, tries: nat)
      requires client.Valid() && Ticking(tick)
      modifies this, client
      ensures client.Valid() && FoundHeld(old(client.Contents()), meddle, start, tick, now, tries)
      ensures var seen := Seen(old(client.Contents()), meddle, tries);
              if ok then
                && acquired && tick(tries) - start < acquireTimeout && LiveOwner(seen, key, now(tries)).None?
                && client.Contents() ==
                   SetIfFree(seen, key, token, Deadline(Some(expireSeconds), None, later(tries)), now(tries))
              else
                acquired == old(acquired) && client.Contents() == seen && tick(tries) - start >= acquireTimeout
    {
      hide Ticking, TriesLeft, Deadline, LiveOwner, FoundHeld, Combined;
      NothingFound(client.Contents(), meddle, start, tick, now);
      tries := 0;
      while tick(tries) - start < acquireTimeout
        invariant client.Valid() && acquired == old(acquired)
        invariant client.Contents() == Seen(old(client.Contents()), meddle, tries)
        invariant FoundHeld(old(client.Contents()), meddle, start, tick, now, tries)
        decreases TriesLeft(acquireTimeout + start - tick(tries))
      {
        TickAt(tick, tries);
        TriesRunOut(acquireTimeout + start - tick(tries), acquireTimeout + start - tick(tries + 1));
        var done := client.Set(key, token, Some(expireSeconds), None, true, now(tries), later(tries));
        if done {
          acquired := true;
          return true, tries;
        }
        FoundHeldOnce(old(client.Contents()), meddle, start, tick, now, tries);
        client.Become(meddle(tries, client.Contents()));
        tries := tries + 1;
      }
      return false, tries;
    }

    method Exit(now: real)
      requires client.Valid()
      modifies this, client
      ensures client.Valid() && !acquired
      ensures client.Contents() ==
              if old(acquired) then ReleaseIfOwner(old(client.Contents()), key, token, now) else old(client.Contents())
    {
      if acquired {
        var count := client.Release(key, token, now);
        acquired := false;
      }
    }
  }

  class InMemoryLockProvider {
    var keys: set<string>
    /** The keys of the contexts that acquired and have not been left. */
    ghost var inside: multiset<string>

    /** The key set is exactly the keys of the contexts inside, and nobody shares one. */
    ghost predicate Valid()
      reads this
    {
      (forall k :: k in keys <==> k in inside) && forall k :: inside[k] <= 1
    }

    constructor ()
      ensures Valid() && inside == multiset{}
    {
      keys := {};
      inside := multiset{};
    }

    method Enter(key: string) returns (acquired: bool)
      requires Valid()
      modifies this
      ensures Valid() && (acquired <==> key !in old(inside))
      ensures inside == if acquired then old(inside) + multiset{key} else old(inside)
    {
      acquired := key !in keys;
      if acquired {
        keys := keys + {key};
        inside := inside + multiset{key};
      }
    }

    method Exit(key: string, acquired: bool)
      requires Valid() && (acquired ==> key in inside)
      modifies this
      ensures Valid()
      ensures inside == if acquired then old(inside) - multiset{key} else old(inside)
    {
      if acquired {
        keys := keys - {key};
        inside := inside - multiset{key};
      }
    }
  }

  // ----- Whole runs of token locks -----

  /** A critical section: a context that acquired and has not been left. */
  datatype Section = Section(key: string, token: string, until: Option<real>)

  datatype System = System(leases: Leases, inside: set<Section>, now: real)

  datatype Action =
    | TryEnter(key: string, token: string, ttl: int, time: real, later: real)
    | Leave(section: Section, time: real)

  function Apply(s: System, a: Action): System {
    match a
    case TryEnter(key, token, ttl, time, later) =>
      var until := Deadline(Some(ttl), None, later);
      if LiveOwner(s.leases, key, time).None? then
        System(SetIfFree(s.leases, key, token, until, time), s.inside + {Section(key, token, until)}, later)
      else System(s.leases, s.inside, time)
    case Leave(section, time) =>
      System(ReleaseIfOwner(s.leases, section.key, section.token, time), s.inside - {section}, time)
  }

  /** The clock does not run backwards, a token serves one context at a time, and only contexts inside leave. */
  ghost predicate Allowed(s: System, a: Action) {
    && s.now <= a.time
    && match a
       case TryEnter(_, token, _, time, later) => time <= later && forall c :: c in s.inside ==> c.token != token
       case Leave(section, _) => section in s.inside
  }

  ghost predicate IsRun(s: System, run: seq<Action>)
    decreases |run|
  {
    run == [] || (Allowed(s, run[0]) && IsRun(Apply(s, run[0]), run[1..]))
  }

  function After(s: System, run: seq<Action>): System
    decreases |run|
  {
    if run == [] then s else After(Apply(s, run[0]), run[1..])
  }

  predicate Overdue(c: Section, now: real) {
    c.until.Some? && now > c.until.value
  }

  /** Sections hold distinct tokens, and every section within its time owns its key. */
  ghost predicate Guarded(s: System) {
    && (forall c, d {:trigger c in s.inside, d in s.inside} ::
          c in s.inside && d in s.inside && c.token == d.token ==> c == d)
    && (forall c {:trigger c in s.inside} :: c in s.inside && !Overdue(c, s.now) ==>
          c.key in s.leases && s.leases[c.key] == Lease(c.token, c.until))
  }

  lemma StepKeepsGuarded(s: System, a: Action)
    requires Guarded(s) && Allowed(s, a)
    ensures Guarded(Apply(s, a))
  {
    var s' := Apply(s, a);
    forall c | c in s'.inside && !Overdue(c, s'.now)
      ensures c.key in s'.leases && s'.leases[c.key] == Lease(c.token, c.until)
    {
      if c in s.inside {
        assert !Overdue(c, s.now);
      }
    }
  }

  lemma {:induction false} RunsKeepGuarded(s: System, run: seq<Action>)
    requires Guarded(s) && IsRun(s, run)
    ensures Guarded(After(s, run))
    decreases |run|
  {
    if run != [] {
      StepKeepsGuarded(s, run[0]);
      RunsKeepGuarded(Apply(s, run[0]), run[1..]);
    }
  }

  /** In every reachable state a key has at most one section that is within its time. */
  lemma OneLiveHolder(run: seq<Action>, start: real, c: Section, d: Section)
    requires IsRun(System(map[], {}, start), run)
    requires var s := After(System(map[], {}, start), run);
             c in s.inside && d in s.inside && c.key == d.key && !Overdue(c, s.now) && !Overdue(d, s.now)
    ensures c == d
  {
    RunsKeepGuarded(System(map[], {}, start), run);
  }

  /** Leaving a section, late or not, never takes an unexpired lease from another owner. */
  lemma LeavingSparesOthers(s: System, section: Section, time: real, key: string, t: real)
    requires LiveOwner(s.leases, key, time) != Some(section.token) && t >= time
    ensures LiveOwner(Apply(s, Leave(section, time)).leases, key, t) == LiveOwner(s.leases, key, t)
  {
  }

  /** A section left in time gives its key free at once. */
  lemma LeavingInTimeFrees(s: System, section: Section, time: real)
    requires Guarded(s) && Allowed(s, Leave(section, time)) && !Overdue(section, time)
    ensures LiveOwner(Apply(s, Leave(section, time)).leases, section.key, time).None?
  {
  }

  /** Every section of the run is left within its time, or is still within it at the end. */
  ghost predicate Punctual(s: System, run: seq<Action>)
    decreases |run|
  {
    if run == [] then forall c :: c in s.inside ==> !Overdue(c, s.now)
    else (run[0].Leave? ==> !Overdue(run[0].section, run[0].time)) && Punctual(Apply(s, run[0]), run[1..])
  }

  /** In a punctual run nobody inside is ever overdue. */
  lemma {:induction false} PunctualMeansInTime(s: System, run: seq<Action>, c: Section)
    requires IsRun(s, run) && Punctual(s, run) && c in s.inside
    ensures !Overdue(c, s.now)
    decreases |run|
  {
    if run != [] && c in Apply(s, run[0]).inside {
      PunctualMeansInTime(Apply(s, run[0]), run[1..], c);
    }
  }

  lemma {:induction false} PunctualSuffix(s: System, run: seq<Action>, n: nat)
    requires IsRun(s, run) && Punctual(s, run) && n <= |run|
    ensures IsRun(s, run[..n]) && IsRun(After(s, run[..n]), run[n..]) && Punctual(After(s, run[..n]), run[n..])
    decreases n
  {
    if n == 0 {
      assert run[0..] == run;
    } else {
      PunctualSuffix(Apply(s, run[0]), run[1..], n - 1);
      assert run[..n][1..] == run[1..][..n - 1] && run[1..][n - 1..] == run[n..];
    }
  }

  /** If every section ends within its time, then at every moment of the run at most one holder per key is inside. */
  lemma MutualExclusion(run: seq<Action>, start: real, n: nat, c: Section, d: Section)
    requires var s := System(map[], {}, start); IsRun(s, run) && Punctual(s, run) && n <= |run|
    requires var s := After(System(map[], {}, start), run[..n]); c in s.inside && d in s.inside && c.key == d.key
    ensures c == d
  {
    var s := System(map[], {}, start);
    PunctualSuffix(s, run, n);
    PunctualMeansInTime(After(s, run[..n]), run[n..], c);
    PunctualMeansInTime(After(s, run[..n]), run[n..], d);
    OneLiveHolder(run[..n], start, c, d);
  }

  // ----- When mutual exclusion fails -----

  /** Every live lease belongs to a section inside. */
  ghost predicate Owned(s: System) {
    forall k {:trigger s.leases[k]} :: k in s.leases && !Expired(s.leases[k], s.now) ==>
      Section(k, s.leases[k].owner, s.leases[k].until) in s.inside
  }

  lemma StepKeepsOwned(s: System, a: Action)
    requires Guarded(s) && Owned(s) && Allowed(s, a)
    ensures Owned(Apply(s, a))
  {
    var s' := Apply(s, a);
    forall k | k in s'.leases && !Expired(s'.leases[k], s'.now)
      ensures Section(k, s'.leases[k].owner, s'.leases[k].until) in s'.inside
    {
      if k in s.leases && s'.leases[k] == s.leases[k] {
        assert !Expired(s.leases[k], s.now);
      }
    }
  }

  ghost predicate Exclusive(s: System) {
    forall c, d {:trigger c in s.inside, d in s.inside} :: c in s.inside && d in s.inside && c.key == d.key ==> c == d
  }

  /** The action is a try while some section on its key is overdue. */
  ghost predicate TriesOverdue(s: System, a: Action) {
    a.TryEnter? && exists c :: c in s.inside && c.key == a.key && Overdue(c, a.time)
  }

  /** A try while a section on the key is overdue leaves two sections inside on that key. */
  lemma OverdueLetsAnotherIn(s: System, a: Action, c: Section)
    requires Guarded(s) && Owned(s) && Allowed(s, a) && a.TryEnter?
    requires c in s.inside && c.key == a.key && Overdue(c, a.time)
    ensures exists d :: d in Apply(s, a).inside && d.key == c.key && d != c
  {
    var s' := Apply(s, a);
    assert c in s'.inside;
    if LiveOwner(s.leases, a.key, a.time).Some? {
      var lease := s.leases[a.key];
      assert !Expired(lease, s.now);
      assert Section(a.key, lease.owner, lease.until) in s'.inside;
    } else {
      assert Section(a.key, a.token, Deadline(Some(a.ttl), None, a.later)) in s'.inside;
    }
  }

  lemma {:induction false} RunsKeepOwned(s: System, run: seq<Action>)
    requires Guarded(s) && Owned(s) && IsRun(s, run)
    ensures Guarded(After(s, run)) && Owned(After(s, run))
    decreases |run|
  {
    if run != [] {
      StepKeepsGuarded(s, run[0]);
      StepKeepsOwned(s, run[0]);
      RunsKeepOwned(Apply(s, run[0]), run[1..]);
    }
  }

  /** So in every reachable state with an overdue section inside, the next try on its key leaves two inside. */
  lemma OverrunAlwaysLetsTwoIn(run: seq<Action>, start: real, a: Action, c: Section)
    requires IsRun(System(map[], {}, start), run)
    requires var s := After(System(map[], {}, start), run);
             Allowed(s, a) && a.TryEnter? && c in s.inside && c.key == a.key && Overdue(c, a.time)
    ensures var s' := Apply(After(System(map[], {}, start), run), a);
            c in s'.inside && exists d :: d in s'.inside && d.key == c.key && d != c
  {
    RunsKeepOwned(System(map[], {}, start), run);
    OverdueLetsAnotherIn(After(System(map[], {}, start), run), a, c);
  }

  /** For instance: a section of one second is still inside when, two seconds later, the next one enters. */
  lemma OverrunLetsTwoIn(key: string, a: string, b: string)
    requires a != b
    ensures var run := [TryEnter(key, a, 1, 0.0, 0.0), TryEnter(key, b, 1, 2.0, 2.0)];
            var s := After(System(map[], {}, 0.0), run);
            && IsRun(System(map[], {}, 0.0), run)
            && s.inside == {Section(key, a, Some(1.0)), Section(key, b, Some(3.0))}
  {
    var s0 := System(map[], {}, 0.0);
    var first, second := TryEnter(key, a, 1, 0.0, 0.0), TryEnter(key, b, 1, 2.0, 2.0);
    var s1 := Apply(s0, first);
    assert s1.inside == {Section(key, a, Some(1.0))} && s1.leases == map[key := Lease(a, Some(1.0))];
    assert [first, second][1..] == [second] && [second][1..] == [];
    var s2 := Apply(s1, second);
    assert s2.inside == {Section(key, a, Some(1.0)), Section(key, b, Some(3.0))};
    assert IsRun(s1, [second]) && After(s1, [second]) == s2;
  }

  /** An exclusive state stays exclusive exactly when the next action is no try against an overdue section. */
  lemma StaysExclusiveIff(s: System, a: Action)
    requires Guarded(s) && Owned(s) && Exclusive(s) && Allowed(s, a)
    ensures Exclusive(Apply(s, a)) <==> !TriesOverdue(s, a)
  {
    if TriesOverdue(s, a) {
      var c :| c in s.inside && c.key == a.key && Overdue(c, a.time);
      OverdueLetsAnotherIn(s, a, c);
      assert c in Apply(s, a).inside;
    } else if a.TryEnter? {
      forall c | c in s.inside && c.key == a.key ensures LiveOwner(s.leases, a.key, a.time).Some? {
        assert !Overdue(c, s.now);
      }
    }
  }

  ghost predicate AlwaysExclusive(s: System, run: seq<Action>)
    decreases |run|
  {
    Exclusive(s) && (run == [] || AlwaysExclusive(Apply(s, run[0]), run[1..]))
  }

  ghost predicate NeverTriesOverdue(s: System, run: seq<Action>)
    decreases |run|
  {
    run == [] || (!TriesOverdue(s, run[0]) && NeverTriesOverdue(Apply(s, run[0]), run[1..]))
  }

  lemma {:induction false} ExclusiveIffFrom(s: System, run: seq<Action>)
    requires Guarded(s) && Owned(s) && Exclusive(s) && IsRun(s, run)
    ensures AlwaysExclusive(s, run) <==> NeverTriesOverdue(s, run)
    decreases |run|
  {
    if run != [] {
      var t := Apply(s, run[0]);
      StepKeepsGuarded(s, run[0]);
      StepKeepsOwned(s, run[0]);
      StaysExclusiveIff(s, run[0]);
      if Exclusive(t) {
        ExclusiveIffFrom(t, run[1..]);
      }
    }
  }

  /**
   At every moment of a run at most one section per key is inside, exactly when nobody tries
   to enter on a key while a section inside on that key is overdue.
   */
  lemma ExclusiveIffNoOverdueTry(run: seq<Action>, start: real)
    requires IsRun(System(map[], {}, start), run)
    ensures AlwaysExclusive(System(map[], {}, start), run) <==> NeverTriesOverdue(System(map[], {}, start), run)
  {
    ExclusiveIffFrom(System(map[], {}, start), run);
  }

  // ----- Locks without a time to live -----

  /** Nobody leaves this section during the run. */
  predicate NotLeft(c: Section, run: seq<Action>) {
    forall i :: 0 <= i < |run| ==> run[i] != Leave(c, run[i].time)
  }

  /** A section without a deadline keeps its key, and everybody else out, until it is left. */
  lemma {:induction false} UnlimitedHoldsOn(s: System, run: seq<Action>, c: Section, t: real)
    requires Guarded(s) && IsRun(s, run) && c in s.inside && c.until.None? && NotLeft(c, run)
    ensures var s' := After(s, run);
            && c in s'.inside && LiveOwner(s'.leases, c.key, t) == Some(c.token)
            && forall d :: d in s'.inside && d.key == c.key ==> d in s.inside
    decreases |run|
  {
    assert !Overdue(c, s.now);
    if run != [] {
      StepKeepsGuarded(s, run[0]);
      assert run[0] != Leave(c, run[0].time);
      forall i | 0 <= i < |run[1..]| ensures run[1..][i] != Leave(c, run[1..][i].time) {
        assert run[1..][i] == run[i + 1];
      }
      var s1 := Apply(s, run[0]);
      assert LiveOwner(s.leases, c.key, run[0].time).Some?;
      UnlimitedHoldsOn(s1, run[1..], c, t);
    }
  }

  /** A time to live of zero is none: a lock so taken refuses every other try until its holder leaves. */
  lemma ZeroTtlNeverExpires(s: System, key: string, token: string, time: real, later: real, run: seq<Action>, t: real)
    requires var a := TryEnter(key, token, 0, time, later);
             && Guarded(s) && Allowed(s, a) && LiveOwner(s.leases, key, time).None?
             && IsRun(Apply(s, a), run) && NotLeft(Section(key, token, None), run)
    ensures var s1 := Apply(s, TryEnter(key, token, 0, time, later));
            var s' := After(s1, run);
            && LiveOwner(s'.leases, key, t) == Some(token)
            && forall d :: d in s'.inside && d.key == key ==> d in s1.inside
  {
    var a := TryEnter(key, token, 0, time, later);
    StepKeepsGuarded(s, a);
    assert Section(key, token, None) in Apply(s, a).inside;
    UnlimitedHoldsOn(Apply(s, a), run, Section(key, token, None), t);
  }
}

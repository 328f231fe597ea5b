/** The key cache under concurrent lookups. A lookup reads the cache under the
    lock, lets go of it, waits for a refresh that all waiting lookups share, and
    concludes; any other steps may come between. */
module JwksConcurrent {
  import opened Prelude
  import opened Jwks

  /** The shared refresh: none, fetching, holding a key set stamped with the
      time it will be stored under, or finished. `at` is that stamp. */
  datatype Flight<K> = Idle | Running | Stamped(keys: map<string, K>, at: int) | Done(ok: bool, at: int)

  datatype Stage = Snapshot | Joined | Released(ok: bool, since: int)

  /** A lookup that missed, with what it saw of the cache. */
  datatype Waiter<K> = Waiter(kid: string, cached: Option<K>, staleOk: int, stage: Stage)

  /** Where an answer comes from. `since` is the stamp of the refresh that the
      lookup waited for. */
  datatype Source = FromHit | FromStale | FromRefresh(since: int)

  datatype Answered<K> = Answered(kid: string, key: K, at: int, source: Source)

  /** `clock` is the latest reading, `fetches` the key sets stored so far, and
      `answers` the keys given out, oldest first. */
  datatype State<K> = State(
    cache: Cache<K>,
    clock: int,
    flight: Flight<K>,
    waiting: map<nat, Waiter<K>>,
    fetches: seq<Fetch<K>>,
    answers: seq<Answered<K>>)

  datatype Step<K> =
    | Look(id: nat, kid: string, now: int)    // the section under the read lock
    | Join(id: nat)                           // the shared refresh is entered, and started if there is none
    | Stamp(keys: map<string, K>, at: int)    // the refresh has its key set and reads the clock
    | Store                                   // the refresh replaces the cache
    | Fail                                    // the refresh ends with an error
    | Land                                    // its outcome reaches every lookup that joined
    | Conclude(id: nat, now: int)             // a released lookup answers

  function Begin<K>(ttl: int, first: Fetch<K>): State<K>
  {
    State(Stored(ttl, first.keys, first.at), first.at, Idle, map[], [first], [])
  }

  predicate Enabled<K>(s: State<K>, step: Step<K>)
  {
    match step
    case Look(id, _, now) => id !in s.waiting && now >= s.clock
    case Join(id) => id in s.waiting && s.waiting[id].stage.Snapshot?
    case Stamp(_, at) => s.flight.Running? && at >= s.clock
    case Store => s.flight.Stamped?
    case Fail => s.flight.Running?
    case Land => s.flight.Done?
    case Conclude(id, now) => id in s.waiting && s.waiting[id].stage.Released? && now >= s.clock
  }

  function Find<K>(keys: map<string, K>, kid: string): Option<K>
  {
    if kid in keys then Some(keys[kid]) else None
  }

  function Landed<K>(waiting: map<nat, Waiter<K>>, ok: bool, since: int): map<nat, Waiter<K>>
  {
    map id | id in waiting ::
      if waiting[id].stage.Joined? then waiting[id].(stage := Released(ok, since)) else waiting[id]
  }

  /** What a released lookup answers. */
  function Conclusion<K>(s: State<K>, w: Waiter<K>, now: int): seq<Answered<K>>
    requires w.stage.Released?
  {
    if w.stage.ok then
      match Find(s.cache.keys, w.kid)
      case Some(key) => [Answered(w.kid, key, now, FromRefresh(w.stage.since))]
      case None => []
    else if w.cached.Some? && now < w.staleOk then [Answered(w.kid, w.cached.value, now, FromStale)]
    else []
  }

  function Apply<K>(ttl: int, s: State<K>, step: Step<K>): State<K>
    requires Enabled(s, step)
  {
    match step
    case Look(id, kid, now) =>
      var found := Find(s.cache.keys, kid);
      if now < s.cache.expiresAt && found.Some? then
        s.(clock := now, answers := s.answers + [Answered(kid, found.value, now, FromHit)])
      else
        s.(clock := now, waiting := s.waiting[id := Waiter(kid, found, s.cache.staleOk, Snapshot)])
    case Join(id) =>
      s.(waiting := s.waiting[id := s.waiting[id].(stage := Joined)],
         flight := if s.flight.Idle? then Running else s.flight)
    case Stamp(keys, at) => s.(clock := at, flight := Stamped(keys, at))
    case Store =>
      var Stamped(keys, at) := s.flight;
      s.(cache := Stored(ttl, keys, at), fetches := s.fetches + [Fetch(keys, at)], flight := Done(true, at))
    case Fail => s.(flight := Done(false, s.clock))
    case Land => s.(flight := Idle, waiting := Landed(s.waiting, s.flight.ok, s.flight.at))
    case Conclude(id, now) =>
      s.(clock := now, waiting := s.waiting - {id}, answers := s.answers + Conclusion(s, s.waiting[id], now))
  }

  predicate Possible<K>(ttl: int, s: State<K>, steps: seq<Step<K>>)
    decreases |steps|
  {
    |steps| == 0 || (Enabled(s, steps[0]) && Possible(ttl, Apply(ttl, s, steps[0]), steps[1..]))
  }

  function Exec<K>(ttl: int, s: State<K>, steps: seq<Step<K>>): State<K>
    requires Possible(ttl, s, steps)
    decreases |steps|
  {
    if |steps| == 0 then s else Exec(ttl, Apply(ttl, s, steps[0]), steps[1..])
  }

  // ---------------------------------------------------------------- what every step keeps

  function Latest<K>(s: State<K>): Fetch<K>
    requires |s.fetches| > 0
  {
    s.fetches[|s.fetches| - 1]
  }

  /** The cache is the latest fetch, stamps are in order, and none lies ahead. */
  ghost predicate CacheInv<K>(ttl: int, s: State<K>)
  {
    && |s.fetches| > 0 && s.cache == Stored(ttl, Latest(s).keys, Latest(s).at)
    && Latest(s).at <= s.clock
    && (forall i, j | 0 <= i < j < |s.fetches| :: s.fetches[i].at <= s.fetches[j].at)
    && (s.flight.Stamped? ==> Latest(s).at <= s.flight.at <= s.clock)
    && (s.flight.Done? && s.flight.ok ==> s.flight.at <= Latest(s).at)
  }

  /** The snapshot of a waiting lookup is one of the fetches. */
  ghost predicate WaiterFrom<K>(ttl: int, f: Fetch<K>, w: Waiter<K>)
  {
    w.cached == Find(f.keys, w.kid) && w.staleOk == f.at + EffectiveTtl(ttl) + GRACE
  }

  ghost predicate WaiterInv<K(!new)>(ttl: int, s: State<K>, w: Waiter<K>)
    requires |s.fetches| > 0
  {
    && (exists f :: f in s.fetches && WaiterFrom(ttl, f, w))
    && (w.stage.Released? && w.stage.ok ==> w.stage.since <= Latest(s).at)
  }

  /** An answer is a key of some fetch made no later: within the time to live on
      a hit, within the grace period when stale, and otherwise from a fetch not
      older than the one waited for. */
  ghost predicate AnsweredFrom<K>(ttl: int, f: Fetch<K>, a: Answered<K>)
  {
    && Find(f.keys, a.kid) == Some(a.key) && f.at <= a.at
    && match a.source
       case FromHit => a.at < f.at + EffectiveTtl(ttl)
       case FromStale => a.at < f.at + EffectiveTtl(ttl) + GRACE
       case FromRefresh(since) => since <= f.at
  }

  ghost predicate Sourced<K(!new)>(ttl: int, s: State<K>, a: Answered<K>)
  {
    exists f :: f in s.fetches && AnsweredFrom(ttl, f, a)
  }

  ghost predicate Inv<K(!new)>(ttl: int, s: State<K>)
  {
    && CacheInv(ttl, s)
    && (forall id | id in s.waiting :: WaiterInv(ttl, s, s.waiting[id]))
    && (forall a | a in s.answers :: Sourced(ttl, s, a))
  }

  lemma BeginInv<K(!new)>(ttl: int, first: Fetch<K>)
    ensures Inv(ttl, Begin(ttl, first))
  {}

  /** Fetches are only added, with stamps in order. */
  ghost predicate Grows<K>(s: State<K>, t: State<K>)
  {
    0 < |s.fetches| && s.fetches <= t.fetches && Latest(s).at <= Latest(t).at
  }

  lemma StepKeepsCache<K(!new)>(ttl: int, s: State<K>, step: Step<K>)
    requires CacheInv(ttl, s) && Enabled(s, step)
    ensures CacheInv(ttl, Apply(ttl, s, step)) && Grows(s, Apply(ttl, s, step))
  {
    hide EffectiveTtl, Conclusion, Landed;
  }

  lemma WaiterKept<K(!new)>(ttl: int, s: State<K>, t: State<K>, w: Waiter<K>)
    requires Grows(s, t) && WaiterInv(ttl, s, w)
    ensures WaiterInv(ttl, t, w)
  {
    hide WaiterFrom;
    var f :| f in s.fetches && WaiterFrom(ttl, f, w);
    assert f in t.fetches;
  }

  lemma SourceKept<K(!new)>(ttl: int, s: State<K>, t: State<K>, a: Answered<K>)
    requires Grows(s, t) && Sourced(ttl, s, a)
    ensures Sourced(ttl, t, a)
  {
    hide AnsweredFrom;
    var f :| f in s.fetches && AnsweredFrom(ttl, f, a);
    assert f in t.fetches;
  }

  /** Every fetch is as old as the latest, or older. */
  lemma NotAhead<K(!new)>(ttl: int, s: State<K>, f: Fetch<K>)
    requires CacheInv(ttl, s) && f in s.fetches
    ensures f.at <= Latest(s).at <= s.clock
  {
    var i :| 0 <= i < |s.fetches| && s.fetches[i] == f;
  }

  lemma LookKeepsInv<K(!new)>(ttl: int, s: State<K>, step: Step<K>)
    requires Inv(ttl, s) && Enabled(s, step) && step.Look?
    ensures Inv(ttl, Apply(ttl, s, step))
  {
    hide EffectiveTtl, CacheInv, Conclusion, Landed;
    TtlMeans(ttl);
    var t := Apply(ttl, s, step);
    StepKeepsCache(ttl, s, step);
    CacheIsLatest(ttl, s);
    var f := Latest(s);
    assert f in t.fetches;
    if step.now < s.cache.expiresAt && step.kid in s.cache.keys {
      var a := Answered(step.kid, s.cache.keys[step.kid], step.now, FromHit);
      assert AnsweredFrom(ttl, f, a);
      OthersKept(ttl, s, t);
      assert Sourced(ttl, t, a);
    } else {
      assert WaiterFrom(ttl, f, t.waiting[step.id]);
      OthersKept(ttl, s, t);
    }
  }

  lemma CacheIsLatest<K(!new)>(ttl: int, s: State<K>)
    requires CacheInv(ttl, s)
    ensures |s.fetches| > 0 && Latest(s) in s.fetches && Latest(s).at <= s.clock
    ensures s.cache.keys == Latest(s).keys && s.cache.expiresAt == Latest(s).at + EffectiveTtl(ttl)
    ensures s.cache.staleOk == Latest(s).at + EffectiveTtl(ttl) + GRACE
  {
    hide EffectiveTtl;
  }

  /** What was true of old waiters and answers still is. */
  lemma OthersKept<K(!new)>(ttl: int, s: State<K>, t: State<K>)
    requires Inv(ttl, s) && Grows(s, t)
    ensures forall id | id in s.waiting :: WaiterInv(ttl, t, s.waiting[id])
    ensures forall a | a in s.answers :: Sourced(ttl, t, a)
  {
    hide WaiterInv, Sourced, CacheInv, Grows;
    GrowsBoth(s, t);
    forall id | id in s.waiting ensures WaiterInv(ttl, t, s.waiting[id]) { WaiterKept(ttl, s, t, s.waiting[id]); }
    forall a | a in s.answers ensures Sourced(ttl, t, a) { SourceKept(ttl, s, t, a); }
  }

  lemma GrowsBoth<K>(s: State<K>, t: State<K>)
    requires Grows(s, t)
    ensures |s.fetches| > 0 && |t.fetches| > 0
  {}

  lemma ConcludeKeepsInv<K(!new)>(ttl: int, s: State<K>, step: Step<K>)
    requires Inv(ttl, s) && Enabled(s, step) && step.Conclude?
    ensures Inv(ttl, Apply(ttl, s, step))
  {
    hide EffectiveTtl, CacheInv, Landed, Stored;
    var t := Apply(ttl, s, step);
    var w := s.waiting[step.id];
    StepKeepsCache(ttl, s, step);
    OthersKept(ttl, s, t);
    forall a | a in Conclusion(s, w, step.now) ensures Sourced(ttl, t, a) { ConclusionSourced(ttl, s, w, step.now, a); }
  }

  lemma ConclusionSourced<K(!new)>(ttl: int, s: State<K>, w: Waiter<K>, now: int, a: Answered<K>)
    requires CacheInv(ttl, s) && WaiterInv(ttl, s, w) && w.stage.Released? && now >= s.clock
    requires a in Conclusion(s, w, now)
    ensures Sourced(ttl, s, a)
  {
    hide EffectiveTtl, CacheInv;
    CacheIsLatest(ttl, s);
    if w.stage.ok {
      assert AnsweredFrom(ttl, Latest(s), a);
    } else {
      var f :| f in s.fetches && WaiterFrom(ttl, f, w);
      NotAhead(ttl, s, f);
      assert AnsweredFrom(ttl, f, a);
    }
  }

  lemma StageKept<K(!new)>(ttl: int, s: State<K>, w: Waiter<K>, stage: Stage)
    requires |s.fetches| > 0 && WaiterInv(ttl, s, w)
    requires stage.Released? && stage.ok ==> stage.since <= Latest(s).at
    ensures WaiterInv(ttl, s, w.(stage := stage))
  {
    hide EffectiveTtl;
    var f :| f in s.fetches && WaiterFrom(ttl, f, w);
    assert WaiterFrom(ttl, f, w.(stage := stage));
  }

  lemma JoinKeepsInv<K(!new)>(ttl: int, s: State<K>, step: Step<K>)
    requires Inv(ttl, s) && Enabled(s, step) && step.Join?
    ensures Inv(ttl, Apply(ttl, s, step))
  {
    hide Sourced, WaiterInv;
    StepKeepsCache(ttl, s, step);
    OthersKept(ttl, s, Apply(ttl, s, step));
    StageKept(ttl, Apply(ttl, s, step), s.waiting[step.id], Joined);
  }

  lemma LandKeepsInv<K(!new)>(ttl: int, s: State<K>, step: Step<K>)
    requires Inv(ttl, s) && Enabled(s, step) && step.Land?
    ensures Inv(ttl, Apply(ttl, s, step))
  {
    hide Sourced, WaiterInv;
    var t := Apply(ttl, s, step);
    StepKeepsCache(ttl, s, step);
    OthersKept(ttl, s, t);
    forall id | id in t.waiting ensures WaiterInv(ttl, t, t.waiting[id]) {
      if s.waiting[id].stage.Joined? { StageKept(ttl, t, s.waiting[id], Released(s.flight.ok, s.flight.at)); }
    }
  }

  lemma FlightKeepsInv<K(!new)>(ttl: int, s: State<K>, step: Step<K>)
    requires Inv(ttl, s) && Enabled(s, step) && (step.Stamp? || step.Store? || step.Fail?)
    ensures Inv(ttl, Apply(ttl, s, step))
  {
    hide Sourced, WaiterInv, CacheInv;
    StepKeepsCache(ttl, s, step);
    OthersKept(ttl, s, Apply(ttl, s, step));
  }

  lemma StepKeepsInv<K(!new)>(ttl: int, s: State<K>, step: Step<K>)
    requires Inv(ttl, s) && Enabled(s, step)
    ensures Inv(ttl, Apply(ttl, s, step))
  {
    hide Inv, Apply, Enabled;
    match step {
      case Look(_, _, _) => LookKeepsInv(ttl, s, step);
      case Join(_) => JoinKeepsInv(ttl, s, step);
      case Land => LandKeepsInv(ttl, s, step);
      case Conclude(_, _) => ConcludeKeepsInv(ttl, s, step);
      case _ => FlightKeepsInv(ttl, s, step);
    }
  }

  /** Every interleaving of any number of lookups and refreshes keeps all this. */
  lemma {:induction false} RunKeepsInv<K(!new)>(ttl: int, s: State<K>, steps: seq<Step<K>>)
    requires Inv(ttl, s) && Possible(ttl, s, steps)
    ensures Inv(ttl, Exec(ttl, s, steps))
    decreases |steps|
  {
    hide Inv, Apply, Enabled;
    if |steps| > 0 {
      StepKeepsInv(ttl, s, steps[0]);
      RunKeepsInv(ttl, Apply(ttl, s, steps[0]), steps[1..]);
    }
  }

  // ---------------------------------------------------------------- freshness

  /** The answers that a step gives. */
  function Given<K>(s: State<K>, step: Step<K>): seq<Answered<K>>
    requires Enabled(s, step)
  {
    match step
    case Look(_, kid, now) =>
      if now < s.cache.expiresAt && kid in s.cache.keys then [Answered(kid, s.cache.keys[kid], now, FromHit)] else []
    case Conclude(id, now) => Conclusion(s, s.waiting[id], now)
    case _ => []
  }

  lemma AnswersGrow<K>(ttl: int, s: State<K>, step: Step<K>)
    requires Enabled(s, step)
    ensures Apply(ttl, s, step).answers == s.answers + Given(s, step)
  {
    hide EffectiveTtl, Landed, Conclusion;
  }

  /** The answer is a key of a fetch f stored by then, f <= t < f + ttl + 5 minutes. */
  ghost predicate Fresh<K(!new)>(ttl: int, s: State<K>, a: Answered<K>)
  {
    exists f :: f in s.fetches && Within(ttl, f, a.kid, a.key, a.at)
  }

  /** The test that is left out: a lookup that answers after a refresh does so
      before the grace period of the key set it reads is over. */
  predicate InTime<K>(s: State<K>, step: Step<K>)
  {
    step.Conclude? && step.id in s.waiting && s.waiting[step.id].stage.Released? && s.waiting[step.id].stage.ok
    && s.waiting[step.id].kid in s.cache.keys
    ==> step.now < s.cache.staleOk
  }

  /** Whatever else holds the key, the latest fetch decides. */
  lemma LatestDecides<K(!new)>(ttl: int, s: State<K>, a: Answered<K>)
    requires CacheInv(ttl, s) && Find(Latest(s).keys, a.kid) == Some(a.key) && a.at >= s.clock
    ensures Fresh(ttl, s, a) <==> a.at < s.cache.staleOk
  {
    hide CacheInv, EffectiveTtl;
    TtlMeans(ttl);
    CacheIsLatest(ttl, s);
    if Fresh(ttl, s, a) {
      var f :| f in s.fetches && Within(ttl, f, a.kid, a.key, a.at);
      NotAhead(ttl, s, f);
    }
    if a.at < s.cache.staleOk { assert Within(ttl, Latest(s), a.kid, a.key, a.at); }
  }

  /** A stale answer was checked against its own snapshot. */
  lemma StaleIsFresh<K(!new)>(ttl: int, s: State<K>, w: Waiter<K>, a: Answered<K>)
    requires CacheInv(ttl, s) && WaiterInv(ttl, s, w) && a.at >= s.clock
    requires w.cached == Some(a.key) && w.kid == a.kid && a.at < w.staleOk
    ensures Fresh(ttl, s, a)
  {
    hide CacheInv, EffectiveTtl;
    TtlMeans(ttl);
    var f :| f in s.fetches && WaiterFrom(ttl, f, w);
    NotAhead(ttl, s, f);
    assert Within(ttl, f, a.kid, a.key, a.at);
  }

  lemma GivenFreshIff<K(!new)>(ttl: int, s: State<K>, step: Step<K>, a: Answered<K>)
    requires Inv(ttl, s) && Enabled(s, step) && a in Given(s, step)
    ensures Fresh(ttl, s, a) <==> InTime(s, step)
  {
    hide CacheInv, EffectiveTtl, WaiterInv, Fresh;
    CacheIsLatest(ttl, s);
    if step.Look? {
      LatestDecides(ttl, s, a);
    } else {
      var w := s.waiting[step.id];
      assert WaiterInv(ttl, s, w);
      if w.stage.ok { LatestDecides(ttl, s, a); } else { StaleIsFresh(ttl, s, w, a); }
    }
  }

  /** Freshness under concurrency, exactly: after every interleaving, a key that
      the next step answers at time t is in a fetch stored by then and made at
      some f <= t < f + ttl + 5 minutes if and only if the step is in time.
      Hits and stale answers always are. */
  lemma ConcurrentFreshness<K(!new)>(ttl: int, first: Fetch<K>, before: seq<Step<K>>, step: Step<K>, a: Answered<K>)
    requires Possible(ttl, Begin(ttl, first), before)
    requires Enabled(Exec(ttl, Begin(ttl, first), before), step)
    requires a in Given(Exec(ttl, Begin(ttl, first), before), step)
    ensures var s := Exec(ttl, Begin(ttl, first), before);
            Fresh(ttl, s, a) <==> InTime(s, step)
  {
    hide Possible, Exec, Inv, Given, Fresh, InTime;
    BeginInv(ttl, first);
    RunKeepsInv(ttl, Begin(ttl, first), before);
    GivenFreshIff(ttl, Exec(ttl, Begin(ttl, first), before), step, a);
  }

  /** No fetch made after r contains the key. */
  ghost predicate GoneAfter<K(!new)>(s: State<K>, kid: string, key: K, r: int)
  {
    forall f | f in s.fetches && f.at > r :: Find(f.keys, kid) != Some(key)
  }

  /** The answer comes less than ttl + 5 minutes after the key was last fetched. */
  ghost predicate Unrevoked<K(!new)>(ttl: int, s: State<K>, a: Answered<K>)
  {
    forall r | GoneAfter(s, a.kid, a.key, r) ::
      a.at < r + (if ttl == 0 then 3_600_000_000_000 else ttl) + 300_000_000_000
  }

  lemma FreshIsUnrevoked<K(!new)>(ttl: int, s: State<K>, a: Answered<K>)
    requires CacheInv(ttl, s) && a.at >= s.clock && (exists f :: f in s.fetches && Find(f.keys, a.kid) == Some(a.key))
    ensures Fresh(ttl, s, a) <==> Unrevoked(ttl, s, a)
  {
    hide CacheInv, EffectiveTtl;
    TtlMeans(ttl);
    if Unrevoked(ttl, s, a) {
      var f := LastHolder(ttl, s, a, |s.fetches|);
      NotAhead(ttl, s, f);
      assert GoneAfter(s, a.kid, a.key, f.at);
      assert Within(ttl, f, a.kid, a.key, a.at);
    }
  }

  /** The newest of the first n fetches that holds the key. */
  lemma {:induction false} LastHolder<K(!new)>(ttl: int, s: State<K>, a: Answered<K>, n: nat) returns (f: Fetch<K>)
    requires CacheInv(ttl, s) && n <= |s.fetches|
    requires exists f :: f in s.fetches[..n] && Find(f.keys, a.kid) == Some(a.key)
    ensures f in s.fetches && Find(f.keys, a.kid) == Some(a.key)
    ensures forall g | g in s.fetches[..n] && g.at > f.at :: Find(g.keys, a.kid) != Some(a.key)
  {
    hide EffectiveTtl, Find;
    assert n > 0;
    var last := s.fetches[n - 1];
    assert s.fetches[..n] == s.fetches[..n - 1] + [last];
    assert forall g | g in s.fetches[..n] :: g.at <= last.at;
    if Find(last.keys, a.kid) == Some(a.key) {
      f := last;
    } else {
      f := LastHolder(ttl, s, a, n - 1);
    }
  }

  /** Revocation under concurrency, exactly: after every interleaving, the next
      step answers a key only within ttl + 5 minutes of the last fetch that
      contains it, if and only if the step is in time. */
  lemma RevokedUnderConcurrency<K(!new)>(ttl: int, first: Fetch<K>, before: seq<Step<K>>, step: Step<K>, a: Answered<K>)
    requires Possible(ttl, Begin(ttl, first), before)
    requires Enabled(Exec(ttl, Begin(ttl, first), before), step)
    requires a in Given(Exec(ttl, Begin(ttl, first), before), step)
    ensures var s := Exec(ttl, Begin(ttl, first), before);
            Unrevoked(ttl, s, a) <==> InTime(s, step)
  {
    hide Possible, Exec, Inv, Given, Fresh, Unrevoked, InTime;
    var s := Exec(ttl, Begin(ttl, first), before);
    BeginInv(ttl, first);
    RunKeepsInv(ttl, Begin(ttl, first), before);
    ConcurrentFreshness(ttl, first, before, step, a);
    GivenIsHeld(ttl, s, step, a);
    FreshIsUnrevoked(ttl, s, a);
  }

  lemma GivenIsHeld<K(!new)>(ttl: int, s: State<K>, step: Step<K>, a: Answered<K>)
    requires Inv(ttl, s) && Enabled(s, step) && a in Given(s, step)
    ensures CacheInv(ttl, s) && a.at >= s.clock
    ensures exists f :: f in s.fetches && Find(f.keys, a.kid) == Some(a.key)
  {
    hide CacheInv, EffectiveTtl;
    CacheIsLatest(ttl, s);
    if step.Conclude? {
      var w := s.waiting[step.id];
      assert WaiterInv(ttl, s, w);
      var f :| f in s.fetches && WaiterFrom(ttl, f, w);
    }
  }

  /** Every answer of a run is fresh when it is given. */
  ghost predicate AllFresh<K(!new)>(ttl: int, s: State<K>, steps: seq<Step<K>>)
    requires Possible(ttl, s, steps)
    decreases |steps|
  {
    |steps| == 0
    || ((forall a | a in Given(s, steps[0]) :: Fresh(ttl, s, a)) && AllFresh(ttl, Apply(ttl, s, steps[0]), steps[1..]))
  }

  predicate AllInTime<K>(ttl: int, s: State<K>, steps: seq<Step<K>>)
    requires Possible(ttl, s, steps)
    decreases |steps|
  {
    |steps| == 0 || (InTime(s, steps[0]) && AllInTime(ttl, Apply(ttl, s, steps[0]), steps[1..]))
  }

  /** A step that is not in time gives an answer. */
  lemma LateStepAnswers<K>(s: State<K>, step: Step<K>)
    requires Enabled(s, step) && !InTime(s, step)
    ensures |Given(s, step)| == 1
  {}

  lemma StepFreshIff<K(!new)>(ttl: int, s: State<K>, step: Step<K>)
    requires Inv(ttl, s) && Enabled(s, step)
    ensures (forall a | a in Given(s, step) :: Fresh(ttl, s, a)) <==> InTime(s, step)
  {
    hide Inv, Enabled, Given, Fresh, InTime;
    forall a | a in Given(s, step) ensures Fresh(ttl, s, a) <==> InTime(s, step) { GivenFreshIff(ttl, s, step, a); }
    if !InTime(s, step) {
      LateStepAnswers(s, step);
      assert Given(s, step)[0] in Given(s, step);
    }
  }

  lemma {:induction false} FreshFromIff<K(!new)>(ttl: int, s: State<K>, steps: seq<Step<K>>)
    requires Inv(ttl, s) && Possible(ttl, s, steps)
    ensures AllFresh(ttl, s, steps) <==> AllInTime(ttl, s, steps)
    decreases |steps|
  {
    hide Inv, Enabled, Apply, Given, Fresh, InTime;
    if |steps| > 0 {
      StepFreshIff(ttl, s, steps[0]);
      StepKeepsInv(ttl, s, steps[0]);
      FreshFromIff(ttl, Apply(ttl, s, steps[0]), steps[1..]);
    }
  }

  /** Whole runs: all answers are fresh when given if and only if every lookup
      that waited for a refresh concludes in time. */
  lemma RunFreshIff<K(!new)>(ttl: int, first: Fetch<K>, steps: seq<Step<K>>)
    requires Possible(ttl, Begin(ttl, first), steps)
    ensures AllFresh(ttl, Begin(ttl, first), steps) <==> AllInTime(ttl, Begin(ttl, first), steps)
  {
    BeginInv(ttl, first);
    FreshFromIff(ttl, Begin(ttl, first), steps);
  }

  /** It is enough, though not necessary, to conclude within ttl + 5 minutes of
      the refresh waited for: the cache is then as new, or newer. */
  lemma PromptIsInTime<K(!new)>(ttl: int, s: State<K>, step: Step<K>)
    requires Inv(ttl, s) && Enabled(s, step) && step.Conclude?
    requires var stage := s.waiting[step.id].stage;
             stage.ok ==> step.now < stage.since + (if ttl == 0 then 3_600_000_000_000 else ttl) + 300_000_000_000
    ensures InTime(s, step)
  {
    hide CacheInv, EffectiveTtl;
    TtlMeans(ttl);
    CacheIsLatest(ttl, s);
    assert WaiterInv(ttl, s, s.waiting[step.id]);
  }

  lemma Chain<K>(ttl: int, s: State<K>, final: State<K>, step: Step<K>, rest: seq<Step<K>>)
    requires Enabled(s, step) && Possible(ttl, Apply(ttl, s, step), rest)
    requires Exec(ttl, Apply(ttl, s, step), rest) == final
    ensures Possible(ttl, s, [step] + rest) && Exec(ttl, s, [step] + rest) == final
  {
    assert ([step] + rest)[1..] == rest;
  }

  lemma NoSteps<K>(ttl: int, s: State<K>)
    ensures Possible(ttl, s, []) && Exec(ttl, s, []) == s
  {}

  /** A sequence of states that follow from one another is a run. */
  lemma StatesAreRun<K>(ttl: int, s: seq<State<K>>, steps: seq<Step<K>>)
    requires |s| == |steps| + 1
    requires forall i | 0 <= i < |steps| :: Enabled(s[i], steps[i]) && Apply(ttl, s[i], steps[i]) == s[i + 1]
    ensures Possible(ttl, s[0], steps) && Exec(ttl, s[0], steps) == s[|steps|]
  {
    hide Enabled, Apply, Possible, Exec;
    var n := |steps|;
    NoSteps(ttl, s[n]);
    assert steps[n..] == [];
    for i := n downto 0
      invariant Possible(ttl, s[i], steps[i..]) && Exec(ttl, s[i], steps[i..]) == s[n]
    {
      assert steps[i..] == [steps[i]] + steps[i + 1..];
      Chain(ttl, s[i], s[n], steps[i], steps[i + 1..]);
    }
    assert steps[0..] == steps;
  }

  // ---------------------------------------------------------------- lookups in one piece

  /** The state after a lookup that nothing interrupts. */
  ghost predicate Completed<K>(ttl: int, s: State<K>, l: Lookup<K>, final: State<K>)
  {
    && final.cache == After(ttl, s.cache, l) && final.flight.Idle? && final.waiting == map[]
    && final.clock == AnsweredAt(s.cache, l)
    && match Answer(s.cache, l)
       case None => final.answers == s.answers
       case Some(key) =>
         var n := |s.answers|;
         && |final.answers| == n + 1 && final.answers[..n] == s.answers
         && final.answers[n] == Answered(l.kid, key, AnsweredAt(s.cache, l), final.answers[n].source)
  }

  lemma MissedLookup<K(!new)>(ttl: int, s: State<K>, id: nat, l: Lookup<K>) returns (s1: State<K>, s2: State<K>)
    requires s.flight.Idle? && s.waiting == map[] && s.clock <= l.now && !Hit(s.cache, l)
    ensures Enabled(s, Look(id, l.kid, l.now)) && s1 == Apply(ttl, s, Look(id, l.kid, l.now))
    ensures Enabled(s1, Join(id)) && s2 == Apply(ttl, s1, Join(id))
    ensures s2 == s.(clock := l.now, flight := Running,
                     waiting := map[id := Waiter(l.kid, Find(s.cache.keys, l.kid), s.cache.staleOk, Joined)])
  {
    s1 := Apply(ttl, s, Look(id, l.kid, l.now));
    s2 := Apply(ttl, s1, Join(id));
    assert s2.waiting == map[id := Waiter(l.kid, Find(s.cache.keys, l.kid), s.cache.staleOk, Joined)];
  }

  lemma ReleasedLookup<K(!new)>(ttl: int, s: State<K>, id: nat, w: Waiter<K>, now: int)
    returns (s1: State<K>, final: State<K>)
    requires s.flight.Done? && s.waiting == map[id := w] && w.stage.Joined? && s.clock <= now
    ensures Enabled(s, Land) && s1 == Apply(ttl, s, Land)
    ensures Enabled(s1, Conclude(id, now)) && final == Apply(ttl, s1, Conclude(id, now))
    ensures final == s.(clock := now, flight := Idle, waiting := map[],
                        answers := s.answers + Conclusion(s, w.(stage := Released(s.flight.ok, s.flight.at)), now))
  {
    hide Stored;
    s1 := Apply(ttl, s, Land);
    assert s1.waiting == map[id := w.(stage := Released(s.flight.ok, s.flight.at))];
    final := Apply(ttl, s1, Conclude(id, now));
    assert final.waiting == map[];
  }

  lemma FetchedLookup<K(!new)>(ttl: int, s: State<K>, id: nat, l: Lookup<K>) returns (final: State<K>)
    requires s.flight.Idle? && s.waiting == map[] && s.clock <= l.now <= l.refresh.at
    requires !Hit(s.cache, l) && l.refresh.Fetched?
    ensures var steps := [Look(id, l.kid, l.now), Join(id), Stamp(l.refresh.keys, l.refresh.at), Store, Land,
                          Conclude(id, l.refresh.at)];
            Possible(ttl, s, steps) && final == Exec(ttl, s, steps)
    ensures Completed(ttl, s, l, final)
  {
    hide EffectiveTtl, Possible, Exec, Conclusion, Landed, Completed;
    var s1, s2 := MissedLookup(ttl, s, id, l);
    var s3 := Apply(ttl, s2, Stamp(l.refresh.keys, l.refresh.at));
    var s4 := Apply(ttl, s3, Store);
    var s5, end := ReleasedLookup(ttl, s4, id, s2.waiting[id], l.refresh.at);
    final := end;
    StatesAreRun(ttl, [s, s1, s2, s3, s4, s5, final],
                 [Look(id, l.kid, l.now), Join(id), Stamp(l.refresh.keys, l.refresh.at), Store, Land,
                  Conclude(id, l.refresh.at)]);
    CompletedByRefresh(ttl, s, l, s4, s2.waiting[id].(stage := Released(true, l.refresh.at)), final);
  }

  lemma CompletedByRefresh<K(!new)>(ttl: int, s: State<K>, l: Lookup<K>, t: State<K>, w: Waiter<K>, final: State<K>)
    requires !Hit(s.cache, l) && l.refresh.Fetched? && w.kid == l.kid && w.stage == Released(true, l.refresh.at)
    requires t.cache == Stored(ttl, l.refresh.keys, l.refresh.at) == final.cache && t.answers == s.answers
    requires final.clock == l.refresh.at && final.flight.Idle? && final.waiting == map[]
    requires final.answers == t.answers + Conclusion(t, w, l.refresh.at)
    ensures Completed(ttl, s, l, final)
  {
    hide EffectiveTtl;
    assert s.answers + [] == s.answers;
  }

  lemma FailedLookup<K(!new)>(ttl: int, s: State<K>, id: nat, l: Lookup<K>) returns (final: State<K>)
    requires s.flight.Idle? && s.waiting == map[] && s.clock <= l.now <= l.refresh.at
    requires !Hit(s.cache, l) && l.refresh.Unavailable?
    ensures var steps := [Look(id, l.kid, l.now), Join(id), Fail, Land, Conclude(id, l.refresh.at)];
            Possible(ttl, s, steps) && final == Exec(ttl, s, steps)
    ensures Completed(ttl, s, l, final)
  {
    hide EffectiveTtl, Possible, Exec, Conclusion, Landed, Completed, Stored;
    var s1, s2 := MissedLookup(ttl, s, id, l);
    var s3 := Apply(ttl, s2, Fail);
    var s4, end := ReleasedLookup(ttl, s3, id, s2.waiting[id], l.refresh.at);
    final := end;
    StatesAreRun(ttl, [s, s1, s2, s3, s4, final],
                 [Look(id, l.kid, l.now), Join(id), Fail, Land, Conclude(id, l.refresh.at)]);
    CompletedByFailure(ttl, s, l, s3, s2.waiting[id].(stage := Released(false, s3.flight.at)), final);
  }

  lemma CompletedByFailure<K(!new)>(ttl: int, s: State<K>, l: Lookup<K>, t: State<K>, w: Waiter<K>, final: State<K>)
    requires !Hit(s.cache, l) && l.refresh.Unavailable? && w.kid == l.kid && w.stage.Released? && !w.stage.ok
    requires w.cached == Find(s.cache.keys, l.kid) && w.staleOk == s.cache.staleOk
    requires final.cache == s.cache && t.answers == s.answers
    requires final.clock == l.refresh.at && final.flight.Idle? && final.waiting == map[]
    requires final.answers == t.answers + Conclusion(t, w, l.refresh.at)
    ensures Completed(ttl, s, l, final)
  {
    assert s.answers + [] == s.answers;
  }

  /** A lookup in one piece is one of the interleavings: with no other lookup
      under way, a run of steps gives the answer and leaves the cache of the
      sequential specification. */
  lemma LookupIsRun<K(!new)>(ttl: int, s: State<K>, id: nat, l: Lookup<K>) returns (steps: seq<Step<K>>)
    requires s.flight.Idle? && s.waiting == map[] && s.clock <= l.now <= l.refresh.at
    ensures Possible(ttl, s, steps) && Completed(ttl, s, l, Exec(ttl, s, steps))
  {
    hide Possible, Exec, Completed, Apply;
    if Hit(s.cache, l) {
      steps := [Look(id, l.kid, l.now)];
      HitLookup(ttl, s, id, l);
      StatesAreRun(ttl, [s, Apply(ttl, s, steps[0])], steps);
    } else if l.refresh.Fetched? {
      var final := FetchedLookup(ttl, s, id, l);
      steps := [Look(id, l.kid, l.now), Join(id), Stamp(l.refresh.keys, l.refresh.at), Store, Land,
                Conclude(id, l.refresh.at)];
    } else {
      var final := FailedLookup(ttl, s, id, l);
      steps := [Look(id, l.kid, l.now), Join(id), Fail, Land, Conclude(id, l.refresh.at)];
    }
  }

  lemma HitLookup<K(!new)>(ttl: int, s: State<K>, id: nat, l: Lookup<K>)
    requires s.flight.Idle? && s.waiting == map[] && s.clock <= l.now && Hit(s.cache, l)
    ensures Enabled(s, Look(id, l.kid, l.now)) && Completed(ttl, s, l, Apply(ttl, s, Look(id, l.kid, l.now)))
  {
    hide Stored;
    var t := Apply(ttl, s, Look(id, l.kid, l.now));
    assert t.answers == s.answers + [Answered(l.kid, s.cache.keys[l.kid], l.now, FromHit)];
  }

  // ---------------------------------------------------------------- a run that breaks the bound

  /** A lookup with nothing cached, up to its release. */
  lemma UntilReleased(ttl: int) returns (s: seq<State<int>>)
    ensures |s| == 6 && s[0] == Begin(ttl, Fetch(map[], 0))
    ensures var steps := [Look(0, "k", 0), Join(0), Stamp(map["k" := 1], 0), Store, Land];
            forall i | 0 <= i < 5 :: Enabled(s[i], steps[i]) && Apply(ttl, s[i], steps[i]) == s[i + 1]
    ensures 0 in s[5].waiting && s[5].waiting[0].kid == "k" && s[5].waiting[0].stage == Released(true, 0)
    ensures s[5].cache.keys == map["k" := 1] && s[5].clock == 0 && s[5].answers == []
    ensures s[5].fetches == [Fetch(map[], 0), Fetch(map["k" := 1], 0)]
  {
    hide EffectiveTtl, Conclusion;
    var s0: State<int> := Begin(ttl, Fetch(map[], 0));
    var s1 := Apply(ttl, s0, Look(0, "k", 0));
    var s2 := Apply(ttl, s1, Join(0));
    var s3 := Apply(ttl, s2, Stamp(map["k" := 1], 0));
    var s4 := Apply(ttl, s3, Store);
    s := [s0, s1, s2, s3, s4, Apply(ttl, s4, Land)];
  }

  /** A run that breaks the bound, whatever the time to live: the time is not
      looked at again after a refresh, and a lookup held up for d between its
      release and its answer gives an answer that is fresh only if d is less
      than ttl + 5 minutes. */
  lemma HeldUpLookup(ttl: int, d: nat) returns (final: State<int>)
    ensures var steps := [Look(0, "k", 0), Join(0), Stamp(map["k" := 1], 0), Store, Land, Conclude(0, d)];
            Possible(ttl, Begin(ttl, Fetch(map[], 0)), steps) && final == Exec(ttl, Begin(ttl, Fetch(map[], 0)), steps)
    ensures final.answers == [Answered("k", 1, d, FromRefresh(0))]
    ensures Fresh(ttl, final, final.answers[0]) <==> d < (if ttl == 0 then 3_600_000_000_000 else ttl) + 300_000_000_000
  {
    hide EffectiveTtl, Possible, Exec, Begin, Stored, Landed;
    var s := UntilReleased(ttl);
    final := Apply(ttl, s[5], Conclude(0, d));
    StatesAreRun(ttl, s + [final], [Look(0, "k", 0), Join(0), Stamp(map["k" := 1], 0), Store, Land, Conclude(0, d)]);
    assert final.fetches == s[5].fetches;
    assert final.fetches[1] in final.fetches;
    if d < (if ttl == 0 then 3_600_000_000_000 else ttl) + 300_000_000_000 {
      assert Within(ttl, final.fetches[1], "k", 1, d);
    }
  }
}

/** The cache of signing keys: served fresh for a time to live, refreshed on
    demand, and served stale for a grace period while refreshing fails. */
module Jwks {
  import opened Prelude

  /** Nanoseconds. */
  const GRACE: int := 300_000_000_000
  const HOUR: int := 3_600_000_000_000

  datatype Cache<K> = Cache(keys: map<string, K>, expiresAt: int, staleOk: int)

  /** How a refresh ends: a key set stored at a time, or a failure that the
      lookup notices at a time. */
  datatype Refresh<K> = Fetched(keys: map<string, K>, at: int) | Unavailable(at: int)

  datatype Lookup<K> = Lookup(kid: string, now: int, refresh: Refresh<K>)

  function EffectiveTtl(configured: int): int
  {
    if configured == 0 then HOUR else configured
  }

  function Stored<K>(ttl: int, keys: map<string, K>, at: int): Cache<K>
  {
    Cache(keys, at + EffectiveTtl(ttl), at + (EffectiveTtl(ttl) + GRACE))
  }

  predicate Hit<K>(c: Cache<K>, l: Lookup<K>)
  {
    l.now < c.expiresAt && l.kid in c.keys
  }

  function After<K>(ttl: int, c: Cache<K>, l: Lookup<K>): Cache<K>
  {
    if Hit(c, l) || l.refresh.Unavailable? then c else Stored(ttl, l.refresh.keys, l.refresh.at)
  }

  function Answer<K>(c: Cache<K>, l: Lookup<K>): Option<K>
  {
    if Hit(c, l) then Some(c.keys[l.kid])
    else
      match l.refresh
      case Fetched(keys, _) => if l.kid in keys then Some(keys[l.kid]) else None
      case Unavailable(at) => if l.kid in c.keys && at < c.staleOk then Some(c.keys[l.kid]) else None
  }

  /** The last clock reading of the lookup, when its answer is given. */
  function AnsweredAt<K>(c: Cache<K>, l: Lookup<K>): int
  {
    if Hit(c, l) then l.now else l.refresh.at
  }

  class Authenticator<K> {
    const ttl: int
    var keys: map<string, K>
    var expiresAt: int
    var staleOk: int

    function State(): Cache<K>
      reads this
    {
      Cache(keys, expiresAt, staleOk)
    }

    /** Construction fetches once, and fails if that fails. */
    constructor (ttl: int, fetched: map<string, K>, at: int)
      ensures this.ttl == ttl && State() == Stored(ttl, fetched, at) && keys == fetched
      ensures ttl != 0 ==> expiresAt == at + ttl && staleOk == at + ttl + 300_000_000_000
      ensures ttl == 0 ==> expiresAt == at + 3_600_000_000_000 && staleOk == at + 3_900_000_000_000
    {
      this.ttl := ttl;
      keys, expiresAt, staleOk := fetched, at + EffectiveTtl(ttl), at + (EffectiveTtl(ttl) + GRACE);
    }

    method RefreshJwks(outcome: Refresh<K>) returns (ok: bool)
      modifies this
      ensures ok <==> outcome.Fetched?
      ensures State() == if ok then Stored(ttl, outcome.keys, outcome.at) else old(State())
      ensures ok ==> keys == outcome.keys
      ensures ok && ttl != 0 ==> expiresAt == outcome.at + ttl && staleOk == outcome.at + ttl + 300_000_000_000
      ensures ok && ttl == 0 ==>
                expiresAt == outcome.at + 3_600_000_000_000 && staleOk == outcome.at + 3_900_000_000_000
    {
      if outcome.Unavailable? {
        return false;
      }
      var effective := ttl;
      if effective == 0 {
        effective := HOUR;
      }
      keys := outcome.keys;
      expiresAt := outcome.at + effective;
      staleOk := outcome.at + (effective + GRACE);
      return true;
    }

    method PublicKey(l: Lookup<K>) returns (key: Option<K>)
      modifies this
      ensures key == Answer(old(State()), l) && State() == After(ttl, old(State()), l)
    {
      if l.now < expiresAt {
        if l.kid in keys {
          return Some(keys[l.kid]);
        }
      }
      var cached := if l.kid in keys then Some(keys[l.kid]) else None;
      var graceEnds := staleOk;
      var ok := RefreshJwks(l.refresh);
      if !ok {
        if cached.Some? && l.refresh.at < graceEnds {
          return cached;
        }
        return None;
      }
      if l.kid !in keys {
        return None;
      }
      return Some(keys[l.kid]);
    }
  }

  // ---------------------------------------------------------------- whole runs

  datatype Fetch<K> = Fetch(keys: map<string, K>, at: int)

  /** The cache after a run of lookups. */
  function Exec<K>(ttl: int, first: Fetch<K>, run: seq<Lookup<K>>): Cache<K>
    decreases |run|
  {
    if |run| == 0 then Stored(ttl, first.keys, first.at)
    else After(ttl, Exec(ttl, first, run[..|run| - 1]), run[|run| - 1])
  }

  /** The successful fetches of a run, oldest first. */
  function Fetches<K>(ttl: int, first: Fetch<K>, run: seq<Lookup<K>>): (r: seq<Fetch<K>>)
    ensures |r| > 0
    decreases |run|
  {
    if |run| == 0 then [first]
    else
      var n := |run| - 1;
      Fetches(ttl, first, run[..n])
      + if Hit(Exec(ttl, first, run[..n]), run[n]) || run[n].refresh.Unavailable? then []
        else [Fetch(run[n].refresh.keys, run[n].refresh.at)]
  }

  /** Time does not go back, between lookups or within one. */
  ghost predicate ClockForward<K>(first: Fetch<K>, run: seq<Lookup<K>>)
  {
    && (forall i | 0 <= i < |run| :: first.at <= run[i].now <= run[i].refresh.at)
    && forall i, j | 0 <= i < j < |run| :: run[i].refresh.at <= run[j].now
  }

  /** The cache always holds the latest successful fetch, and nothing older. */
  lemma {:induction false} CacheIsLatestFetch<K>(ttl: int, first: Fetch<K>, run: seq<Lookup<K>>)
    requires ClockForward(first, run)
    ensures var fs := Fetches(ttl, first, run);
            var last := fs[|fs| - 1];
            && Exec(ttl, first, run) == Stored(ttl, last.keys, last.at)
            && (forall i | 0 <= i < |fs| :: fs[i].at <= last.at)
            && (last.at <= if |run| == 0 then first.at else run[|run| - 1].refresh.at)
    decreases |run|
  {
    hide Stored, Hit;
    if |run| > 0 {
      var n := |run| - 1;
      CacheIsLatestFetch(ttl, first, run[..n]);
      assert n > 0 ==> run[n - 1].refresh.at <= run[n].now;
    }
  }

  /** A key may be answered at time t from fetch f. */
  ghost predicate Within<K>(ttl: int, f: Fetch<K>, kid: string, key: K, t: int)
  {
    kid in f.keys && f.keys[kid] == key
    && f.at <= t < f.at + (if ttl == 0 then 3_600_000_000_000 else ttl) + 300_000_000_000
  }

  lemma TtlMeans(ttl: int)
    ensures EffectiveTtl(ttl) == (if ttl == 0 then 3_600_000_000_000 else ttl) && GRACE == 300_000_000_000
  {}

  /** Freshness: in every run, a key answered at time t is in the latest
      successful fetch, made at some f <= t < f + ttl + 5 minutes. */
  lemma Freshness<K>(ttl: int, first: Fetch<K>, run: seq<Lookup<K>>, l: Lookup<K>)
    requires ttl == 0 || ttl + 300_000_000_000 > 0
    requires ClockForward(first, run + [l])
    requires Answer(Exec(ttl, first, run), l).Some?
    ensures var c := Exec(ttl, first, run);
            var fs := Fetches(ttl, first, run + [l]);
            Within(ttl, fs[|fs| - 1], l.kid, Answer(c, l).value, AnsweredAt(c, l))
  {
    hide Answer, AnsweredAt, Stored, Within, ClockForward, EffectiveTtl;
    ForwardPrefix(first, run, l);
    CacheIsLatestFetch(ttl, first, run);
    var fs := Fetches(ttl, first, run);
    assert (run + [l])[..|run|] == run && (run + [l])[|run|] == l;
    AnswerBound(ttl, fs[|fs| - 1], l);
  }

  /** One lookup on a cache that holds `last`. */
  lemma AnswerBound<K>(ttl: int, last: Fetch<K>, l: Lookup<K>)
    requires ttl == 0 || ttl + 300_000_000_000 > 0
    requires last.at <= l.now <= l.refresh.at
    requires Answer(Stored(ttl, last.keys, last.at), l).Some?
    ensures var c := Stored(ttl, last.keys, last.at);
            var f := if Hit(c, l) || l.refresh.Unavailable? then last else Fetch(l.refresh.keys, l.refresh.at);
            Within(ttl, f, l.kid, Answer(c, l).value, AnsweredAt(c, l))
  {}

  lemma ForwardPrefix<K>(first: Fetch<K>, run: seq<Lookup<K>>, l: Lookup<K>)
    requires ClockForward(first, run + [l])
    ensures ClockForward(first, run) && first.at <= l.now <= l.refresh.at
    ensures |run| > 0 ==> run[|run| - 1].refresh.at <= l.now
  {
    var all := run + [l];
    assert all[|run|] == l && forall i | 0 <= i < |run| :: all[i] == run[i];
  }

  /** What is answered in every run, told from the latest successful fetch
      alone: fresh keys without asking, otherwise what the refresh brings, and
      the old keys for a further five minutes when it brings nothing. */
  lemma AnswerExactly<K>(ttl: int, first: Fetch<K>, run: seq<Lookup<K>>, l: Lookup<K>)
    requires ClockForward(first, run)
    ensures var fs := Fetches(ttl, first, run);
            var last := fs[|fs| - 1];
            var cached := if l.kid in last.keys then Some(last.keys[l.kid]) else None;
            Answer(Exec(ttl, first, run), l)
            == if cached.Some? && l.now < last.at + (if ttl == 0 then 3_600_000_000_000 else ttl) then cached
               else match l.refresh
                    case Fetched(keys, _) => if l.kid in keys then Some(keys[l.kid]) else None
                    case Unavailable(at) =>
                      if at < last.at + (if ttl == 0 then 3_900_000_000_000 else ttl + 300_000_000_000) then cached
                      else None
  {
    hide Exec, Fetches, ClockForward;
    CacheIsLatestFetch(ttl, first, run);
  }

  /** Revocation: a key that no fetch at or after r contains is not answered at
      or after r + ttl + 5 minutes. */
  lemma RevokedKeyExpires<K>(ttl: int, first: Fetch<K>, run: seq<Lookup<K>>, l: Lookup<K>, r: int, key: K)
    requires ttl == 0 || ttl + 300_000_000_000 > 0
    requires ClockForward(first, run + [l])
    requires forall f | f in Fetches(ttl, first, run + [l]) && f.at >= r :: l.kid !in f.keys || f.keys[l.kid] != key
    requires AnsweredAt(Exec(ttl, first, run), l) >= r + (if ttl == 0 then 3_900_000_000_000 else ttl + 300_000_000_000)
    ensures Answer(Exec(ttl, first, run), l) != Some(key)
  {
    hide Answer, AnsweredAt, Fetches, Exec;
    var fs := Fetches(ttl, first, run + [l]);
    if Answer(Exec(ttl, first, run), l).Some? {
      Freshness(ttl, first, run, l);
      assert fs[|fs| - 1] in fs;
    }
  }

  /** The answer to `l` after `run` meets the freshness bound. */
  ghost predicate MeetsBound<K>(ttl: int, first: Fetch<K>, run: seq<Lookup<K>>, l: Lookup<K>)
  {
    var c := Exec(ttl, first, run);
    var fs := Fetches(ttl, first, run + [l]);
    Answer(c, l).Some? ==> Within(ttl, fs[|fs| - 1], l.kid, Answer(c, l).value, AnsweredAt(c, l))
  }

  /** A first lookup that has to refresh is answered at the time of its fetch. */
  lemma RefreshedAtOnce(ttl: int, first: Fetch<int>, l: Lookup<int>)
    requires first == Fetch(map[], 0) && l == Lookup("k", 0, Fetched(map["k" := 1], 0))
    ensures ClockForward(first, [] + [l]) && (MeetsBound(ttl, first, [], l) ==> ttl == 0 || ttl + 300_000_000_000 > 0)
  {
    var none: seq<Lookup<int>> := [];
    var c := Exec(ttl, first, none);
    assert none + [l] == [l] && [l][..0] == none;
    assert Fetches(ttl, first, none) == [first];
    assert !Hit(c, l);
    assert Fetches(ttl, first, [l]) == [first] + [Fetch(map["k" := 1], 0)];
    assert Answer(c, l) == Some(1) && AnsweredAt(c, l) == 0;
  }

  /** The bound holds in all runs exactly when ttl + 5 minutes is positive. */
  lemma FreshnessIff(ttl: int)
    ensures (forall first: Fetch<int>, run: seq<Lookup<int>>, l: Lookup<int> | ClockForward(first, run + [l]) ::
               MeetsBound(ttl, first, run, l)) <==> ttl == 0 || ttl + 300_000_000_000 > 0
  {
    hide Exec, Fetches, Answer, AnsweredAt, ClockForward, EffectiveTtl;
    if ttl == 0 || ttl + 300_000_000_000 > 0 {
      forall first: Fetch<int>, run: seq<Lookup<int>>, l: Lookup<int> | ClockForward(first, run + [l])
        ensures MeetsBound(ttl, first, run, l)
      {
        if Answer(Exec(ttl, first, run), l).Some? { Freshness(ttl, first, run, l); }
      }
    } else {
      var first := Fetch(map[], 0);
      var l := Lookup("k", 0, Fetched(map["k" := 1], 0));
      RefreshedAtOnce(ttl, first, l);
      assert !MeetsBound(ttl, first, [], l);
    }
  }
}

/** The dashboard aggregations over queried events: time buckets, breakdown by
    one dimension, and latency percentiles. */
module Aggregations {
  import opened Prelude
  import opened AuditStore
  import Decimal
  import Ranking
  import Text

  datatype Aggregate = Aggregate(count: nat, errors: nat, durationMs: int)

  const ZERO := Aggregate(0, 0, 0)

  function Plus(a: Aggregate, b: Aggregate): Aggregate
  {
    Aggregate(a.count + b.count, a.errors + b.errors, a.durationMs + b.durationMs)
  }

  function One(e: Event): Aggregate
  {
    Aggregate(1, if e.success then 0 else 1, e.durationMs)
  }

  // ---------------------------------------------------------------- classifying events

  datatype Dimension = EndpointGroup | RouteName | Status | AuthType | User

  /** How events are put into classes. Durations are in nanoseconds. */
  datatype Scheme = ByBucket(from: int, to: int, dur: int) | ByDimension(dim: Dimension)

  datatype Label = Slot(index: int) | Key(key: string) | Outside

  function KeyOf(dim: Dimension, e: Event): string
  {
    match dim
    case EndpointGroup => if e.endpointGroup == "" then "(unknown)" else e.endpointGroup
    case RouteName => if e.routeName == "" then "(unknown)" else e.routeName
    case Status => Decimal.Itoa(e.status)
    case AuthType => if e.authType == "" then "(unauthenticated)" else e.authType
    case User =>
      if e.userEmail != "" then e.userEmail
      else if e.userSubject != "" then e.userSubject
      else if e.apiKeyName != "" then "key:" + e.apiKeyName
      else "(anonymous)"
  }

  function LabelOf(s: Scheme, e: Event): Label
    requires s.ByBucket? ==> s.dur > 0
  {
    match s
    case ByBucket(from, to, dur) => if e.ts < from || e.ts >= to then Outside else Slot((e.ts - from) / dur)
    case ByDimension(dim) => Key(KeyOf(dim, e))
  }

  /** The aggregate of the events with one label. */
  function TallyOf(s: Scheme, events: seq<Event>, l: Label): Aggregate
    requires s.ByBucket? ==> s.dur > 0
  {
    if events == [] then ZERO
    else
      var n := |events| - 1;
      var before := TallyOf(s, events[..n], l);
      if LabelOf(s, events[n]) == l then Plus(before, One(events[n])) else before
  }

  /** The aggregate of the events whose label is among `labels`. */
  function TallyAmong(s: Scheme, events: seq<Event>, labels: seq<Label>): Aggregate
    requires s.ByBucket? ==> s.dur > 0
  {
    if events == [] then ZERO
    else
      var n := |events| - 1;
      var before := TallyAmong(s, events[..n], labels);
      if LabelOf(s, events[n]) in labels then Plus(before, One(events[n])) else before
  }

  function SumOver(s: Scheme, events: seq<Event>, labels: seq<Label>): Aggregate
    requires s.ByBucket? ==> s.dur > 0
  {
    if labels == [] then ZERO
    else
      var m := |labels| - 1;
      Plus(SumOver(s, events, labels[..m]), TallyOf(s, events, labels[m]))
  }

  lemma {:induction false} SumGrows(s: Scheme, events: seq<Event>, labels: seq<Label>)
    requires s.ByBucket? ==> s.dur > 0
    requires Ranking.Distinct(labels) && events != []
    ensures var n := |events| - 1;
            var before := SumOver(s, events[..n], labels);
            SumOver(s, events, labels)
            == if LabelOf(s, events[n]) in labels then Plus(before, One(events[n])) else before
  {
    hide LabelOf, One;
    if labels != [] {
      SumGrows(s, events, labels[..|labels| - 1]);
    }
  }

  lemma {:induction false} SumOfNothing(s: Scheme, labels: seq<Label>)
    requires s.ByBucket? ==> s.dur > 0
    ensures SumOver(s, [], labels) == ZERO
  {
    hide LabelOf, One;
    assert forall l :: TallyOf(s, [], l) == ZERO;
    if labels != [] { SumOfNothing(s, labels[..|labels| - 1]); }
  }

  /** Conservation: summing classes counts every classified event exactly once. */
  lemma {:induction false} Conservation(s: Scheme, events: seq<Event>, labels: seq<Label>)
    requires s.ByBucket? ==> s.dur > 0
    requires Ranking.Distinct(labels)
    ensures SumOver(s, events, labels) == TallyAmong(s, events, labels)
  {
    hide LabelOf, One;
    if events == [] {
      SumOfNothing(s, labels);
    } else {
      Conservation(s, events[..|events| - 1], labels);
      SumGrows(s, events, labels);
    }
  }

  // ---------------------------------------------------------------- what an aggregate counts

  /** The durations of the chosen positions among the first n, added up. */
  ghost function DurationSum(events: seq<Event>, chosen: set<int>, n: nat): int
    requires n <= |events|
  {
    if n == 0 then 0
    else DurationSum(events, chosen, n - 1) + if n - 1 in chosen then events[n - 1].durationMs else 0
  }

  /** The chosen positions whose events failed. */
  ghost function Failed(events: seq<Event>, chosen: set<int>): set<int>
  {
    set i | i in chosen && 0 <= i < |events| && !events[i].success
  }

  /** The aggregate is that of the chosen positions: how many they are, how many
      of them failed, and the sum of their durations. */
  ghost predicate Counts(a: Aggregate, events: seq<Event>, chosen: set<int>)
  {
    && a.count == |chosen|
    && a.errors == |Failed(events, chosen)|
    && a.durationMs == DurationSum(events, chosen, |events|)
  }

  lemma {:induction false} DurationSumSame(a: seq<Event>, b: seq<Event>, s: set<int>, t: set<int>, n: nat)
    requires n <= |a| && n <= |b| && forall i | 0 <= i < n :: a[i] == b[i] && (i in s <==> i in t)
    ensures DurationSum(a, s, n) == DurationSum(b, t, n)
  {
    if n > 0 { DurationSumSame(a, b, s, t, n - 1); }
  }

  lemma FailedSnoc(events: seq<Event>, e: Event, chosen: set<int>, more: set<int>, hit: bool)
    requires forall i | i in chosen :: 0 <= i < |events|
    requires more == if hit then chosen + {|events|} else chosen
    ensures Failed(events + [e], more)
            == if hit && !e.success then Failed(events, chosen) + {|events|} else Failed(events, chosen)
  {}

  /** One more event, chosen or not. */
  lemma CountsSnoc(a: Aggregate, events: seq<Event>, e: Event, chosen: set<int>, more: set<int>, hit: bool)
    requires Counts(a, events, chosen) && (forall i | i in chosen :: 0 <= i < |events|)
    requires more == if hit then chosen + {|events|} else chosen
    ensures Counts(if hit then Plus(a, One(e)) else a, events + [e], more)
  {
    FailedSnoc(events, e, chosen, more, hit);
    assert |events| !in Failed(events, chosen);
    DurationSumSame(events, events + [e], chosen, more, |events|);
  }

  lemma NothingCounted()
    ensures Counts(ZERO, [], {})
  {
    assert Failed([], {}) == {};
  }

  /** The positions with one label. */
  ghost function Labelled(s: Scheme, events: seq<Event>, l: Label): set<int>
    requires s.ByBucket? ==> s.dur > 0
  {
    set i | 0 <= i < |events| && LabelOf(s, events[i]) == l
  }

  lemma {:induction false} TallyOfCounts(s: Scheme, events: seq<Event>, l: Label)
    requires s.ByBucket? ==> s.dur > 0
    ensures Counts(TallyOf(s, events, l), events, Labelled(s, events, l))
  {
    hide Counts, LabelOf, One, Plus;
    if events == [] {
      NothingCounted();
      assert Labelled(s, events, l) == {};
    } else {
      var n := |events| - 1;
      var hit := LabelOf(s, events[n]) == l;
      TallyOfCounts(s, events[..n], l);
      assert events == events[..n] + [events[n]];
      assert Labelled(s, events, l)
          == if hit then Labelled(s, events[..n], l) + {n} else Labelled(s, events[..n], l);
      CountsSnoc(TallyOf(s, events[..n], l), events[..n], events[n], Labelled(s, events[..n], l),
                 Labelled(s, events, l), hit);
    }
  }

  // ---------------------------------------------------------------- time series

  const SECOND: int := 1_000_000_000
  const MAX_BUCKETS: nat := 10_000
  const MAX_DURATION: int := 0x7FFF_FFFF_FFFF_FFFF

  /** The resolved window: `to` defaults to now, `from` to an hour before, and
      a reversed window is turned round. */
  function TimeWindow(from: int, to: int, now: int): (w: (int, int))
    ensures w.0 <= w.1
    ensures from != 0 && to != 0 ==> {w.0, w.1} == {from, to}
    ensures from != 0 && to == 0 ==> {w.0, w.1} == {from, now}
    ensures from == 0 ==> w.1 - w.0 == 3_600_000_000_000 && w.1 == if to == 0 then now else to
  {
    var t := if to == 0 then now else to;
    var f := if from == 0 then t - 3600 * SECOND else from;
    if f > t then (t, f) else (f, t)
  }

  function BucketSeconds(requested: int): (r: int)
    ensures 1 <= r <= 3600
  {
    if requested <= 0 then 60 else if requested > 3600 then 3600 else requested
  }

  /** `time.Time.Sub` saturates at the largest duration. */
  function Sub(a: int, b: int): int
    requires a >= b
  {
    if a - b > MAX_DURATION then MAX_DURATION else a - b
  }

  function TotalBuckets(from: int, to: int, dur: int): nat
    requires from <= to && dur > 0
  {
    DivBounds(Sub(to, from), dur);
    Sub(to, from) / dur + 1
  }

  lemma DivBounds(a: int, d: int)
    requires a >= 0 && d > 0
    ensures 0 <= a / d && a / d * d <= a < (a / d + 1) * d
  {
    assert a == a / d * d + a % d;
    assert (a / d + 1) * d == a / d * d + d;
  }

  lemma QuotientUnique(a: int, d: int, q: int)
    requires a >= 0 && d > 0 && q * d <= a < (q + 1) * d
    ensures q == a / d
  {
    DivBounds(a, d);
    CancelMul(q, a / d + 1, d);
    CancelMul(a / d, q + 1, d);
  }

  lemma CancelMul(x: int, y: int, d: int)
    requires d > 0 && x * d < y * d
    ensures x < y
  {}

  /** An event belongs to slot i exactly when it lies in the window and in the
      i-th interval of it. */
  lemma SlotIffInterval(from: int, to: int, dur: int, e: Event, i: int)
    requires dur > 0
    ensures LabelOf(ByBucket(from, to, dur), e) == Slot(i) <==>
            from <= e.ts < to && from + i * dur <= e.ts < from + (i + 1) * dur
  {
    if from <= e.ts < to {
      DivBounds(e.ts - from, dur);
      if from + i * dur <= e.ts < from + (i + 1) * dur { QuotientUnique(e.ts - from, dur, i); }
    }
  }

  lemma DivMono(a: int, b: int, d: int)
    requires 0 <= a <= b && d > 0
    ensures a / d <= b / d
  {
    DivBounds(a, d);
    DivBounds(b, d);
    CancelMul(a / d, b / d + 1, d);
  }

  lemma NotSaturated(from: int, to: int, dur: int)
    requires from <= to && 0 < dur <= 3600 * SECOND
    ensures TotalBuckets(from, to, dur) <= MAX_BUCKETS ==> to - from <= MAX_DURATION
  {
    DivBounds(MAX_DURATION, dur);
    CancelMul(MAX_BUCKETS, MAX_DURATION / dur + 1, dur);
  }

  /** The index guard of the handler never fires: a window that passes the
      bucket limit is not saturated, and every event in it has a bucket. */
  lemma IndexInRange(from: int, to: int, dur: int, e: Event)
    requires from <= e.ts < to && 0 < dur <= 3600 * SECOND && TotalBuckets(from, to, dur) <= MAX_BUCKETS
    ensures 0 <= (e.ts - from) / dur < TotalBuckets(from, to, dur)
  {
    DivBounds(e.ts - from, dur);
    NotSaturated(from, to, dur);
    DivMono(e.ts - from, to - from, dur);
  }

  function Slots(n: nat): (r: seq<Label>)
    ensures |r| == n && Ranking.Distinct(r) && forall i | 0 <= i < n :: r[i] == Slot(i)
  {
    seq(n, i => Slot(i))
  }

  function SumAll(s: seq<Aggregate>): Aggregate
  {
    if s == [] then ZERO else Plus(SumAll(s[..|s| - 1]), s[|s| - 1])
  }

  /** The aggregate of the events in [from, to). */
  function WindowTally(events: seq<Event>, from: int, to: int): Aggregate
  {
    if events == [] then ZERO
    else
      var n := |events| - 1;
      var before := WindowTally(events[..n], from, to);
      if from <= events[n].ts < to then Plus(before, One(events[n])) else before
  }

  ghost function InWindow(events: seq<Event>, from: int, to: int): set<int>
  {
    set i | 0 <= i < |events| && from <= events[i].ts < to
  }

  /** The aggregate of a window counts its positions. */
  lemma {:induction false} WindowTallyMeans(events: seq<Event>, from: int, to: int)
    ensures Counts(WindowTally(events, from, to), events, InWindow(events, from, to))
  {
    hide Counts, One, Plus;
    if events == [] {
      NothingCounted();
      assert InWindow(events, from, to) == {};
    } else {
      var n := |events| - 1;
      var hit := from <= events[n].ts < to;
      WindowTallyMeans(events[..n], from, to);
      assert events == events[..n] + [events[n]];
      assert InWindow(events, from, to)
          == if hit then InWindow(events[..n], from, to) + {n} else InWindow(events[..n], from, to);
      CountsSnoc(WindowTally(events[..n], from, to), events[..n], events[n], InWindow(events[..n], from, to),
                 InWindow(events, from, to), hit);
    }
  }

  lemma {:induction false} SlotsCoverWindow(events: seq<Event>, from: int, to: int, dur: int)
    requires from <= to && 0 < dur <= 3600 * SECOND && TotalBuckets(from, to, dur) <= MAX_BUCKETS
    ensures TallyAmong(ByBucket(from, to, dur), events, Slots(TotalBuckets(from, to, dur)))
            == WindowTally(events, from, to)
  {
    hide One, TotalBuckets;
    if events != [] {
      var n := |events| - 1;
      var e := events[n];
      SlotsCoverWindow(events[..n], from, to, dur);
      if from <= e.ts < to {
        IndexInRange(from, to, dur, e);
        assert Slots(TotalBuckets(from, to, dur))[(e.ts - from) / dur] == LabelOf(ByBucket(from, to, dur), e);
      }
    }
  }

  lemma {:induction false} SumAllIsSumOver(s: Scheme, events: seq<Event>, labels: seq<Label>, aggs: seq<Aggregate>)
    requires s.ByBucket? ==> s.dur > 0
    requires |aggs| == |labels| && forall i | 0 <= i < |aggs| :: aggs[i] == TallyOf(s, events, labels[i])
    ensures SumAll(aggs) == SumOver(s, events, labels)
  {
    hide TallyOf;
    if aggs != [] {
      var m := |aggs| - 1;
      SumAllIsSumOver(s, events, labels[..m], aggs[..m]);
    }
  }

  /** The positions of the events in the window and in its i-th interval. */
  ghost function InBucket(events: seq<Event>, from: int, to: int, dur: int, i: int): set<int>
  {
    set j | 0 <= j < |events| && from <= events[j].ts < to && from + i * dur <= events[j].ts < from + (i + 1) * dur
  }

  lemma SlotCounts(events: seq<Event>, from: int, to: int, dur: int, i: int)
    requires dur > 0
    ensures Counts(TallyOf(ByBucket(from, to, dur), events, Slot(i)), events, InBucket(events, from, to, dur, i))
  {
    hide Counts, TallyOf, LabelOf;
    TallyOfCounts(ByBucket(from, to, dur), events, Slot(i));
    forall j | 0 <= j < |events|
      ensures LabelOf(ByBucket(from, to, dur), events[j]) == Slot(i) <==>
              from <= events[j].ts < to && from + i * dur <= events[j].ts < from + (i + 1) * dur
    {
      SlotIffInterval(from, to, dur, events[j], i);
    }
    assert Labelled(ByBucket(from, to, dur), events, Slot(i)) == InBucket(events, from, to, dur, i);
  }

  /** The number of buckets, saturation included. */
  lemma BucketsMean(from: int, to: int, dur: int)
    requires from <= to && 0 < dur <= 3600 * SECOND
    ensures TotalBuckets(from, to, dur) > MAX_BUCKETS <==> (to - from) / dur + 1 > 10_000
    ensures TotalBuckets(from, to, dur) <= MAX_BUCKETS ==> TotalBuckets(from, to, dur) == (to - from) / dur + 1
  {
    NotSaturated(from, to, dur);
    if to - from > MAX_DURATION {
      DivMono(MAX_DURATION, to - from, dur);
    }
  }

  /** Each bucket aggregates exactly the events of its own interval, and
      together the buckets account for every event in [from, to) once. */
  method Timeseries(events: seq<Event>, from: int, to: int, bucketSeconds: int) returns (r: Option<seq<Aggregate>>)
    requires from <= to && 1 <= bucketSeconds <= 3600
    ensures var dur := bucketSeconds * SECOND;
            && (r.None? <==> TotalBuckets(from, to, dur) > MAX_BUCKETS)
            && (r.Some? ==>
                  && |r.value| == TotalBuckets(from, to, dur)
                  && (forall i | 0 <= i < |r.value| ::
                        r.value[i] == TallyOf(ByBucket(from, to, dur), events, Slot(i)))
                  && SumAll(r.value) == WindowTally(events, from, to))
    ensures var dur := bucketSeconds * 1_000_000_000;
            && (r.None? <==> (to - from) / dur + 1 > 10_000)
            && (r.Some? ==>
                  && |r.value| == (to - from) / dur + 1
                  && forall i | 0 <= i < |r.value| :: Counts(r.value[i], events, InBucket(events, from, to, dur, i)))
  {
    hide TotalBuckets, One, Counts, InBucket;
    var dur := bucketSeconds * SECOND;
    var total := TotalBuckets(from, to, dur);
    BucketsMean(from, to, dur);
    if total > MAX_BUCKETS {
      return None;
    }
    var s := ByBucket(from, to, dur);
    var buckets := new Aggregate[total](_ => ZERO);
    for k := 0 to |events|
      invariant forall i | 0 <= i < total :: buckets[i] == TallyOf(s, events[..k], Slot(i))
    {
      var e := events[k];
      assert events[..k + 1][..k] == events[..k];
      if e.ts < from || e.ts >= to {
        continue;
      }
      var idx := (e.ts - from) / dur;
      IndexInRange(from, to, dur, e);
      if idx < 0 || idx >= total {
        assert false;
        continue;
      }
      buckets[idx] := Plus(buckets[idx], One(e));
    }
    assert events[..|events|] == events;
    SumAllIsSumOver(s, events, Slots(total), buckets[..]);
    Conservation(s, events, Slots(total));
    SlotsCoverWindow(events, from, to, dur);
    forall i | 0 <= i < total ensures Counts(buckets[i], events, InBucket(events, from, to, dur, i)) {
      SlotCounts(events, from, to, dur, i);
    }
    return Some(buckets[..]);
  }

  // ---------------------------------------------------------------- how much the query returns

  /** The filter an aggregation endpoint queries with: the resolved window, the
      largest page, and nothing of the caller's limit and offset. */
  function Resolved(f: QueryFilter, from: int, to: int): QueryFilter
  {
    f.(from := from, to := to, limit := MAX_QUERY_LIMIT, offset := 0)
  }

  function Queried(store: seq<Event>, f: QueryFilter, w: (int, int)): seq<Event>
  {
    Query(store, Resolved(f, w.0, w.1))
  }

  /** Every match of the resolved window, newest first. */
  function Matching(store: seq<Event>, f: QueryFilter, w: (int, int)): seq<Event>
  {
    MatchList(store, Resolved(f, w.0, w.1))
  }

  /** An aggregation sees every match if and only if there are at most 1000;
      otherwise it sees the newest 1000. */
  lemma SeesAllIff(store: seq<Event>, f: QueryFilter, w: (int, int))
    ensures var all := Matching(store, f, w);
            Queried(store, f, w) == if |all| <= MAX_QUERY_LIMIT then all else all[..MAX_QUERY_LIMIT]
    ensures |Queried(store, f, w)| == |Matching(store, f, w)| <==> |Matching(store, f, w)| <= MAX_QUERY_LIMIT
  {
    hide MatchList;
  }

  lemma WindowTallySnoc(events: seq<Event>, e: Event, from: int, to: int)
    ensures WindowTally(events + [e], from, to)
            == Plus(WindowTally(events, from, to), if from <= e.ts < to then One(e) else ZERO)
  {
    assert (events + [e])[..|events|] == events;
  }

  lemma NothingTallied(from: int, to: int)
    ensures WindowTally([], from, to) == ZERO
  {}

  lemma {:induction false} WindowTallySplit(a: seq<Event>, b: seq<Event>, from: int, to: int)
    ensures WindowTally(a + b, from, to) == Plus(WindowTally(a, from, to), WindowTally(b, from, to))
  {
    hide One, WindowTally;
    if b == [] {
      assert a + b == a;
      NothingTallied(from, to);
    } else {
      var n := |b| - 1;
      WindowTallySplit(a, b[..n], from, to);
      WindowTallySnoc(b[..n], b[n], from, to);
      WindowTallySnoc(a + b[..n], b[n], from, to);
      assert a + b == a + b[..n] + [b[n]] && b == b[..n] + [b[n]];
    }
  }

  lemma {:induction false} WindowTallyNone(events: seq<Event>, from: int, to: int)
    ensures WindowTally(events, from, to).count == 0 <==>
            forall i | 0 <= i < |events| :: !(from <= events[i].ts < to)
  {
    if events != [] {
      var n := |events| - 1;
      WindowTallyNone(events[..n], from, to);
      assert events == events[..n] + [events[n]];
    }
  }

  /** The matches after the first 1000 all lie on the end of the window exactly
      when the oldest match does. */
  lemma DroppedOnEdge(store: seq<Event>, f: QueryFilter, w: (int, int))
    requires UniqueIds(store) && w.0 != 0 && w.1 != 0 && |Matching(store, f, w)| > MAX_QUERY_LIMIT
    ensures var all := Matching(store, f, w);
            (forall i | 0 <= i < |all[MAX_QUERY_LIMIT..]| :: !(w.0 <= all[MAX_QUERY_LIMIT..][i].ts < w.1))
            <==> all[|all| - 1].ts == w.1
  {
    hide Matching;
    var all := Matching(store, f, w);
    var n := |all| - 1;
    MatchingInWindow(store, f, w);
    assert all[MAX_QUERY_LIMIT..][n - MAX_QUERY_LIMIT] == all[n];
  }

  /** Matches lie in the closed window, and none is older than the last. */
  lemma MatchingInWindow(store: seq<Event>, f: QueryFilter, w: (int, int))
    requires UniqueIds(store) && w.0 != 0 && w.1 != 0
    ensures var all := Matching(store, f, w);
            forall i | 0 <= i < |all| :: w.0 <= all[|all| - 1].ts <= all[i].ts <= w.1
    ensures forall e :: e in Matching(store, f, w) <==>
                        e in store && MatchesFilter(e, f.(from := 0, to := 0)) && w.0 <= e.ts <= w.1
  {
    hide MatchList, SearchHits;
    var all := Matching(store, f, w);
    MatchListSpec(store, Resolved(f, w.0, w.1));
    forall i | 0 <= i < |all| ensures w.0 <= all[|all| - 1].ts <= all[i].ts <= w.1 {
      assert all[i] in all && all[|all| - 1] in all;
      if i < |all| - 1 { assert Before(all[i], all[|all| - 1]); }
    }
  }

  /** The buckets count every match in [from, to) if and only if at most 1000
      events match or all of them lie on the end of the window. */
  lemma BucketsCountAllIff(store: seq<Event>, f: QueryFilter, w: (int, int))
    requires UniqueIds(store) && w.0 != 0 && w.1 != 0
    ensures var all := Matching(store, f, w);
            WindowTally(Queried(store, f, w), w.0, w.1).count == WindowTally(all, w.0, w.1).count
            <==> |all| <= MAX_QUERY_LIMIT || all[|all| - 1].ts == w.1
  {
    hide Matching, Queried;
    var all := Matching(store, f, w);
    SeesAllIff(store, f, w);
    if |all| > MAX_QUERY_LIMIT {
      assert all == all[..MAX_QUERY_LIMIT] + all[MAX_QUERY_LIMIT..];
      WindowTallySplit(all[..MAX_QUERY_LIMIT], all[MAX_QUERY_LIMIT..], w.0, w.1);
      WindowTallyNone(all[MAX_QUERY_LIMIT..], w.0, w.1);
      DroppedOnEdge(store, f, w);
    }
  }

  /** The time-series endpoint: window and bucket width are resolved first, and
      the caller's limit and offset do not reach the query. */
  method TimeseriesReply(store: seq<Event>, f: QueryFilter, now: int, requestedBucket: int)
    returns (r: Option<seq<Aggregate>>, from: int, to: int)
    ensures (from, to) == TimeWindow(f.from, f.to, now)
    ensures var queried := Queried(store, f, (from, to));
            var dur := BucketSeconds(requestedBucket) * SECOND;
            && (r.None? <==> TotalBuckets(from, to, dur) > MAX_BUCKETS)
            && (r.Some? ==>
                  && SumAll(r.value) == WindowTally(queried, from, to)
                  && |r.value| == TotalBuckets(from, to, dur)
                  && forall i | 0 <= i < |r.value| ::
                       r.value[i] == TallyOf(ByBucket(from, to, dur), queried, Slot(i)))
    ensures var queried := Queried(store, f, (from, to));
            var dur := (if requestedBucket <= 0 then 60 else Min(requestedBucket, 3600)) * 1_000_000_000;
            && (r.None? <==> (to - from) / dur + 1 > 10_000)
            && (r.Some? ==>
                  && |r.value| == (to - from) / dur + 1
                  && forall i | 0 <= i < |r.value| :: Counts(r.value[i], queried, InBucket(queried, from, to, dur, i)))
    ensures var all := Matching(store, f, (from, to));
            r.Some? && UniqueIds(store) && from != 0 && to != 0 ==>
              (SumAll(r.value).count == WindowTally(all, from, to).count
               <==> |all| <= MAX_QUERY_LIMIT || all[|all| - 1].ts == to)
  {
    hide Queried, Matching, TallyOf, WindowTally, SumAll, TotalBuckets, TimeWindow, Counts, InBucket;
    var w := TimeWindow(f.from, f.to, now);
    from, to := w.0, w.1;
    r := Timeseries(Queried(store, f, w), from, to, BucketSeconds(requestedBucket));
    if UniqueIds(store) && from != 0 && to != 0 { BucketsCountAllIff(store, f, w); }
  }

  // ---------------------------------------------------------------- breakdown

  datatype Group = Group(key: string, agg: Aggregate)

  /** Larger counts first, ties by ascending key. */
  predicate RanksBefore(a: Group, b: Group)
  {
    a.agg.count > b.agg.count || (a.agg.count == b.agg.count && Text.Less(a.key, b.key))
  }

  lemma RanksBeforeIsStrict()
    ensures Ranking.StrictOrder(RanksBefore)
  {
    forall x: Group ensures !RanksBefore(x, x) { Text.LessIrreflexive(x.key); }
    forall x: Group, y: Group, z: Group | RanksBefore(x, y) && RanksBefore(y, z) ensures RanksBefore(x, z) {
      if x.agg.count == y.agg.count == z.agg.count { Text.LessTransitive(x.key, y.key, z.key); }
    }
  }

  /** The dimension a request names; none given means the endpoint group. */
  function DimensionOf(name: string): Option<Dimension>
  {
    if name == "" || name == "endpoint_group" then Some(EndpointGroup)
    else if name == "route_name" then Some(RouteName)
    else if name == "status" then Some(Status)
    else if name == "auth_type" then Some(AuthType)
    else if name == "user" then Some(User)
    else None
  }

  function TopOf(requested: int): nat
  {
    if 0 < requested <= 200 then requested else 20
  }

  /** Some event has this key. */
  ghost predicate Occurs(dim: Dimension, events: seq<Event>, k: string)
  {
    exists i | 0 <= i < |events| :: KeyOf(dim, events[i]) == k
  }

  lemma OccursSnoc(dim: Dimension, events: seq<Event>, e: Event, k: string)
    ensures Occurs(dim, events + [e], k) <==> Occurs(dim, events, k) || KeyOf(dim, e) == k
  {
    hide KeyOf;
    var more := events + [e];
    if Occurs(dim, events, k) {
      var i :| 0 <= i < |events| && KeyOf(dim, events[i]) == k;
      assert more[i] == events[i];
    }
    if KeyOf(dim, e) == k { assert more[|events|] == e; }
  }

  ghost predicate GroupsOf(dim: Dimension, events: seq<Event>, grouped: map<string, Aggregate>)
  {
    && (forall k :: k in grouped <==> Occurs(dim, events, k))
    && (forall k | k in grouped :: grouped[k] == TallyOf(ByDimension(dim), events, Key(k)))
  }

  lemma {:induction false} AbsentIsZero(dim: Dimension, events: seq<Event>, k: string)
    requires !Occurs(dim, events, k)
    ensures TallyOf(ByDimension(dim), events, Key(k)) == ZERO
  {
    hide KeyOf, Occurs;
    if events != [] {
      var n := |events| - 1;
      assert events == events[..n] + [events[n]];
      OccursSnoc(dim, events[..n], events[n], k);
      AbsentIsZero(dim, events[..n], k);
    }
  }

  lemma GroupStep(dim: Dimension, events: seq<Event>, e: Event, grouped: map<string, Aggregate>)
    requires GroupsOf(dim, events, grouped)
    ensures var k := KeyOf(dim, e);
            GroupsOf(dim, events + [e], grouped[k := Plus(if k in grouped then grouped[k] else ZERO, One(e))])
  {
    hide KeyOf, One, Occurs;
    var k := KeyOf(dim, e);
    var more := events + [e];
    assert more[..|events|] == events;
    if k !in grouped { AbsentIsZero(dim, events, k); }
    forall j ensures Occurs(dim, more, j) <==> Occurs(dim, events, j) || j == k {
      OccursSnoc(dim, events, e, j);
    }
  }

  /** The grouping loop. */
  method GroupEvents(events: seq<Event>, dim: Dimension) returns (grouped: map<string, Aggregate>)
    ensures GroupsOf(dim, events, grouped)
  {
    hide GroupsOf, KeyOf, One;
    grouped := map[];
    NoGroups(dim);
    for i := 0 to |events|
      invariant GroupsOf(dim, events[..i], grouped)
    {
      var e := events[i];
      GroupStep(dim, events[..i], e, grouped);
      assert events[..i + 1] == events[..i] + [e];
      var k := KeyOf(dim, e);
      var agg := if k in grouped then grouped[k] else ZERO;
      grouped := grouped[k := Plus(agg, One(e))];
    }
    assert events[..|events|] == events;
  }

  lemma NoGroups(dim: Dimension)
    ensures GroupsOf(dim, [], map[])
  {}

  ghost predicate Listed(grouped: map<string, Aggregate>, keys: set<string>, out: seq<Group>)
  {
    && (forall g :: g in out <==> g.key in keys && g.key in grouped && g.agg == grouped[g.key])
    && (forall i, j | 0 <= i < j < |out| :: out[i].key != out[j].key)
  }

  /** The map turned into a list, in whatever order it is visited. */
  method ListGroups(grouped: map<string, Aggregate>) returns (out: seq<Group>)
    ensures Listed(grouped, grouped.Keys, out)
  {
    out := [];
    var left := grouped.Keys;
    while left != {}
      invariant left <= grouped.Keys && Listed(grouped, grouped.Keys - left, out)
      decreases |left|
    {
      var k :| k in left;
      assert forall g | g in out :: g.key != k;
      left := left - {k};
      out := out + [Group(k, grouped[k])];
    }
    assert grouped.Keys - left == grouped.Keys;
  }

  function Keys(all: seq<Group>): (r: seq<Label>)
    ensures |r| == |all| && forall i | 0 <= i < |all| :: r[i] == Key(all[i].key)
  {
    seq(|all|, i requires 0 <= i < |all| => Key(all[i].key))
  }

  function Aggs(all: seq<Group>): (r: seq<Aggregate>)
    ensures |r| == |all| && forall i | 0 <= i < |all| :: r[i] == all[i].agg
  {
    seq(|all|, i requires 0 <= i < |all| => all[i].agg)
  }

  function Tally(events: seq<Event>): Aggregate
  {
    if events == [] then ZERO else Plus(Tally(events[..|events| - 1]), One(events[|events| - 1]))
  }

  lemma {:induction false} AllClassified(dim: Dimension, events: seq<Event>, labels: seq<Label>)
    requires forall i | 0 <= i < |events| :: Key(KeyOf(dim, events[i])) in labels
    ensures TallyAmong(ByDimension(dim), events, labels) == Tally(events)
  {
    hide KeyOf, One;
    if events != [] {
      var n := |events| - 1;
      AllClassified(dim, events[..n], labels);
      assert Key(KeyOf(dim, events[n])) in labels;
    }
  }

  /** `all` lists every group of the events once, ranked. */
  ghost predicate RankedGroups(dim: Dimension, events: seq<Event>, all: seq<Group>)
  {
    && Ranking.Ranked(RanksBefore, all)
    && (forall i, j | 0 <= i < j < |all| :: all[i].key != all[j].key)
    && (forall i | 0 <= i < |all| :: all[i].agg == TallyOf(ByDimension(dim), events, Key(all[i].key)))
    && (forall i | 0 <= i < |events| :: HasKey(all, KeyOf(dim, events[i])))
  }

  ghost predicate HasKey(all: seq<Group>, k: string)
  {
    exists j | 0 <= j < |all| :: all[j].key == k
  }

  /** The counts before the cut sum to all events. */
  lemma GroupsConserve(dim: Dimension, events: seq<Event>, all: seq<Group>)
    requires RankedGroups(dim, events, all)
    ensures SumAll(Aggs(all)) == Tally(events)
  {
    hide KeyOf, TallyOf, RanksBefore, Tally, SumAll;
    var labels := Keys(all);
    SumAllIsSumOver(ByDimension(dim), events, labels, Aggs(all));
    Conservation(ByDimension(dim), events, labels);
    forall i | 0 <= i < |events| ensures Key(KeyOf(dim, events[i])) in labels {
      assert HasKey(all, KeyOf(dim, events[i]));
      var j :| 0 <= j < |all| && all[j].key == KeyOf(dim, events[i]);
      assert labels[j] in labels;
    }
    AllClassified(dim, events, labels);
  }

  lemma SortedGroups(dim: Dimension, events: seq<Event>, grouped: map<string, Aggregate>, out: seq<Group>)
    requires GroupsOf(dim, events, grouped) && Listed(grouped, grouped.Keys, out)
    ensures RankedGroups(dim, events, Ranking.Sort(RanksBefore, out))
  {
    var all := Ranking.Sort(RanksBefore, out);
    RanksBeforeIsStrict();
    forall i, j | 0 <= i < j < |out| ensures RanksBefore(out[i], out[j]) || RanksBefore(out[j], out[i]) {
      Text.LessConnected(out[i].key, out[j].key);
    }
    Ranking.SortRanked(RanksBefore, out);
    forall i | 0 <= i < |all| ensures all[i].agg == TallyOf(ByDimension(dim), events, Key(all[i].key)) {
      assert all[i] in all;
      assert all[i] in out;
      assert all[i].key in grouped && all[i].agg == grouped[all[i].key];
    }
    forall i, j | 0 <= i < j < |all| ensures all[i].key != all[j].key {
      assert RanksBefore(all[i], all[j]) && !RanksBefore(all[i], all[i]);
    }
    forall i | 0 <= i < |events| ensures HasKey(all, KeyOf(dim, events[i])) {
      var k := KeyOf(dim, events[i]);
      assert Occurs(dim, events, k);
      assert k in grouped;
      assert Group(k, grouped[k]) in out && Group(k, grouped[k]) in all;
    }
  }

  /** Every key that occurs, as a group with its aggregate. */
  ghost function GroupFor(dim: Dimension, events: seq<Event>, k: string): Group
  {
    Group(k, TallyOf(ByDimension(dim), events, Key(k)))
  }

  lemma AllGroupsListed(dim: Dimension, events: seq<Event>, grouped: map<string, Aggregate>, out: seq<Group>, k: string)
    requires GroupsOf(dim, events, grouped) && Listed(grouped, grouped.Keys, out)
    ensures GroupFor(dim, events, k) in Ranking.Sort(RanksBefore, out) <==>
            Occurs(dim, events, k)
  {
    hide KeyOf, TallyOf;
    Ranking.SortPermutes(RanksBefore, out);
    Ranking.SameMembers(Ranking.Sort(RanksBefore, out), out);
    if k in grouped { assert GroupFor(dim, events, k) == Group(k, grouped[k]); }
  }

  /** The keys that occur. */
  ghost function KeySet(dim: Dimension, events: seq<Event>): set<string>
  {
    set i | 0 <= i < |events| :: KeyOf(dim, events[i])
  }

  function KeyTexts(all: seq<Group>): (r: seq<string>)
    ensures |r| == |all| && forall i | 0 <= i < |all| :: r[i] == all[i].key
  {
    seq(|all|, i requires 0 <= i < |all| => all[i].key)
  }

  /** As many groups as keys. */
  lemma GroupPerKey(dim: Dimension, events: seq<Event>, all: seq<Group>)
    requires RankedGroups(dim, events, all)
    requires forall i | 0 <= i < |all| :: Occurs(dim, events, all[i].key)
    ensures |all| == |KeySet(dim, events)|
  {
    hide KeyOf, TallyOf, RanksBefore;
    var keys := KeyTexts(all);
    Ranking.DistinctCount(keys);
    forall k ensures k in Ranking.Members(keys) <==> k in KeySet(dim, events) {
      if k in keys {
        var i :| 0 <= i < |keys| && keys[i] == k;
        assert Occurs(dim, events, all[i].key);
      }
      if k in KeySet(dim, events) {
        var i :| 0 <= i < |events| && KeyOf(dim, events[i]) == k;
        assert HasKey(all, k);
        var j :| 0 <= j < |all| && all[j].key == k;
        assert keys[j] == k;
      }
    }
    assert Ranking.Members(keys) == KeySet(dim, events);
  }

  lemma SumAllSnoc(s: seq<Aggregate>, x: Aggregate)
    ensures SumAll(s + [x]) == Plus(SumAll(s), x)
  {
    assert (s + [x])[..|s|] == s;
  }

  lemma {:induction false} SumAllSplit(a: seq<Aggregate>, b: seq<Aggregate>)
    ensures SumAll(a + b) == Plus(SumAll(a), SumAll(b))
  {
    hide SumAll;
    if b == [] {
      assert a + b == a;
      NothingSummed();
    } else {
      var n := |b| - 1;
      SumAllSplit(a, b[..n]);
      SumAllSnoc(b[..n], b[n]);
      SumAllSnoc(a + b[..n], b[n]);
      assert a + b == a + b[..n] + [b[n]] && b == b[..n] + [b[n]];
    }
  }

  lemma {:induction false} OccursCounts(dim: Dimension, events: seq<Event>, k: string)
    requires Occurs(dim, events, k)
    ensures TallyOf(ByDimension(dim), events, Key(k)).count >= 1
  {
    hide KeyOf, Occurs;
    if events != [] {
      var n := |events| - 1;
      assert events == events[..n] + [events[n]];
      OccursSnoc(dim, events[..n], events[n], k);
      if Occurs(dim, events[..n], k) { OccursCounts(dim, events[..n], k); }
    } else {
      NothingOccurs(dim, k);
    }
  }

  lemma NothingOccurs(dim: Dimension, k: string)
    ensures !Occurs(dim, [], k)
  {}

  /** Cutting the list loses events exactly when it cuts anything. */
  lemma CutCounts(dim: Dimension, events: seq<Event>, all: seq<Group>, n: nat)
    requires RankedGroups(dim, events, all) && n <= |all|
    requires forall i | 0 <= i < |all| :: Occurs(dim, events, all[i].key)
    ensures SumAll(Aggs(all[..n])).count == |events| <==> n == |all|
  {
    hide KeyOf, TallyOf, RanksBefore, Tally, SumAll, Occurs;
    GroupsConserve(dim, events, all);
    TallyCounts(events);
    assert Aggs(all) == Aggs(all[..n]) + Aggs(all[n..]);
    SumAllSplit(Aggs(all[..n]), Aggs(all[n..]));
    if n < |all| {
      OccursCounts(dim, events, all[n].key);
      SumAllAtLeast(Aggs(all[n..]), 0);
    } else {
      assert Aggs(all[n..]) == [];
      NothingSummed();
    }
  }

  lemma NothingSummed()
    ensures SumAll([]) == ZERO
  {}

  lemma {:induction false} SumAllAtLeast(s: seq<Aggregate>, i: nat)
    requires i < |s|
    ensures SumAll(s).count >= s[i].count
  {
    if i < |s| - 1 { SumAllAtLeast(s[..|s| - 1], i); }
  }

  /** The positions whose key is k. */
  ghost function WithKey(dim: Dimension, events: seq<Event>, k: string): set<int>
  {
    set i | 0 <= i < |events| && KeyOf(dim, events[i]) == k
  }

  lemma GroupCounts(dim: Dimension, events: seq<Event>, k: string)
    ensures Counts(GroupFor(dim, events, k).agg, events, WithKey(dim, events, k))
  {
    hide Counts, TallyOf, KeyOf;
    TallyOfCounts(ByDimension(dim), events, Key(k));
    assert Labelled(ByDimension(dim), events, Key(k)) == WithKey(dim, events, k);
  }

  /** Larger counts first, ties by ascending key. */
  ghost predicate InGroupOrder(kept: seq<Group>)
  {
    forall i, j | 0 <= i < j < |kept| ::
      kept[i].agg.count > kept[j].agg.count
      || (kept[i].agg.count == kept[j].agg.count && Text.Less(kept[i].key, kept[j].key))
  }

  /** The groups returned are ranked, each the aggregate of exactly its events.
      A key that occurs is missing only if `top` groups were returned, and then
      its group ranks after all of them. The groups account for all events if
      and only if no more than `top` keys occur. */
  method Breakdown(events: seq<Event>, dim: Dimension, requestedTop: int) returns (kept: seq<Group>)
    ensures Ranking.Ranked(RanksBefore, kept) && |kept| <= TopOf(requestedTop)
    ensures forall g | g in kept ::
              g == GroupFor(dim, events, g.key) && Occurs(dim, events, g.key)
    ensures forall i | 0 <= i < |events| ::
              var g := GroupFor(dim, events, KeyOf(dim, events[i]));
              g in kept || (|kept| == TopOf(requestedTop) && forall h | h in kept :: RanksBefore(h, g))
    ensures |kept| == Min(TopOf(requestedTop), |KeySet(dim, events)|)
    ensures SumAll(Aggs(kept)).count == |events| <==> |KeySet(dim, events)| <= TopOf(requestedTop)
    ensures |KeySet(dim, events)| <= TopOf(requestedTop) ==> SumAll(Aggs(kept)) == Tally(events)
    ensures InGroupOrder(kept)
    ensures |kept| == Min(if 1 <= requestedTop <= 200 then requestedTop else 20, |KeySet(dim, events)|)
    ensures forall g | g in kept :: Counts(g.agg, events, WithKey(dim, events, g.key))
  {
    hide Counts, WithKey, KeyOf, TallyOf, GroupsOf, Listed, SumAll, Tally, RanksBefore, GroupFor, Occurs, KeySet;
    var top := 20;
    if requestedTop > 0 && requestedTop <= 200 {
      top := requestedTop;
    }
    var grouped := GroupEvents(events, dim);
    var out := ListGroups(grouped);
    SortedGroups(dim, events, grouped, out);
    ghost var listed := out;
    out := Ranking.Sort(RanksBefore, out);
    ghost var all := out;
    GroupsConserve(dim, events, all);
    forall k ensures GroupFor(dim, events, k) in all <==> Occurs(dim, events, k) {
      AllGroupsListed(dim, events, grouped, listed, k);
    }
    forall i | 0 <= i < |all| ensures all[i] == GroupFor(dim, events, all[i].key) {
      GroupIsFor(dim, events, all[i]);
      assert all[i] in all;
    }
    GroupPerKey(dim, events, all);
    CutCounts(dim, events, all, Min(top, |all|));
    if |out| > top {
      out := out[..top];
    }
    kept := out;
    CutRanksLast(all, kept, |kept|);
    RankedMeans(kept);
    forall g | g in kept ensures Counts(g.agg, events, WithKey(dim, events, g.key)) {
      GroupCounts(dim, events, g.key);
    }
  }

  lemma RankedMeans(kept: seq<Group>)
    requires Ranking.Ranked(RanksBefore, kept)
    ensures InGroupOrder(kept)
  {
    forall i, j | 0 <= i < j < |kept|
      ensures kept[i].agg.count > kept[j].agg.count
              || (kept[i].agg.count == kept[j].agg.count && Text.Less(kept[i].key, kept[j].key))
    {
      assert RanksBefore(kept[i], kept[j]);
    }
  }

  lemma GroupIsFor(dim: Dimension, events: seq<Event>, g: Group)
    requires g.agg == TallyOf(ByDimension(dim), events, Key(g.key))
    ensures g == GroupFor(dim, events, g.key)
  {}

  lemma CutRanksLast(all: seq<Group>, kept: seq<Group>, n: nat)
    requires Ranking.Ranked(RanksBefore, all) && n <= |all| && kept == all[..n]
    ensures forall g | g in all :: g in kept || forall h | h in kept :: RanksBefore(h, g)
  {
    hide RanksBefore;
    forall g | g in all ensures g in kept || forall h | h in kept :: RanksBefore(h, g) {
      var j :| 0 <= j < |all| && all[j] == g;
      if j < n { assert kept[j] == g; }
    }
  }

  /** Groups never count more events than there are. */
  lemma KeptCount(dim: Dimension, events: seq<Event>, kept: seq<Group>)
    requires Ranking.Ranked(RanksBefore, kept) && forall g | g in kept :: g == GroupFor(dim, events, g.key)
    ensures SumAll(Aggs(kept)).count <= |events|
  {
    hide KeyOf, TallyOf, SumAll;
    var labels := Keys(kept);
    RanksBeforeIsStrict();
    forall i, j | 0 <= i < j < |labels| ensures labels[i] != labels[j] {
      assert kept[i] in kept && kept[j] in kept && RanksBefore(kept[i], kept[j]);
    }
    forall i | 0 <= i < |kept| ensures kept[i].agg == TallyOf(ByDimension(dim), events, labels[i]) {
      assert kept[i] in kept;
    }
    SumAllIsSumOver(ByDimension(dim), events, labels, Aggs(kept));
    Conservation(ByDimension(dim), events, labels);
    AmongAtMost(ByDimension(dim), events, labels);
  }

  lemma {:induction false} AmongAtMost(s: Scheme, events: seq<Event>, labels: seq<Label>)
    requires s.ByBucket? ==> s.dur > 0
    ensures TallyAmong(s, events, labels).count <= |events|
  {
    hide LabelOf;
    if events != [] { AmongAtMost(s, events[..|events| - 1], labels); }
  }

  lemma KeysOccur(dim: Dimension, events: seq<Event>, kept: seq<Group>)
    requires forall g | g in kept :: Occurs(dim, events, g.key)
    ensures forall g | g in kept :: g.key in KeySet(dim, events)
  {
    hide KeyOf;
  }

  function OrElse(s: string, none: string): string
  {
    if s != "" then s else none
  }

  /** The value an event is grouped by, for each dimension a request can name. */
  function FieldOf(dimension: string, e: Event): string
  {
    match dimension
    case "route_name" => OrElse(e.routeName, "(unknown)")
    case "status" => Decimal.Itoa(e.status)
    case "auth_type" => OrElse(e.authType, "(unauthenticated)")
    case "user" =>
      OrElse(e.userEmail, OrElse(e.userSubject, if e.apiKeyName != "" then "key:" + e.apiKeyName else "(anonymous)"))
    case _ => OrElse(e.endpointGroup, "(unknown)")
  }

  const DIMENSIONS: set<string> := {"", "endpoint_group", "route_name", "status", "auth_type", "user"}

  lemma DimensionMeans(dimension: string)
    ensures DimensionOf(dimension).Some? <==> dimension in DIMENSIONS
    ensures dimension in DIMENSIONS ==>
              forall e :: KeyOf(DimensionOf(dimension).value, e) == FieldOf(dimension, e)
  {
    hide Decimal.Itoa;
  }

  /** The positions of the events with one value of the dimension. */
  ghost function WithField(dimension: string, events: seq<Event>, k: string): set<int>
  {
    set i | 0 <= i < |events| && FieldOf(dimension, events[i]) == k
  }

  ghost function Fields(dimension: string, events: seq<Event>): set<string>
  {
    set i | 0 <= i < |events| :: FieldOf(dimension, events[i])
  }

  lemma FieldsMean(dimension: string, events: seq<Event>)
    requires dimension in DIMENSIONS
    ensures DimensionOf(dimension).Some? && KeySet(DimensionOf(dimension).value, events) == Fields(dimension, events)
    ensures forall k :: WithKey(DimensionOf(dimension).value, events, k) == WithField(dimension, events, k)
  {
    hide KeyOf, FieldOf, DimensionOf;
    DimensionMeans(dimension);
    forall k ensures WithKey(DimensionOf(dimension).value, events, k) == WithField(dimension, events, k) {}
  }

  /** The breakdown endpoint: refused exactly when the dimension is unknown;
      otherwise the groups of the queried events. They account for every match
      of the window if and only if at most 1000 events match and no more than
      `top` keys occur among them. */
  method BreakdownReply(store: seq<Event>, f: QueryFilter, now: int, dimension: string, requestedTop: int)
    returns (r: Option<seq<Group>>, from: int, to: int)
    ensures (from, to) == TimeWindow(f.from, f.to, now)
    ensures r.None? <==> dimension !in {"", "endpoint_group", "route_name", "status", "auth_type", "user"}
    ensures r.Some? ==>
              var events, all := Queried(store, f, (from, to)), Matching(store, f, (from, to));
              var top := if 1 <= requestedTop <= 200 then requestedTop else 20;
              && InGroupOrder(r.value) && |r.value| == Min(top, |Fields(dimension, events)|)
              && (forall g | g in r.value ::
                    g.key in Fields(dimension, events) && Counts(g.agg, events, WithField(dimension, events, g.key)))
              && (SumAll(Aggs(r.value)).count == |all| <==> |all| <= 1000 && |Fields(dimension, all)| <= top)
  {
    hide Queried, Matching, SumAll, RanksBefore, GroupFor, KeySet, DimensionOf, TimeWindow, Fields, Counts, KeyOf;
    DimensionMeans(dimension);
    var dim := DimensionOf(dimension);
    var w := TimeWindow(f.from, f.to, now);
    from, to := w.0, w.1;
    if dim.None? {
      return None, from, to;
    }
    var events := Queried(store, f, w);
    var kept := Breakdown(events, dim.value, requestedTop);
    SeesAllIff(store, f, w);
    KeptCount(dim.value, events, kept);
    FieldsMean(dimension, events);
    FieldsMean(dimension, Matching(store, f, w));
    KeysOccur(dim.value, events, kept);
    r := Some(kept);
  }

  // ---------------------------------------------------------------- percentiles

  predicate IntLess(a: int, b: int)
  {
    a < b
  }

  function RankPoint(n: nat, p: real): real
  {
    (n - 1) as real * p
  }

  /** `int(float64(n - 1) * p)`, in exact arithmetic. */
  function RankIndex(n: nat, p: real): int
  {
    RankPoint(n, p).Floor
  }

  /** Nearest rank, without interpolation. */
  function Percentile(sorted: seq<int>, p: real): int
    requires 0.0 <= p <= 1.0
  {
    if sorted == [] then 0 else
      var idx := RankIndex(|sorted|, p);
      if idx < 0 then sorted[0] else if idx >= |sorted| then sorted[|sorted| - 1] else sorted[idx]
  }

  function AtMost(s: seq<int>, v: int): nat
  {
    if s == [] then 0 else (if s[0] <= v then 1 else 0) + AtMost(s[1..], v)
  }

  lemma {:induction false} AtMostOfPrefix(s: seq<int>, v: int, k: nat)
    requires k <= |s| && forall i | 0 <= i < k :: s[i] <= v
    ensures AtMost(s, v) >= k
  {
    if k > 0 { AtMostOfPrefix(s[1..], v, k - 1); }
  }

  lemma {:induction false} AtMostOfSuffix(s: seq<int>, v: int, k: nat)
    requires k <= |s| && forall i | k <= i < |s| :: s[i] > v
    ensures AtMost(s, v) <= k
  {
    if s != [] { AtMostOfSuffix(s[1..], v, if k > 0 then k - 1 else 0); }
  }

  lemma {:induction false} AtMostInserted(x: int, s: seq<int>, v: int)
    ensures AtMost(Ranking.Insert(IntLess, x, s), v) == (if x <= v then 1 else 0) + AtMost(s, v)
  {
    if s != [] && !IntLess(x, s[0]) {
      AtMostInserted(x, s[1..], v);
    } else {
      assert ([x] + s)[1..] == s;
    }
  }

  lemma {:induction false} AtMostSorted(s: seq<int>, v: int)
    ensures AtMost(Ranking.Sort(IntLess, s), v) == AtMost(s, v)
  {
    if s != [] {
      AtMostSorted(s[1..], v);
      AtMostInserted(s[0], Ranking.Sort(IntLess, s[1..]), v);
    }
  }

  lemma {:induction false} AtMostMono(s: seq<int>, v: int, w: int)
    requires v <= w
    ensures AtMost(s, v) <= AtMost(s, w)
  {
    if s != [] { AtMostMono(s[1..], v, w); }
  }

  /** v is the nearest-rank percentile of the values, told without sorting: v
      occurs, fewer values than the rank are smaller, and more are at most v. */
  ghost predicate NearestRank(values: seq<int>, p: real, v: int)
  {
    if values == [] then v == 0
    else
      && v in values
      && exists k :: RankOf(|values|, p, k)
                     && |set i | 0 <= i < |values| && values[i] < v| <= k < |set i | 0 <= i < |values| && values[i] <= v|
  }

  /** k is (n - 1) * p, rounded down. */
  ghost predicate RankOf(n: nat, p: real, k: int)
  {
    k as real <= (n - 1) as real * p < (k + 1) as real
  }

  lemma {:induction false} AtMostMeans(s: seq<int>, v: int)
    ensures AtMost(s, v) == |set i | 0 <= i < |s| && s[i] <= v|
  {
    hide AtMost;
    var below := set i | 0 <= i < |s| && s[i] <= v;
    if s == [] {
      AtMostNothing(v);
      assert below == {};
    } else {
      var n := |s| - 1;
      AtMostMeans(s[..n], v);
      AtMostSnoc(s[..n], s[n], v);
      assert s == s[..n] + [s[n]];
      var before := set i | 0 <= i < |s[..n]| && s[..n][i] <= v;
      assert below == if s[n] <= v then before + {n} else before;
    }
  }

  lemma AtMostNothing(v: int)
    ensures AtMost([], v) == 0
  {}

  lemma {:induction false} AtMostSnoc(s: seq<int>, x: int, v: int)
    ensures AtMost(s + [x], v) == AtMost(s, v) + if x <= v then 1 else 0
  {
    if s == [] {
      assert s + [x] == [x] && [x][1..] == [];
    } else {
      AtMostSnoc(s[1..], x, v);
      assert (s + [x])[0] == s[0] && (s + [x])[1..] == s[1..] + [x];
    }
  }

  lemma RanksMean(values: seq<int>, v: int)
    ensures AtMost(values, v) == |set i | 0 <= i < |values| && values[i] <= v|
    ensures AtMost(values, v - 1) == |set i | 0 <= i < |values| && values[i] < v|
  {
    hide AtMost;
    AtMostMeans(values, v);
    AtMostMeans(values, v - 1);
    assert (set i | 0 <= i < |values| && values[i] < v) == (set i | 0 <= i < |values| && values[i] <= v - 1);
  }

  lemma RankOfUnique(n: nat, p: real, k: int, m: int)
    requires RankOf(n, p, k) && RankOf(n, p, m)
    ensures k == m
  {}

  /** That determines it. */
  lemma NearestRankUnique(values: seq<int>, p: real, v: int, w: int)
    requires NearestRank(values, p, v) && NearestRank(values, p, w)
    ensures v == w
  {
    hide RankOf;
    if values != [] {
      RanksMean(values, v);
      RanksMean(values, w);
      var k :| RankOf(|values|, p, k) && AtMost(values, v - 1) <= k < AtMost(values, v);
      var m :| RankOf(|values|, p, m) && AtMost(values, w - 1) <= m < AtMost(values, w);
      RankOfUnique(|values|, p, k, m);
      if v < w { AtMostMono(values, v, w - 1); }
      if w < v { AtMostMono(values, w, v - 1); }
    }
  }

  lemma PercentileIsNearestRank(values: seq<int>, p: real)
    requires 0.0 <= p <= 1.0
    ensures NearestRank(values, p, Percentile(Ranking.Sort(IntLess, values), p))
  {
    hide RankIndex, RankPoint, AtMost, Ranking.Sort, RankOf;
    var sorted := SortInts(values);
    if values != [] {
      RankIndexBounds(|values|, p);
      var idx := RankIndex(|values|, p);
      RankIndexMeans(|values|, p);
      var v := sorted[idx];
      AtMostOfPrefix(sorted, v, idx + 1);
      AtMostOfSuffix(sorted, v - 1, idx);
      AtMostSorted(values, v);
      AtMostSorted(values, v - 1);
      RanksMean(values, v);
      assert v in sorted;
    }
  }

  lemma RankIndexMeans(n: nat, p: real)
    ensures RankOf(n, p, RankIndex(n, p))
  {}

  lemma MulMono(m: real, p: real, q: real)
    requires m >= 0.0 && p <= q
    ensures m * p <= m * q
  {
    assert m * q - m * p == m * (q - p);
  }

  lemma FloorMono(x: real, y: real)
    requires x <= y
    ensures x.Floor <= y.Floor
  {
    assert x.Floor as real <= x && y < y.Floor as real + 1.0;
    assert x.Floor as real < (y.Floor + 1) as real;
  }

  lemma RankIndexMono(n: nat, p: real, q: real)
    requires n >= 1 && p <= q
    ensures RankIndex(n, p) <= RankIndex(n, q)
  {
    MulMono((n - 1) as real, p, q);
    FloorMono((n - 1) as real * p, (n - 1) as real * q);
  }

  lemma RankIndexBounds(n: nat, p: real)
    requires n >= 1 && 0.0 <= p <= 1.0
    ensures 0 <= RankIndex(n, p) <= n - 1 && (RankIndex(n, p) + 1) as real > RankPoint(n, p)
  {
    RankIndexMono(n, 0.0, p);
    RankIndexMono(n, p, 1.0);
    assert (n - 1) as real * 0.0 == 0.0 && (n - 1) as real * 1.0 == (n - 1) as real;
  }

  /** A percentile is an observed value, and more than p of the way through the
      sorted values are at most it. */
  lemma PercentileObserved(sorted: seq<int>, p: real)
    requires sorted != [] && 0.0 <= p <= 1.0
    requires forall i, j | 0 <= i < j < |sorted| :: sorted[i] <= sorted[j]
    ensures Percentile(sorted, p) in sorted
    ensures AtMost(sorted, Percentile(sorted, p)) as real > RankPoint(|sorted|, p)
  {
    hide RankIndex, RankPoint;
    RankIndexBounds(|sorted|, p);
    var idx := RankIndex(|sorted|, p);
    AtMostOfPrefix(sorted, sorted[idx], idx + 1);
  }

  /** Percentiles are monotone in p. */
  lemma PercentileMonotone(sorted: seq<int>, p: real, q: real)
    requires 0.0 <= p <= q <= 1.0
    requires forall i, j | 0 <= i < j < |sorted| :: sorted[i] <= sorted[j]
    ensures Percentile(sorted, p) <= Percentile(sorted, q)
  {
    hide RankIndex;
    if sorted != [] {
      RankIndexBounds(|sorted|, p);
      RankIndexBounds(|sorted|, q);
      RankIndexMono(|sorted|, p, q);
    }
  }

  datatype Stats = Stats(total: nat, errors: nat, success: int, p50: int, p95: int, p99: int)

  function Durations(events: seq<Event>): (r: seq<int>)
    ensures |r| == |events| && forall i | 0 <= i < |r| :: r[i] == events[i].durationMs
  {
    seq(|events|, i requires 0 <= i < |events| => events[i].durationMs)
  }

  lemma {:induction false} TallyCounts(events: seq<Event>)
    ensures Tally(events).count == |events| && Tally(events).errors <= |events|
  {
    if events != [] { TallyCounts(events[..|events| - 1]); }
  }

  /** The first n positions. */
  ghost function Upto(n: nat): (r: set<int>)
    ensures |r| == n && forall i :: i in r <==> 0 <= i < n
  {
    if n == 0 then {} else Upto(n - 1) + {n - 1}
  }

  lemma UptoNext(n: nat)
    ensures Upto(0) == {} && Upto(n + 1) == Upto(n) + {n}
  {}

  lemma TallySnoc(events: seq<Event>, e: Event)
    ensures Tally(events + [e]) == Plus(Tally(events), One(e)) && Tally([]) == ZERO
  {
    assert (events + [e])[..|events|] == events;
  }

  /** The aggregate of all events counts every position. */
  lemma {:induction false} TallyMeans(events: seq<Event>)
    ensures Counts(Tally(events), events, Upto(|events|))
  {
    hide Counts, One, Plus, Tally, Upto;
    if events == [] {
      NothingCounted();
      UptoNext(0);
      TallySnoc([], SOME_EVENT);
    } else {
      var n := |events| - 1;
      var before, e := events[..n], events[n];
      TallyMeans(before);
      UptoNext(n);
      TallySnoc(before, e);
      CountsSnoc(Tally(before), before, e, Upto(n), Upto(n + 1), true);
      assert events == before + [e];
    }
  }

  lemma SortInts(s: seq<int>) returns (sorted: seq<int>)
    ensures sorted == Ranking.Sort(IntLess, s) && |sorted| == |s|
    ensures (forall x :: x in sorted <==> x in s) && forall i, j | 0 <= i < j < |sorted| :: sorted[i] <= sorted[j]
  {
    sorted := Ranking.Sort(IntLess, s);
    assert Ranking.WeakOrder(IntLess);
    Ranking.SortSorted(IntLess, s);
    forall i, j | 0 <= i < j < |sorted| ensures sorted[i] <= sorted[j] {
      assert !IntLess(sorted[j], sorted[i]);
    }
  }

  /** The three percentiles of a list of durations, and where they occur. */
  lemma PercentilesOrdered(durations: seq<int>)
    ensures var sorted := Ranking.Sort(IntLess, durations);
            && Percentile(sorted, 0.50) <= Percentile(sorted, 0.95) <= Percentile(sorted, 0.99)
            && (durations != [] ==>
                  && Percentile(sorted, 0.50) in durations && Percentile(sorted, 0.95) in durations
                  && Percentile(sorted, 0.99) in durations)
  {
    hide Percentile;
    var sorted := SortInts(durations);
    PercentileMonotone(sorted, 0.50, 0.95);
    PercentileMonotone(sorted, 0.95, 0.99);
    if durations != [] {
      PercentileObserved(sorted, 0.50);
      PercentileObserved(sorted, 0.95);
      PercentileObserved(sorted, 0.99);
    }
  }

  /** Totals agree with the aggregate, and each percentile is the nearest-rank
      value of the observed durations. */
  method AuditStats(events: seq<Event>) returns (r: Stats)
    ensures r.total == |events| && r.errors == Tally(events).errors
    ensures r.errors == |set i | 0 <= i < |events| && !events[i].success|
    ensures r.success == r.total - r.errors >= 0
    ensures r.p50 <= r.p95 <= r.p99
    ensures var d := Durations(events);
            NearestRank(d, 0.50, r.p50) && NearestRank(d, 0.95, r.p95) && NearestRank(d, 0.99, r.p99)
  {
    hide Percentile, NearestRank;
    var durations: seq<int> := [];
    var total, errs := 0, 0;
    for i := 0 to |events|
      invariant durations == Durations(events[..i]) && total == i && errs == Tally(events[..i]).errors
    {
      assert events[..i + 1][..i] == events[..i];
      total := total + 1;
      if !events[i].success {
        errs := errs + 1;
      }
      durations := durations + [events[i].durationMs];
    }
    assert events[..|events|] == events;
    TallyCounts(events);
    TallyMeans(events);
    assert Failed(events, Upto(|events|)) == set i | 0 <= i < |events| && !events[i].success;
    var sorted := Ranking.Sort(IntLess, durations);
    PercentilesOrdered(durations);
    PercentileIsNearestRank(durations, 0.50);
    PercentileIsNearestRank(durations, 0.95);
    PercentileIsNearestRank(durations, 0.99);
    r := Stats(total, errs, total - errs, Percentile(sorted, 0.50), Percentile(sorted, 0.95), Percentile(sorted, 0.99));
  }

  /** The stats endpoint: the statistics of the queried events, whose total is
      that of the window if and only if at most 1000 events match. */
  method StatsReply(store: seq<Event>, f: QueryFilter, now: int) returns (r: Stats, from: int, to: int)
    ensures (from, to) == TimeWindow(f.from, f.to, now)
    ensures var events := Queried(store, f, (from, to));
            && r.total == |events| && r.errors == (|set i | 0 <= i < |events| && !events[i].success|)
            && r.success == r.total - r.errors
            && NearestRank(Durations(events), 0.50, r.p50) && NearestRank(Durations(events), 0.95, r.p95)
            && NearestRank(Durations(events), 0.99, r.p99)
    ensures var all := Matching(store, f, (from, to)); r.total == |all| <==> |all| <= MAX_QUERY_LIMIT
  {
    hide Queried, Matching, NearestRank, Tally, TimeWindow;
    var w := TimeWindow(f.from, f.to, now);
    from, to := w.0, w.1;
    r := AuditStats(Queried(store, f, w));
    SeesAllIff(store, f, w);
  }
}

/** The audit event, the query filter, and `MemoryLogger`, whose answers are
    the reference meaning of a query. */
module AuditStore {
  import opened Prelude
  import Ranking
  import Text

  type Headers = map<string, seq<string>>

  /** The captured request envelope joined to an event. */
  datatype Payload = Payload(
    requestHeaders: Headers,
    requestQuery: Headers,
    requestContentType: string,
    requestBody: seq<int>,
    replayedFrom: string)

  /** Timestamps are instants on one integer clock; the zero instant is 0. */
  datatype Event = Event(
    id: string,
    ts: int,
    durationMs: int,
    sessionId: string,
    userSubject: string,
    userEmail: string,
    authType: string,
    apiKeyName: string,
    method_: string,
    path: string,
    routeName: string,
    endpointGroup: string,
    status: int,
    success: bool,
    errorMessage: string,
    payload: Option<Payload>)

  /** Zero values mean "no constraint", as in the Go struct. */
  datatype QueryFilter = QueryFilter(
    from: int,
    to: int,
    method_: string,
    path: string,
    routeName: string,
    userId: string,
    sessionId: string,
    eventId: string,
    status: int,
    success: Option<bool>,
    search: string,
    limit: int,
    offset: int)

  const SOME_EVENT := Event("", 0, 0, "", "", "", "", "", "", "", "", "", 0, true, "", None)

  /** Copies of an event, told apart by ids of different length. */
  function Copies(ev: Event, n: nat): (r: seq<Event>)
    ensures |r| == n && forall i | 0 <= i < n :: r[i] == ev.(id := r[i].id) && |r[i].id| == i
  {
    seq(n, i requires 0 <= i < n => ev.(id := seq(i, _ => 'x')))
  }

  const MAX_QUERY_LIMIT: nat := 1000
  const DEFAULT_QUERY_LIMIT: nat := 100

  predicate SearchHits(ev: Event, search: string)
  {
    var needle := Text.Lower(search);
    Text.Contains(Text.Lower(ev.path), needle) || Text.Contains(Text.Lower(ev.errorMessage), needle)
  }

  predicate MatchesFilter(ev: Event, f: QueryFilter)
  {
    && (f.eventId != "" ==> ev.id == f.eventId)
    && (f.method_ != "" ==> ev.method_ == f.method_)
    && (f.path != "" ==> ev.path == f.path)
    && (f.routeName != "" ==> ev.routeName == f.routeName)
    && (f.userId != "" ==> ev.userSubject == f.userId)
    && (f.sessionId != "" ==> ev.sessionId == f.sessionId)
    && (f.status != 0 ==> ev.status == f.status)
    && (f.from != 0 ==> f.from <= ev.ts)
    && (f.to != 0 ==> ev.ts <= f.to)
    && (f.success.Some? ==> ev.success == f.success.value)
    && (f.search != "" ==> SearchHits(ev, f.search))
  }

  /** Newest first, ties by ascending id. */
  predicate Before(a: Event, b: Event)
  {
    a.ts > b.ts || (a.ts == b.ts && Text.Less(a.id, b.id))
  }

  ghost predicate UniqueIds(events: seq<Event>)
  {
    forall i, j | 0 <= i < j < |events| :: events[i].id != events[j].id
  }

  lemma BeforeIsStrict()
    ensures Ranking.StrictOrder(Before)
  {
    forall x: Event ensures !Before(x, x) { Text.LessIrreflexive(x.id); }
    forall x: Event, y: Event, z: Event | Before(x, y) && Before(y, z) ensures Before(x, z) {
      if x.ts == y.ts == z.ts { Text.LessTransitive(x.id, y.id, z.id); }
    }
  }

  function Filter(events: seq<Event>, f: QueryFilter): seq<Event>
  {
    if events == [] then [] else
      var n := |events| - 1;
      Filter(events[..n], f) + if MatchesFilter(events[n], f) then [events[n]] else []
  }

  lemma {:induction false} FilterSpec(events: seq<Event>, f: QueryFilter)
    ensures forall e :: e in Filter(events, f) <==> e in events && MatchesFilter(e, f)
    ensures UniqueIds(events) ==> UniqueIds(Filter(events, f))
  {
    if events != [] {
      var n := |events| - 1;
      FilterSpec(events[..n], f);
      assert events == events[..n] + [events[n]];
      var kept := Filter(events[..n], f);
      forall i | UniqueIds(events) && 0 <= i < |kept| ensures kept[i].id != events[n].id {
        assert kept[i] in events[..n];
      }
    }
  }

  lemma {:induction false} FilterAllOrNone(events: seq<Event>, f: QueryFilter, hit: bool)
    requires forall e | e in events :: MatchesFilter(e, f) == hit
    ensures Filter(events, f) == if hit then events else []
  {
    hide MatchesFilter;
    if events != [] {
      var n := |events| - 1;
      assert events == events[..n] + [events[n]] && events[n] in events;
      FilterAllOrNone(events[..n], f, hit);
    }
  }

  /** Every match, in query order: what `matchAll` returns. */
  function MatchList(events: seq<Event>, f: QueryFilter): seq<Event>
  {
    Ranking.Sort(Before, Filter(events, f))
  }

  /** With unique ids the match list is ranked and holds exactly the matches. */
  lemma MatchListSpec(events: seq<Event>, f: QueryFilter)
    requires UniqueIds(events)
    ensures Ranking.StrictOrder(Before)
    ensures Ranking.Ranked(Before, MatchList(events, f))
    ensures forall e :: e in MatchList(events, f) <==> e in events && MatchesFilter(e, f)
    ensures |MatchList(events, f)| == |Filter(events, f)|
  {
    var m := Filter(events, f);
    FilterSpec(events, f);
    BeforeIsStrict();
    forall i, j | 0 <= i < j < |m| ensures Before(m[i], m[j]) || Before(m[j], m[i]) {
      Text.LessConnected(m[i].id, m[j].id);
    }
    Ranking.SortRanked(Before, m);
  }

  /** Any ranked sequence of exactly the matches is the match list. */
  lemma MatchListUnique(events: seq<Event>, f: QueryFilter, ranked: seq<Event>)
    requires UniqueIds(events) && Ranking.Ranked(Before, ranked)
    requires forall e :: e in ranked <==> e in events && MatchesFilter(e, f)
    ensures ranked == MatchList(events, f)
  {
    MatchListSpec(events, f);
    Ranking.RankedUnique(Before, ranked, MatchList(events, f));
  }

  function EffectiveLimit(limit: int): (r: nat)
    ensures 1 <= r <= MAX_QUERY_LIMIT
  {
    if limit <= 0 then DEFAULT_QUERY_LIMIT else if limit > MAX_QUERY_LIMIT then MAX_QUERY_LIMIT else limit
  }

  /** The slice [offset, offset + limit) of `s`, clamped to its ends. */
  function Slice<T>(s: seq<T>, offset: int, limit: nat): seq<T>
  {
    var lo := if offset < 0 then 0 else offset;
    if lo >= |s| then [] else if |s| - lo > limit then s[lo..lo + limit] else s[lo..]
  }

  function Query(events: seq<Event>, f: QueryFilter): seq<Event>
  {
    Slice(MatchList(events, f), f.offset, EffectiveLimit(f.limit))
  }

  /** A page is ranked, and holds only matches. */
  lemma QuerySpec(events: seq<Event>, f: QueryFilter)
    requires UniqueIds(events)
    ensures Ranking.Ranked(Before, Query(events, f)) && |Query(events, f)| <= MAX_QUERY_LIMIT
    ensures forall e | e in Query(events, f) :: e in events && MatchesFilter(e, f)
  {
    hide MatchList, MatchesFilter, Before;
    MatchListSpec(events, f);
  }

  /** All matches in the order of a query: newest first, ties by ascending id. */
  ghost predicate InQueryOrder(all: seq<Event>)
  {
    forall i, j | 0 <= i < j < |all| ::
      all[i].ts > all[j].ts || (all[i].ts == all[j].ts && Text.Less(all[i].id, all[j].id))
  }

  /** A query, told without its own steps: of all matches in query order it
      returns those from the offset on, at most as many as the limit, where no
      limit means 100, none above 1000 is granted, and a negative offset is 0. */
  lemma QueryMeans(events: seq<Event>, f: QueryFilter, all: seq<Event>)
    requires UniqueIds(events) && InQueryOrder(all) && forall e :: e in all <==> e in events && MatchesFilter(e, f)
    ensures var limit := if f.limit <= 0 then 100 else Min(f.limit, 1000);
            var lo := Min(if f.offset < 0 then 0 else f.offset, |all|);
            Query(events, f) == all[lo..Min(lo + limit, |all|)]
  {
    hide MatchList, MatchesFilter;
    MatchListUnique(events, f, all);
  }

  /** The payload of the first stored event with this id. */
  function PayloadOf(events: seq<Event>, id: string): Option<Payload>
  {
    if events == [] then None
    else if events[0].id == id then events[0].payload
    else PayloadOf(events[1..], id)
  }

  class MemoryLogger {
    var events: seq<Event>

    constructor ()
      ensures events == []
    {
      events := [];
    }

    /** `generated` is the id the UUID generator would return. */
    method Log(ev: Event, generated: string)
      modifies this
      ensures events == old(events) + [if ev.id == "" then ev.(id := generated) else ev]
      ensures old(UniqueIds(events)) && (forall e | e in old(events) :: e.id != events[|events| - 1].id)
              ==> UniqueIds(events)
    {
      var stored := ev;
      if stored.id == "" {
        stored := stored.(id := generated);
      }
      events := events + [stored];
    }

    method MatchAll(f: QueryFilter) returns (out: seq<Event>)
      ensures out == MatchList(events, f)
    {
      out := [];
      for i := 0 to |events|
        invariant out == Filter(events[..i], f)
      {
        assert events[..i + 1][..i] == events[..i];
        if MatchesFilter(events[i], f) {
          out := out + [events[i]];
        }
      }
      assert events[..|events|] == events;
      out := Ranking.Sort(Before, out);
    }

    /** A page is the requested window of the ranked matches. */
    method QueryPage(f: QueryFilter) returns (out: seq<Event>)
      ensures out == Query(events, f)
      ensures |out| <= MAX_QUERY_LIMIT
    {
      hide MatchList;
      out := MatchAll(f);
      var offset := f.offset;
      if offset < 0 {
        offset := 0;
      }
      if offset >= |out| {
        return [];
      }
      out := out[offset..];
      var limit := f.limit;
      if limit <= 0 {
        limit := DEFAULT_QUERY_LIMIT;
      }
      if limit > MAX_QUERY_LIMIT {
        limit := MAX_QUERY_LIMIT;
      }
      if |out| > limit {
        out := out[..limit];
      }
    }

    /** Counting ignores limit and offset. */
    method Count(f: QueryFilter) returns (n: nat)
      ensures n == |MatchList(events, f)|
      ensures UniqueIds(events) ==> n == |Filter(events, f)|
    {
      var out := MatchAll(f);
      if UniqueIds(events) { MatchListSpec(events, f); }
      n := |out|;
    }

    method GetPayload(id: string) returns (p: Option<Payload>)
      ensures p == PayloadOf(events, id)
      ensures (forall i | 0 <= i < |events| :: events[i].id != id) ==> p == None
      ensures forall i | 0 <= i < |events| && events[i].id == id && (forall j | 0 <= j < i :: events[j].id != id) ::
                p == events[i].payload
    {
      for i := 0 to |events|
        invariant PayloadOf(events, id) == PayloadOf(events[i..], id)
        invariant forall j | 0 <= j < i :: events[j].id != id
      {
        if events[i].id == id {
          return events[i].payload;
        }
        assert events[i..][1..] == events[i + 1..];
      }
      return None;
    }
  }
}

/** The live tail of the audit log. Each tick walks an inclusive upper bound
    (`cursor`) down through the window [lastSeen, now], one query per page, and
    suppresses what it has already sent by id. */
module AuditStream {
  import opened Prelude
  import opened AuditStore
  import Ranking

  const MAX_PAGES_PER_TICK: nat := 10

  /** The most events one tick can deliver when timestamps do not tie: every
      page after the first re-reads the event at its boundary. */
  const TICK_CAPACITY: nat := 1 + MAX_PAGES_PER_TICK * (MAX_QUERY_LIMIT - 1)

  /** What one query finds: the store at that moment, or an error. */
  datatype Outcome = Rows(events: seq<Event>) | Failed

  /** Why the page loop of a tick ended. `Stuck` records the cursor. */
  datatype Ending = ShortPage | Stuck(at: int) | QueryFailed | OutOfPages

  datatype TickResult = TickResult(emitted: seq<Event>, ending: Ending)

  datatype Frame = AuditFrame(ev: Event) | ErrorFrame | SaturatedFrame(emittedThisTick: nat)

  /** One poll: the clock reading, and the outcome of the n-th query. */
  datatype Tick = Tick(now: int, view: nat -> Outcome)

  function Window(from: int, to: int): QueryFilter
  {
    QueryFilter(from, to, "", "", "", "", "", "", 0, None, "", MAX_QUERY_LIMIT, 0)
  }

  function Page(events: seq<Event>, from: int, to: int): (r: seq<Event>)
    ensures |r| <= MAX_QUERY_LIMIT
  {
    Query(events, Window(from, to))
  }

  function Ids(s: seq<Event>): set<string>
  {
    set e | e in s :: e.id
  }

  /** The events of a page that the inner loop sends. */
  function Fresh(page: seq<Event>, lastSeen: int, seen: set<string>): (r: seq<Event>)
    ensures forall e | e in r :: e in page && e.ts > lastSeen && e.id !in seen
    ensures UniqueIds(r)
  {
    if page == [] then [] else
      var n := |page| - 1;
      var sent := Fresh(page[..n], lastSeen, seen);
      if page[n].ts <= lastSeen || page[n].id in seen + Ids(sent) then sent
      else sent + [page[n]]
  }

  /** The page loop of a tick, from a given page on. */
  function Walk(view: nat -> Outcome, page: nat, lastSeen: int, cursor: int, seen: set<string>): TickResult
    requires page <= MAX_PAGES_PER_TICK
    decreases MAX_PAGES_PER_TICK - page
  {
    if page == MAX_PAGES_PER_TICK then TickResult([], OutOfPages) else
      match view(page)
      case Failed => TickResult([], QueryFailed)
      case Rows(events) =>
        var rows := Page(events, lastSeen, cursor);
        var news := Fresh(rows, lastSeen, seen);
        if |rows| < MAX_QUERY_LIMIT then TickResult(news, ShortPage)
        else if news == [] then TickResult([], Stuck(cursor))
        else
          var rest := Walk(view, page + 1, lastSeen, rows[MAX_QUERY_LIMIT - 1].ts, seen + Ids(news));
          TickResult(news + rest.emitted, rest.ending)
  }

  function RunTick(tick: Tick, lastSeen: int): TickResult
  {
    Walk(tick.view, 0, lastSeen, tick.now, {})
  }

  // ---------------------------------------------------------------- pages

  /** The rows of a window query: the newest 1000 events of [from, to]. */
  lemma WindowPage(events: seq<Event>, from: int, to: int)
    requires UniqueIds(events) && from > 0 && to > 0
    ensures var all := MatchList(events, Window(from, to));
            && Ranking.Ranked(Before, all)
            && (forall e :: e in all <==> e in events && from <= e.ts <= to)
            && Page(events, from, to) == if |all| > MAX_QUERY_LIMIT then all[..MAX_QUERY_LIMIT] else all
  {
    MatchListSpec(events, Window(from, to));
  }

  /** The ranked events of a window are determined by the window. */
  lemma WindowUnique(events: seq<Event>, from: int, to: int, ranked: seq<Event>)
    requires UniqueIds(events) && from > 0 && to > 0 && Ranking.Ranked(Before, ranked)
    requires forall e :: e in ranked <==> e in events && from <= e.ts <= to
    ensures ranked == MatchList(events, Window(from, to))
  {
    MatchListUnique(events, Window(from, to), ranked);
  }

  /** Rows lie in the window even when the store is not well formed. */
  lemma RowsInWindow(events: seq<Event>, from: int, to: int, e: Event)
    requires from > 0 && to > 0 && e in Page(events, from, to)
    ensures e in events && from <= e.ts <= to
  {
    var f := Window(from, to);
    FilterSpec(events, f);
    Ranking.SortPermutes(Before, Filter(events, f));
    Ranking.SameMembers(MatchList(events, f), Filter(events, f));
  }

  lemma {:induction false} FreshSpec(page: seq<Event>, lastSeen: int, seen: set<string>)
    requires UniqueIds(page)
    ensures forall e :: e in Fresh(page, lastSeen, seen) <==> e in page && e.ts > lastSeen && e.id !in seen
  {
    if page != [] {
      var n := |page| - 1;
      FreshSpec(page[..n], lastSeen, seen);
      assert page == page[..n] + [page[n]];
      forall e | e in page[..n] ensures e.id != page[n].id {}
    }
  }

  lemma RankedUniqueIds(events: seq<Event>, s: seq<Event>)
    requires UniqueIds(events) && Ranking.Ranked(Before, s)
    requires forall e | e in s :: e in events
    ensures UniqueIds(s)
  {
    BeforeIsStrict();
    forall i, j | 0 <= i < j < |s| ensures s[i].id != s[j].id {
      assert Before(s[i], s[j]) && s[i] in events && s[j] in events;
    }
  }

  /** What a page query contributes when the store is well formed. */
  lemma PageFacts(events: seq<Event>, lastSeen: int, cursor: int, seen: set<string>)
    requires UniqueIds(events) && lastSeen > 0 && cursor > 0
    ensures var rows := Page(events, lastSeen, cursor);
            && UniqueIds(rows)
            && (forall e | e in rows :: e in events && lastSeen <= e.ts <= cursor)
            && (forall e :: e in Fresh(rows, lastSeen, seen) <==> e in rows && e.ts > lastSeen && e.id !in seen)
            && (|rows| < MAX_QUERY_LIMIT ==> forall e | e in events && lastSeen <= e.ts <= cursor :: e in rows)
            && (|rows| == MAX_QUERY_LIMIT ==>
                  forall e | e in events && rows[MAX_QUERY_LIMIT - 1].ts < e.ts <= cursor :: e in rows)
  {
    var all := MatchList(events, Window(lastSeen, cursor));
    var rows := Page(events, lastSeen, cursor);
    WindowPage(events, lastSeen, cursor);
    RankedUniqueIds(events, rows);
    FreshSpec(rows, lastSeen, seen);
    if |rows| == MAX_QUERY_LIMIT {
      var last := rows[MAX_QUERY_LIMIT - 1];
      assert last in rows;
      assert forall k | MAX_QUERY_LIMIT <= k < |all| :: Before(last, all[k]);
      forall e | e in events && last.ts < e.ts <= cursor ensures e in rows {
        assert e in all;
        var k :| 0 <= k < |all| && all[k] == e;
      }
    }
  }

  // ---------------------------------------------------------------- one tick, any store

  /** Some query of the tick found the event stored. */
  ghost predicate Held(view: nat -> Outcome, e: Event)
  {
    exists n | 0 <= n < MAX_PAGES_PER_TICK :: view(n).Rows? && e in view(n).events
  }

  /** Whatever the store does between queries, a tick sends only unseen
      events of (lastSeen, cursor], each from a store it queried, no id twice. */
  lemma {:induction false} WalkSafe(view: nat -> Outcome, page: nat, lastSeen: int, cursor: int, seen: set<string>)
    requires page <= MAX_PAGES_PER_TICK && lastSeen > 0 && cursor > 0
    ensures var out := Walk(view, page, lastSeen, cursor, seen).emitted;
            && UniqueIds(out)
            && (forall e | e in out :: lastSeen < e.ts <= cursor && e.id !in seen)
            && (forall e | e in out :: Held(view, e))
    decreases MAX_PAGES_PER_TICK - page
  {
    hide Page, Fresh, MatchList, Filter;
    if page < MAX_PAGES_PER_TICK && view(page).Rows? {
      var events := view(page).events;
      var rows := Page(events, lastSeen, cursor);
      var news := Fresh(rows, lastSeen, seen);
      forall e | e in rows ensures e in events && lastSeen <= e.ts <= cursor {
        RowsInWindow(events, lastSeen, cursor, e);
      }
      if |rows| == MAX_QUERY_LIMIT && news != [] {
        assert rows[MAX_QUERY_LIMIT - 1] in rows;
        var next := rows[MAX_QUERY_LIMIT - 1].ts;
        WalkSafe(view, page + 1, lastSeen, next, seen + Ids(news));
        var rest := Walk(view, page + 1, lastSeen, next, seen + Ids(news)).emitted;
        forall i, j | 0 <= i < |news| && 0 <= j < |rest| ensures news[i].id != rest[j].id {
          assert rest[j] in rest && news[i] in news;
        }
      }
    }
  }

  // ---------------------------------------------------------------- how a tick ends

  lemma {:induction false} FilterFits(events: seq<Event>, f: QueryFilter)
    ensures |Filter(events, f)| <= |events|
  {
    hide MatchesFilter;
    if events != [] { FilterFits(events[..|events| - 1], f); }
  }

  lemma PageFits(events: seq<Event>, from: int, to: int)
    ensures |Page(events, from, to)| <= |events|
  {
    hide Filter, Ranking.Sort;
    var f := Window(from, to);
    FilterFits(events, f);
    Ranking.SortPermutes(Before, Filter(events, f));
    Ranking.SameMembers(MatchList(events, f), Filter(events, f));
  }

  /** The first n queries from a page on were answered. */
  ghost predicate Answered(view: nat -> Outcome, page: nat, n: nat)
  {
    forall m: nat | page <= m < n :: view(m).Rows?
  }

  /** What an ending says about the queries from a page on: a failure was met and
      everything before it was answered; or all pages were answered from at least
      1000 events; or the queries up to the last were answered. */
  ghost predicate EndsLike(view: nat -> Outcome, page: nat, ending: Ending)
  {
    match ending
    case QueryFailed => exists n: nat | page <= n < 10 :: view(n).Failed? && Answered(view, page, n)
    case OutOfPages => forall n: nat | page <= n < 10 :: view(n).Rows? && |view(n).events| >= 1000
    case _ => exists n: nat | page <= n < 10 :: view(n).Rows? && Answered(view, page, n)
  }

  lemma EndsEarlier(view: nat -> Outcome, page: nat, ending: Ending)
    requires view(page).Rows? && |view(page).events| >= 1000 && EndsLike(view, page + 1, ending)
    ensures EndsLike(view, page, ending)
  {
    match ending
    case QueryFailed =>
      var n: nat :| page + 1 <= n < 10 && view(n).Failed? && Answered(view, page + 1, n);
      assert Answered(view, page, n);
    case OutOfPages =>
    case _ =>
      var n: nat :| page + 1 <= n < 10 && view(n).Rows? && Answered(view, page + 1, n);
      assert Answered(view, page, n);
  }

  lemma EndsHere(view: nat -> Outcome, page: nat, at: int)
    requires page <= 10
    ensures page < 10 && view(page).Failed? ==> EndsLike(view, page, QueryFailed)
    ensures page < 10 && view(page).Rows? ==> EndsLike(view, page, ShortPage) && EndsLike(view, page, Stuck(at))
    ensures page == 10 ==> EndsLike(view, page, OutOfPages)
  {
    assert Answered(view, page, page);
  }

  /** Whatever the store does, every tick ends in the way its ending says. */
  lemma {:induction false} EndingMeans(view: nat -> Outcome, page: nat, lastSeen: int, cursor: int, seen: set<string>)
    requires page <= 10
    ensures EndsLike(view, page, Walk(view, page, lastSeen, cursor, seen).ending)
    ensures page < 10 && view(page).Failed? ==> Walk(view, page, lastSeen, cursor, seen) == TickResult([], QueryFailed)
    decreases 10 - page
  {
    hide Page, Fresh, Ids, EndsLike;
    EndsHere(view, page, cursor);
    if page < 10 && view(page).Rows? {
      var events := view(page).events;
      PageFits(events, lastSeen, cursor);
      var rows := Page(events, lastSeen, cursor);
      var news := Fresh(rows, lastSeen, seen);
      if |rows| == MAX_QUERY_LIMIT && news != [] {
        var next := rows[MAX_QUERY_LIMIT - 1].ts;
        EndingMeans(view, page + 1, lastSeen, next, seen + Ids(news));
        EndsEarlier(view, page, Walk(view, page + 1, lastSeen, next, seen + Ids(news)).ending);
      }
    }
  }

  /** A failed query ends the tick: nothing after it is asked. */
  lemma {:induction false} FailureEnds(view: nat -> Outcome, view': nat -> Outcome, page: nat, n: nat,
                                       lastSeen: int, cursor: int, seen: set<string>)
    requires page <= n < 10 && view(n).Failed? && forall m: nat | page <= m <= n :: view'(m) == view(m)
    ensures Walk(view', page, lastSeen, cursor, seen) == Walk(view, page, lastSeen, cursor, seen)
    decreases n - page
  {
    hide Page, Fresh, Ids;
    if page < n && view(page).Rows? {
      var rows := Page(view(page).events, lastSeen, cursor);
      var news := Fresh(rows, lastSeen, seen);
      if |rows| == MAX_QUERY_LIMIT && news != [] {
        FailureEnds(view, view', page + 1, n, lastSeen, rows[MAX_QUERY_LIMIT - 1].ts, seen + Ids(news));
      }
    }
  }

  // ---------------------------------------------------------------- one tick, unchanged store

  ghost predicate Unchanged(view: nat -> Outcome, events: seq<Event>)
  {
    forall n | 0 <= n < MAX_PAGES_PER_TICK :: view(n) == Rows(events)
  }

  /** On a short page nothing is left behind; when stuck, everything above the
      cursor was sent and the stuck page is one block of tied timestamps. */
  lemma {:induction false} WalkComplete(view: nat -> Outcome, events: seq<Event>, page: nat,
                                        lastSeen: int, cursor: int, seen: set<string>)
    requires page <= MAX_PAGES_PER_TICK && lastSeen > 0 && cursor > 0
    requires Unchanged(view, events) && UniqueIds(events)
    requires forall e | e in events && e.id in seen :: e.ts >= cursor
    ensures var r := Walk(view, page, lastSeen, cursor, seen);
            && (forall e | e in r.emitted :: e in events)
            && (r.ending == ShortPage ==>
                  forall e | e in events && lastSeen < e.ts <= cursor && e.id !in seen :: e in r.emitted)
            && (r.ending.Stuck? ==>
                  && 0 < r.ending.at <= cursor
                  && (forall e | e in events && lastSeen < e.ts <= cursor && e.ts > r.ending.at && e.id !in seen ::
                        e in r.emitted)
                  && |Page(events, lastSeen, r.ending.at)| == MAX_QUERY_LIMIT
                  && forall e | e in Page(events, lastSeen, r.ending.at) :: e.ts == r.ending.at || e.ts == lastSeen)
    decreases MAX_PAGES_PER_TICK - page
  {
    hide Page, Fresh, MatchList, Filter;
    if page < MAX_PAGES_PER_TICK {
      assert view(page) == Rows(events);
      PageFacts(events, lastSeen, cursor, seen);
      var rows := Page(events, lastSeen, cursor);
      var news := Fresh(rows, lastSeen, seen);
      if |rows| == MAX_QUERY_LIMIT && news == [] {
        forall e | e in rows ensures e.ts == cursor || e.ts == lastSeen {
          assert e !in news;
        }
      } else if |rows| == MAX_QUERY_LIMIT {
        assert rows[MAX_QUERY_LIMIT - 1] in rows;
        var next := rows[MAX_QUERY_LIMIT - 1].ts;
        forall e | e in events && e.id in seen + Ids(news) ensures e.ts >= next {
          if e.id in Ids(news) {
            var e' :| e' in news && e'.id == e.id;
            assert e' in rows && e' in events;
            assert e == e';
            OldestIsLast(events, lastSeen, cursor, e);
          }
        }
        WalkComplete(view, events, page + 1, lastSeen, next, seen + Ids(news));
        forall e | e in events && next < e.ts <= cursor && e.id !in seen && lastSeen < e.ts ensures e in news {}
        forall e | e in events && e.id in Ids(news) ensures e in news {
          var e' :| e' in news && e'.id == e.id;
        }
      }
    }
  }

  lemma OldestIsLast(events: seq<Event>, from: int, to: int, e: Event)
    requires UniqueIds(events) && from > 0 && to > 0
    requires e in Page(events, from, to)
    ensures e.ts >= Page(events, from, to)[|Page(events, from, to)| - 1].ts
  {
    WindowPage(events, from, to);
    var rows := Page(events, from, to);
    var k :| 0 <= k < |rows| && rows[k] == e;
    if k < |rows| - 1 { assert Before(rows[k], rows[|rows| - 1]); }
  }

  /** Tick completeness: a tick over an unchanged store that ends on a short
      page sends exactly the events of (lastSeen, now], each once, however
      many timestamps tie. */
  lemma TickCompleteness(tick: Tick, events: seq<Event>, lastSeen: int)
    requires lastSeen > 0 && tick.now > 0 && Unchanged(tick.view, events) && UniqueIds(events)
    ensures var r := RunTick(tick, lastSeen);
            && UniqueIds(r.emitted)
            && (r.ending == ShortPage ==>
                  forall e :: e in r.emitted <==> e in events && lastSeen < e.ts <= tick.now)
  {
    WalkSafe(tick.view, 0, lastSeen, tick.now, {});
    WalkComplete(tick.view, events, 0, lastSeen, tick.now, {});
  }

  /** A saturated tick lost nothing newer than the cursor it stuck at, and
      at least 1000 stored events share that timestamp or `lastSeen`'s. */
  lemma SaturatedMeansTied(tick: Tick, events: seq<Event>, lastSeen: int)
    requires lastSeen > 0 && tick.now > 0 && Unchanged(tick.view, events) && UniqueIds(events)
    ensures var r := RunTick(tick, lastSeen);
            r.ending.Stuck? ==>
              var at := r.ending.at;
              && (forall e | e in events && lastSeen < e.ts && at < e.ts <= tick.now :: e in r.emitted)
              && exists tied: seq<Event> ::
                   && |tied| == MAX_QUERY_LIMIT && UniqueIds(tied)
                   && forall e | e in tied :: e in events && (e.ts == at || e.ts == lastSeen)
  {
    hide Walk, Page;
    WalkComplete(tick.view, events, 0, lastSeen, tick.now, {});
    if RunTick(tick, lastSeen).ending.Stuck? {
      var at := RunTick(tick, lastSeen).ending.at;
      PageFacts(events, lastSeen, at, {});
      var tied := Page(events, lastSeen, at);
      assert |tied| == MAX_QUERY_LIMIT && UniqueIds(tied)
             && forall e | e in tied :: e in events && (e.ts == at || e.ts == lastSeen);
    }
  }
}

/** Exactly how much one tick delivers over an unchanged store, whatever
    timestamps tie: where each page starts, and how far the last one reaches. */
module AuditStreamCapacity {
  import opened Prelude
  import opened AuditStore
  import opened AuditStream
  import Ranking

  /** Everything a tick ought to send, newest first. */
  function Due(events: seq<Event>, lastSeen: int, now: int): seq<Event>
  {
    MatchList(events, Window(lastSeen + 1, now))
  }

  /** `all` lists the window [lastSeen, now], newest first, and its first m
      events are the ones newer than `lastSeen`. */
  ghost predicate Listing(events: seq<Event>, lastSeen: int, now: int, all: seq<Event>, m: nat)
  {
    && lastSeen > 0 && now > 0 && UniqueIds(events) && UniqueIds(all)
    && Ranking.Ranked(Before, all)
    && (forall e :: e in all <==> e in events && lastSeen <= e.ts <= now)
    && Descending(all)
    && m <= |all|
    && (forall i | 0 <= i < |all| :: all[i].ts > lastSeen <==> i < m)
  }

  ghost predicate Descending(all: seq<Event>)
  {
    forall i, j | 0 <= i < j < |all| :: all[i].ts >= all[j].ts
  }

  lemma {:induction false} NewerCount(all: seq<Event>, lastSeen: int, n: nat) returns (m: nat)
    requires Descending(all) && n <= |all| && forall i | n <= i < |all| :: all[i].ts <= lastSeen
    ensures m <= n && forall i | 0 <= i < |all| :: all[i].ts > lastSeen <==> i < m
  {
    if n == 0 || all[n - 1].ts > lastSeen {
      m := n;
    } else {
      m := NewerCount(all, lastSeen, n - 1);
    }
  }

  lemma ListingExists(events: seq<Event>, lastSeen: int, now: int) returns (all: seq<Event>, m: nat)
    requires lastSeen > 0 && now > 0 && UniqueIds(events)
    ensures all == MatchList(events, Window(lastSeen, now))
    ensures Listing(events, lastSeen, now, all, m)
  {
    hide MatchList, Page;
    all := MatchList(events, Window(lastSeen, now));
    WindowPage(events, lastSeen, now);
    RankedUniqueIds(events, all);
    forall i, j | 0 <= i < j < |all| ensures all[i].ts >= all[j].ts {
      assert Before(all[i], all[j]);
    }
    m := NewerCount(all, lastSeen, |all|);
  }

  // ---------------------------------------------------------------- where pages start

  /** The first position with the timestamp of position j. */
  function First(all: seq<Event>, j: nat): (r: nat)
    requires j < |all|
    ensures r <= j
  {
    if j == 0 || all[j - 1].ts != all[j].ts then j else First(all, j - 1)
  }

  lemma {:induction false} FirstFacts(all: seq<Event>, j: nat)
    requires j < |all|
    ensures var r := First(all, j); all[r].ts == all[j].ts && (r > 0 ==> all[r - 1].ts != all[j].ts)
  {
    if j > 0 && all[j - 1].ts == all[j].ts { FirstFacts(all, j - 1); }
  }

  /** Where page k starts in the listing: a page that follows a full one starts
      over with the timestamp that the full one ended with. */
  function Start(all: seq<Event>, k: nat): (c: nat)
    ensures c <= |all|
  {
    if k == 0 then 0
    else
      var c := Start(all, k - 1);
      if c + MAX_QUERY_LIMIT <= |all| then First(all, c + MAX_QUERY_LIMIT - 1) else c
  }

  /** How far the last page of a tick reaches. */
  function Reach(all: seq<Event>): nat
  {
    Start(all, MAX_PAGES_PER_TICK - 1) + MAX_QUERY_LIMIT
  }

  lemma FirstSplitsAt(all: seq<Event>, j: nat, i: nat)
    requires Descending(all) && j < |all| && i < |all|
    ensures all[i].ts <= all[j].ts <==> i >= First(all, j)
  {
    hide First, Descending;
    var r := First(all, j);
    FirstFacts(all, j);
    if i < r {
      NotNewer(all, i, r - 1);
      NotNewer(all, r - 1, r);
    } else {
      NotNewer(all, r, i);
    }
  }

  lemma NotNewer(all: seq<Event>, i: nat, j: nat)
    requires Descending(all) && i <= j < |all|
    ensures all[i].ts >= all[j].ts
  {}

  lemma FirstSplits(all: seq<Event>, j: nat)
    requires Descending(all) && j < |all|
    ensures forall i | 0 <= i < |all| :: all[i].ts <= all[j].ts <==> i >= First(all, j)
  {
    hide First, Descending;
    forall i | 0 <= i < |all| ensures all[i].ts <= all[j].ts <==> i >= First(all, j) { FirstSplitsAt(all, j, i); }
  }

  lemma StartStep(all: seq<Event>, k: nat)
    ensures var c := Start(all, k);
            Start(all, k + 1) == if c + MAX_QUERY_LIMIT <= |all| then First(all, c + MAX_QUERY_LIMIT - 1) else c
  {
    hide First;
  }

  lemma StartZero(all: seq<Event>)
    ensures Start(all, 0) == 0
  {}

  /** A page starts where a timestamp starts. */
  ghost predicate AtBlock(all: seq<Event>, c: nat)
  {
    c <= |all| && (0 < c < |all| ==> all[c - 1].ts != all[c].ts)
  }

  lemma FirstNotBefore(all: seq<Event>, c: nat, j: nat)
    requires Descending(all) && AtBlock(all, c) && c <= j < |all|
    ensures c <= First(all, j) && AtBlock(all, First(all, j))
  {
    FirstSplits(all, j);
    FirstFacts(all, j);
    if c > 0 { assert all[c - 1].ts >= all[c].ts && all[c].ts >= all[j].ts; }
  }

  lemma BlockAfter(all: seq<Event>, k: nat)
    requires Descending(all) && AtBlock(all, Start(all, k))
    ensures AtBlock(all, Start(all, k + 1)) && Start(all, k) <= Start(all, k + 1)
  {
    hide First, Start, AtBlock, Descending;
    StartStep(all, k);
    var c := Start(all, k);
    if c + MAX_QUERY_LIMIT <= |all| { FirstNotBefore(all, c, c + MAX_QUERY_LIMIT - 1); }
  }

  lemma {:induction false} StartIsBlock(all: seq<Event>, k: nat)
    requires Descending(all)
    ensures AtBlock(all, Start(all, k)) && Start(all, k) <= Start(all, k + 1)
  {
    hide First, Start, Descending;
    if k > 0 {
      StartIsBlock(all, k - 1);
      BlockAfter(all, k - 1);
    } else {
      StartZero(all);
    }
    BlockAfter(all, k);
  }

  lemma {:induction false} StartMono(all: seq<Event>, k: nat, n: nat)
    requires Descending(all) && k <= n
    ensures Start(all, k) <= Start(all, n)
    decreases n
  {
    hide Start;
    if k < n {
      StartMono(all, k, n - 1);
      StartIsBlock(all, n - 1);
    }
  }

  /** Pages start at or before the events that are not due. */
  lemma {:induction false} StartIsDue(all: seq<Event>, m: nat, lastSeen: int, k: nat)
    requires Descending(all) && m <= |all|
    requires forall i | 0 <= i < |all| :: lastSeen <= all[i].ts && (all[i].ts > lastSeen <==> i < m)
    ensures Start(all, k) <= m
  {
    if k > 0 {
      StartIsDue(all, m, lastSeen, k - 1);
      var c := Start(all, k - 1);
      if c + MAX_QUERY_LIMIT <= |all| {
        var j := c + MAX_QUERY_LIMIT - 1;
        FirstSplits(all, j);
        if j >= m { assert all[m].ts == lastSeen == all[j].ts; }
      }
    }
  }

  /** A page that starts where the one before started repeats itself for good. */
  lemma {:induction false} StartStays(all: seq<Event>, k: nat, n: nat)
    requires k < n && Start(all, k) == Start(all, k + 1)
    ensures Start(all, n) == Start(all, k)
    decreases n
  {
    hide Start, First;
    if k + 1 < n {
      StartStays(all, k, n - 1);
      StartStep(all, k);
      StartStep(all, n - 1);
    }
  }

  // ---------------------------------------------------------------- pages of the listing

  /** Lowering the cursor to a timestamp of the listing cuts off what is newer. */
  lemma CursorCutsPrefix(events: seq<Event>, lastSeen: int, now: int, all: seq<Event>, m: nat, j: nat)
    requires Listing(events, lastSeen, now, all, m) && j < |all|
    ensures 0 < all[j].ts && MatchList(events, Window(lastSeen, all[j].ts)) == all[First(all, j)..]
  {
    hide MatchList, Before, UniqueIds, First;
    assert all[j] in all;
    var c := First(all, j);
    FirstSplits(all, j);
    forall e ensures e in all[c..] <==> e in events && lastSeen <= e.ts <= all[j].ts {
      SuffixMembers(all, c, all[j].ts, e);
    }
    assert Ranking.Ranked(Before, all[c..]);
    WindowUnique(events, lastSeen, all[j].ts, all[c..]);
  }

  lemma SuffixMembers(all: seq<Event>, c: nat, t: int, e: Event)
    requires c <= |all| && forall i | 0 <= i < |all| :: all[i].ts <= t <==> i >= c
    ensures e in all[c..] <==> e in all && e.ts <= t
  {
    if e in all && e.ts <= t {
      var k :| 0 <= k < |all| && all[k] == e;
      assert e == all[c..][k - c];
    }
    if e in all[c..] {
      var k :| 0 <= k < |all[c..]| && all[c..][k] == e;
      assert e == all[c + k];
    }
  }

  /** What is due up to a timestamp is a slice of the listing. */
  lemma DueIsSlice(events: seq<Event>, lastSeen: int, now: int, all: seq<Event>, m: nat, c: nat, t: int)
    requires Listing(events, lastSeen, now, all, m) && c <= m && 0 < t <= now
    requires forall i | 0 <= i < |all| :: all[i].ts <= t <==> i >= c
    ensures Due(events, lastSeen, t) == all[c..m]
  {
    hide MatchList, Before, UniqueIds;
    forall e ensures e in all[c..m] <==> e in events && lastSeen + 1 <= e.ts <= t {
      if e in events && lastSeen + 1 <= e.ts <= t {
        assert e in all;
        var k :| 0 <= k < |all| && all[k] == e;
        assert e == all[c..m][k - c];
      }
      if e in all[c..m] {
        var k :| c <= k < m && all[k] == e;
        assert e in all;
      }
    }
    assert Ranking.Ranked(Before, all[c..m]);
    WindowUnique(events, lastSeen + 1, t, all[c..m]);
  }

  lemma FreshSnoc(page: seq<Event>, ev: Event, lastSeen: int, seen: set<string>)
    ensures var sent := Fresh(page, lastSeen, seen);
            Fresh(page + [ev], lastSeen, seen)
            == if ev.ts <= lastSeen || ev.id in seen + Ids(sent) then sent else sent + [ev]
  {
    assert (page + [ev])[..|page|] == page;
  }

  lemma FreshOfNothing(lastSeen: int, seen: set<string>)
    ensures Fresh([], lastSeen, seen) == []
  {}

  lemma SliceSnoc(s: seq<Event>, a: nat, b: nat)
    requires a < b <= |s|
    ensures s[a..b] == s[a..b - 1] + [s[b - 1]]
  {}

  /** Rows that were all sent before yield nothing. */
  lemma {:induction false} FreshNone(all: seq<Event>, lastSeen: int, c: nat, lo: nat, h: nat)
    requires c <= h <= lo <= |all| && UniqueIds(all)
    ensures Fresh(all[c..h], lastSeen, Ids(all[..lo])) == []
    decreases h
  {
    hide Ids, Fresh, UniqueIds;
    if h == c {
      FreshOfNothing(lastSeen, Ids(all[..lo]));
      assert all[c..h] == [];
    } else {
      FreshNone(all, lastSeen, c, lo, h - 1);
      SliceSnoc(all, c, h);
      FreshSnoc(all[c..h - 1], all[h - 1], lastSeen, Ids(all[..lo]));
      assert all[0..lo] == all[..lo];
      IdKnown(all, 0, lo, h - 1);
    }
  }

  /** Of the rows [c, h), with the first `lo` events already sent, the inner
      loop sends [lo, h), stopping at the first event not newer than `lastSeen`. */
  lemma {:induction false} FreshSlice(all: seq<Event>, m: nat, lastSeen: int, c: nat, lo: nat, h: nat)
    requires c <= lo <= h <= |all| && lo <= m <= |all| && UniqueIds(all)
    requires forall i | 0 <= i < |all| :: all[i].ts > lastSeen <==> i < m
    ensures Fresh(all[c..h], lastSeen, Ids(all[..lo])) == all[lo..Min(h, m)]
    decreases h
  {
    hide Ids, Fresh, UniqueIds;
    if h == lo {
      FreshNone(all, lastSeen, c, lo, h);
    } else {
      FreshSlice(all, m, lastSeen, c, lo, h - 1);
      SliceSnoc(all, c, h);
      FreshSnoc(all[c..h - 1], all[h - 1], lastSeen, Ids(all[..lo]));
      if h - 1 < m {
        assert Min(h, m) == h && Min(h - 1, m) == h - 1;
        assert all[0..lo] == all[..lo];
        IdKnown(all, 0, lo, h - 1);
        IdKnown(all, lo, h - 1, h - 1);
        SliceSnoc(all, lo, h);
      } else {
        assert Min(h, m) == m == Min(h - 1, m);
      }
    }
  }

  /** The id at position k is among those of [a, b) exactly when k lies there. */
  lemma IdKnown(all: seq<Event>, a: nat, b: nat, k: nat)
    requires a <= b <= |all| && k < |all| && UniqueIds(all)
    ensures all[k].id in Ids(all[a..b]) <==> a <= k < b
  {
    if a <= k < b { assert all[k] == all[a..b][k - a]; }
    if all[k].id in Ids(all[a..b]) {
      var e :| e in all[a..b] && e.id == all[k].id;
      var i :| a <= i < b && all[i] == e;
    }
  }

  lemma IdsSplit(all: seq<Event>, a: nat, b: nat)
    requires a <= b <= |all|
    ensures Ids(all[..a]) + Ids(all[a..b]) == Ids(all[..b])
  {
    assert all[..b] == all[..a] + all[a..b];
  }

  /** How many events were sent before page k is queried. */
  function Sent(all: seq<Event>, m: nat, k: nat): (r: nat)
    ensures r <= m
  {
    if k == 0 then 0 else Min(Start(all, k - 1) + MAX_QUERY_LIMIT, m)
  }

  /** What the tick still sends once page k is due. */
  function Remaining(all: seq<Event>, m: nat, k: nat): seq<Event>
    requires m <= |all| && Sent(all, m, k) <= Min(m, Reach(all))
  {
    all[Sent(all, m, k)..Min(m, Reach(all))]
  }

  /** The cursor of page k is the timestamp of the last row of page k - 1. */
  ghost predicate CursorAt(all: seq<Event>, now: int, k: nat, cursor: int)
  {
    if k == 0 then cursor == now
    else Start(all, k - 1) + MAX_QUERY_LIMIT <= |all|
         && cursor == all[Start(all, k - 1) + MAX_QUERY_LIMIT - 1].ts
  }

  lemma NextCursor(all: seq<Event>, now: int, k: nat)
    requires Start(all, k) + MAX_QUERY_LIMIT <= |all|
    ensures CursorAt(all, now, k + 1, all[Start(all, k) + MAX_QUERY_LIMIT - 1].ts)
  {
    hide Start;
  }

  /** The events of the listing lie in its window, the due ones first. */
  lemma ListingFacts(events: seq<Event>, lastSeen: int, now: int, all: seq<Event>, m: nat)
    requires Listing(events, lastSeen, now, all, m)
    ensures forall i | 0 <= i < |all| ::
              all[i] in all && 0 < lastSeen <= all[i].ts <= now && (all[i].ts > lastSeen <==> i < m)
  {
    hide Before, UniqueIds, Descending;
  }

  /** The cursor of page k separates what starts at page k from what is newer. */
  lemma CursorSplits(events: seq<Event>, lastSeen: int, now: int, all: seq<Event>, m: nat, k: nat, cursor: int)
    requires Listing(events, lastSeen, now, all, m) && CursorAt(all, now, k, cursor)
    ensures Start(all, k) <= m && 0 < cursor <= now
    ensures forall i | 0 <= i < |all| :: all[i].ts <= cursor <==> i >= Start(all, k)
  {
    hide Before, UniqueIds, First, Start;
    ListingFacts(events, lastSeen, now, all, m);
    StartIsDue(all, m, lastSeen, k);
    if k == 0 {
      StartZero(all);
    } else {
      StartStep(all, k - 1);
      FirstSplits(all, Start(all, k - 1) + MAX_QUERY_LIMIT - 1);
    }
  }

  lemma ListingIsWindow(events: seq<Event>, lastSeen: int, now: int, all: seq<Event>, m: nat)
    requires Listing(events, lastSeen, now, all, m)
    ensures MatchList(events, Window(lastSeen, now)) == all
  {
    hide MatchList, Before, UniqueIds, Descending;
    WindowUnique(events, lastSeen, now, all);
  }

  lemma FirstCursor(all: seq<Event>, now: int, cursor: int)
    requires CursorAt(all, now, 0, cursor)
    ensures cursor == now && all[Start(all, 0)..] == all
  {
    hide First;
  }

  /** The row whose timestamp became the cursor of page k. */
  lemma CursorRow(all: seq<Event>, now: int, k: nat, cursor: int) returns (j: nat)
    requires CursorAt(all, now, k, cursor) && k > 0
    ensures j < |all| && cursor == all[j].ts && Start(all, k) == First(all, j)
  {
    hide First, Start;
    j := Start(all, k - 1) + MAX_QUERY_LIMIT - 1;
    StartStep(all, k - 1);
  }

  lemma CursorCuts(events: seq<Event>, lastSeen: int, now: int, all: seq<Event>, m: nat, k: nat, cursor: int)
    requires Listing(events, lastSeen, now, all, m) && CursorAt(all, now, k, cursor)
    ensures MatchList(events, Window(lastSeen, cursor)) == all[Start(all, k)..]
  {
    hide MatchList, First, Start, Listing, Window, CursorAt;
    if k == 0 {
      FirstCursor(all, now, cursor);
      ListingIsWindow(events, lastSeen, now, all, m);
    } else {
      var j := CursorRow(all, now, k, cursor);
      CursorCutsPrefix(events, lastSeen, now, all, m, j);
    }
  }

  lemma RowsOfPage(events: seq<Event>, lastSeen: int, cursor: int, all: seq<Event>, c: nat)
    requires UniqueIds(events) && lastSeen > 0 && cursor > 0 && c <= |all|
    requires MatchList(events, Window(lastSeen, cursor)) == all[c..]
    ensures Page(events, lastSeen, cursor) == all[c..Min(|all|, c + MAX_QUERY_LIMIT)]
  {
    hide MatchList, Page, Before;
    WindowPage(events, lastSeen, cursor);
  }

  lemma SentBounds(all: seq<Event>, now: int, m: nat, k: nat, cursor: int)
    requires Descending(all) && m <= |all| && Start(all, k) <= m && CursorAt(all, now, k, cursor)
    ensures Start(all, k) <= Sent(all, m, k) <= Min(|all|, Start(all, k) + MAX_QUERY_LIMIT)
  {
    hide Start, First, Descending;
    if k > 0 {
      StartIsBlock(all, k - 1);
      StartStep(all, k - 1);
    } else {
      StartZero(all);
    }
  }

  /** The rows of page k, and what of them is sent. */
  lemma PageOfWalk(events: seq<Event>, lastSeen: int, now: int, all: seq<Event>, m: nat, k: nat, cursor: int)
    requires Listing(events, lastSeen, now, all, m) && CursorAt(all, now, k, cursor)
    ensures var c := Start(all, k);
            var h := Min(|all|, c + MAX_QUERY_LIMIT);
            && c <= h && Sent(all, m, k) <= Min(h, m)
            && Page(events, lastSeen, cursor) == all[c..h]
            && Fresh(all[c..h], lastSeen, Ids(all[..Sent(all, m, k)])) == all[Sent(all, m, k)..Min(h, m)]
  {
    hide MatchList, Fresh, Before, Ids, Page, UniqueIds, First, Start, Sent;
    var c := Start(all, k);
    CursorSplits(events, lastSeen, now, all, m, k, cursor);
    CursorCuts(events, lastSeen, now, all, m, k, cursor);
    RowsOfPage(events, lastSeen, cursor, all, c);
    SentBounds(all, now, m, k, cursor);
    FreshSlice(all, m, lastSeen, c, Sent(all, m, k), Min(|all|, c + MAX_QUERY_LIMIT));
  }

  /** One unfolding of the page loop. */
  lemma WalkStep(view: nat -> Outcome, events: seq<Event>, k: nat, lastSeen: int, cursor: int, seen: set<string>)
    requires k < MAX_PAGES_PER_TICK && view(k) == Rows(events)
    ensures var rows := Page(events, lastSeen, cursor);
            var news := Fresh(rows, lastSeen, seen);
            var r := Walk(view, k, lastSeen, cursor, seen);
            && (|rows| < MAX_QUERY_LIMIT ==> r == TickResult(news, ShortPage))
            && (|rows| == MAX_QUERY_LIMIT && news == [] ==> r == TickResult([], Stuck(cursor)))
            && (|rows| == MAX_QUERY_LIMIT && news != [] ==>
                  var rest := Walk(view, k + 1, lastSeen, rows[MAX_QUERY_LIMIT - 1].ts, seen + Ids(news));
                  r == TickResult(news + rest.emitted, rest.ending))
  {
    hide Page, Fresh, Ids;
  }

  lemma WalkEnd(view: nat -> Outcome, lastSeen: int, cursor: int, seen: set<string>)
    ensures Walk(view, MAX_PAGES_PER_TICK, lastSeen, cursor, seen) == TickResult([], OutOfPages)
  {}

  /** Sending page k leaves what page k + 1 and its successors send; a page that
      sends nothing, or a short one, leaves nothing. */
  lemma RemainingStep(all: seq<Event>, m: nat, k: nat)
    requires Descending(all) && m <= |all| && k < MAX_PAGES_PER_TICK
    requires k > 0 ==> Start(all, k - 1) + MAX_QUERY_LIMIT <= |all|
    ensures var h := Start(all, k) + MAX_QUERY_LIMIT;
            && Sent(all, m, k) <= Sent(all, m, k + 1) == Min(h, m) <= Min(m, Reach(all))
            && Remaining(all, m, k) == all[Sent(all, m, k)..Min(h, m)] + Remaining(all, m, k + 1)
            && (|all| < h ==> Remaining(all, m, k + 1) == [])
            && (Sent(all, m, k) == Min(h, m) ==> Remaining(all, m, k) == [])
  {
    hide Start;
    StartMono(all, k, MAX_PAGES_PER_TICK - 1);
    if k > 0 { StartMono(all, k - 1, k); }
    var h := Start(all, k) + MAX_QUERY_LIMIT;
    SliceConcat(all, Sent(all, m, k), Min(h, m), Min(m, Reach(all)));
    if k > 0 && Sent(all, m, k) == Min(h, m) && Start(all, k - 1) == Start(all, k) {
      StartStays(all, k - 1, MAX_PAGES_PER_TICK - 1);
    }
  }

  lemma NothingRemains(all: seq<Event>, m: nat)
    requires m <= |all|
    ensures Sent(all, m, MAX_PAGES_PER_TICK) == Min(m, Reach(all)) && Remaining(all, m, MAX_PAGES_PER_TICK) == []
  {}

  lemma SliceConcat(s: seq<Event>, a: nat, b: nat, c: nat)
    requires a <= b <= c <= |s|
    ensures s[a..c] == s[a..b] + s[b..c]
  {}

  /** A walk that sticks at page k lost something exactly when more than a page
      of due events is left from there. */
  lemma StuckAt(events: seq<Event>, lastSeen: int, now: int, all: seq<Event>, m: nat, k: nat, cursor: int)
    requires Listing(events, lastSeen, now, all, m) && CursorAt(all, now, k, cursor) && k < MAX_PAGES_PER_TICK
    requires Start(all, k) + MAX_QUERY_LIMIT <= |all|
    requires Sent(all, m, k) == Min(Start(all, k) + MAX_QUERY_LIMIT, m)
    ensures 0 < cursor && (m > Reach(all) <==> |Due(events, lastSeen, cursor)| > MAX_QUERY_LIMIT)
  {
    hide MatchList, Before, UniqueIds, First, Start, Due;
    CursorSplits(events, lastSeen, now, all, m, k, cursor);
    DueIsSlice(events, lastSeen, now, all, m, Start(all, k), cursor);
    StartMono(all, k, MAX_PAGES_PER_TICK - 1);
    if k > 0 {
      StartMono(all, k - 1, k);
      if Start(all, k - 1) == Start(all, k) { StartStays(all, k - 1, MAX_PAGES_PER_TICK - 1); }
    }
  }

  /** From page k on the walk sends what remains. */
  lemma {:induction false} WalkFrom(view: nat -> Outcome, events: seq<Event>, lastSeen: int, now: int,
                                    all: seq<Event>, m: nat, k: nat, cursor: int)
    requires Listing(events, lastSeen, now, all, m) && m <= |all| && Descending(all)
    requires k <= MAX_PAGES_PER_TICK && Unchanged(view, events) && CursorAt(all, now, k, cursor)
    ensures Sent(all, m, k) <= Min(m, Reach(all))
    ensures var r := Walk(view, k, lastSeen, cursor, Ids(all[..Sent(all, m, k)]));
            && r.emitted == Remaining(all, m, k)
            && (r.ending.Stuck? ==>
                  0 < r.ending.at && (m > Reach(all) <==> |Due(events, lastSeen, r.ending.at)| > MAX_QUERY_LIMIT))
    decreases MAX_PAGES_PER_TICK - k
  {
    hide Fresh, Page, Ids, Walk, Start, Due, Listing, Descending, Remaining, Sent, Reach;
    if k == MAX_PAGES_PER_TICK {
      WalkEnd(view, lastSeen, cursor, Ids(all[..Sent(all, m, k)]));
      NothingRemains(all, m);
    } else {
      var h := Start(all, k) + MAX_QUERY_LIMIT;
      PageOfWalk(events, lastSeen, now, all, m, k, cursor);
      WalkStep(view, events, k, lastSeen, cursor, Ids(all[..Sent(all, m, k)]));
      RemainingStep(all, m, k);
      if |all| >= h {
        if Sent(all, m, k) == Min(h, m) {
          StuckAt(events, lastSeen, now, all, m, k, cursor);
        } else {
          assert Page(events, lastSeen, cursor)[MAX_QUERY_LIMIT - 1] == all[h - 1];
          NextCursor(all, now, k);
          IdsSplit(all, Sent(all, m, k), Min(h, m));
          WalkFrom(view, events, lastSeen, now, all, m, k + 1, all[h - 1].ts);
        }
      }
    }
  }

  // ---------------------------------------------------------------- what a tick sends

  /** Tick capacity, exactly and whatever ties: over an unchanged store a tick
      sends the due events, newest first, as far as its last page reaches. */
  lemma TickSends(tick: Tick, events: seq<Event>, lastSeen: int)
    requires lastSeen > 0 && tick.now > 0 && UniqueIds(events) && Unchanged(tick.view, events)
    ensures var due := Due(events, lastSeen, tick.now);
            var reach := Reach(MatchList(events, Window(lastSeen, tick.now)));
            var r := RunTick(tick, lastSeen);
            && r.emitted == due[..Min(|due|, reach)]
            && (r.ending.Stuck? ==>
                  (|due| > reach <==> |Due(events, lastSeen, r.ending.at)| > MAX_QUERY_LIMIT))
  {
    hide MatchList, Fresh, Page, Walk, Start, Due, Before, UniqueIds;
    var all, m := ListingExists(events, lastSeen, tick.now);
    assert forall i | 0 <= i < |all| :: all[i] in all;
    DueIsSlice(events, lastSeen, tick.now, all, m, 0, tick.now);
    assert all[0..m] == all[..m];
    assert Ids(all[..Sent(all, m, 0)]) == {};
    WalkFrom(tick.view, events, lastSeen, tick.now, all, m, 0, tick.now);
  }

  ghost predicate NothingLost(tick: Tick, events: seq<Event>, lastSeen: int)
  {
    forall e | e in events && lastSeen < e.ts <= tick.now :: e in RunTick(tick, lastSeen).emitted
  }

  /** A tick over an unchanged store loses nothing if and only if its last page
      reaches all that is due. */
  lemma NothingLostIff(tick: Tick, events: seq<Event>, lastSeen: int)
    requires lastSeen > 0 && tick.now > 0 && UniqueIds(events) && Unchanged(tick.view, events)
    ensures NothingLost(tick, events, lastSeen) <==>
            |Filter(events, Window(lastSeen + 1, tick.now))| <= Reach(MatchList(events, Window(lastSeen, tick.now)))
  {
    hide MatchList, Filter, RunTick, Reach, Before;
    var due := Due(events, lastSeen, tick.now);
    var reach := Reach(MatchList(events, Window(lastSeen, tick.now)));
    TickSends(tick, events, lastSeen);
    MatchListSpec(events, Window(lastSeen + 1, tick.now));
    Ranking.RankedNoDup(Before, due);
    if |due| > reach {
      assert due[reach] in due;
      assert due[reach] !in due[..reach];
    } else {
      assert due[..|due|] == due;
    }
  }

  /** The saturated frame, exactly: a tick that reports it lost something if and
      only if more than 1000 events that are due lie at or before the cursor it
      stuck at. */
  lemma SaturatedLostIff(tick: Tick, events: seq<Event>, lastSeen: int)
    requires lastSeen > 0 && tick.now > 0 && UniqueIds(events) && Unchanged(tick.view, events)
    ensures RunTick(tick, lastSeen).ending.Stuck? ==>
              (NothingLost(tick, events, lastSeen) <==>
               |Filter(events, Window(lastSeen + 1, RunTick(tick, lastSeen).ending.at))| <= MAX_QUERY_LIMIT)
  {
    hide MatchList, Filter, RunTick, Reach, Before, NothingLost;
    TickSends(tick, events, lastSeen);
    NothingLostIff(tick, events, lastSeen);
    MatchListSpec(events, Window(lastSeen + 1, tick.now));
    if RunTick(tick, lastSeen).ending.Stuck? {
      MatchListSpec(events, Window(lastSeen + 1, RunTick(tick, lastSeen).ending.at));
    }
  }

  // ---------------------------------------------------------------- a burst at one instant

  lemma OneInstant(all: seq<Event>, t: int, j: nat)
    requires j < |all| && forall i | 0 <= i < |all| :: all[i].ts == t
    ensures First(all, j) == 0
  {
    hide First;
    FirstFacts(all, j);
  }

  lemma BurstPages(all: seq<Event>, now: int, t: int)
    requires |all| >= MAX_QUERY_LIMIT && forall i | 0 <= i < |all| :: all[i].ts == t
    ensures Start(all, 0) == Start(all, 1) == 0 && CursorAt(all, now, 1, t)
  {
    hide Start, First;
    StartZero(all);
    StartStep(all, 0);
    OneInstant(all, t, MAX_QUERY_LIMIT - 1);
    NextCursor(all, now, 0);
  }

  /** The second page of a burst at one instant finds only what the first sent. */
  lemma BurstSecondPage(view: nat -> Outcome, events: seq<Event>, lastSeen: int, now: int, all: seq<Event>, t: int)
    requires Listing(events, lastSeen, now, all, |all|) && view(1) == Rows(events)
    requires |all| >= MAX_QUERY_LIMIT && forall i | 0 <= i < |all| :: all[i].ts == t
    ensures Walk(view, 1, lastSeen, t, Ids(all[..MAX_QUERY_LIMIT])) == TickResult([], Stuck(t))
  {
    hide Listing, Fresh, Page, Walk, Start, First, Ids;
    BurstPages(all, now, t);
    PageOfWalk(events, lastSeen, now, all, |all|, 1, t);
    WalkStep(view, events, 1, lastSeen, t, Ids(all[..MAX_QUERY_LIMIT]));
  }

  lemma BurstSticks(tick: Tick, events: seq<Event>, lastSeen: int, all: seq<Event>, t: int)
    requires Listing(events, lastSeen, tick.now, all, |all|) && Unchanged(tick.view, events)
    requires |all| >= MAX_QUERY_LIMIT && forall i | 0 <= i < |all| :: all[i].ts == t
    ensures RunTick(tick, lastSeen).ending == Stuck(t)
  {
    hide Listing, Fresh, Page, Walk, Start, First, Ids;
    var n := MAX_QUERY_LIMIT;
    BurstPages(all, tick.now, t);
    PageOfWalk(events, lastSeen, tick.now, all, |all|, 0, tick.now);
    NoIds(all);
    WalkStep(tick.view, events, 0, lastSeen, tick.now, {});
    IdsSplit(all, 0, n);
    assert all[0..n] == all[..n];
    BurstSecondPage(tick.view, events, lastSeen, tick.now, all, t);
  }

  lemma NoIds(all: seq<Event>)
    ensures Ids(all[..0]) == {}
  {}

  lemma BurstIsDue(events: seq<Event>, from: int, to: int, t: int)
    requires 0 < from <= t <= to && forall e | e in events :: e.ts == t
    ensures Filter(events, Window(from, to)) == events
  {
    FilterAllOrNone(events, Window(from, to), true);
  }

  /** Saturation: a tick over at least 1000 events, all at one instant t, sticks
      at t and reports saturation. It has lost nothing if there are exactly
      1000 of them, and otherwise all but the first 1000. */
  lemma TiedBurst(tick: Tick, events: seq<Event>, lastSeen: int, t: int)
    requires 0 < lastSeen < t <= tick.now && UniqueIds(events) && Unchanged(tick.view, events)
    requires |events| >= MAX_QUERY_LIMIT && forall e | e in events :: e.ts == t
    ensures RunTick(tick, lastSeen).ending == Stuck(t)
    ensures |RunTick(tick, lastSeen).emitted| == MAX_QUERY_LIMIT
    ensures NothingLost(tick, events, lastSeen) <==> |events| == MAX_QUERY_LIMIT
  {
    hide Filter, MatchList, Before, RunTick, NothingLost, Unchanged;
    var all, m := ListingExists(events, lastSeen, tick.now);
    MatchListSpec(events, Window(lastSeen, tick.now));
    BurstIsDue(events, lastSeen, tick.now, t);
    BurstIsDue(events, lastSeen + 1, t, t);
    assert forall i | 0 <= i < |all| :: all[i] in all;
    BurstSticks(tick, events, lastSeen, all, t);
    SaturatedLostIff(tick, events, lastSeen);
    BurstSent(tick, events, lastSeen, t);
  }

  lemma BurstSent(tick: Tick, events: seq<Event>, lastSeen: int, t: int)
    requires 0 < lastSeen < t <= tick.now && UniqueIds(events) && Unchanged(tick.view, events)
    requires |events| >= MAX_QUERY_LIMIT && forall e | e in events :: e.ts == t
    ensures |RunTick(tick, lastSeen).emitted| == MAX_QUERY_LIMIT
  {
    hide Filter, MatchList, Before, RunTick, Unchanged, Start, First;
    var all, m := ListingExists(events, lastSeen, tick.now);
    MatchListSpec(events, Window(lastSeen, tick.now));
    MatchListSpec(events, Window(lastSeen + 1, tick.now));
    BurstIsDue(events, lastSeen, tick.now, t);
    BurstIsDue(events, lastSeen + 1, tick.now, t);
    assert forall i | 0 <= i < |all| :: all[i] in all;
    StartZero(all);
    StartStep(all, 0);
    OneInstant(all, t, MAX_QUERY_LIMIT - 1);
    StartStays(all, 0, MAX_PAGES_PER_TICK - 1);
    TickSends(tick, events, lastSeen);
  }

  /** Such ticks exist, with and without loss. */
  lemma SaturationHappens(lastSeen: int, t: int, now: int, n: nat) returns (tick: Tick, events: seq<Event>)
    requires 0 < lastSeen < t <= now && n >= MAX_QUERY_LIMIT
    ensures tick.now == now && UniqueIds(events) && |events| == n && Unchanged(tick.view, events)
    ensures RunTick(tick, lastSeen).ending == Stuck(t)
    ensures NothingLost(tick, events, lastSeen) <==> n == MAX_QUERY_LIMIT
  {
    hide RunTick, NothingLost;
    events := Copies(SOME_EVENT.(ts := t), n);
    var store := events;
    tick := Tick(now, (_: nat) => Rows(store));
    TiedBurst(tick, events, lastSeen, t);
  }

  // ---------------------------------------------------------------- bounds on ties

  /** At most b events of the window share a timestamp. */
  ghost predicate TiesAtMost(events: seq<Event>, from: int, to: int, b: nat)
  {
    forall t | from <= t <= to :: |Filter(events, Window(t, t))| <= b
  }

  /** Full pages before page k each advance by at least 1000 - b. */
  ghost predicate Advances(all: seq<Event>, k: nat, b: nat)
  {
    Start(all, k) + MAX_QUERY_LIMIT > |all| || Start(all, k) >= k * (MAX_QUERY_LIMIT - b)
  }

  lemma BlockIsShort(events: seq<Event>, lastSeen: int, now: int, all: seq<Event>, m: nat, j: nat, b: nat)
    requires Listing(events, lastSeen, now, all, m) && j < |all| && TiesAtMost(events, lastSeen, now, b)
    ensures j - First(all, j) + 1 <= b
  {
    hide MatchList, Before, Filter, First;
    var c, t := First(all, j), all[j].ts;
    assert all[j] in all;
    var block := all[c..j + 1];
    MatchListSpec(events, Window(t, t));
    WindowPage(events, t, t);
    FirstSplits(all, j);
    var same := MatchList(events, Window(t, t));
    Ranking.RankedNoDup(Before, same);
    Ranking.RankedNoDup(Before, all);
    forall e | e in block ensures e in same {
      var i :| c <= i < j + 1 && all[i] == e;
      assert e in all && all[i].ts <= t && all[i].ts >= t;
    }
    Ranking.DistinctFits(block, same);
  }

  lemma {:induction false} PagesAdvance(events: seq<Event>, lastSeen: int, now: int,
                                        all: seq<Event>, m: nat, k: nat, b: nat)
    requires Listing(events, lastSeen, now, all, m) && TiesAtMost(events, lastSeen, now, b) && b <= MAX_QUERY_LIMIT
    ensures Advances(all, k, b)
  {
    hide Listing, TiesAtMost, First;
    if k > 0 {
      PagesAdvance(events, lastSeen, now, all, m, k - 1, b);
      var c := Start(all, k - 1);
      if c + MAX_QUERY_LIMIT <= |all| {
        BlockIsShort(events, lastSeen, now, all, m, c + MAX_QUERY_LIMIT - 1, b);
        assert k * (MAX_QUERY_LIMIT - b) == (k - 1) * (MAX_QUERY_LIMIT - b) + (MAX_QUERY_LIMIT - b);
      }
    }
  }

  /** With at most b events to a timestamp, the last page reaches everything or
      at least 1000 + 9 * (1000 - b) events. */
  lemma ReachAtLeast(events: seq<Event>, lastSeen: int, now: int, b: nat)
    requires lastSeen > 0 && now > 0 && UniqueIds(events) && b <= MAX_QUERY_LIMIT
    requires TiesAtMost(events, lastSeen, now, b)
    ensures var all := MatchList(events, Window(lastSeen, now));
            Reach(all) > |all| || Reach(all) >= MAX_QUERY_LIMIT + (MAX_PAGES_PER_TICK - 1) * (MAX_QUERY_LIMIT - b)
  {
    hide MatchList, Listing, TiesAtMost, Start;
    var all, m := ListingExists(events, lastSeen, now);
    PagesAdvance(events, lastSeen, now, all, m, MAX_PAGES_PER_TICK - 1, b);
  }

  lemma DueFits(events: seq<Event>, lastSeen: int, now: int)
    requires lastSeen > 0 && now > 0 && UniqueIds(events)
    ensures |Due(events, lastSeen, now)| <= |MatchList(events, Window(lastSeen, now))|
    ensures |Due(events, lastSeen, now)| == |Filter(events, Window(lastSeen + 1, now))|
  {
    hide MatchList, Filter, Before;
    MatchListSpec(events, Window(lastSeen + 1, now));
    WindowPage(events, lastSeen, now);
    WindowPage(events, lastSeen + 1, now);
    Ranking.RankedNoDup(Before, MatchList(events, Window(lastSeen, now)));
    Ranking.RankedNoDup(Before, Due(events, lastSeen, now));
    Ranking.DistinctFits(Due(events, lastSeen, now), MatchList(events, Window(lastSeen, now)));
  }

  /** If at most b <= 1000 events share a timestamp and at most
      1000 + 9 * (1000 - b) are due, the tick loses nothing. */
  lemma TieCapacity(tick: Tick, events: seq<Event>, lastSeen: int, b: nat)
    requires lastSeen > 0 && tick.now > 0 && UniqueIds(events) && Unchanged(tick.view, events)
    requires b <= MAX_QUERY_LIMIT && TiesAtMost(events, lastSeen, tick.now, b)
    requires |Filter(events, Window(lastSeen + 1, tick.now))|
             <= MAX_QUERY_LIMIT + (MAX_PAGES_PER_TICK - 1) * (MAX_QUERY_LIMIT - b)
    ensures NothingLost(tick, events, lastSeen)
  {
    hide MatchList, Filter, Reach, NothingLost, TiesAtMost, Due;
    ReachAtLeast(events, lastSeen, tick.now, b);
    DueFits(events, lastSeen, tick.now);
    NothingLostIff(tick, events, lastSeen);
  }

  lemma {:induction false} StartAtMost(all: seq<Event>, k: nat)
    ensures Start(all, k) <= (MAX_QUERY_LIMIT - 1) * k
  {
    hide First;
    if k > 0 { StartAtMost(all, k - 1); }
  }

  lemma TiedCount(events: seq<Event>, t: int, b: nat)
    requires UniqueIds(events) && t > 0 && |Filter(events, Window(t, t))| <= b
    ensures var same := MatchList(events, Window(t, t));
            |Ranking.Members(same)| <= b && forall e | e in events && e.ts == t :: e in Ranking.Members(same)
  {
    hide MatchList, Filter, Before;
    var same := MatchList(events, Window(t, t));
    MatchListSpec(events, Window(t, t));
    WindowPage(events, t, t);
    Ranking.RankedNoDup(Before, same);
    Ranking.DistinctCount(same);
  }

  /** If fewer than 500 events share any timestamp, no tick saturates. */
  lemma NeverSaturates(tick: Tick, events: seq<Event>, lastSeen: int, b: nat)
    requires lastSeen > 0 && tick.now > 0 && UniqueIds(events) && Unchanged(tick.view, events)
    requires TiesAtMost(events, lastSeen, tick.now, b) && 2 * b < MAX_QUERY_LIMIT
    ensures !RunTick(tick, lastSeen).ending.Stuck?
  {
    hide MatchList, Filter, Walk, Page;
    if RunTick(tick, lastSeen).ending.Stuck? {
      var at := RunTick(tick, lastSeen).ending.at;
      WalkComplete(tick.view, events, 0, lastSeen, tick.now, {});
      var tied := Page(events, lastSeen, at);
      PageFacts(events, lastSeen, at, {});
      assert tied[0] in tied;
      TiedCount(events, at, b);
      TiedCount(events, lastSeen, b);
      var these := Ranking.Members(MatchList(events, Window(at, at)));
      var those := Ranking.Members(MatchList(events, Window(lastSeen, lastSeen)));
      Ranking.DistinctCount(tied);
      Ranking.SubsetCount(Ranking.Members(tied), these + those);
      assert false;
    }
  }

  /** Without ties a tick sends exactly the newest 9991 events that are due, in
      order, and never saturates. */
  lemma TickCapacity(tick: Tick, events: seq<Event>, lastSeen: int)
    requires lastSeen > 0 && tick.now > 0 && UniqueIds(events) && Unchanged(tick.view, events)
    requires TiesAtMost(events, lastSeen, tick.now, 1)
    ensures var due := Due(events, lastSeen, tick.now);
            && RunTick(tick, lastSeen).emitted == due[..Min(|due|, TICK_CAPACITY)] && TICK_CAPACITY == 9991
            && !RunTick(tick, lastSeen).ending.Stuck?
  {
    hide MatchList, Filter, Start, TiesAtMost, Due, RunTick;
    NeverSaturates(tick, events, lastSeen, 1);
    ReachAtLeast(events, lastSeen, tick.now, 1);
    DueFits(events, lastSeen, tick.now);
    StartAtMost(MatchList(events, Window(lastSeen, tick.now)), MAX_PAGES_PER_TICK - 1);
    TickSends(tick, events, lastSeen);
  }

  /** Without ties a tick loses nothing exactly when at most 9991 events are due. */
  lemma NothingLostIffWithinCapacity(tick: Tick, events: seq<Event>, lastSeen: int)
    requires lastSeen > 0 && tick.now > 0 && UniqueIds(events) && Unchanged(tick.view, events)
    requires TiesAtMost(events, lastSeen, tick.now, 1)
    ensures NothingLost(tick, events, lastSeen) <==>
            |Filter(events, Window(lastSeen + 1, tick.now))| <= TICK_CAPACITY == 9991
  {
    hide MatchList, Filter, Start, NothingLost, TiesAtMost, Due;
    var all := MatchList(events, Window(lastSeen, tick.now));
    ReachAtLeast(events, lastSeen, tick.now, 1);
    DueFits(events, lastSeen, tick.now);
    StartAtMost(all, MAX_PAGES_PER_TICK - 1);
    NothingLostIff(tick, events, lastSeen);
  }
}

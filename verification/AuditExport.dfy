/** The NDJSON export: offset pagination under an upper time bound that is
    pinned when the request arrives. */
module AuditExport {
  import opened Prelude
  import opened AuditStore
  import Ranking

  const EXPORT_LIMIT: nat := 100_000

  /** What one turn of the loop meets: the store at that moment, a query
      error, or a client that has gone away. */
  datatype Answer = Rows(events: seq<Event>) | Failed | Cancelled

  datatype Line = EventLine(ev: Event) | ErrorLine | TruncatedLine

  function EventLines(s: seq<Event>): (r: seq<Line>)
    ensures |r| == |s| && forall i | 0 <= i < |s| :: r[i] == EventLine(s[i])
  {
    seq(|s|, i requires 0 <= i < |s| => EventLine(s[i]))
  }

  /** The filter of the first query. `checked` and `pinned` are the two clock
      readings of the handler. */
  function Pin(f: QueryFilter, checked: int, pinned: int): QueryFilter
  {
    f.(limit := MAX_QUERY_LIMIT, offset := 0, to := if f.to == 0 || f.to > checked then pinned else f.to)
  }

  /** The loop of the handler, from a given turn on. */
  function Drain(view: nat -> Answer, turn: nat, f: QueryFilter, written: nat): seq<Line>
    decreases EXPORT_LIMIT - written
  {
    if written >= EXPORT_LIMIT then [] else
      match view(turn)
      case Cancelled => []
      case Failed => [ErrorLine]
      case Rows(events) =>
        var rows := Query(events, f);
        if rows == [] then []
        else if written + |rows| >= EXPORT_LIMIT then EventLines(rows[..EXPORT_LIMIT - written]) + [TruncatedLine]
        else if |rows| < f.limit then EventLines(rows)
        else EventLines(rows) + Drain(view, turn + 1, f.(offset := f.offset + |rows|), written + |rows|)
  }

  /** One turn of the loop. */
  lemma DrainOnce(view: nat -> Answer, turn: nat, f: QueryFilter, written: nat)
    requires written < EXPORT_LIMIT
    ensures var all := Drain(view, turn, f, written);
            match view(turn)
            case Cancelled => all == []
            case Failed => all == [ErrorLine]
            case Rows(events) =>
              var rows := Query(events, f);
              if rows == [] then all == []
              else if written + |rows| >= EXPORT_LIMIT then
                all == EventLines(rows[..EXPORT_LIMIT - written]) + [TruncatedLine]
              else if |rows| < f.limit then all == EventLines(rows)
              else all == EventLines(rows) + Drain(view, turn + 1, f.(offset := f.offset + |rows|), written + |rows|)
  {
    hide Query, EventLines;
  }

  /** From its entry on, the store gains and loses only events after the bound. */
  ghost predicate Stable(events: seq<Event>, entry: seq<Event>, to: int)
  {
    && UniqueIds(events)
    && forall e: Event | e.ts <= to :: e in events <==> e in entry
  }

  /** Whatever arrives after the bound, the match list is the one at entry. */
  lemma SameMatches(events: seq<Event>, entry: seq<Event>, f: QueryFilter, f': QueryFilter)
    requires UniqueIds(entry) && f.to > 0 && Stable(events, entry, f.to)
    requires f' == f.(limit := f'.limit, offset := f'.offset)
    ensures MatchList(events, f') == MatchList(entry, f)
  {
    hide MatchList;
    MatchListSpec(entry, f);
    MatchListUnique(events, f', MatchList(entry, f));
  }

  /** One page of the walk. */
  lemma StablePage(events: seq<Event>, entry: seq<Event>, f: QueryFilter, offset: nat)
    requires UniqueIds(entry) && f.to > 0 && Stable(events, entry, f.to)
    ensures var all := MatchList(entry, f);
            var rows := Query(events, f.(limit := MAX_QUERY_LIMIT, offset := offset));
            && |rows| <= MAX_QUERY_LIMIT
            && (offset <= |all| ==>
                  && offset + |rows| <= |all| && rows == all[offset..offset + |rows|]
                  && (|rows| < MAX_QUERY_LIMIT ==> offset + |rows| == |all|))
  {
    hide MatchList;
    SameMatches(events, entry, f, f.(limit := MAX_QUERY_LIMIT, offset := offset));
  }

  /** From turn `from` on, the store is stable with respect to `entry`. */
  ghost predicate Quiet(view: nat -> Answer, entry: seq<Event>, to: int, from: nat)
  {
    forall n: nat | n >= from && view(n).Rows? :: Stable(view(n).events, entry, to)
  }

  ghost predicate NoInterruption(view: nat -> Answer)
  {
    forall n: nat | n < EXPORT_LIMIT / MAX_QUERY_LIMIT :: view(n).Rows?
  }

  /** How the output may end after the first k events of the list. */
  ghost predicate EndsProperly(all: seq<Event>, k: nat, tail: seq<Line>, complete: bool)
  {
    && k <= Min(|all|, EXPORT_LIMIT)
    && (tail == [] || tail == [ErrorLine] || tail == [TruncatedLine])
    && (tail == [TruncatedLine] ==> k == EXPORT_LIMIT)
    && (complete ==> k == Min(|all|, EXPORT_LIMIT) && tail == if |all| >= EXPORT_LIMIT then [TruncatedLine] else [])
  }

  lemma LinesConcat(all: seq<Event>, a: nat, b: nat, c: nat, tail: seq<Line>)
    requires a <= b <= c <= |all|
    ensures EventLines(all[a..b]) + (EventLines(all[b..c]) + tail) == EventLines(all[a..c]) + tail
  {
    assert all[a..c] == all[a..b] + all[b..c];
    assert EventLines(all[a..c]) == EventLines(all[a..b]) + EventLines(all[b..c]);
  }

  /** From turn `turn` on, the export writes the next events of the entry-time
      list up to some position k, and then ends properly. */
  lemma {:induction false} DrainFrom(view: nat -> Answer, entry: seq<Event>, f: QueryFilter, turn: nat, complete: bool)
    returns (k: nat, tail: seq<Line>)
    requires UniqueIds(entry) && f.to > 0 && Quiet(view, entry, f.to, turn)
    requires complete ==> NoInterruption(view)
    requires turn <= EXPORT_LIMIT / MAX_QUERY_LIMIT && MAX_QUERY_LIMIT * turn <= |MatchList(entry, f)|
    requires turn == EXPORT_LIMIT / MAX_QUERY_LIMIT ==> !complete
    ensures var all, w := MatchList(entry, f), MAX_QUERY_LIMIT * turn;
            && w <= k <= |all| && EndsProperly(all, k, tail, complete)
            && Drain(view, turn, f.(limit := MAX_QUERY_LIMIT, offset := w), w) == EventLines(all[w..k]) + tail
    decreases EXPORT_LIMIT - MAX_QUERY_LIMIT * turn
  {
    hide MatchList, Query, Stable, Drain, EventLines;
    var all := MatchList(entry, f);
    var w := MAX_QUERY_LIMIT * turn;
    var g := f.(limit := MAX_QUERY_LIMIT, offset := w);
    NoLines(all, w);
    if w == EXPORT_LIMIT {
      DrainDone(view, turn, g, w, []);
      k, tail := w, [];
      return;
    }
    DrainOnce(view, turn, g, w);
    if view(turn).Rows? {
      var rows := Query(view(turn).events, g);
      StablePage(view(turn).events, entry, f, w);
      if w + |rows| >= EXPORT_LIMIT {
        assert rows[..EXPORT_LIMIT - w] == all[w..EXPORT_LIMIT];
        k, tail := EXPORT_LIMIT, [TruncatedLine];
      } else if |rows| < MAX_QUERY_LIMIT {
        k, tail := w + |rows|, [];
      } else {
        k, tail := DrainFrom(view, entry, f, turn + 1, complete);
        LinesConcat(all, w, w + |rows|, k, tail);
      }
    } else {
      k, tail := w, if view(turn).Failed? then [ErrorLine] else [];
    }
  }

  lemma NoLines(all: seq<Event>, w: nat)
    requires w <= |all|
    ensures EventLines(all[w..w]) == [] && EventLines([]) == []
  {}

  /** Export under concurrent inserts: as long as what is stored meanwhile is
      newer than the pinned bound, an export that is not interrupted writes the
      first min(n, 100000) events of the entry-time list, in order and without
      repetition, and the truncation line exactly when n >= 100000. */
  lemma ExportComplete(view: nat -> Answer, entry: seq<Event>, f: QueryFilter)
    requires UniqueIds(entry) && f.to > 0 && f.limit == MAX_QUERY_LIMIT && f.offset == 0
    requires Quiet(view, entry, f.to, 0) && NoInterruption(view)
    ensures var all := MatchList(entry, f);
            && Drain(view, 0, f, 0) == EventLines(all[..Min(|all|, EXPORT_LIMIT)])
                                       + (if |all| >= EXPORT_LIMIT then [TruncatedLine] else [])
            && forall i, j | 0 <= i < j < |all| :: all[i] != all[j]
  {
    hide MatchList, Query, Drain;
    var k, tail := DrainFrom(view, entry, f, 0, true);
    assert f.(limit := MAX_QUERY_LIMIT, offset := 0) == f;
    MatchListSpec(entry, f);
    Ranking.RankedNoDup(Before, MatchList(entry, f));
  }

  /** An interrupted export is still a prefix, ended by at most one marker. */
  lemma ExportPrefix(view: nat -> Answer, entry: seq<Event>, f: QueryFilter) returns (k: nat, tail: seq<Line>)
    requires UniqueIds(entry) && f.to > 0 && f.limit == MAX_QUERY_LIMIT && f.offset == 0
    requires Quiet(view, entry, f.to, 0)
    ensures var all := MatchList(entry, f);
            && k <= |all| && EndsProperly(all, k, tail, false)
            && Drain(view, 0, f, 0) == EventLines(all[..k]) + tail
  {
    hide MatchList, Query, Drain;
    k, tail := DrainFrom(view, entry, f, 0, false);
    assert f.(limit := MAX_QUERY_LIMIT, offset := 0) == f;
  }

  // ---------------------------------------------------------------- the handler

  /** The inner loop: write rows until they or the export limit run out. */
  method WriteRows(rows: seq<Event>, before: nat) returns (lines: seq<Line>, written: nat, full: bool)
    requires before < EXPORT_LIMIT
    ensures full <==> before + |rows| >= EXPORT_LIMIT
    ensures full ==> lines == EventLines(rows[..EXPORT_LIMIT - before]) + [TruncatedLine]
    ensures !full ==> lines == EventLines(rows) && written == before + |rows|
  {
    lines, written := [], before;
    for i := 0 to |rows|
      invariant written == before + i < EXPORT_LIMIT
      invariant lines == EventLines(rows[..i])
    {
      assert EventLines(rows[..i + 1]) == EventLines(rows[..i]) + [EventLine(rows[i])];
      lines := lines + [EventLine(rows[i])];
      written := written + 1;
      if written >= EXPORT_LIMIT {
        lines := lines + [TruncatedLine];
        return lines, written, true;
      }
    }
    assert rows[..|rows|] == rows;
    full := false;
  }

  /** One turn of the loop, after `lines` have been written. */
  lemma DrainStep(view: nat -> Answer, turn: nat, f: QueryFilter, written: nat, lines: seq<Line>)
    requires written < EXPORT_LIMIT
    ensures var all := lines + Drain(view, turn, f, written);
            match view(turn)
            case Cancelled => all == lines
            case Failed => all == lines + [ErrorLine]
            case Rows(events) =>
              var rows := Query(events, f);
              var more := lines + EventLines(rows);
              if rows == [] then all == lines
              else if written + |rows| >= EXPORT_LIMIT then
                all == lines + (EventLines(rows[..EXPORT_LIMIT - written]) + [TruncatedLine])
              else if |rows| < f.limit then all == more
              else all == more + Drain(view, turn + 1, f.(offset := f.offset + |rows|), written + |rows|)
  {
    hide Query, Drain, EventLines;
    DrainOnce(view, turn, f, written);
  }

  lemma DrainDone(view: nat -> Answer, turn: nat, f: QueryFilter, written: nat, lines: seq<Line>)
    requires written >= EXPORT_LIMIT
    ensures lines + Drain(view, turn, f, written) == lines
  {}

  /** What the caller asked for: every condition of the filter, with the upper
      bound of the filter if it is given and not in the future, and the time of
      the request otherwise. */
  predicate Asked(filter: QueryFilter, checked: int, pinned: int, e: Event)
  {
    && MatchesFilter(e, filter.(to := 0))
    && if filter.to != 0 && filter.to <= checked then e.ts <= filter.to else e.ts <= pinned
  }

  lemma PinnedIsAsked(filter: QueryFilter, checked: int, pinned: int, e: Event)
    requires pinned != 0
    ensures MatchesFilter(e, Pin(filter, checked, pinned)) <==> Asked(filter, checked, pinned, e)
  {
    hide SearchHits;
  }

  /** The handler writes exactly the lines of `Drain` under the pinned filter.
      For an entry store that keeps still up to the bound and an export that is
      not interrupted, these are the events the caller asked for, in query
      order, up to 100000 of them and then the truncation line. The caller's
      limit and offset play no part. */
  method Export(filter: QueryFilter, checked: int, pinned: int, view: nat -> Answer, ghost entry: seq<Event>)
    returns (lines: seq<Line>, ghost all: seq<Event>)
    requires pinned > 0 && UniqueIds(entry)
    ensures lines == Drain(view, 0, Pin(filter, checked, pinned), 0)
    ensures InQueryOrder(all) && forall e :: e in all <==> e in entry && Asked(filter, checked, pinned, e)
    ensures var bound := if filter.to != 0 && filter.to <= checked then filter.to else pinned;
            bound > 0 && Quiet(view, entry, bound, 0) && NoInterruption(view) ==>
              lines == EventLines(all[..Min(|all|, 100_000)]) + (if |all| >= 100_000 then [TruncatedLine] else [])
  {
    hide Query, Drain, EventLines, MatchList, MatchesFilter, Quiet, NoInterruption;
    all := MatchList(entry, Pin(filter, checked, pinned));
    MatchListSpec(entry, Pin(filter, checked, pinned));
    forall e ensures MatchesFilter(e, Pin(filter, checked, pinned)) <==> Asked(filter, checked, pinned, e) {
      PinnedIsAsked(filter, checked, pinned, e);
    }
    lines := ExportPinned(filter, checked, pinned, view);
    ghost var f := Pin(filter, checked, pinned);
    if f.to > 0 && Quiet(view, entry, f.to, 0) && NoInterruption(view) { ExportComplete(view, entry, f); }
  }

  method ExportPinned(filter: QueryFilter, checked: int, pinned: int, view: nat -> Answer) returns (lines: seq<Line>)
    ensures lines == Drain(view, 0, Pin(filter, checked, pinned), 0)
  {
    hide Query, Drain, EventLines;
    var f := filter.(limit := MAX_QUERY_LIMIT, offset := 0);
    if f.to == 0 || f.to > checked {
      f := f.(to := pinned);
    }
    ghost var all := Drain(view, 0, f, 0);
    lines := [];
    var written: nat := 0;
    var turn := 0;
    while written < EXPORT_LIMIT
      invariant f.limit == MAX_QUERY_LIMIT
      invariant all == lines + Drain(view, turn, f, written)
      decreases EXPORT_LIMIT - written
    {
      DrainStep(view, turn, f, written, lines);
      match view(turn) {
        case Cancelled =>
          return;
        case Failed =>
          lines := lines + [ErrorLine];
          return;
        case Rows(events) =>
          var rows := Query(events, f);
          if rows == [] {
            return;
          }
          var more, full;
          more, written, full := WriteRows(rows, written);
          lines := lines + more;
          if full {
            return;
          }
          f := f.(offset := f.offset + |rows|);
          if |rows| < f.limit {
            return;
          }
          turn := turn + 1;
      }
    }
    DrainDone(view, turn, f, written, lines);
  }
}

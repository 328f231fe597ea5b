/** Offset pages over a store that changes between them: what the export then
    writes, and exactly when it writes an event twice. */
module AuditExportPages {
  import opened Prelude
  import opened AuditStore
  import opened AuditExport
  import Ranking

  const PAGE: nat := MAX_QUERY_LIMIT

  /** The filter of the turn that starts at an offset. */
  function At(f: QueryFilter, offset: nat): QueryFilter
  {
    f.(limit := PAGE, offset := offset)
  }

  /** The matches that turn n finds. */
  function ListAt(view: nat -> Answer, f: QueryFilter, n: nat): seq<Event>
  {
    if view(n).Rows? then MatchList(view(n).events, f) else []
  }

  /** The rows that turn n reads. */
  function PageAt(view: nat -> Answer, f: QueryFilter, n: nat): seq<Event>
  {
    Slice(ListAt(view, f, n), PAGE * n, PAGE)
  }

  /** The turn after the last one that reads rows, from turn t on: a turn is
      reached when all earlier pages were full and the limit was not met. */
  function Turns(view: nat -> Answer, f: QueryFilter, t: nat): (r: nat)
    ensures r >= t
    decreases EXPORT_LIMIT - PAGE * t
  {
    if PAGE * t >= EXPORT_LIMIT || !view(t).Rows? then t
    else if |ListAt(view, f, t)| < PAGE * (t + 1) then t + 1
    else Turns(view, f, t + 1)
  }

  /** The events of turns a .. b - 1. */
  function Out(view: nat -> Answer, f: QueryFilter, a: nat, b: nat): seq<Event>
    decreases b - a
  {
    if a >= b then [] else PageAt(view, f, a) + Out(view, f, a + 1, b)
  }

  /** Ids are unique in every store that is queried. */
  ghost predicate WellFormed(view: nat -> Answer)
  {
    forall n: nat | view(n).Rows? :: UniqueIds(view(n).events)
  }

  lemma {:induction false} TurnsFacts(view: nat -> Answer, f: QueryFilter, t: nat, n: nat)
    requires t <= n < Turns(view, f, t)
    ensures view(n).Rows? && PAGE * n < EXPORT_LIMIT
    ensures n + 1 < Turns(view, f, t) ==> |ListAt(view, f, n)| >= PAGE * (n + 1)
    decreases n - t
  {
    hide ListAt;
    if n > t { TurnsFacts(view, f, t + 1, n); }
  }

  lemma RowsAt(view: nat -> Answer, f: QueryFilter, n: nat)
    requires f.to > 0 && view(n).Rows? && UniqueIds(view(n).events)
    ensures Query(view(n).events, At(f, PAGE * n)) == PageAt(view, f, n)
  {
    hide MatchList;
    SameMatches(view(n).events, view(n).events, f, At(f, PAGE * n));
  }

  lemma LinesSplit(a: seq<Event>, b: seq<Event>, tail: seq<Line>)
    ensures EventLines(a) + (EventLines(b) + tail) == EventLines(a + b) + tail
  {
    assert EventLines(a + b) == EventLines(a) + EventLines(b);
  }

  lemma PageLength(view: nat -> Answer, f: QueryFilter, n: nat)
    ensures |PageAt(view, f, n)| <= PAGE
    ensures |PageAt(view, f, n)| == PAGE <==> |ListAt(view, f, n)| >= PAGE * (n + 1)
  {
    hide ListAt;
  }

  lemma PageIndex(view: nat -> Answer, f: QueryFilter, n: nat, k: nat)
    requires PAGE * n <= k < PAGE * (n + 1)
    ensures k - PAGE * n < |PageAt(view, f, n)| <==> k < |ListAt(view, f, n)|
    ensures k < |ListAt(view, f, n)| ==> PageAt(view, f, n)[k - PAGE * n] == ListAt(view, f, n)[k]
  {
    hide ListAt;
  }

  lemma OutStep(view: nat -> Answer, f: QueryFilter, t: nat)
    requires PAGE * t < EXPORT_LIMIT && view(t).Rows?
    ensures var rows, last := PageAt(view, f, t), Turns(view, f, t);
            if |rows| < PAGE || PAGE * (t + 1) >= EXPORT_LIMIT then last == t + 1 && Out(view, f, t, last) == rows
            else last == Turns(view, f, t + 1) && Out(view, f, t, last) == rows + Out(view, f, t + 1, last)
  {
    hide ListAt, PageAt;
    PageLength(view, f, t);
    assert Out(view, f, t, t + 1) == PageAt(view, f, t) + Out(view, f, t + 1, t + 1);
  }

  /** How the export ends: after a short page without more; otherwise with the
      truncation line at the limit, or with the error line if the query after
      the last page fails, and without more if the client has gone. */
  ghost predicate Ends(view: nat -> Answer, f: QueryFilter, t: nat, tail: seq<Line>)
  {
    var last := Turns(view, f, t);
    tail == if |Out(view, f, t, last)| < PAGE * (last - t) then []
            else if PAGE * last >= EXPORT_LIMIT then if last > t then [TruncatedLine] else []
            else if view(last).Failed? then [ErrorLine] else []
  }

  /** The export writes the rows of the reached turns, and the marker that its
      ending calls for. */
  lemma {:induction false} DrainIsOut(view: nat -> Answer, f: QueryFilter, t: nat) returns (tail: seq<Line>)
    requires f.to > 0 && WellFormed(view) && PAGE * t <= EXPORT_LIMIT
    ensures Ends(view, f, t, tail)
    ensures Drain(view, t, At(f, PAGE * t), PAGE * t) == EventLines(Out(view, f, t, Turns(view, f, t))) + tail
    decreases EXPORT_LIMIT - PAGE * t
  {
    hide Drain, Query, EventLines, UniqueIds, ListAt, PageAt, MatchList;
    var w := PAGE * t;
    NoLines([], 0);
    if w == EXPORT_LIMIT {
      DrainDone(view, t, At(f, w), w, []);
      tail := [];
      return;
    }
    DrainOnce(view, t, At(f, w), w);
    if !view(t).Rows? {
      tail := if view(t).Failed? then [ErrorLine] else [];
      return;
    }
    var rows := PageAt(view, f, t);
    RowsAt(view, f, t);
    PageLength(view, f, t);
    OutStep(view, f, t);
    if |rows| == PAGE && w + PAGE == EXPORT_LIMIT {
      assert rows[..PAGE] == rows;
      tail := [TruncatedLine];
    } else if |rows| < PAGE {
      tail := [];
    } else {
      tail := DrainIsOut(view, f, t + 1);
      LinesSplit(rows, Out(view, f, t + 1, Turns(view, f, t + 1)), tail);
    }
  }

  // ---------------------------------------------------------------- positions in the output

  /** Position k of the output comes from position k of the list that its turn
      read, and from nowhere else. */
  lemma {:induction false} OutAt(view: nat -> Answer, f: QueryFilter, a: nat, b: nat, n: nat, k: nat)
    requires a <= n < b && PAGE * n <= k < PAGE * (n + 1)
    requires forall m: nat | a <= m && m + 1 < b :: |ListAt(view, f, m)| >= PAGE * (m + 1)
    ensures k - PAGE * a < |Out(view, f, a, b)| <==> k < |ListAt(view, f, n)|
    ensures k < |ListAt(view, f, n)| ==> Out(view, f, a, b)[k - PAGE * a] == ListAt(view, f, n)[k]
    decreases n - a
  {
    hide ListAt, PageAt;
    PageLength(view, f, a);
    if n == a {
      PageIndex(view, f, a, k);
      if a + 1 < b {
        assert |PageAt(view, f, a)| == PAGE;
      } else {
        assert Out(view, f, a + 1, b) == [];
      }
    } else {
      assert |PageAt(view, f, a)| == PAGE;
      OutAt(view, f, a + 1, b, n, k);
    }
  }

  lemma {:induction false} OutLength(view: nat -> Answer, f: QueryFilter, a: nat, b: nat)
    ensures a <= b ==> |Out(view, f, a, b)| <= PAGE * (b - a)
    decreases b - a
  {
    hide ListAt, PageAt;
    if a < b {
      PageLength(view, f, a);
      OutLength(view, f, a + 1, b);
    }
  }

  /** The turn that writes position k. */
  function TurnOf(k: nat): (n: nat)
    ensures PAGE * n <= k < PAGE * (n + 1)
  {
    k / PAGE
  }

  /** The whole output, position by position. */
  lemma OutputAt(view: nat -> Answer, f: QueryFilter, k: nat)
    ensures var last, n := Turns(view, f, 0), TurnOf(k);
            && (k < |Out(view, f, 0, last)| <==> n < last && k < |ListAt(view, f, n)|)
            && (k < |Out(view, f, 0, last)| ==> Out(view, f, 0, last)[k] == ListAt(view, f, n)[k])
  {
    hide ListAt, PageAt, Out, Turns, TurnOf;
    var last, n := Turns(view, f, 0), TurnOf(k);
    forall m: nat | m + 1 < last ensures |ListAt(view, f, m)| >= PAGE * (m + 1) { TurnsFacts(view, f, 0, m); }
    OutLength(view, f, 0, last);
    if n < last { OutAt(view, f, 0, last, n, k); }
  }

  // ---------------------------------------------------------------- repetitions

  /** Some event is written twice. */
  ghost predicate Repeats(lines: seq<Line>)
  {
    exists i, j | 0 <= i < j < |lines| :: lines[i].EventLine? && lines[i] == lines[j]
  }

  lemma RepeatsInEvents(out: seq<Event>, tail: seq<Line>)
    requires tail == [] || tail == [ErrorLine] || tail == [TruncatedLine]
    ensures Repeats(EventLines(out) + tail) <==> !Ranking.Distinct(out)
  {
    var lines := EventLines(out) + tail;
    assert forall i | 0 <= i < |out| :: lines[i] == EventLine(out[i]);
    assert forall i | |out| <= i < |lines| :: !lines[i].EventLine?;
    if !Ranking.Distinct(out) {
      var i, j :| 0 <= i < j < |out| && out[i] == out[j];
      assert lines[i] == lines[j];
    }
  }

  /** Matches that rank before e and that turn t finds but turn s did not. */
  ghost function Newcomers(view: nat -> Answer, f: QueryFilter, s: nat, t: nat, e: Event): set<Event>
  {
    Ranking.Added(Before, ListAt(view, f, s), ListAt(view, f, t), e)
  }

  /** Event i of turn s is carried onto the page of turn t: it is still there,
      and the matches stored before it since, less those removed, move it by
      just enough. */
  ghost predicate Carried(view: nat -> Answer, f: QueryFilter, s: nat, t: nat, i: nat)
  {
    && PAGE * s <= i < PAGE * (s + 1) && i < |ListAt(view, f, s)|
    && var e := ListAt(view, f, s)[i];
       && e in ListAt(view, f, t)
       && PAGE * t <= i + |Newcomers(view, f, s, t, e)| - |Newcomers(view, f, t, s, e)| < PAGE * (t + 1)
  }

  lemma ListRanked(view: nat -> Answer, f: QueryFilter, n: nat)
    requires WellFormed(view)
    ensures Ranking.StrictOrder(Before) && Ranking.Ranked(Before, ListAt(view, f, n))
    ensures Ranking.Distinct(ListAt(view, f, n))
  {
    hide MatchList;
    BeforeIsStrict();
    if view(n).Rows? { MatchListSpec(view(n).events, f); }
    Ranking.RankedNoDup(Before, ListAt(view, f, n));
  }

  /** Where an event of turn s stands at turn t. */
  lemma PositionLater(view: nat -> Answer, f: QueryFilter, s: nat, t: nat, i: nat, k: nat)
    requires WellFormed(view) && i < |ListAt(view, f, s)| && k < |ListAt(view, f, t)|
    requires ListAt(view, f, s)[i] == ListAt(view, f, t)[k]
    ensures var e := ListAt(view, f, s)[i];
            k == i + |Newcomers(view, f, s, t, e)| - |Newcomers(view, f, t, s, e)|
  {
    hide ListAt;
    ListRanked(view, f, s);
    ListRanked(view, f, t);
    Ranking.PositionShifts(Before, ListAt(view, f, s), ListAt(view, f, t), i, k);
  }

  lemma CarriedMeansTwice(view: nat -> Answer, f: QueryFilter, s: nat, t: nat, i: nat)
    requires WellFormed(view) && s < t < Turns(view, f, 0) && Carried(view, f, s, t, i)
    ensures !Ranking.Distinct(Out(view, f, 0, Turns(view, f, 0)))
  {
    hide ListAt, Out, Turns, TurnOf, Newcomers;
    var out := Out(view, f, 0, Turns(view, f, 0));
    var e := ListAt(view, f, s)[i];
    var k :| 0 <= k < |ListAt(view, f, t)| && ListAt(view, f, t)[k] == e;
    PositionLater(view, f, s, t, i, k);
    assert TurnOf(i) == s && TurnOf(k) == t;
    OutputAt(view, f, i);
    OutputAt(view, f, k);
    assert out[i] == out[k];
  }

  lemma TwiceMeansCarried(view: nat -> Answer, f: QueryFilter, i: nat, k: nat)
    requires WellFormed(view) && i < k < |Out(view, f, 0, Turns(view, f, 0))|
    requires Out(view, f, 0, Turns(view, f, 0))[i] == Out(view, f, 0, Turns(view, f, 0))[k]
    ensures TurnOf(i) < TurnOf(k) < Turns(view, f, 0) && Carried(view, f, TurnOf(i), TurnOf(k), i)
  {
    hide ListAt, Out, Turns, TurnOf, Newcomers;
    var s, t := TurnOf(i), TurnOf(k);
    OutputAt(view, f, i);
    OutputAt(view, f, k);
    assert s <= t;
    ListRanked(view, f, s);
    assert s != t;
    PositionLater(view, f, s, t, i, k);
    assert ListAt(view, f, t)[k] in ListAt(view, f, t);
  }

  /** Exactly when the export writes an event twice, whatever happens to the
      store between pages: some event is carried from its page onto that of a
      later turn. */
  lemma RepeatsIffCarried(view: nat -> Answer, f: QueryFilter)
    requires f.to > 0 && f.limit == PAGE && f.offset == 0 && WellFormed(view)
    ensures Repeats(Drain(view, 0, f, 0)) <==>
            exists s, t, i | 0 <= s < t < Turns(view, f, 0) && 0 <= i :: Carried(view, f, s, t, i)
  {
    hide ListAt, Out, Turns, Drain, Carried, EventLines, Repeats;
    var out := Out(view, f, 0, Turns(view, f, 0));
    assert At(f, 0) == f;
    var tail := DrainIsOut(view, f, 0);
    RepeatsInEvents(out, tail);
    if s, t, i :| 0 <= s < t < Turns(view, f, 0) && 0 <= i && Carried(view, f, s, t, i) {
      CarriedMeansTwice(view, f, s, t, i);
    }
    if !Ranking.Distinct(out) {
      var i, k :| 0 <= i < k < |out| && out[i] == out[k];
      TwiceMeansCarried(view, f, i, k);
    }
  }

  // ---------------------------------------------------------------- stores that only grow

  /** What one query finds, every later query finds. */
  ghost predicate Growing(view: nat -> Answer)
  {
    && WellFormed(view)
    && forall s: nat, t: nat, e | s < t && view(s).Rows? && view(t).Rows? && e in view(s).events :: e in view(t).events
  }

  /** Before turn t a match was stored that ranks before the last event written. */
  ghost predicate Overtaken(view: nat -> Answer, f: QueryFilter, t: nat)
  {
    && 1 <= t && PAGE * t <= |ListAt(view, f, t - 1)|
    && Newcomers(view, f, t - 1, t, ListAt(view, f, t - 1)[PAGE * t - 1]) != {}
  }

  /** At most one page of matches is stored before the last event written,
      between any two pages. */
  ghost predicate SmallBursts(view: nat -> Answer, f: QueryFilter)
  {
    forall t | 1 <= t < Turns(view, f, 0) && PAGE * t <= |ListAt(view, f, t - 1)| ::
      |Newcomers(view, f, t - 1, t, ListAt(view, f, t - 1)[PAGE * t - 1])| <= PAGE
  }

  /** There are never more matches than the export may write. */
  ghost predicate WithinLimit(view: nat -> Answer, f: QueryFilter)
  {
    forall t | 0 <= t < Turns(view, f, 0) :: |ListAt(view, f, t)| <= EXPORT_LIMIT
  }

  lemma ListsGrow(view: nat -> Answer, f: QueryFilter, s: nat, t: nat)
    requires Growing(view) && s < t && view(s).Rows? && view(t).Rows?
    ensures forall e | e in ListAt(view, f, s) :: e in ListAt(view, f, t)
    ensures forall e :: Newcomers(view, f, t, s, e) == {}
  {
    hide MatchList, MatchesFilter, Before;
    MatchListSpec(view(s).events, f);
    MatchListSpec(view(t).events, f);
  }

  /** A turn that is not overtaken leaves what was written where it was. */
  lemma KeptOneTurn(view: nat -> Answer, f: QueryFilter, t: nat, i: nat)
    requires Growing(view) && 1 <= t && view(t - 1).Rows? && view(t).Rows?
    requires i < PAGE * t <= |ListAt(view, f, t - 1)| && !Overtaken(view, f, t)
    ensures i < |ListAt(view, f, t)| && ListAt(view, f, t)[i] == ListAt(view, f, t - 1)[i]
  {
    hide ListAt;
    var a, b := ListAt(view, f, t - 1), ListAt(view, f, t);
    var e, last := a[i], a[PAGE * t - 1];
    ListsGrow(view, f, t - 1, t);
    ListRanked(view, f, t - 1);
    assert e in a;
    var k :| 0 <= k < |b| && b[k] == e;
    PositionLater(view, f, t - 1, t, i, k);
    assert e == last || Before(e, last);
    assert Newcomers(view, f, t - 1, t, e) <= Newcomers(view, f, t - 1, t, last);
  }

  lemma {:induction false} FindOvertaken(view: nat -> Answer, f: QueryFilter, s: nat, t: nat, i: nat) returns (u: nat)
    requires Growing(view) && s < t < Turns(view, f, 0) && i < PAGE * (s + 1) <= |ListAt(view, f, s)|
    requires i >= |ListAt(view, f, t)| || ListAt(view, f, t)[i] != ListAt(view, f, s)[i]
    ensures s < u <= t && Overtaken(view, f, u)
    decreases t
  {
    hide ListAt, Turns, Overtaken, Growing;
    if Overtaken(view, f, t) {
      u := t;
    } else {
      TurnsFacts(view, f, 0, t - 1);
      TurnsFacts(view, f, 0, t);
      KeptOneTurn(view, f, t, i);
      u := FindOvertaken(view, f, s, t - 1, i);
    }
  }

  /** An event can only be carried along if a turn on the way was overtaken. */
  lemma CarriedNeedsOvertaking(view: nat -> Answer, f: QueryFilter, s: nat, t: nat, i: nat) returns (u: nat)
    requires Growing(view) && s < t < Turns(view, f, 0) && Carried(view, f, s, t, i)
    ensures s < u <= t && Overtaken(view, f, u)
  {
    hide ListAt, Turns, Overtaken, Newcomers;
    TurnsFacts(view, f, 0, s);
    if i < |ListAt(view, f, t)| && ListAt(view, f, t)[i] == ListAt(view, f, s)[i] {
      PositionLater(view, f, s, t, i, i);
      assert false;
    }
    u := FindOvertaken(view, f, s, t, i);
  }

  /** Overtaken by at most a page, the last event written is on the next page. */
  lemma SmallBurstCarries(view: nat -> Answer, f: QueryFilter, t: nat)
    requires Growing(view) && 1 <= t < Turns(view, f, 0) && Overtaken(view, f, t) && SmallBursts(view, f)
    ensures Carried(view, f, t - 1, t, PAGE * t - 1)
  {
    hide ListAt, Turns, Newcomers;
    TurnsFacts(view, f, 0, t - 1);
    TurnsFacts(view, f, 0, t);
    ListsGrow(view, f, t - 1, t);
    var e := ListAt(view, f, t - 1)[PAGE * t - 1];
    assert e in ListAt(view, f, t - 1);
    assert |Newcomers(view, f, t - 1, t, e)| <= PAGE;
  }

  lemma {:induction false} TurnsNext(view: nat -> Answer, f: QueryFilter, a: nat, t: nat)
    requires a <= t < Turns(view, f, a) && |ListAt(view, f, t)| >= PAGE * (t + 1)
    requires PAGE * (t + 1) < EXPORT_LIMIT && view(t + 1).Rows?
    ensures t + 1 < Turns(view, f, a)
    decreases t - a
  {
    hide ListAt;
    if a < t { TurnsNext(view, f, a + 1, t); }
  }

  /** An event pushed past the page of turn t is met by a later turn, as long as
      the matches stay within what the export may write. */
  lemma {:induction false} Chase(view: nat -> Answer, f: QueryFilter, s: nat, t: nat, i: nat) returns (u: nat)
    requires Growing(view) && NoInterruption(view) && WithinLimit(view, f)
    requires s < t < Turns(view, f, 0) && PAGE * s <= i < PAGE * (s + 1) && i < |ListAt(view, f, s)|
    requires i + |Newcomers(view, f, s, t, ListAt(view, f, s)[i])| >= PAGE * t
    ensures s < u < Turns(view, f, 0) && Carried(view, f, s, u, i)
    decreases EXPORT_LIMIT - PAGE * t
  {
    hide ListAt, Turns, Newcomers;
    var e := ListAt(view, f, s)[i];
    TurnsFacts(view, f, 0, s);
    TurnsFacts(view, f, 0, t);
    ListsGrow(view, f, s, t);
    assert e in ListAt(view, f, s);
    var k :| 0 <= k < |ListAt(view, f, t)| && ListAt(view, f, t)[k] == e;
    PositionLater(view, f, s, t, i, k);
    if k < PAGE * (t + 1) {
      u := t;
    } else {
      assert |ListAt(view, f, t)| <= EXPORT_LIMIT;
      TurnsNext(view, f, 0, t);
      NewcomersGrow(view, f, s, t, e);
      u := Chase(view, f, s, t + 1, i);
    }
  }

  lemma NewcomersGrow(view: nat -> Answer, f: QueryFilter, s: nat, t: nat, e: Event)
    requires Growing(view) && view(t).Rows? && view(t + 1).Rows?
    ensures |Newcomers(view, f, s, t, e)| <= |Newcomers(view, f, s, t + 1, e)|
  {
    hide ListAt;
    ListsGrow(view, f, t, t + 1);
    Ranking.SubsetCount(Newcomers(view, f, s, t, e), Newcomers(view, f, s, t + 1, e));
  }

  /** A growing store, whatever is stored between the pages: no event is written
      twice unless some turn was overtaken. Conversely an overtaken turn makes
      the export write an event twice, unless more than a page of matches
      arrives at once and the limit or an interruption ends the export before
      it reaches the events it has pushed on. */
  lemma GrowingRepeatsIff(view: nat -> Answer, f: QueryFilter)
    requires f.to > 0 && f.limit == PAGE && f.offset == 0 && Growing(view)
    requires SmallBursts(view, f) || (NoInterruption(view) && WithinLimit(view, f))
    ensures Repeats(Drain(view, 0, f, 0)) <==> exists t | 1 <= t < Turns(view, f, 0) :: Overtaken(view, f, t)
  {
    hide ListAt, Turns, Carried, Repeats, Drain, SmallBursts, WithinLimit, NoInterruption;
    RepeatsIffCarried(view, f);
    if Repeats(Drain(view, 0, f, 0)) { NoRepeatsUnlessOvertaken(view, f); }
    if t :| 1 <= t < Turns(view, f, 0) && Overtaken(view, f, t) {
      if SmallBursts(view, f) {
        SmallBurstCarries(view, f, t);
      } else {
        var u := Chase(view, f, t - 1, t, PAGE * t - 1);
      }
    }
  }

  /** No hypothesis on how much is stored. */
  lemma NoRepeatsUnlessOvertaken(view: nat -> Answer, f: QueryFilter)
    requires f.to > 0 && f.limit == PAGE && f.offset == 0 && Growing(view) && Repeats(Drain(view, 0, f, 0))
    ensures exists t | 1 <= t < Turns(view, f, 0) :: Overtaken(view, f, t)
  {
    hide ListAt, Turns, Carried, Repeats, Drain, Overtaken;
    RepeatsIffCarried(view, f);
    var s, t, i :| 0 <= s < t < Turns(view, f, 0) && 0 <= i && Carried(view, f, s, t, i);
    var u := CarriedNeedsOvertaking(view, f, s, t, i);
  }

  /** An event of turn t that is not on an earlier page is written, then or later. */
  lemma {:induction false} WrittenLater(view: nat -> Answer, f: QueryFilter, t: nat, k: nat) returns (p: nat)
    requires Growing(view) && NoInterruption(view) && WithinLimit(view, f)
    requires t < Turns(view, f, 0) && PAGE * t <= k < |ListAt(view, f, t)|
    ensures p < |Out(view, f, 0, Turns(view, f, 0))|
    ensures Out(view, f, 0, Turns(view, f, 0))[p] == ListAt(view, f, t)[k]
    decreases EXPORT_LIMIT - PAGE * t
  {
    hide ListAt, Turns, Newcomers, Out;
    TurnsFacts(view, f, 0, t);
    if k < PAGE * (t + 1) {
      p := k;
      OutputAt(view, f, k);
    } else {
      assert |ListAt(view, f, t)| <= EXPORT_LIMIT;
      TurnsNext(view, f, 0, t);
      ListsGrow(view, f, t, t + 1);
      assert ListAt(view, f, t)[k] in ListAt(view, f, t);
      var k' :| 0 <= k' < |ListAt(view, f, t + 1)| && ListAt(view, f, t + 1)[k'] == ListAt(view, f, t)[k];
      PositionLater(view, f, t, t + 1, k, k');
      p := WrittenLater(view, f, t + 1, k');
    }
  }

  lemma WrittenLine(out: seq<Event>, tail: seq<Line>, p: nat)
    requires p < |out|
    ensures EventLine(out[p]) in EventLines(out) + tail
  {
    assert (EventLines(out) + tail)[p] == EventLine(out[p]);
  }

  /** What is stored during the export can repeat events but not hide any: over
      a growing store, within the limit and not interrupted, every event that
      matched at the start is written at least once. */
  lemma GrowingWritesAll(view: nat -> Answer, f: QueryFilter, k: nat)
    requires f.to > 0 && f.limit == PAGE && f.offset == 0
    requires Growing(view) && NoInterruption(view) && WithinLimit(view, f) && k < |ListAt(view, f, 0)|
    ensures EventLine(ListAt(view, f, 0)[k]) in Drain(view, 0, f, 0)
  {
    hide ListAt, Turns, Out, Drain, EventLines;
    FirstTurn(view, f);
    var p := WrittenLater(view, f, 0, k);
    assert At(f, 0) == f;
    var tail := DrainIsOut(view, f, 0);
    WrittenLine(Out(view, f, 0, Turns(view, f, 0)), tail, p);
  }

  lemma FirstTurn(view: nat -> Answer, f: QueryFilter)
    requires NoInterruption(view)
    ensures 0 < Turns(view, f, 0)
  {
    hide ListAt;
  }

  // ---------------------------------------------------------------- an export that repeats an event

  /** One event is stored between the first page and the second. */
  ghost predicate OneNewcomer(view: nat -> Answer, entry: seq<Event>, x: Event)
  {
    UniqueIds(entry + [x]) && forall n: nat :: view(n) == Rows(if n == 0 then entry else entry + [x])
  }

  lemma OneNewcomerGrows(view: nat -> Answer, entry: seq<Event>, x: Event)
    requires OneNewcomer(view, entry, x)
    ensures Growing(view)
  {
    assert UniqueIds(entry) by {
      forall i, j | 0 <= i < j < |entry| ensures entry[i].id != entry[j].id {
        assert (entry + [x])[i].id != (entry + [x])[j].id;
      }
    }
  }

  lemma OnlyNewcomer(view: nat -> Answer, f: QueryFilter, entry: seq<Event>, x: Event, t: nat, e: Event)
    requires OneNewcomer(view, entry, x) && t >= 1
    ensures Newcomers(view, f, t - 1, t, e) <= {x} && |Newcomers(view, f, t - 1, t, e)| <= 1
    ensures t == 1 && MatchesFilter(x, f) && Before(x, e) ==> x in Newcomers(view, f, t - 1, t, e)
  {
    hide MatchList, MatchesFilter, Before;
    OneNewcomerGrows(view, entry, x);
    MatchListSpec(view(t - 1).events, f);
    MatchListSpec(view(t).events, f);
    assert forall i | 0 <= i < |entry| :: (entry + [x])[i] == entry[i] && (entry + [x])[|entry|] == x;
    Ranking.SubsetCount(Newcomers(view, f, t - 1, t, e), {x});
  }

  /** A newcomer that matches and ranks before the last event of a full first
      page makes the export write an event twice. */
  lemma OneNewcomerRepeats(view: nat -> Answer, f: QueryFilter, entry: seq<Event>, x: Event)
    requires f.to > 0 && f.limit == PAGE && f.offset == 0 && OneNewcomer(view, entry, x)
    requires |ListAt(view, f, 0)| >= PAGE && MatchesFilter(x, f) && Before(x, ListAt(view, f, 0)[PAGE - 1])
    ensures Growing(view) && Repeats(Drain(view, 0, f, 0))
  {
    hide ListAt, Newcomers, Drain, Repeats, MatchesFilter, Before, Turns;
    OneNewcomerGrows(view, entry, x);
    OnlyNewcomer(view, f, entry, x, 1, ListAt(view, f, 0)[PAGE - 1]);
    assert Overtaken(view, f, 1);
    forall t | 1 <= t < Turns(view, f, 0) && PAGE * t <= |ListAt(view, f, t - 1)|
      ensures |Newcomers(view, f, t - 1, t, ListAt(view, f, t - 1)[PAGE * t - 1])| <= PAGE
    {
      OnlyNewcomer(view, f, entry, x, t, ListAt(view, f, t - 1)[PAGE * t - 1]);
    }
    FirstTurn(view, f);
    TurnsNext(view, f, 0, 0);
    GrowingRepeatsIff(view, f);
  }

  lemma CopiesAndOne(n: nat) returns (entry: seq<Event>, x: Event)
    ensures |entry| == n && UniqueIds(entry + [x]) && UniqueIds(entry)
    ensures x == SOME_EVENT.(id := x.id, ts := 2) && forall e | e in entry :: e == SOME_EVENT.(id := e.id, ts := 1)
  {
    entry := Copies(SOME_EVENT.(ts := 1), n);
    x := Copies(SOME_EVENT.(ts := 2), n + 1)[n];
    forall i, j | 0 <= i < j < |entry + [x]| ensures (entry + [x])[i].id != (entry + [x])[j].id {
      assert |(entry + [x])[i].id| == i && |(entry + [x])[j].id| == j;
    }
  }

  /** Such exports exist: a request that started after a thousand others is
      stored once the first page has been read. */
  lemma ExportRepeats() returns (view: nat -> Answer, f: QueryFilter)
    ensures f.to > 0 && f.limit == PAGE && f.offset == 0
    ensures Growing(view) && Repeats(Drain(view, 0, f, 0))
  {
    hide Drain, Repeats, MatchList, Filter, UniqueIds;
    f := QueryFilter(0, 2, "", "", "", "", "", "", 0, None, "", PAGE, 0);
    var entry, x := CopiesAndOne(PAGE);
    view := n => Rows(if n == 0 then entry else entry + [x]);
    FilterAllOrNone(entry, f, true);
    MatchListSpec(entry, f);
    var all := MatchList(entry, f);
    assert all[PAGE - 1] in all;
    OneNewcomerRepeats(view, f, entry, x);
  }
}

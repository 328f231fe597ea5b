/** A whole live-tail connection: the handler's state, and what holds over
    every run of ticks. */
module AuditStreamRun {
  import opened Prelude
  import opened AuditStore
  import opened AuditStream
  import Capacity = AuditStreamCapacity

  /** Everything sent by a run of ticks that starts at `lastSeen`. */
  function Run(ticks: seq<Tick>, lastSeen: int): seq<Event>
  {
    if |ticks| == 0 then []
    else RunTick(ticks[0], lastSeen).emitted + Run(ticks[1..], ticks[0].now)
  }

  /** The lower bound of the i-th tick's window. */
  function Floor(ticks: seq<Tick>, lastSeen: int, i: nat): int
    requires i < |ticks|
  {
    if i == 0 then lastSeen else ticks[i - 1].now
  }

  /** The i-th tick's window (floor, now] holds the event's timestamp. */
  predicate Covers(ticks: seq<Tick>, lastSeen: int, i: nat, e: Event)
    requires i < |ticks|
  {
    Floor(ticks, lastSeen, i) < e.ts <= ticks[i].now
  }

  ghost predicate ClockForward(ticks: seq<Tick>, lastSeen: int)
  {
    forall i | 0 <= i < |ticks| :: Floor(ticks, lastSeen, i) <= ticks[i].now
  }

  /** Every store queried during the run holds only events of `final`; it may
      grow, or shrink, between any two queries. */
  ghost predicate StoresWithin(ticks: seq<Tick>, final: seq<Event>)
  {
    forall i, e | 0 <= i < |ticks| && Held(ticks[i].view, e) :: e in final
  }

  lemma DropFirst(ticks: seq<Tick>, lastSeen: int)
    requires |ticks| > 0
    ensures forall i | 0 <= i < |ticks| - 1 ::
              Floor(ticks[1..], ticks[0].now, i) == Floor(ticks, lastSeen, i + 1) && ticks[1..][i] == ticks[i + 1]
    ensures ClockForward(ticks, lastSeen) ==> lastSeen <= ticks[0].now && ClockForward(ticks[1..], ticks[0].now)
  {
    if ClockForward(ticks, lastSeen) {
      assert Floor(ticks, lastSeen, 0) <= ticks[0].now;
      forall i | 0 <= i < |ticks| - 1 ensures Floor(ticks[1..], ticks[0].now, i) <= ticks[1..][i].now {
        assert Floor(ticks, lastSeen, i + 1) <= ticks[i + 1].now;
      }
    }
  }

  /** Whatever is sent was found by the tick whose window holds its timestamp. */
  ghost predicate Sourced(ticks: seq<Tick>, lastSeen: int, e: Event)
  {
    exists i | 0 <= i < |ticks| :: Covers(ticks, lastSeen, i, e) && Held(ticks[i].view, e)
  }

  lemma SourcedLater(ticks: seq<Tick>, lastSeen: int, e: Event)
    requires |ticks| > 0 && Sourced(ticks[1..], ticks[0].now, e)
    ensures Sourced(ticks, lastSeen, e)
  {
    DropFirst(ticks, lastSeen);
    var i :| 0 <= i < |ticks[1..]| && Covers(ticks[1..], ticks[0].now, i, e) && Held(ticks[1..][i].view, e);
    assert Covers(ticks, lastSeen, i + 1, e) && Held(ticks[i + 1].view, e);
  }

  /** Stream safety over whole runs: with a non-decreasing clock and ids that
      name one event each, no id is sent twice, nothing from connection time
      or before is sent, and every event comes from its own tick's queries. */
  lemma {:induction false} RunSafety(ticks: seq<Tick>, lastSeen: int, final: seq<Event>)
    requires lastSeen > 0 && ClockForward(ticks, lastSeen)
    requires UniqueIds(final) && StoresWithin(ticks, final)
    ensures UniqueIds(Run(ticks, lastSeen))
    ensures forall e | e in Run(ticks, lastSeen) :: e in final && e.ts > lastSeen && Sourced(ticks, lastSeen, e)
  {
    hide Walk, Covers, Sourced, ClockForward, Held;
    if |ticks| > 0 {
      DropFirst(ticks, lastSeen);
      var now := ticks[0].now;
      WalkSafe(ticks[0].view, 0, lastSeen, now, {});
      RunSafety(ticks[1..], now, final);
      var head, rest := RunTick(ticks[0], lastSeen).emitted, Run(ticks[1..], now);
      forall e | e in head + rest ensures e in final && e.ts > lastSeen && Sourced(ticks, lastSeen, e) {
        if e in head { HeadSourced(ticks, lastSeen, e); }
        if e in rest { SourcedLater(ticks, lastSeen, e); }
      }
      forall i, j | 0 <= i < |head| && 0 <= j < |rest| ensures head[i].id != rest[j].id {
        assert head[i] in head && rest[j] in rest;
        assert head[i].ts <= now < rest[j].ts;
        assert head[i] in head + rest && rest[j] in head + rest;
      }
    }
  }

  lemma HeadSourced(ticks: seq<Tick>, lastSeen: int, e: Event)
    requires |ticks| > 0 && lastSeen < e.ts <= ticks[0].now && Held(ticks[0].view, e)
    ensures Sourced(ticks, lastSeen, e)
  {
    assert Covers(ticks, lastSeen, 0, e);
  }

  /** An event that becomes visible only after the tick whose window holds its
      timestamp is never sent. Timestamps are taken when a request starts and
      events are stored when it ends, so this happens to any request that is
      in flight across a tick. */
  lemma LateEventNeverSent(ticks: seq<Tick>, lastSeen: int, final: seq<Event>, e: Event)
    requires lastSeen > 0 && ClockForward(ticks, lastSeen)
    requires UniqueIds(final) && StoresWithin(ticks, final)
    requires forall i | 0 <= i < |ticks| && Covers(ticks, lastSeen, i, e) :: !Held(ticks[i].view, e)
    ensures e !in Run(ticks, lastSeen)
  {
    RunSafety(ticks, lastSeen, final);
  }

  // ---------------------------------------------------------------- what a run delivers

  /** Every tick sees one store, which may differ from tick to tick. */
  ghost predicate Steady(ticks: seq<Tick>, stores: seq<seq<Event>>)
  {
    |stores| == |ticks| && forall i | 0 <= i < |ticks| :: Unchanged(ticks[i].view, stores[i]) && UniqueIds(stores[i])
  }

  /** The due events of one tick, as far as its last page reaches. */
  function Sends(store: seq<Event>, lastSeen: int, now: int): seq<Event>
  {
    var due := Capacity.Due(store, lastSeen, now);
    due[..Min(|due|, Capacity.Reach(MatchList(store, Window(lastSeen, now))))]
  }

  function Delivered(ticks: seq<Tick>, lastSeen: int, stores: seq<seq<Event>>): seq<Event>
    requires |stores| == |ticks|
  {
    if |ticks| == 0 then []
    else Sends(stores[0], lastSeen, ticks[0].now) + Delivered(ticks[1..], ticks[0].now, stores[1..])
  }

  lemma SteadyLater(ticks: seq<Tick>, stores: seq<seq<Event>>)
    requires |ticks| > 0 && Steady(ticks, stores)
    ensures Unchanged(ticks[0].view, stores[0]) && UniqueIds(stores[0]) && Steady(ticks[1..], stores[1..])
  {
    hide Unchanged, UniqueIds;
  }

  /** The run, exactly, however its ticks end: tick by tick the due events,
      newest first, as far as the last page reaches. */
  lemma {:induction false} RunSends(ticks: seq<Tick>, lastSeen: int, stores: seq<seq<Event>>)
    requires lastSeen > 0 && ClockForward(ticks, lastSeen) && Steady(ticks, stores)
    ensures Run(ticks, lastSeen) == Delivered(ticks, lastSeen, stores)
  {
    hide RunTick, ClockForward, Unchanged, UniqueIds, MatchList, Capacity.Reach, Capacity.Due;
    if |ticks| > 0 {
      DropFirst(ticks, lastSeen);
      SteadyLater(ticks, stores);
      Capacity.TickSends(ticks[0], stores[0], lastSeen);
      RunSends(ticks[1..], ticks[0].now, stores[1..]);
    }
  }

  ghost predicate Visible(ticks: seq<Tick>, lastSeen: int, stores: seq<seq<Event>>, e: Event)
    requires |stores| == |ticks|
  {
    exists i | 0 <= i < |ticks| :: Covers(ticks, lastSeen, i, e) && e in stores[i]
  }

  lemma VisibleStep(ticks: seq<Tick>, lastSeen: int, stores: seq<seq<Event>>, e: Event)
    requires |ticks| == |stores| > 0
    ensures Visible(ticks, lastSeen, stores, e) <==>
            (lastSeen < e.ts <= ticks[0].now && e in stores[0]) || Visible(ticks[1..], ticks[0].now, stores[1..], e)
  {
    DropFirst(ticks, lastSeen);
    if lastSeen < e.ts <= ticks[0].now && e in stores[0] { assert Covers(ticks, lastSeen, 0, e); }
    if i :| 0 <= i < |ticks| - 1 && Covers(ticks[1..], ticks[0].now, i, e) && e in stores[1..][i] {
      assert Covers(ticks, lastSeen, i + 1, e) && e in stores[i + 1];
    }
    if i :| 1 <= i < |ticks| && Covers(ticks, lastSeen, i, e) && e in stores[i] {
      assert Covers(ticks[1..], ticks[0].now, i - 1, e) && e in stores[1..][i - 1];
    }
  }

  /** What is visible lies after the run's lower bound. */
  lemma VisibleIsLater(ticks: seq<Tick>, lastSeen: int, stores: seq<seq<Event>>, e: Event)
    requires |stores| == |ticks| && ClockForward(ticks, lastSeen) && Visible(ticks, lastSeen, stores, e)
    ensures e.ts > lastSeen
  {
    var i :| 0 <= i < |ticks| && Covers(ticks, lastSeen, i, e) && e in stores[i];
    FloorsRise(ticks, lastSeen, i);
  }

  lemma {:induction false} FloorsRise(ticks: seq<Tick>, lastSeen: int, i: nat)
    requires ClockForward(ticks, lastSeen) && i < |ticks|
    ensures lastSeen <= Floor(ticks, lastSeen, i)
  {
    if i > 0 {
      FloorsRise(ticks, lastSeen, i - 1);
      assert Floor(ticks, lastSeen, i - 1) <= ticks[i - 1].now;
    }
  }

  /** The last page of the i-th tick reaches all that is due to it. */
  ghost predicate Reached(ticks: seq<Tick>, lastSeen: int, stores: seq<seq<Event>>, i: nat)
    requires i < |ticks| == |stores|
  {
    var from, to := Floor(ticks, lastSeen, i), ticks[i].now;
    |Filter(stores[i], Window(from + 1, to))| <= Capacity.Reach(MatchList(stores[i], Window(from, to)))
  }

  ghost predicate AllReached(ticks: seq<Tick>, lastSeen: int, stores: seq<seq<Event>>)
    requires |ticks| == |stores|
  {
    forall i | 0 <= i < |ticks| :: Reached(ticks, lastSeen, stores, i)
  }

  lemma AllReachedStep(ticks: seq<Tick>, lastSeen: int, stores: seq<seq<Event>>)
    requires |ticks| == |stores| > 0
    ensures AllReached(ticks, lastSeen, stores) <==>
            Reached(ticks, lastSeen, stores, 0) && AllReached(ticks[1..], ticks[0].now, stores[1..])
  {
    hide Filter, MatchList, Capacity.Reach;
    DropFirst(ticks, lastSeen);
    forall i | 0 <= i < |ticks| - 1
      ensures Reached(ticks[1..], ticks[0].now, stores[1..], i) <==> Reached(ticks, lastSeen, stores, i + 1)
    {
      assert Floor(ticks[1..], ticks[0].now, i) == Floor(ticks, lastSeen, i + 1) && stores[1..][i] == stores[i + 1];
    }
    if Reached(ticks, lastSeen, stores, 0) && AllReached(ticks[1..], ticks[0].now, stores[1..]) {
      forall i | 0 <= i < |ticks| ensures Reached(ticks, lastSeen, stores, i) {
        if i > 0 { assert Reached(ticks[1..], ticks[0].now, stores[1..], i - 1); }
      }
    }
  }

  /** What the first tick sends, and when that is all it should. */
  lemma HeadFacts(ticks: seq<Tick>, lastSeen: int, stores: seq<seq<Event>>)
    requires |ticks| == |stores| > 0 && lastSeen > 0 && ticks[0].now > 0
    requires Unchanged(ticks[0].view, stores[0]) && UniqueIds(stores[0])
    ensures var head := RunTick(ticks[0], lastSeen).emitted;
            && (forall e | e in head :: lastSeen < e.ts <= ticks[0].now && e in stores[0])
            && (Reached(ticks, lastSeen, stores, 0) <==>
                forall e | e in stores[0] && lastSeen < e.ts <= ticks[0].now :: e in head)
  {
    hide Walk, Filter, MatchList, Capacity.Reach, Unchanged;
    WalkSafe(ticks[0].view, 0, lastSeen, ticks[0].now, {});
    WalkComplete(ticks[0].view, stores[0], 0, lastSeen, ticks[0].now, {});
    Capacity.NothingLostIff(ticks[0], stores[0], lastSeen);
  }

  ghost predicate Complete(ticks: seq<Tick>, lastSeen: int, stores: seq<seq<Event>>)
    requires |ticks| == |stores|
  {
    forall e :: e in Run(ticks, lastSeen) <==> Visible(ticks, lastSeen, stores, e)
  }

  lemma {:induction false} RunIsVisible(ticks: seq<Tick>, lastSeen: int, stores: seq<seq<Event>>, e: Event)
    requires lastSeen > 0 && ClockForward(ticks, lastSeen) && Steady(ticks, stores)
    ensures e in Run(ticks, lastSeen) ==> Visible(ticks, lastSeen, stores, e)
  {
    hide RunTick, Visible, ClockForward, Unchanged, UniqueIds, Reached;
    if |ticks| > 0 {
      DropFirst(ticks, lastSeen);
      SteadyLater(ticks, stores);
      HeadFacts(ticks, lastSeen, stores);
      VisibleStep(ticks, lastSeen, stores, e);
      if e in Run(ticks[1..], ticks[0].now) { RunIsVisible(ticks[1..], ticks[0].now, stores[1..], e); }
    }
  }

  lemma CompleteStep(ticks: seq<Tick>, lastSeen: int, stores: seq<seq<Event>>)
    requires |ticks| > 0 && lastSeen > 0 && ClockForward(ticks, lastSeen) && Steady(ticks, stores)
    ensures Complete(ticks, lastSeen, stores) <==>
            Reached(ticks, lastSeen, stores, 0) && Complete(ticks[1..], ticks[0].now, stores[1..])
  {
    hide RunTick, Visible, ClockForward, Unchanged, UniqueIds, Reached;
    DropFirst(ticks, lastSeen);
    SteadyLater(ticks, stores);
    HeadFacts(ticks, lastSeen, stores);
    var now := ticks[0].now;
    var head, rest := RunTick(ticks[0], lastSeen).emitted, Run(ticks[1..], now);
    assert Run(ticks, lastSeen) == head + rest;
    forall e ensures e in rest ==> e.ts > now && Visible(ticks[1..], now, stores[1..], e) {
      if e in rest {
        RunIsVisible(ticks[1..], now, stores[1..], e);
        VisibleIsLater(ticks[1..], now, stores[1..], e);
      }
    }
    forall e ensures Visible(ticks[1..], now, stores[1..], e) ==> e.ts > now {
      if Visible(ticks[1..], now, stores[1..], e) { VisibleIsLater(ticks[1..], now, stores[1..], e); }
    }
    forall e ensures Visible(ticks, lastSeen, stores, e) <==>
                     (lastSeen < e.ts <= now && e in stores[0]) || Visible(ticks[1..], now, stores[1..], e) {
      VisibleStep(ticks, lastSeen, stores, e);
    }
  }

  /** Run completeness: over ticks that each page through an unchanged store,
      the events sent are exactly those that the store of their own tick
      contains, if and only if every tick's last page reaches all that is due. */
  lemma {:induction false} RunCompleteness(ticks: seq<Tick>, lastSeen: int, stores: seq<seq<Event>>)
    requires lastSeen > 0 && ClockForward(ticks, lastSeen) && Steady(ticks, stores)
    ensures Complete(ticks, lastSeen, stores) <==> AllReached(ticks, lastSeen, stores)
  {
    hide Run, Complete, AllReached, Reached, ClockForward, Unchanged, UniqueIds;
    if |ticks| > 0 {
      DropFirst(ticks, lastSeen);
      SteadyLater(ticks, stores);
      CompleteStep(ticks, lastSeen, stores);
      AllReachedStep(ticks, lastSeen, stores);
      RunCompleteness(ticks[1..], ticks[0].now, stores[1..]);
    } else {
      NothingToSend(ticks, lastSeen, stores);
    }
  }

  lemma NothingToSend(ticks: seq<Tick>, lastSeen: int, stores: seq<seq<Event>>)
    requires |stores| == |ticks| == 0
    ensures Complete(ticks, lastSeen, stores) && AllReached(ticks, lastSeen, stores)
  {}

  // ---------------------------------------------------------------- the handler

  function AuditFrames(s: seq<Event>): (r: seq<Frame>)
    ensures |r| == |s| && forall i | 0 <= i < |s| :: r[i] == AuditFrame(s[i])
  {
    seq(|s|, i requires 0 <= i < |s| => AuditFrame(s[i]))
  }

  /** What a tick writes: one frame per event, then the error or the
      saturated frame if it ended that way. */
  function Frames(r: TickResult): seq<Frame>
  {
    AuditFrames(r.emitted)
    + match r.ending
      case QueryFailed => [ErrorFrame]
      case Stuck(_) => [SaturatedFrame(|r.emitted|)]
      case _ => []
  }

  function RunFrames(ticks: seq<Tick>, lastSeen: int): seq<Frame>
  {
    if |ticks| == 0 then []
    else Frames(RunTick(ticks[0], lastSeen)) + RunFrames(ticks[1..], ticks[0].now)
  }

  /** The events carried by a sequence of frames, in order. */
  function EventsIn(frames: seq<Frame>): seq<Event>
  {
    if frames == [] then []
    else (if frames[0].AuditFrame? then [frames[0].ev] else []) + EventsIn(frames[1..])
  }

  lemma NoEvents()
    ensures EventsIn([]) == []
  {}

  lemma EventsInCons(f: Frame, rest: seq<Frame>)
    ensures EventsIn([f] + rest) == (if f.AuditFrame? then [f.ev] else []) + EventsIn(rest)
  {
    assert ([f] + rest)[1..] == rest;
  }

  lemma {:induction false} EventsInConcat(a: seq<Frame>, b: seq<Frame>)
    ensures EventsIn(a + b) == EventsIn(a) + EventsIn(b)
  {
    hide EventsIn;
    if a == [] {
      NoEvents();
      assert a + b == b;
    } else {
      EventsInConcat(a[1..], b);
      EventsInCons(a[0], a[1..] + b);
      EventsInCons(a[0], a[1..]);
      assert a + b == [a[0]] + (a[1..] + b) && a == [a[0]] + a[1..];
    }
  }

  lemma {:induction false} EventsInFrames(s: seq<Event>)
    ensures EventsIn(AuditFrames(s)) == s
  {
    if s != [] {
      EventsInFrames(s[1..]);
      assert AuditFrames(s)[1..] == AuditFrames(s[1..]);
    }
  }

  /** The events on the wire are the events of the run. */
  lemma {:induction false} RunFramesCarryRun(ticks: seq<Tick>, lastSeen: int)
    ensures EventsIn(RunFrames(ticks, lastSeen)) == Run(ticks, lastSeen)
  {
    hide RunTick, AuditFrames;
    if |ticks| > 0 {
      var r := RunTick(ticks[0], lastSeen);
      RunFramesCarryRun(ticks[1..], ticks[0].now);
      EventsInConcat(Frames(r), RunFrames(ticks[1..], ticks[0].now));
      EventsInFrames(r.emitted);
      var tail := Frames(r)[|r.emitted|..];
      assert Frames(r) == AuditFrames(r.emitted) + tail;
      EventsInConcat(AuditFrames(r.emitted), tail);
      assert EventsIn(tail) == [];
    }
  }

  /** What the frames of one tick say, told from the frames alone: they carry
      the events; a saturated frame is written exactly when the tick stuck, and
      an error frame exactly when a query failed, each as the last frame; the
      saturated frame counts the events before it. */
  ghost predicate Reports(out: seq<Frame>, events: seq<Event>, ending: Ending)
  {
    && EventsIn(out) == events
    && (forall i | 0 <= i < |out| - 1 :: out[i].AuditFrame?)
    && (ending.Stuck? <==> out != [] && out[|out| - 1] == SaturatedFrame(|out| - 1))
    && (ending.QueryFailed? <==> out != [] && out[|out| - 1] == ErrorFrame)
    && (ending.ShortPage? || ending.OutOfPages? <==> out == [] || out[|out| - 1].AuditFrame?)
  }

  lemma FramesReport(r: TickResult)
    ensures Reports(Frames(r), r.emitted, r.ending)
  {
    hide EventsIn;
    var tail := Frames(r)[|r.emitted|..];
    assert Frames(r) == AuditFrames(r.emitted) + tail;
    EventsInFrames(r.emitted);
    EventsInConcat(AuditFrames(r.emitted), tail);
    NoEventsIn(tail);
  }

  lemma NoEventsIn(tail: seq<Frame>)
    requires |tail| <= 1 && forall f | f in tail :: !f.AuditFrame?
    ensures EventsIn(tail) == []
  {
    if tail != [] {
      assert tail[0] in tail;
      assert tail[1..] == [];
    }
  }

  lemma IdsConcat(a: seq<Event>, b: seq<Event>)
    ensures Ids(a + b) == Ids(a) + Ids(b)
  {}

  lemma {:induction false} CountIds(s: seq<Event>)
    requires UniqueIds(s)
    ensures |Ids(s)| == |s|
  {
    if s != [] {
      var n := |s| - 1;
      CountIds(s[..n]);
      assert s == s[..n] + [s[n]];
      assert Ids(s) == Ids(s[..n]) + {s[n].id};
      assert s[n].id !in Ids(s[..n]);
    }
  }

  /** The tick's result, given what it has sent before page `page`. */
  function After(view: nat -> Outcome, page: nat, lastSeen: int, cursor: int, sent: seq<Event>): TickResult
    requires page <= MAX_PAGES_PER_TICK
  {
    var rest := Walk(view, page, lastSeen, cursor, Ids(sent));
    TickResult(sent + rest.emitted, rest.ending)
  }

  /** One iteration of the page loop, seen from what was sent so far. */
  lemma AfterStep(view: nat -> Outcome, page: nat, lastSeen: int, cursor: int, sent: seq<Event>)
    requires page < MAX_PAGES_PER_TICK && UniqueIds(sent)
    ensures var r := After(view, page, lastSeen, cursor, sent);
            match view(page)
            case Failed => r == TickResult(sent, QueryFailed)
            case Rows(events) =>
              var rows := Page(events, lastSeen, cursor);
              var news := Fresh(rows, lastSeen, Ids(sent));
              && UniqueIds(sent + news) && Ids(sent + news) == Ids(sent) + Ids(news)
              && AuditFrames(sent + news) == AuditFrames(sent) + AuditFrames(news)
              && if |rows| < MAX_QUERY_LIMIT then r == TickResult(sent + news, ShortPage)
                 else if news == [] then r == TickResult(sent + news, Stuck(cursor))
                 else r == After(view, page + 1, lastSeen, rows[MAX_QUERY_LIMIT - 1].ts, sent + news)
  {
    hide Page, Fresh, UniqueIds;
    if view(page).Rows? {
      var rows := Page(view(page).events, lastSeen, cursor);
      var news := Fresh(rows, lastSeen, Ids(sent));
      SentStaysUnique(sent, news, Ids(sent));
      IdsConcat(sent, news);
      if |rows| == MAX_QUERY_LIMIT && news != [] {
        var rest := Walk(view, page + 1, lastSeen, rows[MAX_QUERY_LIMIT - 1].ts, Ids(sent + news));
        assert (sent + news) + rest.emitted == sent + (news + rest.emitted);
      }
    }
  }

  lemma NothingSent(tick: Tick, lastSeen: int)
    ensures Ids([]) == {} && UniqueIds([]) && AuditFrames([]) == []
    ensures RunTick(tick, lastSeen) == After(tick.view, 0, lastSeen, tick.now, [])
  {
    hide Walk;
  }

  lemma WalkExhausted(view: nat -> Outcome, lastSeen: int, cursor: int, sent: seq<Event>)
    ensures After(view, MAX_PAGES_PER_TICK, lastSeen, cursor, sent) == TickResult(sent, OutOfPages)
    ensures Frames(TickResult(sent, OutOfPages)) == AuditFrames(sent)
  {}

  class LiveTail {
    var lastSeen: int
    var frames: seq<Frame>

    constructor (connectedAt: int)
      ensures lastSeen == connectedAt && frames == []
    {
      lastSeen := connectedAt;
      frames := [];
    }

    /** The inner loop: send the fresh rows of one page. */
    method SendPage(rows: seq<Event>, seen: set<string>) returns (seen': set<string>, count: nat)
      modifies this`frames
      ensures var news := Fresh(rows, lastSeen, seen);
              && frames == old(frames) + AuditFrames(news)
              && seen' == seen + Ids(news)
              && count == |news|
    {
      seen', count := seen, 0;
      for i := 0 to |rows|
        invariant var news := Fresh(rows[..i], lastSeen, seen);
                  && frames == old(frames) + AuditFrames(news)
                  && seen' == seen + Ids(news)
                  && count == |news|
      {
        var ev := rows[i];
        assert rows[..i + 1][..i] == rows[..i];
        if ev.ts <= lastSeen || ev.id in seen' {
          continue;
        }
        ghost var news := Fresh(rows[..i], lastSeen, seen);
        assert AuditFrames(news + [ev]) == AuditFrames(news) + [AuditFrame(ev)];
        seen' := seen' + {ev.id};
        frames := frames + [AuditFrame(ev)];
        count := count + 1;
      }
      assert rows[..|rows|] == rows;
    }

    /** One page: query, send what is new, and decide whether to go on. `base`
        are the frames of earlier ticks, `sent` the events of this tick so far. */
    method QueryPage(tick: Tick, page: nat, cursor: int, seen: set<string>,
                     ghost base: seq<Frame>, ghost sent: seq<Event>)
      returns (open: bool, cursor': int, seen': set<string>, ghost sent': seq<Event>)
      requires page < MAX_PAGES_PER_TICK && UniqueIds(sent) && seen == Ids(sent)
      requires frames == base + AuditFrames(sent)
      modifies this`frames
      ensures UniqueIds(sent') && seen' == Ids(sent')
      ensures open ==> frames == base + AuditFrames(sent')
      ensures open ==> After(tick.view, page, lastSeen, cursor, sent)
                       == After(tick.view, page + 1, lastSeen, cursor', sent')
      ensures !open ==> frames == base + Frames(After(tick.view, page, lastSeen, cursor, sent))
    {
      hide Page, Fresh, Walk, Ids, UniqueIds, AuditFrames, After;
      AfterStep(tick.view, page, lastSeen, cursor, sent);
      open, cursor', seen', sent' := false, cursor, seen, sent;
      match tick.view(page) {
        case Failed =>
          frames := frames + [ErrorFrame];
        case Rows(events) =>
          var rows := Page(events, lastSeen, cursor);
          sent' := sent + Fresh(rows, lastSeen, seen);
          var count;
          seen', count := SendPage(rows, seen);
          if |rows| < MAX_QUERY_LIMIT {
            return;
          }
          if count == 0 {
            CountIds(sent');
            frames := frames + [SaturatedFrame(|seen'|)];
            return;
          }
          open, cursor' := true, rows[|rows| - 1].ts;
      }
    }

    /** One tick: page down from `now`, then move the mark up to `now`. */
    method Poll(tick: Tick)
      modifies this
      ensures lastSeen == tick.now
      ensures frames == old(frames) + Frames(RunTick(tick, old(lastSeen)))
      ensures var r := RunTick(tick, old(lastSeen));
              old(frames) <= frames && Reports(frames[|old(frames)|..], r.emitted, r.ending)
    {
      hide Walk, Ids, UniqueIds, AuditFrames, After, RunTick, Frames, Reports;
      var cursor := tick.now;
      var seen: set<string> := {};
      ghost var sent: seq<Event> := [];
      NothingSent(tick, lastSeen);
      var page := 0;
      var open := true;
      while page < MAX_PAGES_PER_TICK && open
        invariant page <= MAX_PAGES_PER_TICK
        invariant lastSeen == old(lastSeen) && seen == Ids(sent) && UniqueIds(sent)
        invariant open ==> frames == old(frames) + AuditFrames(sent)
        invariant open ==> RunTick(tick, lastSeen) == After(tick.view, page, lastSeen, cursor, sent)
        invariant !open ==> frames == old(frames) + Frames(RunTick(tick, lastSeen))
        decreases MAX_PAGES_PER_TICK - page
      {
        open, cursor, seen, sent := QueryPage(tick, page, cursor, seen, old(frames), sent);
        page := page + 1;
      }
      if open { WalkExhausted(tick.view, lastSeen, cursor, sent); }
      FramesReport(RunTick(tick, lastSeen));
      assert frames[|old(frames)|..] == Frames(RunTick(tick, lastSeen));
      lastSeen := tick.now;
    }
  }

  lemma SentStaysUnique(sent: seq<Event>, news: seq<Event>, known: set<string>)
    requires UniqueIds(sent) && UniqueIds(news) && known == Ids(sent)
    requires forall e | e in news :: e.id !in known
    ensures UniqueIds(sent + news)
  {
    forall i, j | 0 <= i < |sent| && 0 <= j < |news| ensures sent[i].id != news[j].id {
      assert sent[i].id in known && news[j] in news;
    }
  }

  lemma RunFramesStep(ticks: seq<Tick>, i: nat, lastSeen: int, frames: seq<Frame>)
    requires i < |ticks|
    ensures frames + RunFrames(ticks[i..], lastSeen)
            == frames + Frames(RunTick(ticks[i], lastSeen)) + RunFrames(ticks[i + 1..], ticks[i].now)
  {
    hide RunTick, Frames;
    assert ticks[i..][0] == ticks[i] && ticks[i..][1..] == ticks[i + 1..];
  }

  /** The frames of the ticks up to the i-th, and those of the i-th. */
  ghost predicate CutAt(frames: seq<Frame>, cuts: seq<nat>, i: nat, r: TickResult)
    requires i + 1 < |cuts|
  {
    cuts[i] <= cuts[i + 1] <= |frames| && Reports(frames[cuts[i]..cuts[i + 1]], r.emitted, r.ending)
  }

  lemma CutKept(frames: seq<Frame>, more: seq<Frame>, cuts: seq<nat>, i: nat, r: TickResult)
    requires i + 1 < |cuts| && CutAt(frames, cuts, i, r) && frames <= more
    ensures CutAt(more, cuts + [|more|], i, r)
  {
    hide Reports;
    assert frames[cuts[i]..cuts[i + 1]] == more[cuts[i]..cuts[i + 1]];
  }

  /** A connection that lives through `ticks` writes exactly their frames, tick
      after tick, each reporting how its tick ended; the events on the wire are
      those of the run. */
  method Serve(connectedAt: int, ticks: seq<Tick>) returns (frames: seq<Frame>, ghost cuts: seq<nat>)
    ensures frames == RunFrames(ticks, connectedAt)
    ensures EventsIn(frames) == Run(ticks, connectedAt)
    ensures |cuts| == |ticks| + 1 && cuts[0] == 0 && cuts[|ticks|] == |frames|
    ensures forall i | 0 <= i < |ticks| :: CutAt(frames, cuts, i, RunTick(ticks[i], Floor(ticks, connectedAt, i)))
  {
    hide RunTick, Frames, EventsIn, Run, Reports, CutAt;
    var tail := new LiveTail(connectedAt);
    ghost var all := RunFrames(ticks, connectedAt);
    assert ticks[0..] == ticks;
    cuts := [0];
    for i := 0 to |ticks|
      invariant fresh(tail) && tail.lastSeen == (if i == 0 then connectedAt else ticks[i - 1].now)
      invariant tail.frames + RunFrames(ticks[i..], tail.lastSeen) == all
      invariant |cuts| == i + 1 && cuts[0] == 0 && cuts[i] == |tail.frames|
      invariant forall j | 0 <= j < i :: CutAt(tail.frames, cuts, j, RunTick(ticks[j], Floor(ticks, connectedAt, j)))
    {
      RunFramesStep(ticks, i, tail.lastSeen, tail.frames);
      ghost var before := tail.frames;
      tail.Poll(ticks[i]);
      forall j | 0 <= j < i
        ensures CutAt(tail.frames, cuts + [|tail.frames|], j, RunTick(ticks[j], Floor(ticks, connectedAt, j)))
      {
        CutKept(before, tail.frames, cuts, j, RunTick(ticks[j], Floor(ticks, connectedAt, j)));
      }
      cuts := cuts + [|tail.frames|];
      CutNow(before, tail.frames, cuts, i, RunTick(ticks[i], Floor(ticks, connectedAt, i)));
    }
    frames := tail.frames;
    RunFramesCarryRun(ticks, connectedAt);
  }

  lemma CutNow(before: seq<Frame>, frames: seq<Frame>, cuts: seq<nat>, i: nat, r: TickResult)
    requires |cuts| == i + 2 && cuts[i] == |before| && cuts[i + 1] == |frames| && before <= frames
    requires Reports(frames[|before|..], r.emitted, r.ending)
    ensures CutAt(frames, cuts, i, r)
  {
    hide Reports;
    assert frames[cuts[i]..cuts[i + 1]] == frames[|before|..];
  }

  /** A connection that meets a burst of n >= 1000 events at one instant sends a
      thousand of them and then reports saturation, with that count. */
  method ServeBurst(connectedAt: int, t: int, now: int, n: nat) returns (frames: seq<Frame>)
    requires 0 < connectedAt < t <= now && n >= 1000
    ensures |frames| == 1001 && frames[1000] == SaturatedFrame(1000)
    ensures forall i | 0 <= i < 1000 :: frames[i].AuditFrame? && frames[i].ev.ts == t
  {
    hide RunTick, Frames, RunFrames, Capacity.NothingLost;
    var store := Copies(SOME_EVENT.(ts := t), n);
    var tick := Tick(now, (_: nat) => Rows(store));
    Capacity.TiedBurst(tick, store, connectedAt, t);
    ghost var cuts;
    frames, cuts := Serve(connectedAt, [tick]);
    assert CutAt(frames, cuts, 0, RunTick(tick, Floor([tick], connectedAt, 0)));
    assert frames[cuts[0]..cuts[1]] == frames;
    BurstFrames(frames, RunTick(tick, connectedAt).emitted);
    BurstTimes(tick, store, connectedAt, t);
  }

  lemma BurstFrames(out: seq<Frame>, events: seq<Event>)
    requires out != [] && EventsIn(out) == events && !out[|out| - 1].AuditFrame?
    requires forall i | 0 <= i < |out| - 1 :: out[i].AuditFrame?
    ensures |out| == |events| + 1 && forall i | 0 <= i < |events| :: out[i] == AuditFrame(events[i])
  {
    hide EventsIn;
    var n := |out| - 1;
    var s := seq(n, i requires 0 <= i < n => out[i].ev);
    assert out == AuditFrames(s) + [out[n]];
    EventsInConcat(AuditFrames(s), [out[n]]);
    EventsInFrames(s);
    NoEventsIn([out[n]]);
  }

  lemma BurstTimes(tick: Tick, store: seq<Event>, lastSeen: int, t: int)
    requires lastSeen > 0 && tick.now > 0 && Unchanged(tick.view, store) && UniqueIds(store)
    requires forall e | e in store :: e.ts == t
    ensures forall i | 0 <= i < |RunTick(tick, lastSeen).emitted| :: RunTick(tick, lastSeen).emitted[i].ts == t
  {
    hide Walk;
    WalkComplete(tick.view, store, 0, lastSeen, tick.now, {});
    var out := RunTick(tick, lastSeen).emitted;
    assert forall i | 0 <= i < |out| :: out[i] in out;
  }
}

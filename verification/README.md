# Verified model of the audit pipeline

A Dafny model of an HTTP test server's audit log and of the components beside it, with
proofs of the properties that span several functions, a whole loop, or a whole run.

* `AuditStore`, `AuditSql`: what a query means (`MemoryLogger`), and when the statement
  built for Postgres means the same.
* `AuditStream`, `AuditStreamCapacity`, `AuditStreamRun`: the live tail. One tick over any
  store, one tick over an unchanged store, how much a tick can carry, and whole connections.
* `AuditExport`, `AuditExportPages`: the NDJSON export, over a store that keeps the entry-time
  list and over one that changes between pages in any way.
* `AsyncLogger`: the buffered writer as a step relation over all interleavings.
* `Capture`, `HttpHeaders`, `Replay`: body capture, header redaction, and the lineage that
  replays leave in the log over whole runs.
* `Decimal`, `Base64Url`, `Pagination`, `Session`: codecs, the three pagination styles, the
  session cookie.
* `Jwks`, `JwksConcurrent`, `Nonce`: timed caches, the first also as a step relation over
  interleaved lookups. `Aggregations`, `BigBody`, `OpenApi`: conservation, size bounds, and
  agreement of the generated document with the registry.
* `Prelude`, `Text`, `Ranking`: shared definitions, string order and search, sorting by an order.

`dafny verify dfyconfig.toml` checks everything.

## Conventions

* Timestamps and durations are integers on one clock; the zero instant (Go's `IsZero`) is 0,
  and clock readings are positive. Event ids are unique in every store (a primary key in
  Postgres, generated UUIDs in memory).
* Parts outside the program are parameters: the store each query meets, clock readings,
  generated ids, fetch outcomes, the UUID parser, the MAC, the JSON codec, the hash that
  fills dataset values. Theorems quantify over all of them.
* Header names of incoming requests are canonical, as Go's HTTP server makes them.
* Operations that change fields or run loops are classes and methods, each proved equal to a
  specification function or relation; the properties are lemmas about that specification.
* The step relations of `AsyncLogger` and `JwksConcurrent` and the runs of `Replay` include
  every interleaving of their steps.

## What the code does not do

Some properties that the code or its comments suggest do not hold on all inputs. The model
keeps the code as it is and states exactly when they hold.

* The export comment says that pinning the upper time bound keeps offset pages stable while
  events arrive. A timestamp is taken when a request starts and the event is stored when it
  ends, so events inside the window can arrive between pages. `RepeatsIffCarried`: whatever
  happens to the store between pages, an event is written twice if and only if some event is
  moved from the page that wrote it onto the page of a later turn. `GrowingRepeatsIff`: over
  a store that only grows this comes to some page being preceded by a newcomer that ranks
  before the last event written. `ExportRepeats` is such an export. `GrowingWritesAll`: events
  can repeat but none is hidden.
  For the same reason `LateEventNeverSent`: the live tail never shows a request that was in
  flight across a tick.
* A tick that runs out of its ten pages says nothing. `NothingLostIff`: over an unchanged store
  a tick loses nothing exactly when its last page reaches all that is due, where each page
  starts over with the timestamp the one before ended on. `TieCapacity` and
  `NothingLostIffWithinCapacity` turn this into numbers: 1000 + 9 * (1000 - b) events if at
  most b share a timestamp, exactly 9991 without ties. `RunCompleteness` lifts this to whole
  connections.
* The saturated frame is meant to say that events were dropped. `SaturatedLostIff`: they were
  if and only if more than 1000 due events lie at or before the cursor the tick stuck at.
  `SaturationHappens` gives ticks that report it, with and without loss.
* The aggregation endpoints override the caller's limit so that totals are not cut, but still
  query one page. `SeesAllIff`: they see every match if and only if at most 1000 match;
  `TimeseriesReply`, `BreakdownReply` and `StatsReply` state this for their totals.
* The search text is not escaped for LIKE. `SearchAgreesIff` and `FilterAgreesIff` give the
  exact filters on which both stores agree; `CountRefinesIff` and `PageRefinesIff` lift this
  to whole tables.
* `Close` is documented to stop accepting events, but `Log` does not look at the stop signal.
  `AllHandedIff`: when the worker has ended, everything accepted was written if and only if
  no call was accepted after it left. `LateEventIsLost` is a run that loses an event after
  `Close` has returned.
* A login nonce is meant to be good once in ten minutes. `AcceptedIff` says exactly when it is
  accepted. The clock is read before the lock, so calls may reach the ledger out of clock
  order: `OutOfOrderReuse` accepts a nonce twice in nine minutes, and `AcceptancesApart`
  bounds the loss by the disorder.
* Keys are meant to be served for at most ttl + 5 minutes, but after a refresh the cache is
  read without another look at the clock. `ConcurrentFreshness` and `RevokedUnderConcurrency`:
  in every interleaving an answer keeps the bound if and only if it is a hit, is stale, or is
  given before the grace period of the key set it is read from is over, the test that is left
  out; `RunFreshIff` says so of whole runs. `HeldUpLookup` is a run that breaks the bound.
* The replay loop guard looks at captured headers. `LineageIff`: chains of replays are
  impossible in all runs exactly when headers are captured or replay is off altogether.
* Two of the three capped writers raise their truncation flag on an empty write at the cap.
  `ReplayResponse` states the flag exactly, `EmptyWriteRaisesFlag` is an instance.
* The hand-written integer formatter prints `-` for the smallest 64-bit integer
  (`ItoaBufferReadsBackIff`).
* The document self-check compares joined texts. `SelfCheckIff` says when it passes,
  `SelfCheckOfBuild` that this is right for methods without spaces, `SpaceFoolsCheck` that a
  space can fool it.

## Model

| member | source | states |
|---|---|---|
| `Text.ContainsAt` | pkg/audit/memory.go:150-152 | substring search succeeds exactly when the needle occurs at some position |
| `Text.LessMeans` | pkg/audit/memory.go:107-112 | strings are ordered by the first position at which they differ, a prefix before what extends it |
| `Text.CaseMeans` | pkg/audit/event.go:176-187 | case mapping moves A to Z onto a to z and back, and nothing else |
| `Text.EqualFoldMeans` | pkg/httpsrv/portal_audit_replay.go:53-57 | equal ignoring case means equal lengths and, position by position, equal but for the case of letters |
| `Ranking.SortPermutes` | pkg/audit/memory.go:107-112 | sorting keeps exactly the same elements with the same multiplicities |
| `Ranking.SortRanked` | pkg/audit/memory.go:107-112 | sorting pairwise comparable elements gives a strictly ranked sequence of the same members |
| `Ranking.RankedUnique` | pkg/audit/memory.go:107-112 | two ranked sequences with the same members are equal, so an unstable sort has one possible result |
| `Ranking.SortSorted` | pkg/httpsrv/portal_audit_aggregations.go:209 | sorting with ties leaves no inversion and keeps the members |
| `AuditStore.BeforeIsStrict` | pkg/audit/memory.go:107-112 | newest-first with ascending id is a strict order on events |
| `AuditStore.FilterSpec` | pkg/audit/memory.go:100-106 | filtering keeps exactly the matching events, and keeps ids unique |
| `AuditStore.MatchListSpec` | pkg/audit/memory.go:99-114 | with unique ids the match list is ranked and holds exactly the matches |
| `AuditStore.MatchListUnique` | pkg/audit/memory.go:99-114 | any ranked sequence of exactly the matches is the match list |
| `AuditStore.QuerySpec` | pkg/audit/memory.go:41-66 | a page is ranked, holds only stored matches, and at most 1000 of them |
| `AuditStore.QueryMeans` | pkg/audit/memory.go:41-66 | of all matches, newest first and ties by ascending id, a query returns those from the offset on (a negative one is 0), at most limit of them, where no limit means 100 and none above 1000 is granted |
| `AuditStore.MemoryLogger.Log` | pkg/audit/memory.go:26-34 | appends the event, with the generated id when it has none; fresh ids keep the store unique |
| `AuditStore.MemoryLogger.MatchAll` | pkg/audit/memory.go:99-114 | the loop and sort compute the match list |
| `AuditStore.MemoryLogger.QueryPage` | pkg/audit/memory.go:41-66 | the page is the clamped window of the match list |
| `AuditStore.MemoryLogger.Count` | pkg/audit/memory.go:69-73 | the number of matches, whatever limit and offset say |
| `AuditStore.MemoryLogger.GetPayload` | pkg/audit/memory.go:77-86 | the payload of the first event with the id, and none if there is no such event |
| `AuditStream.PageFacts` | pkg/httpsrv/portal_audit_stream.go:89-116 | a short page is the whole window; a full page holds everything newer than its last row; fresh rows are exactly those newer than lastSeen and unseen |
| `AuditStream.WalkSafe` | pkg/httpsrv/portal_audit_stream.go:88-137 | for any store at each query: only unseen events of (lastSeen, cursor] found by a query are sent, no id twice |
| `AuditStream.EndingMeans` | pkg/httpsrv/portal_audit_stream.go:88-137 | for any store at each query, what the ending says: a failed query after answered ones, ten pages of at least 1000 events, or answered queries only |
| `AuditStream.FailureEnds` | pkg/httpsrv/portal_audit_stream.go:94-98 | nothing after a failed query has any influence on the tick |
| `AuditStream.WalkComplete` | pkg/httpsrv/portal_audit_stream.go:88-137 | over an unchanged store a walk ending on a short page leaves nothing behind; a stuck walk sent all above its cursor, on a page of tied timestamps |
| `AuditStream.TickCompleteness` | pkg/httpsrv/portal_audit_stream.go:85-137 | a tick ending on a short page sends exactly the events with lastSeen < ts <= now, each once, whatever ties |
| `AuditStream.SaturatedMeansTied` | pkg/httpsrv/portal_audit_stream.go:120-132 | when saturated, at least 1000 stored events share the cursor's or lastSeen's timestamp and nothing newer was lost |
| `AuditStreamCapacity.CursorCutsPrefix` | pkg/httpsrv/portal_audit_stream.go:133-136 | lowering the inclusive cursor to a timestamp of the list leaves the list from the first event with that timestamp |
| `AuditStreamCapacity.PageOfWalk` | pkg/httpsrv/portal_audit_stream.go:89-116 | page k reads 1000 positions of the list from its start, and sends those not sent before |
| `AuditStreamCapacity.WalkFrom` | pkg/httpsrv/portal_audit_stream.go:88-137 | from page k on the walk sends exactly the due positions up to where the tenth page reaches, whether it ends short, stuck or out of pages |
| `AuditStreamCapacity.TickSends` | pkg/httpsrv/portal_audit_stream.go:76-141 | over an unchanged store, whatever ties, a tick sends the due events, newest first, exactly as far as its last page reaches |
| `AuditStreamCapacity.NothingLostIff` | pkg/httpsrv/portal_audit_stream.go:76-141 | a tick over an unchanged store loses nothing if and only if its last page reaches the number of due events |
| `AuditStreamCapacity.SaturatedLostIff` | pkg/httpsrv/portal_audit_stream.go:120-132 | a saturated tick lost something if and only if more than 1000 due events lie at or before the cursor it stuck at |
| `AuditStreamCapacity.TiedBurst` | pkg/httpsrv/portal_audit_stream.go:120-132 | a tick over at least 1000 events, all at one instant, sends 1000 of them and reports saturation, and has lost nothing if and only if there are exactly 1000 |
| `AuditStreamCapacity.SaturationHappens` | pkg/httpsrv/portal_audit_stream.go:120-132 | for every size from 1000 there is such a store and tick |
| `AuditStreamCapacity.TieCapacity` | pkg/httpsrv/portal_audit_stream.go:23-29 | with at most b events to a timestamp, a tick with at most 1000 + 9 * (1000 - b) due events loses nothing |
| `AuditStreamCapacity.NeverSaturates` | pkg/httpsrv/portal_audit_stream.go:120-132 | with fewer than 500 events to a timestamp no tick saturates |
| `AuditStreamCapacity.TickCapacity` | pkg/httpsrv/portal_audit_stream.go:23-29 | without ties a tick sends exactly the newest 9991 events that are due, in order, and never saturates |
| `AuditStreamCapacity.NothingLostIffWithinCapacity` | pkg/httpsrv/portal_audit_stream.go:23-29 | without ties nothing is lost if and only if at most 9991 events are due |
| `AuditStreamRun.RunSafety` | pkg/httpsrv/portal_audit_stream.go:56-141 | over every run of ticks with a non-decreasing clock, for a store changing between any two queries: no id twice, nothing at or before connection time, every event found by the tick whose window holds it |
| `AuditStreamRun.LateEventNeverSent` | pkg/httpsrv/portal_audit_stream.go:104-141 | an event not visible to the tick whose window holds its timestamp is never sent |
| `AuditStreamRun.RunSends` | pkg/httpsrv/portal_audit_stream.go:76-141 | over ticks that each see one store, a run is tick by tick the due events, newest first, as far as the last page reaches, however the ticks end |
| `AuditStreamRun.RunCompleteness` | pkg/httpsrv/portal_audit_stream.go:76-141 | over such ticks the events sent are exactly those that the store of their own tick contains, if and only if every tick's last page reaches all that is due |
| `AuditStreamRun.RunFramesCarryRun` | pkg/httpsrv/portal_audit_stream.go:94-131 | the events on the wire, error and saturated frames removed, are the events of the run in order |
| `AuditStreamRun.FramesReport` | pkg/httpsrv/portal_audit_stream.go:94-131 | the frames of a tick carry its events; a saturated frame is written exactly when the tick stuck and counts them, an error frame exactly when a query failed, each last |
| `AuditStreamRun.LiveTail.constructor` | pkg/httpsrv/portal_audit_stream.go:53-56 | the high-water mark starts at connection time with nothing sent |
| `AuditStreamRun.LiveTail.SendPage` | pkg/httpsrv/portal_audit_stream.go:99-116 | the inner loop sends exactly the fresh rows, and extends the seen set and the count by them |
| `AuditStreamRun.LiveTail.QueryPage` | pkg/httpsrv/portal_audit_stream.go:88-137 | one turn of the page loop either ends the tick with all its frames written, or leaves the rest of the walk to the next page |
| `AuditStreamRun.LiveTail.Poll` | pkg/httpsrv/portal_audit_stream.go:76-141 | a tick appends frames that carry its events, end with a saturated frame counting them exactly when it stuck, and with an error frame exactly when a query failed; lastSeen moves to now |
| `AuditStreamRun.Serve` | pkg/httpsrv/portal_audit_stream.go:56-143 | a whole connection writes, tick after tick, frames that report the tick in this way, and carries the events of the run |
| `AuditStreamRun.ServeBurst` | pkg/httpsrv/portal_audit_stream.go:120-131 | a connection that meets n >= 1000 events at one instant writes 1000 of them and then a saturated frame with count 1000 |
| `AuditExport.DrainFrom` | pkg/httpsrv/portal_audit_stream.go:177-214 | from any turn on, the export writes the next events of the entry-time list and ends with at most one marker |
| `AuditExport.ExportComplete` | pkg/httpsrv/portal_audit_stream.go:146-215 | if what is stored meanwhile is newer than the bound, the output is the first min(n, 100000) events of the entry-time list, in order, without repetition, and the truncation line appears exactly when n >= 100000 |
| `AuditExport.ExportPrefix` | pkg/httpsrv/portal_audit_stream.go:178-187 | an export that fails or is cancelled is a prefix of that list, an error line at most added |
| `AuditExportPages.DrainIsOut` | pkg/httpsrv/portal_audit_stream.go:177-214 | whatever the store does between pages, the export writes the page of each reached turn; it ends with the truncation line at the limit, with the error line if the query after the last full page fails, and with neither otherwise |
| `AuditExportPages.OutputAt` | pkg/httpsrv/portal_audit_stream.go:205-213 | position k of the output is position k of the list that turn k / 1000 finds |
| `AuditExportPages.RepeatsIffCarried` | pkg/httpsrv/portal_audit_stream.go:151-156 | for any changes between pages, an event is written twice if and only if matches stored before it, less those removed, carry it from its page onto that of a later turn |
| `AuditExportPages.NoRepeatsUnlessOvertaken` | pkg/httpsrv/portal_audit_stream.go:151-156 | over a growing store, without any bound, a repetition needs a newcomer ranking before the last event written |
| `AuditExportPages.GrowingRepeatsIff` | pkg/httpsrv/portal_audit_stream.go:151-156 | over a growing store an event is written twice if and only if some reached turn has such a newcomer, for bursts of at most a page or for exports within the limit |
| `AuditExportPages.GrowingWritesAll` | pkg/httpsrv/portal_audit_stream.go:151-156 | over a growing store, within the limit and uninterrupted, every match at entry is written at least once |
| `AuditExportPages.OneNewcomerRepeats` | pkg/httpsrv/portal_audit_stream.go:151-156 | one matching event that ranks before the end of a full first page, stored after it is read, makes the export write an event twice |
| `AuditExportPages.ExportRepeats` | pkg/httpsrv/portal_audit_stream.go:151-156 | there is a growing store and a pinned filter for which the export writes an event twice |
| `AuditExport.WriteRows` | pkg/httpsrv/portal_audit_stream.go:191-201 | writes all rows, or those up to the limit followed by the truncation line |
| `AuditExport.Export` | pkg/httpsrv/portal_audit_stream.go:157-215 | quiet and not interrupted, the handler writes the events of the entry store that meet every condition of the caller but the limit and offset, up to the caller's bound if given and not in the future and up to the time of the request otherwise, in query order, 100000 at most and then the truncation line |
| `AuditExport.ExportPinned` | pkg/httpsrv/portal_audit_stream.go:157-215 | the loop terminates and writes exactly the lines of the specification under the pinned filter |
| `Decimal.AtoiItoa` | pkg/endpoints/pagination/pagination.go:323-336 | parsing undoes printing for every 64-bit integer |
| `Decimal.AtoiMeans` | pkg/endpoints/pagination/pagination.go:365-377 | a text is read as n if and only if it is an optional sign, some zeros and the decimal text of n, and n has 64 bits |
| `Decimal.DigitCount` | pkg/audit/postgres/store.go:374-380 | a number has at most k digits exactly when it is below 10^k |
| `Decimal.FillDigits` | pkg/audit/postgres/store.go:374-380 | the digits written backwards are the decimal text, and fit the 20-byte buffer with room for a sign |
| `Decimal.ItoaBuffer` | pkg/audit/postgres/store.go:366-386 | the decimal text of every 64-bit integer but the smallest, which prints as a lone minus |
| `Decimal.ItoaBufferReadsBackIff` | pkg/audit/postgres/store.go:366-386 | the text reads back as the number if and only if it is not the smallest integer |
| `AuditSql.LikeIsContains` | pkg/audit/postgres/store.go:305-312 | LIKE on a plain text between two percent signs is substring search |
| `AuditSql.SearchAgreesIff` | pkg/audit/postgres/store.go:305-312 | both stores search alike on every event if and only if the text has no LIKE metacharacter |
| `AuditSql.FilterAgreesIff` | pkg/audit/postgres/store.go:275-312 | both stores select the same events if and only if the search is plain, the window is empty, or the exact path satisfies both searches |
| `AuditSql.Builder.Add` | pkg/audit/postgres/store.go:271-274 | binds the value as the next argument and numbers the clause after it; the clauses then mean one condition more |
| `AuditSql.Builder.AddSearch` | pkg/audit/postgres/store.go:305-312 | binds one pattern and refers to it from both placeholders |
| `AuditSql.BuildSelect` | pkg/audit/postgres/store.go:266-347 | clause i refers to argument i, the clauses together mean the filter's conditions, and LIMIT and OFFSET read back as the clamped values |
| `AuditSql.WhereIsFilter` | pkg/audit/postgres/store.go:266-317 | for safe filters the WHERE clause holds exactly of the events that match in memory |
| `AuditSql.PageRefines` | pkg/audit/postgres/store.go:234-251 | for safe filters the page statement has exactly one answer on any table, the page of `MemoryLogger` |
| `AuditSql.CountRefines` | pkg/audit/postgres/store.go:254-261 | for safe filters the count statement answers the number of matches |
| `AuditSql.CountRefinesIff` | pkg/audit/postgres/store.go:254-261 | both stores count alike on all tables if and only if the filter is safe |
| `AuditSql.PageRefinesIff` | pkg/audit/postgres/store.go:234-251 | both stores return the same page on all tables if and only if the filter is safe or asks for a page after the one event it names |
| `AsyncLogger.StartInv` | pkg/audit/async.go:34-54 | a new logger has the configured buffer size, 1024 if none is configured, is empty, and meets the invariant |
| `AsyncLogger.LogDecides` | pkg/audit/async.go:58-71 | in every reachable state a Log call is refused exactly when as many events as the buffer holds are accepted and not taken, and accepted otherwise |
| `AsyncLogger.StepKeepsInv` | pkg/audit/async.go:58-133 | every step keeps the invariant, and only extends what was accepted and handed over |
| `AsyncLogger.Conservation` | pkg/audit/async.go:58-133 | in every interleaving: handed, then in flight, then buffered events are the accepted events in order; accepted, dropped and pending drops add up to the decided calls, the 64-bit counter included; the buffer stays within capacity |
| `AsyncLogger.ExitFreezes` | pkg/audit/async.go:107-125 | once the worker is gone nothing more is handed over |
| `AsyncLogger.ExitedHandedAll` | pkg/audit/async.go:107-125 | a worker that ends has handed over all that was accepted at any moment it was running |
| `AsyncLogger.DrainOnClose` | pkg/audit/async.go:95-98 | when Close has returned, what was accepted before stop is a prefix of what was handed over, which is a prefix of what was accepted |
| `AsyncLogger.AcceptedAfterExitIsStranded` | pkg/audit/async.go:58-71 | an event accepted after the worker ended is not handed over in any continuation |
| `AsyncLogger.LeftBehind` | pkg/audit/async.go:58-125 | in every run whose worker has ended, it left once, handed over exactly the events accepted before that, and the channel holds exactly those accepted after |
| `AsyncLogger.AllHandedIff` | pkg/audit/async.go:95-125 | in every such run all accepted events were handed over if and only if none was accepted after the worker left |
| `AsyncLogger.LateEventIsLost` | pkg/audit/async.go:58-71 | for every buffer size there is a run in which Close has returned and a later accepted event is lost |
| `AsyncLogger.WorkerNotBlocked` | pkg/audit/async.go:107-125 | after stop a worker that has not ended can take a step |
| `AsyncLogger.DrainTerminates` | pkg/audit/async.go:107-125 | without accepted calls worker steps plus remaining work are constant, and the worker has ended exactly when the work is used up |
| `AsyncLogger.DrainEnds` | pkg/audit/async.go:113-122 | after stop, a run that leaves the worker nothing to do ended it in exactly 2 * buffered + in flight + 2 (or 1) steps with everything handed over |
| `Capture.BytesConcat` | pkg/httpmw/audit.go:160-181 | the bytes of one history after another are the bytes of the first and then of the second |
| `Capture.EmptyWriteRaisesFlag` | pkg/httpsrv/portal_audit_replay.go:239-243 | an empty write at the cap raises the flag although nothing was lost |
| `Capture.CapResponseWriter.constructor` | pkg/httpsrv/portal_audit_replay.go:217-223 | nothing captured, status 200, no flag |
| `Capture.CapResponseWriter.WriteHeader` | pkg/httpsrv/portal_audit_replay.go:227-233 | over the whole history: first status, first max bytes, exact flag |
| `Capture.CapResponseWriter.Write` | pkg/httpsrv/portal_audit_replay.go:235-251 | over the whole history: first status, first max bytes, exact flag; reports the full length |
| `Capture.AuditRecorder.constructor` | pkg/httpmw/audit.go:147-149 | nothing captured, status 200, no flag, no bytes |
| `Capture.AuditRecorder.WriteHeader` | pkg/httpmw/audit.go:151-158 | the first status wins |
| `Capture.AuditRecorder.Write` | pkg/httpmw/audit.go:160-181 | over the whole history: first max bytes, flag exactly when more were written, total of the downstream counts |
| `Capture.CapWriter.constructor` | pkg/httpmw/audit.go:76-84 | nothing captured, no flag |
| `Capture.CapWriter.Write` | pkg/httpmw/audit.go:210-225 | over the whole history: first max bytes, exact flag; reports the full length |
| `Capture.TeeRead` | pkg/httpmw/audit.go:191-197 | mirrors every read and never writes an empty one |
| `Capture.CaptureRequest` | pkg/httpmw/audit.go:186-225 | reading a body in any chunks captures its first max bytes and flags exactly the longer bodies |
| `Capture.ReplayResponse` | pkg/httpsrv/portal_audit_replay.go:208-251 | a whole response: the first status or 200, the first max bytes, and when exactly the flag is raised |
| `Capture.AuditResponse` | pkg/httpmw/audit.go:135-181 | a whole response: the first status or 200, the first max bytes, flag exactly when bytes are missing, total length |
| `Capture.WritersAgree` | pkg/httpmw/audit.go:160-225 | over the same bytes, however cut, the three writers capture the same; request and response flags agree, and the replay flag agrees with them unless an empty write met a capture that was just full |
| `HttpHeaders.CanonicalFacts` | pkg/httpsrv/portal_audit_replay.go:183-187 | canonical header keys are fixed points and equal the original but for case |
| `HttpHeaders.CanonicalMeans` | pkg/httpsrv/portal_audit_replay.go:183-187 | a token key has capitals exactly at its start and after hyphens; other keys are left alone |
| `HttpHeaders.TokenCharMeans` | pkg/httpsrv/portal_audit_replay.go:183-187 | token characters are those of section 3.2.6 of RFC 7230 |
| `HttpHeaders.AddAll` | pkg/httpsrv/portal_audit_replay.go:183-185 | adding values one by one appends them to the canonical key; no values, no key |
| `HttpHeaders.RedactKeyMatches` | pkg/audit/event.go:176-187 | true exactly when some non-empty redact key occurs in the name at some position, ignoring case |
| `HttpHeaders.Sanitize` | pkg/audit/event.go:132-155 | redaction never removes or adds a header name |
| `HttpHeaders.SanitizeMeans` | pkg/audit/event.go:132-187 | exactly the names in which a non-empty redact key occurs at some position, ignoring case, have their values replaced by "[redacted]" |
| `HttpHeaders.SanitizeHeaders` | pkg/audit/event.go:132-155 | in any visiting order: matching names get the sentinel, all others keep their values |
| `Replay.CopyHeaders` | pkg/httpsrv/portal_audit_replay.go:168-186 | refuses exactly when some captured name is the marker in any case; otherwise copies all but credentials |
| `Replay.MarkerIsCanonical` | pkg/audit/event.go:20-24 | the marker is its own canonical form |
| `Replay.ReplayHeadersSpec` | pkg/httpsrv/portal_audit_replay.go:168-190 | a replayed request names its source, carries no credential header, keeps every other captured header, has no further ones, and takes its content type from the captured header, or from the recorded type if that is empty |
| `Replay.RecordIsMarked` | pkg/httpmw/audit.go:99-121 | with headers captured, an event with a replay link has the marker among its captured names, whatever is redacted |
| `Replay.RecordMeans` | pkg/httpmw/audit.go:61-121 | what is recorded of a request: method, path, the body seen, the first content type and replay marker, and headers and query redacted or not captured at all |
| `Replay.DispatchSource` | pkg/httpsrv/portal_audit_replay.go:75-187 | a dispatched replay comes from a stored event with that id, a captured payload and no marker |
| `Replay.DecideStored` | pkg/httpsrv/portal_audit_replay.go:76-190 | for a stored event the first failing check gives its refusal; otherwise the request repeats method, path, the query without API keys, and the body or its first 1048576 bytes |
| `Replay.DecideUnknown` | pkg/httpsrv/portal_audit_replay.go:76-98 | unparsable ids and ids of no stored event are refused, each with its own reason |
| `Replay.RunKeepsInv` | pkg/httpsrv/portal_audit_replay.go:168-187 | every run of client requests, Try-It calls, replays, stores and losses keeps all events marked and lineage one level deep |
| `Replay.Lineage` | pkg/httpsrv/portal_audit_replay.go:168-187 | with headers captured, in every run each stored replay is refused for replay and each replayed id names an event that is not a replay |
| `Replay.ReplayIsLinked` | pkg/httpmw/audit.go:110-114 | the event of a replay is linked to exactly the replayed id, redaction notwithstanding |
| `Replay.HeadersOffBreaksLineage` | pkg/httpmw/audit.go:116-120 | with headers not captured there is a run that replays a replay |
| `Replay.LineageIff` | pkg/httpsrv/portal_audit_replay.go:168-187 | lineage is one level deep in all runs if and only if headers are captured or nothing can be replayed |
| `Replay.TryItHeaders` | pkg/httpsrv/portal_tryit.go:166-174 | in any visiting order: under every name but the marker's the dispatched values are exactly those supplied under its spellings, banned spellings left out, and the marker is "true" |
| `Base64Url.DecodeEncode` | pkg/endpoints/pagination/pagination.go:323-332 | decoding undoes encoding for every byte string |
| `Base64Url.Encode` | pkg/httpsrv/session.go:106-110 | the encoded text contains no dot and no line break |
| `Base64Url.AlphabetMeans` | pkg/endpoints/pagination/pagination.go:323-332 | the symbols are A to Z, a to z, 0 to 9, minus and underscore, and nothing else is read |
| `Base64Url.EncodeThree` | pkg/endpoints/pagination/pagination.go:323-332 | three bytes are four symbols with the same 24 bits, most significant first, before the rest |
| `Base64Url.EncodeTwo` | pkg/endpoints/pagination/pagination.go:323-332 | two last bytes are three symbols, filled up with zero bits |
| `Base64Url.EncodeOne` | pkg/endpoints/pagination/pagination.go:323-332 | one last byte is two symbols, filled up with zero bits |
| `Base64Url.DecodesIff` | pkg/httpsrv/session.go:113-141 | a text is decoded if and only if, without its line breaks, it consists of symbols and leaves no single one over |
| `Base64Url.LineBreaksSkipped` | pkg/httpsrv/session.go:113-141 | carriage returns and line feeds are skipped wherever they stand, and nothing else |
| `Base64Url.TrailingBitsIgnored` | pkg/httpsrv/session.go:113-141 | unused bits of a last symbol are not looked at |
| `Session.OpenCookie` | pkg/httpsrv/session.go:101-141 | a sealed payload opens to itself |
| `Session.OpensIffSigned` | pkg/httpsrv/session.go:113-141 | a cookie opens if and only if it is a dot-free body, a dot, and a signature decoding to the MAC of that body, and the body decodes to the payload |
| `Session.RefusedBecause` | pkg/httpsrv/session.go:113-141 | a cookie is refused for its signature if and only if the signature decodes to something else than the MAC of the text before the first dot |
| `Session.CookieMeans` | pkg/httpsrv/session.go:101-111 | a cookie is the encoded payload, a dot, and the encoded MAC of the text before the dot |
| `Pagination.SliceItems` | pkg/endpoints/pagination/pagination.go:270-283 | the loop computes the clamped window, and no intermediate value reaches 11000 |
| `Pagination.BoundedDefault` | pkg/endpoints/pagination/pagination.go:365-377 | no text gives the default; a text is accepted as n if and only if it reads as n and n lies between 1 and the bound |
| `Pagination.LastPageHoldsLastItem` | pkg/endpoints/pagination/pagination.go:296-301 | the last page is the one that contains the last item |
| `Pagination.StartInRange` | pkg/endpoints/pagination/pagination.go:166-178 | any page up to the last starts inside the dataset, and has a successor exactly when items follow it |
| `Pagination.DecodeEncodeCursor` | pkg/endpoints/pagination/pagination.go:323-341 | cursors decode to their offset for every non-negative 64-bit integer |
| `Pagination.CursorMeans` | pkg/endpoints/pagination/pagination.go:323-341 | a cursor is the base64url form of the text of a number that is not negative |
| `Pagination.LinkServes` | pkg/endpoints/pagination/pagination.go:148-195 | every Link request, whatever its texts: refused exactly when a text cannot be read or the window starts after the data; otherwise the page there, and a next request exactly when items follow, asking for the window after |
| `Pagination.ODataServes` | pkg/endpoints/pagination/pagination.go:198-228 | every OData request, whatever its texts: refused exactly when a text cannot be read or the window starts after the data; otherwise the page there, and a next request exactly when items follow, asking for the window after |
| `Pagination.CursorServes` | pkg/endpoints/pagination/pagination.go:232-265 | every cursor request, whatever its texts: refused exactly when a text cannot be read or the window starts after the data; otherwise the page there, and a next request exactly when items follow, asking for the window after |
| `Pagination.StylesAgree` | pkg/endpoints/pagination/pagination.go:148-265 | for every request of any style and spelling, what following it collects depends only on the window asked for, and is complete after exactly as many replies as pages |
| `Pagination.WindowMeans` | pkg/endpoints/pagination/pagination.go:148-265 | what a request of each style asks for, told from its texts: defaults 100, 10 and the start, bounds 10000 and 1000, page, skip or cursor |
| `Pagination.ReferencesMean` | pkg/endpoints/pagination/pagination.go:180-228 | next references repeat size and total in plain decimal, and a Link reply names its page |
| `Pagination.PagesCoverDataset` | pkg/endpoints/pagination/pagination.go:267-283 | the pages from item start concatenated are items start to total-1, once each, and there are ceil((total-start)/size) of them |
| `Pagination.LinkServedIff` | pkg/endpoints/pagination/pagination.go:166-177 | a page is served if and only if it starts inside the dataset, for every page number |
| `Pagination.FirstAndLast` | pkg/endpoints/pagination/pagination.go:180-184 | from any page, first leads to item 0 with no prev, and last to the last item with no next |
| `Pagination.PrevUndoesNext` | pkg/endpoints/pagination/pagination.go:180-191 | from any page with a next, prev of the next page is the same page again |
| `Jwks.Authenticator.constructor` | pkg/auth/oidc.go:53-69 | construction stores a first fetch, expiring after ttl, or an hour if that is zero, and usable for five minutes more |
| `Jwks.Authenticator.RefreshJwks` | pkg/auth/oidc.go:221-271 | a successful refresh replaces the keys, expiring after ttl, or an hour if that is zero, and usable for five minutes more; a failed one changes nothing |
| `Jwks.Authenticator.PublicKey` | pkg/auth/oidc.go:149-180 | the answer and the new cache are those of the specification, hit, refreshed or stale |
| `Jwks.CacheIsLatestFetch` | pkg/auth/oidc.go:264-269 | in every run the cache is exactly the latest successful fetch with its deadlines |
| `Jwks.Freshness` | pkg/auth/oidc.go:149-180 | in every run a key answered at t is in the latest fetch f, with f <= t < f + ttl + 5 minutes |
| `Jwks.AnswerExactly` | pkg/auth/oidc.go:149-180 | in every run the answer is determined by the latest fetch: fresh keys, else what the refresh brings, else the old keys for five more minutes |
| `Jwks.RevokedKeyExpires` | pkg/auth/oidc.go:45-48 | a key absent from every fetch since r is not answered at or after r + ttl + 5 minutes |
| `Jwks.FreshnessIff` | pkg/auth/oidc.go:259-268 | the bound holds in all runs if and only if ttl + 5 minutes is positive |
| `JwksConcurrent.StepKeepsInv` | pkg/auth/oidc.go:149-180 | every atomic step keeps: the cache is the latest fetch, stamps are in order, every waiting lookup's snapshot is a past fetch, every answer is a key of a fetch |
| `JwksConcurrent.RunKeepsInv` | pkg/auth/oidc.go:149-180 | the same over every interleaving of any number of lookups sharing refreshes |
| `JwksConcurrent.AnswersGrow` | pkg/auth/oidc.go:149-180 | every step adds exactly the answers it gives |
| `JwksConcurrent.ConcurrentFreshness` | pkg/auth/oidc.go:149-180 | after every interleaving, a key that the next step answers at t is in a fetch f stored by then with f <= t < f + ttl + 5 minutes if and only if the step is in time: not a lookup that answers after a refresh when the cache's grace period is over |
| `JwksConcurrent.RevokedUnderConcurrency` | pkg/auth/oidc.go:45-48 | after every interleaving, the next step answers a key less than ttl + 5 minutes after the last fetch that contains it if and only if the step is in time |
| `JwksConcurrent.RunFreshIff` | pkg/auth/oidc.go:149-180 | all answers of a run are fresh when given if and only if all its steps are in time |
| `JwksConcurrent.PromptIsInTime` | pkg/auth/oidc.go:163-179 | concluding within ttl + 5 minutes of the refresh waited for is enough |
| `JwksConcurrent.LookupIsRun` | pkg/auth/oidc.go:149-180 | a lookup that nothing interrupts is one of the interleavings, with the answer and the cache of the sequential specification |
| `JwksConcurrent.HeldUpLookup` | pkg/auth/oidc.go:173-179 | a run whose lookup answers d after its refresh, fresh only if d < ttl + 5 minutes |
| `Nonce.NonceLedger.Consume` | pkg/httpsrv/browserauth.go:269-287 | evicts in any order, then accepts and records exactly the nonces not remembered |
| `Nonce.LedgerInvariant` | pkg/httpsrv/browserauth.go:277-286 | whatever the clock does, the ledger holds exactly the accepted calls that no later call has swept out |
| `Nonce.AcceptedIff` | pkg/httpsrv/browserauth.go:267-287 | whatever the clock does, a call is accepted if and only if its nonce is not empty and every call that accepted it has been swept out |
| `Nonce.SteadyClockAcceptedIff` | pkg/httpsrv/browserauth.go:267-287 | with a clock that does not go back, accepted if and only if the nonce is not empty and no call accepted it in the last ten minutes |
| `Nonce.AcceptancesApart` | pkg/httpsrv/browserauth.go:273-286 | with clock disorder of at most d, acceptances of one nonce are more than ten minutes less d apart |
| `Nonce.OutOfOrderReuse` | pkg/httpsrv/browserauth.go:273-286 | calls at minutes 0, 11 and 9 accept one nonce twice within nine minutes |
| `Nonce.NoStaleEntries` | pkg/httpsrv/browserauth.go:277-281 | after a call with a nonce no entry is older than ten minutes |
| `BigBody.RowBytes` | pkg/endpoints/export/export.go:164-171 | row i takes 37 bytes, its index digits, and a comma after the first |
| `BigBody.RowMeans` | pkg/endpoints/export/export.go:164-166 | a row is a JSON object naming the index in decimal and then the value |
| `BigBody.RowsLowerBound` | pkg/endpoints/export/export.go:153-160 | k rows take at least 40k - 10 bytes, which outruns the iteration cap |
| `BigBody.Stream` | pkg/endpoints/export/export.go:139-178 | the cap never ends the loop first; the body is the array of the fewest rows reaching the target, 1 to 44 bytes longer; a lost client gets no closing bracket |
| `Aggregations.SlotIffInterval` | pkg/httpsrv/portal_audit_aggregations.go:61-64 | an event is in bucket i exactly when it is in the window and in the i-th interval |
| `Aggregations.IndexInRange` | pkg/httpsrv/portal_audit_aggregations.go:64-67 | the index guard never fires, saturating subtraction included |
| `Aggregations.Conservation` | pkg/httpsrv/portal_audit_aggregations.go:60-73 | summing count, errors and durations over distinct classes accounts for each classified event once |
| `Aggregations.TallyOfCounts` | pkg/httpsrv/portal_audit_aggregations.go:68-72 | the aggregate of a label holds the number of its positions, the number of those that failed, and the sum of their durations |
| `Aggregations.WindowTallyMeans` | pkg/httpsrv/portal_audit_aggregations.go:60-73 | the same for the positions of a time window |
| `Aggregations.Timeseries` | pkg/httpsrv/portal_audit_aggregations.go:41-73 | refused exactly for more than 10000 buckets; otherwise bucket i holds count, failures and duration sum of exactly the events of its interval, and all buckets sum to the events in [from, to) |
| `Aggregations.TimeWindow` | pkg/httpsrv/portal_audit_aggregations.go:241-260 | the window is ordered; it is the two given ends, or the given start and now, or the hour before the end |
| `Aggregations.TimeseriesReply` | pkg/httpsrv/portal_audit_aggregations.go:31-74 | the same for the queried events of the resolved window and a width of 60 seconds, or the requested one up to 3600; the buckets count every match in [from, to) if and only if at most 1000 match or all lie on the end of the window |
| `Aggregations.SeesAllIff` | pkg/httpsrv/portal_audit_aggregations.go:237-260 | an aggregation sees every match if and only if at most 1000 match, and otherwise the newest 1000 |
| `Aggregations.GroupEvents` | pkg/httpsrv/portal_audit_aggregations.go:136-149 | one group per occurring key, holding the aggregate of exactly its events |
| `Aggregations.ListGroups` | pkg/httpsrv/portal_audit_aggregations.go:157-169 | every group listed once, in any visiting order |
| `Aggregations.GroupsConserve` | pkg/httpsrv/portal_audit_aggregations.go:136-149 | the groups before the cut sum to all events |
| `Aggregations.Breakdown` | pkg/httpsrv/portal_audit_aggregations.go:106-179 | kept groups come by descending count and ascending key, each with count, failures and duration sum of exactly the events with its key; a key is missing only when `top` groups were kept, and then ranks after all of them; the groups account for all events if and only if at most `top` keys occur |
| `Aggregations.DimensionMeans` | pkg/httpsrv/portal_audit_aggregations.go:276-316 | which field each dimension groups by, and what stands for an empty one |
| `Aggregations.BreakdownReply` | pkg/httpsrv/portal_audit_aggregations.go:106-185 | refused exactly for a dimension other than the five; otherwise the groups by the field that the dimension names, of the queried events, which account for every match of the window if and only if at most 1000 match and at most `top` values occur |
| `Aggregations.PercentileObserved` | pkg/httpsrv/portal_audit_aggregations.go:318-333 | a percentile is an observed duration, and more than (n-1)p durations are at most it |
| `Aggregations.PercentileMonotone` | pkg/httpsrv/portal_audit_aggregations.go:318-333 | percentiles are monotone in p |
| `Aggregations.AuditStats` | pkg/httpsrv/portal_audit_aggregations.go:190-225 | total and failures are the numbers of events and of failed events, and each percentile is the nearest-rank duration, told by counting instead of sorting |
| `Aggregations.NearestRankUnique` | pkg/httpsrv/portal_audit_aggregations.go:318-333 | that count determines the percentile |
| `Aggregations.StatsReply` | pkg/httpsrv/portal_audit_aggregations.go:190-225 | the statistics of the queried events, whose total is that of the window if and only if at most 1000 match |
| `OpenApi.Build` | pkg/oapi/build.go:34-54 | the nested loops compute the document of the flat route list |
| `OpenApi.BuildKeepsLast` | pkg/oapi/build.go:45-51 | the operation under a path and verb is the last route registered for them; unknown verbs have none |
| `OpenApi.DocumentFields` | pkg/oapi/build.go:199-216 | each of the seven fields of a path item is the last route registered for its verb |
| `OpenApi.LastRouteMeans` | pkg/oapi/build.go:45-51 | the last route is the one after which none is registered for the same path and verb |
| `OpenApi.DocumentHas` | pkg/oapi/build.go:199-216 | the document has an operation exactly for the routes with a known verb, shared paths included |
| `OpenApi.DocRouteSet` | pkg/oapi/selfcheck.go:49-57 | the loops collect exactly the document's route texts |
| `OpenApi.RegistryRouteSet` | pkg/oapi/selfcheck.go:59-65 | the loop collects exactly the registry's route texts |
| `OpenApi.ItemMethodsSpec` | pkg/oapi/selfcheck.go:67-91 | a verb is listed exactly when it has an operation |
| `OpenApi.SelfCheck` | pkg/oapi/selfcheck.go:19-47 | passes exactly when the route sets are equal, and otherwise lists both differences, sorted and complete |
| `OpenApi.SelfCheckIff` | pkg/oapi/selfcheck.go:19-65 | for a built document the check passes if and only if every route shares its text with one of known verb |
| `OpenApi.SelfCheckOfBuild` | pkg/oapi/selfcheck.go:11-18 | for methods without spaces the check passes if and only if every method upper-cases to one of the seven verbs |
| `OpenApi.PassingCheckMeansSameRoutes` | pkg/oapi/selfcheck.go:11-18 | a passing check means that document and registry have the same verb and path pairs |
| `OpenApi.SpaceFoolsCheck` | pkg/oapi/selfcheck.go:59-65 | a method with a space can pass the check although the document lacks the route |

## Left out

- Wall-clock waiting, tickers, flushing, heartbeat and comment lines, and the text of frames: only which frames are written, and in which order, is modelled.
- Inner write failures in the asynchronous writer: an event counts as handed over once the inner call returns, whatever it returns.
- Percentile: the index is computed in exact arithmetic, not in floating point; rounding of averages and rates is not modelled.
- Jwks.Authenticator.PublicKey: the class runs a lookup in one piece with its refresh; interleaved lookups are the step relation of `JwksConcurrent`, on values, of which `LookupIsRun` shows this to be a case.
- Jwks.Freshness: about lookups in one piece; `JwksConcurrent.ConcurrentFreshness` is the statement for interleaved ones. The parsing and filtering of key documents is not modelled.
- Replay: URL parsing and identity forwarding are not modelled; a dispatched request that never reaches the audit middleware is a recorded event that is lost.
- Case mapping is ASCII, the order of ids is byte-wise in both stores, and timestamps are not rounded to the database's microseconds.
- Link and next-link URLs are their query parameters as text; joining and splitting URLs is not modelled.
- SQL execution, connection pooling, migrations and the bcrypt key store: only the meaning of the built statement is modelled.
- JWT parsing, RSA, HMAC, SHA-256, JSON and YAML encoding, and schema reflection: parameters where a property needs them, otherwise absent.
- Request routing for audit rows, the inbound authentication chain, CSRF, CORS, SPA serving, health probes, configuration and server lifecycle: mostly settled branch by branch.
- The CSV and long-running exports, and the expiry test of sessions: each is one bounded loop or one comparison, with no property beyond its own body.

/** Replaying a captured request, and the lineage this leaves in the audit log
    over whole runs of client requests, Try-It dispatches and replays. */
module Replay {
  import opened Prelude
  import opened AuditStore
  import opened HttpHeaders
  import Ranking
  import Text

  const MARKER := "X-Plexara-Replay-From"
  const TRY_IT_MARKER := "X-Plexara-Try-It"
  const CONTENT_TYPE := "Content-Type"
  const REPLAY_MAX_BODY: nat := 0x10_0000

  datatype Request = Request(
    method_: string,
    path: string,
    headers: Headers,
    query: Headers,
    body: seq<int>)

  /** Deployment choices. `parseUuid` returns the canonical form of a UUID. */
  datatype Config = Config(
    targetWired: bool,
    persistsPayloads: bool,
    capturePayloads: bool,
    captureHeaders: bool,
    redactKeys: seq<string>,
    parseUuid: string -> Option<string>)

  datatype Refusal =
    | NoTarget | BadId | UnknownEvent | NotReplayable | NoPayloadStore | NoPayload | AlreadyReplay

  datatype Verdict = Dispatch(id: string, req: Request) | Refused(why: Refusal)

  predicate IsCredentialHeader(name: string)
  {
    Text.Lower(name) in {"authorization", "x-api-key", "cookie"}
  }

  predicate IsCredentialQuery(name: string)
  {
    Text.EqualFold(name, "api_key")
  }

  predicate IsMarker(name: string)
  {
    Text.EqualFold(name, MARKER)
  }

  // ---------------------------------------------------------------- the replayed request

  /** Captured headers without credentials and without valueless keys. */
  function Copied(captured: Headers): Headers
  {
    map k | k in captured && !IsCredentialHeader(k) && captured[k] != [] :: captured[k]
  }

  function ReplayHeaders(p: Payload, id: string): Headers
  {
    var h := Set(Copied(p.requestHeaders), MARKER, id);
    if p.requestContentType != "" && Get(h, CONTENT_TYPE) == "" then Set(h, CONTENT_TYPE, p.requestContentType) else h
  }

  function ReplayQuery(q: Headers): Headers
  {
    map k | k in q && !IsCredentialQuery(k) && q[k] != [] :: q[k]
  }

  function ReplayBody(b: seq<int>): seq<int>
  {
    if |b| > REPLAY_MAX_BODY then b[..REPLAY_MAX_BODY] else b
  }

  function ById(id: string): QueryFilter
  {
    QueryFilter(0, 0, "", "", "", "", "", id, 0, None, "", 1, 0)
  }

  /** The handler's decision, check by check. */
  function Decide(cfg: Config, store: seq<Event>, rawId: string): Verdict
  {
    if !cfg.targetWired then Refused(NoTarget) else
      match cfg.parseUuid(rawId)
      case None => Refused(BadId)
      case Some(id) =>
        var found := Query(store, ById(id));
        if found == [] then Refused(UnknownEvent)
        else if !("/v1/" <= found[0].path) then Refused(NotReplayable)
        else if !cfg.persistsPayloads then Refused(NoPayloadStore)
        else
          match PayloadOf(store, id)
          case None => Refused(NoPayload)
          case Some(p) =>
            if exists k | k in p.requestHeaders :: IsMarker(k) then Refused(AlreadyReplay)
            else
              Dispatch(id, Request(found[0].method_, found[0].path, ReplayHeaders(p, id),
                                   ReplayQuery(p.requestQuery), ReplayBody(p.requestBody)))
  }

  /** The header loop of the handler, in whatever order the map is visited. */
  method CopyHeaders(captured: Headers) returns (refused: bool, out: Headers)
    requires CanonicalKeys(captured)
    ensures refused <==> exists k | k in captured :: IsMarker(k)
    ensures !refused ==> out == Copied(captured)
  {
    hide Canonical, IsMarker, IsCredentialHeader;
    out := map[];
    var left := captured.Keys;
    while left != {}
      invariant left <= captured.Keys
      invariant forall k | k in captured && k !in left :: !IsMarker(k)
      invariant forall k :: k in out <==> k in captured && k !in left && !IsCredentialHeader(k) && captured[k] != []
      invariant forall k | k in out :: out[k] == captured[k]
      decreases |left|
    {
      var k :| k in left;
      left := left - {k};
      if IsMarker(k) {
        return true, out;
      }
      if IsCredentialHeader(k) {
        continue;
      }
      assert Canonical(k) == k && k !in out;
      out := AddAll(out, k, captured[k]);
      assert [] + captured[k] == captured[k];
    }
    refused := false;
    assert out == Copied(captured);
  }

  lemma MarkerIsCanonical()
    ensures Canonical(MARKER) == MARKER && IsMarker(MARKER)
  {
    hide Canonical;
    CanonicalLiteral(MARKER);
    Folds(MARKER);
  }

  lemma ContentTypeIsCanonical()
    ensures Canonical(CONTENT_TYPE) == CONTENT_TYPE
  {
    hide Canonical;
    CanonicalLiteral(CONTENT_TYPE);
  }

  lemma Folds(k: string)
    ensures Text.EqualFold(k, k)
  {}

  predicate RightCase(k: string, i: nat)
    requires i < |k|
  {
    IsTokenChar(k[i]) && k[i] == CaseChar(k[i], if i == 0 then true else k[i - 1] == '-')
  }

  /** Tokens whose letters already have the right case are canonical. */
  lemma CanonicalLiteral(k: string)
    requires forall i | 0 <= i < |k| :: RightCase(k, i)
    ensures Canonical(k) == k
  {
    hide Cased;
    forall i | 0 <= i < |k| ensures Cased(k, true)[i] == k[i] {
      CasedAt(k, true, i);
      assert RightCase(k, i);
    }
    assert forall i | 0 <= i < |k| :: RightCase(k, i);
    assert Cased(k, true) == k;
  }

  function ValuesOf(h: Headers, c: string): seq<string>
  {
    if c in h then h[c] else []
  }

  /** What the request is replayed with as its content type: the captured header
      if its first value is not empty, otherwise the recorded type if there is
      one, and otherwise whatever was captured. */
  function ContentTypeValues(p: Payload): seq<string>
  {
    var captured := ValuesOf(p.requestHeaders, "Content-Type");
    if (captured == [] || captured[0] == "") && p.requestContentType != "" then [p.requestContentType] else captured
  }

  /** The replayed request names its source, carries no credentials, keeps every
      other captured header, and has no further ones. */
  lemma ReplayHeadersSpec(p: Payload, id: string)
    requires CanonicalKeys(p.requestHeaders) && forall k | k in p.requestHeaders :: !IsMarker(k)
    ensures var h := ReplayHeaders(p, id);
            && CanonicalKeys(h) && ValuesOf(h, "X-Plexara-Replay-From") == [id]
            && (forall k | k in h :: Text.Lower(k) !in {"authorization", "x-api-key", "cookie"})
            && (forall k | k in p.requestHeaders && Text.Lower(k) !in {"authorization", "x-api-key", "cookie"}
                           && p.requestHeaders[k] != [] && k != "Content-Type" ::
                  k in h && h[k] == p.requestHeaders[k])
            && ValuesOf(h, "Content-Type") == ContentTypeValues(p)
            && (forall k | k in h ::
                  h[k] != [] && (k in p.requestHeaders || k == "X-Plexara-Replay-From" || k == "Content-Type"))
            && Get(h, MARKER) == id && forall k | k in h :: !IsCredentialHeader(k)
  {
    hide Canonical, Text.Lower, IsMarker;
    NotCredentials();
  }

  lemma NotCredentials()
    ensures Canonical(MARKER) == MARKER && IsMarker(MARKER) && Canonical(CONTENT_TYPE) == CONTENT_TYPE
    ensures !IsCredentialHeader(MARKER) && !IsCredentialHeader(CONTENT_TYPE)
  {
    hide Canonical;
    MarkerIsCanonical();
    ContentTypeIsCanonical();
    assert Text.Lower(MARKER)[2] == 'p' && Text.Lower(CONTENT_TYPE)[2] == 'n';
  }

  // ---------------------------------------------------------------- the audit middleware

  /** The event the middleware records for a request. `base` supplies what the
      lineage does not depend on (time, status, identity and so on), `seenBody`
      the captured body. */
  function Record(cfg: Config, req: Request, base: Event, seenBody: seq<int>): Event
  {
    var payload := if !cfg.capturePayloads then None else
      Some(Payload(
        if cfg.captureHeaders then Sanitize(req.headers, cfg.redactKeys) else map[],
        if cfg.captureHeaders then Sanitize(req.query, cfg.redactKeys) else map[],
        Get(req.headers, CONTENT_TYPE),
        seenBody,
        Get(req.headers, MARKER)));
    base.(id := "", method_ := req.method_, path := req.path, payload := payload)
  }

  /** What is recorded, told from the request: the body as it was seen, the first
      value of the content type and of the replay marker, and headers and query
      with sensitive values replaced, or not at all. */
  lemma RecordMeans(cfg: Config, req: Request, base: Event, seenBody: seq<int>)
    requires CanonicalKeys(req.headers)
    ensures var e := Record(cfg, req, base, seenBody);
            && e.id == "" && e.method_ == req.method_ && e.path == req.path
            && (e.payload.Some? <==> cfg.capturePayloads)
            && (e.payload.Some? ==>
                  var p, marker, kind := e.payload.value, ValuesOf(req.headers, "X-Plexara-Replay-From"),
                                         ValuesOf(req.headers, "Content-Type");
                  && p.requestBody == seenBody
                  && p.replayedFrom == (if marker == [] then "" else marker[0])
                  && p.requestContentType == (if kind == [] then "" else kind[0])
                  && (if cfg.captureHeaders then
                        && p.requestHeaders == Sanitize(req.headers, cfg.redactKeys)
                        && p.requestQuery == Sanitize(req.query, cfg.redactKeys)
                      else p.requestHeaders == map[] == p.requestQuery))
  {
    hide Canonical, Sanitize;
    MarkerIsCanonical();
    ContentTypeIsCanonical();
  }

  predicate IsReplay(e: Event)
  {
    e.payload.Some? && e.payload.value.replayedFrom != ""
  }

  /** An event that records a replay holds the marker among its headers. */
  ghost predicate Marked(e: Event)
  {
    && (e.payload.Some? ==> CanonicalKeys(e.payload.value.requestHeaders))
    && (IsReplay(e) ==> MARKER in e.payload.value.requestHeaders)
  }

  /** With headers captured, whatever the client sends and whatever is
      redacted, the recorded event is marked. */
  lemma RecordIsMarked(cfg: Config, req: Request, base: Event, seenBody: seq<int>)
    requires cfg.captureHeaders && CanonicalKeys(req.headers)
    ensures Marked(Record(cfg, req, base, seenBody))
  {
    hide Canonical, MatchesRedactKey;
    MarkerIsCanonical();
  }

  // ---------------------------------------------------------------- whole runs

  /** Recorded events wait in `pending` until the asynchronous writer stores
      or loses them. `replayed` holds the ids that were replayed. */
  datatype World = World(pending: seq<Event>, store: seq<Event>, replayed: set<string>)

  datatype Action =
    | Client(req: Request, base: Event, seenBody: seq<int>)
    | TryIt(req: Request, base: Event, seenBody: seq<int>)
    | ReplayCall(rawId: string, base: Event, seenBody: seq<int>)
    | Store(generatedId: string)
    | Lose

  ghost predicate HasId(store: seq<Event>, id: string)
  {
    exists i | 0 <= i < |store| :: store[i].id == id
  }

  ghost predicate Enabled(w: World, a: Action)
  {
    match a
    case Client(req, _, _) => CanonicalKeys(req.headers)
    case TryIt(req, _, _) => IsTryItHeaders(req.headers)
    case ReplayCall(_, _, _) => true
    case Store(id) => w.pending != [] && id != "" && !HasId(w.store, id)
    case Lose => w.pending != []
  }

  function Apply(cfg: Config, w: World, a: Action): World
    requires a.Store? || a.Lose? ==> w.pending != []
  {
    match a
    case Client(req, base, b) => w.(pending := w.pending + [Record(cfg, req, base, b)])
    case TryIt(req, base, b) => w.(pending := w.pending + [Record(cfg, req, base, b)])
    case ReplayCall(rawId, base, b) =>
      (match Decide(cfg, w.store, rawId)
       case Refused(_) => w
       case Dispatch(id, req) => w.(pending := w.pending + [Record(cfg, req, base, b)], replayed := w.replayed + {id}))
    case Store(id) => w.(pending := w.pending[1..], store := w.store + [w.pending[0].(id := id)])
    case Lose => w.(pending := w.pending[1..])
  }

  ghost predicate Possible(cfg: Config, w: World, run: seq<Action>)
    decreases |run|
  {
    |run| == 0 || (Enabled(w, run[0]) && Possible(cfg, Apply(cfg, w, run[0]), run[1..]))
  }

  ghost function Exec(cfg: Config, w: World, run: seq<Action>): World
    requires Possible(cfg, w, run)
    decreases |run|
  {
    if |run| == 0 then w else Exec(cfg, Apply(cfg, w, run[0]), run[1..])
  }

  const EMPTY := World([], [], {})

  /** Every replayed id names a stored event that is not itself a replay. */
  ghost predicate OneLevel(w: World)
  {
    forall id | id in w.replayed ::
      exists i | 0 <= i < |w.store| :: w.store[i].id == id && w.store[i].payload.Some? && !IsReplay(w.store[i])
  }

  ghost predicate Inv(w: World)
  {
    && (forall e | e in w.pending :: Marked(e))
    && (forall e | e in w.store :: Marked(e))
    && UniqueIds(w.store)
    && OneLevel(w)
  }

  // ---------------------------------------------------------------- Try-It

  predicate IsBannedTryIt(name: string)
  {
    Text.Lower(name) in {"cookie", "authorization", "set-cookie"}
  }

  /** What a Try-It dispatch puts on the wire. */
  predicate IsTryItHeaders(h: Headers)
  {
    && CanonicalKeys(h) && (forall k | k in h :: !IsBannedTryIt(k))
    && Canonical(TRY_IT_MARKER) in h && h[Canonical(TRY_IT_MARKER)] == ["true"]
  }

  /** The values supplied under any spelling of a name, in visiting order. */
  function Gathered(supplied: Headers, order: seq<string>, c: string): seq<string>
    requires forall k | k in order :: k in supplied
  {
    if order == [] then []
    else
      var n := |order| - 1;
      Gathered(supplied, order[..n], c) + if Canonical(order[n]) == c then supplied[order[n]] else []
  }

  lemma GatheredSnoc(supplied: Headers, order: seq<string>, k: string, c: string)
    requires forall j | j in order + [k] :: j in supplied
    ensures (forall j | j in order :: j in order + [k])
            && Gathered(supplied, order + [k], c)
               == Gathered(supplied, order, c) + if Canonical(k) == c then supplied[k] else []
  {
    assert (order + [k])[..|order|] == order;
  }

  /** What one visit adds, for every name. */
  lemma VisitAdds(supplied: Headers, order: seq<string>, k: string, before: Headers, after: Headers)
    requires k in supplied && forall j | j in order :: j in supplied
    requires forall c :: ValuesOf(before, c) == Gathered(supplied, order, c)
    requires after == if supplied[k] == [] then before
                      else before[Canonical(k) := ValuesOf(before, Canonical(k)) + supplied[k]]
    ensures forall c :: ValuesOf(after, c) == Gathered(supplied, order + [k], c)
  {
    hide Canonical, Gathered;
    forall c ensures ValuesOf(after, c) == Gathered(supplied, order + [k], c) {
      GatheredSnoc(supplied, order, k, c);
    }
  }

  lemma TryItMarkerIsCanonical()
    ensures Canonical(TRY_IT_MARKER) == TRY_IT_MARKER && !IsBannedTryIt(TRY_IT_MARKER)
  {
    hide Canonical;
    CanonicalLiteral(TRY_IT_MARKER);
    assert Text.Lower(TRY_IT_MARKER)[0] == 'x';
  }

  lemma StaysAllowed(k: string)
    ensures Canonical(Canonical(k)) == Canonical(k) && (IsBannedTryIt(Canonical(k)) <==> IsBannedTryIt(k))
  {
    hide Canonical;
    CanonicalFacts(k);
  }

  /** The operator's headers, added in any order: under every name but the
      marker's the dispatched values are exactly those supplied under its
      spellings, each banned spelling left out. */
  method TryItHeaders(supplied: Headers) returns (h: Headers, ghost order: seq<string>)
    ensures IsTryItHeaders(h)
    ensures Ranking.Distinct(order)
    ensures forall k :: k in order <==> k in supplied && Text.Lower(k) !in {"cookie", "authorization", "set-cookie"}
    ensures ValuesOf(h, "X-Plexara-Try-It") == ["true"]
    ensures forall c | c != "X-Plexara-Try-It" :: ValuesOf(h, c) == Gathered(supplied, order, c)
    ensures forall c | c in h :: h[c] != [] && Canonical(c) == c
  {
    hide Canonical, Gathered, Text.Lower;
    TryItMarkerIsCanonical();
    h, order := map[], [];
    assert forall c :: Gathered(supplied, [], c) == [] by { NothingGathered(supplied); }
    var left := supplied.Keys;
    while left != {}
      invariant left <= supplied.Keys && CanonicalKeys(h) && forall k | k in h :: !IsBannedTryIt(k)
      invariant Ranking.Distinct(order)
      invariant forall k :: k in order <==> k in supplied && k !in left && !IsBannedTryIt(k)
      invariant forall c :: ValuesOf(h, c) == Gathered(supplied, order, c)
      invariant forall c | c in h :: h[c] != []
      decreases |left|
    {
      var k :| k in left;
      left := left - {k};
      if IsBannedTryIt(k) {
        continue;
      }
      StaysAllowed(k);
      ghost var before := h;
      h := AddAll(h, k, supplied[k]);
      VisitAdds(supplied, order, k, before, h);
      order := order + [k];
    }
    h := Set(h, TRY_IT_MARKER, "true");
  }

  lemma NothingGathered(supplied: Headers)
    ensures forall c :: Gathered(supplied, [], c) == []
  {}

  // ---------------------------------------------------------------- lineage

  lemma {:induction false} PayloadFound(store: seq<Event>, id: string) returns (i: nat)
    requires PayloadOf(store, id).Some?
    ensures i < |store| && store[i].id == id && store[i].payload == PayloadOf(store, id)
  {
    if store[0].id == id {
      i := 0;
    } else {
      var j := PayloadFound(store[1..], id);
      i := j + 1;
    }
  }

  lemma {:induction false} PayloadAt(store: seq<Event>, i: nat)
    requires i < |store| && UniqueIds(store)
    ensures PayloadOf(store, store[i].id) == store[i].payload
  {
    if i > 0 {
      assert store[0].id != store[i].id;
      PayloadAt(store[1..], i - 1);
    }
  }

  /** A dispatched replay comes from a stored, captured event without a marker. */
  lemma DispatchSource(cfg: Config, store: seq<Event>, rawId: string) returns (i: nat)
    ensures Decide(cfg, store, rawId).Dispatch? ==>
              var Dispatch(id, req) := Decide(cfg, store, rawId);
              && i < |store| && store[i].id == id && cfg.parseUuid(rawId) == Some(id)
              && store[i].payload.Some?
              && (forall k | k in store[i].payload.value.requestHeaders :: !IsMarker(k))
              && req.headers == ReplayHeaders(store[i].payload.value, id)
  {
    hide Query, ReplayHeaders, ReplayQuery, ReplayBody, IsMarker;
    i := 0;
    if Decide(cfg, store, rawId).Dispatch? { i := PayloadFound(store, cfg.parseUuid(rawId).value); }
  }

  lemma FoundById(store: seq<Event>, i: nat)
    requires UniqueIds(store) && i < |store| && store[i].id != ""
    ensures Query(store, ById(store[i].id)) == [store[i]]
  {
    hide MatchList, Before;
    var f := ById(store[i].id);
    forall e ensures e in [store[i]] <==> e in store && MatchesFilter(e, f) {}
    MatchListUnique(store, f, [store[i]]);
  }

  lemma NotFoundById(store: seq<Event>, id: string)
    requires UniqueIds(store) && id != "" && forall i | 0 <= i < |store| :: store[i].id != id
    ensures Query(store, ById(id)) == []
  {
    hide MatchList, Before;
    var f := ById(id);
    forall e ensures e in [] <==> e in store && MatchesFilter(e, f) {}
    MatchListUnique(store, f, []);
  }

  /** The i-th stored event can be replayed. */
  ghost predicate Replayable(cfg: Config, store: seq<Event>, i: nat)
    requires i < |store|
  {
    && cfg.targetWired && cfg.persistsPayloads && "/v1/" <= store[i].path && store[i].payload.Some?
    && forall k | k in store[i].payload.value.requestHeaders :: !IsMarker(k)
  }

  /** Some captured header is the replay marker, in any case. */
  ghost predicate HasMarker(p: Payload)
  {
    exists k :: k in p.requestHeaders && Text.Lower(k) == "x-plexara-replay-from"
  }

  lemma MarkerMeans(p: Payload)
    ensures (exists k | k in p.requestHeaders :: IsMarker(k)) <==> HasMarker(p)
  {
    assert Text.Lower(MARKER) == "x-plexara-replay-from";
  }

  /** The query of a replayed request is the captured one, without API keys and
      without parameters that have no value. */
  ghost predicate SameQuery(captured: Headers, query: Headers)
  {
    && (forall k :: k in query <==> k in captured && captured[k] != [] && Text.Lower(k) != "api_key")
    && forall k | k in query :: query[k] == captured[k]
  }

  /** What the handler decides for the id of a stored event: the first check that
      fails refuses it, and otherwise the request is issued again with the same
      method, path and query and the first MiB of the body. */
  lemma DecideStored(cfg: Config, store: seq<Event>, rawId: string, i: nat)
    requires UniqueIds(store) && i < |store| && store[i].id != "" && cfg.parseUuid(rawId) == Some(store[i].id)
    ensures Decide(cfg, store, rawId).Dispatch? <==> Replayable(cfg, store, i)
    ensures var e, d := store[i], Decide(cfg, store, rawId);
            if !cfg.targetWired then d == Refused(NoTarget)
            else if !("/v1/" <= e.path) then d == Refused(NotReplayable)
            else if !cfg.persistsPayloads then d == Refused(NoPayloadStore)
            else if e.payload.None? then d == Refused(NoPayload)
            else if HasMarker(e.payload.value) then d == Refused(AlreadyReplay)
            else
              var p := e.payload.value;
              && d.Dispatch? && d.id == e.id && d.req.method_ == e.method_ && d.req.path == e.path
              && d.req.headers == ReplayHeaders(p, e.id) && SameQuery(p.requestQuery, d.req.query)
              && d.req.body == (if |p.requestBody| <= 0x10_0000 then p.requestBody else p.requestBody[..0x10_0000])
  {
    hide Query, ReplayHeaders, IsMarker, HasMarker, IsCredentialQuery;
    FoundById(store, i);
    PayloadAt(store, i);
    if store[i].payload.Some? {
      MarkerMeans(store[i].payload.value);
      forall k ensures IsCredentialQuery(k) <==> Text.Lower(k) == "api_key" { ApiKeyMeans(k); }
    }
  }

  lemma ApiKeyMeans(k: string)
    ensures IsCredentialQuery(k) <==> Text.Lower(k) == "api_key"
  {
    assert Text.Lower("api_key") == "api_key";
  }

  /** Ids that name no stored event are refused. */
  lemma DecideUnknown(cfg: Config, store: seq<Event>, rawId: string)
    requires UniqueIds(store) && cfg.parseUuid(rawId) != Some("")
    requires cfg.parseUuid(rawId).Some? ==> forall i | 0 <= i < |store| :: store[i].id != cfg.parseUuid(rawId).value
    ensures Decide(cfg, store, rawId)
            == Refused(if !cfg.targetWired then NoTarget else if cfg.parseUuid(rawId).None? then BadId else UnknownEvent)
  {
    hide Query;
    if cfg.parseUuid(rawId).Some? { NotFoundById(store, cfg.parseUuid(rawId).value); }
  }

  lemma OneLevelKept(w: World, w': World)
    requires OneLevel(w) && w.store <= w'.store && w'.replayed == w.replayed
    ensures OneLevel(w')
  {
    forall id | id in w'.replayed
      ensures exists i | 0 <= i < |w'.store| ::
                w'.store[i].id == id && w'.store[i].payload.Some? && !IsReplay(w'.store[i])
    {
      var i :| 0 <= i < |w.store| && w.store[i].id == id && w.store[i].payload.Some? && !IsReplay(w.store[i]);
      assert w'.store[i] == w.store[i];
    }
  }

  lemma ReplayKeepsInv(cfg: Config, w: World, a: Action)
    requires cfg.captureHeaders && Inv(w) && a.ReplayCall?
    ensures Inv(Apply(cfg, w, a))
  {
    hide Decide, Record, Canonical, UniqueIds;
    if Decide(cfg, w.store, a.rawId).Dispatch? {
      var Dispatch(id, req) := Decide(cfg, w.store, a.rawId);
      var i := DispatchSource(cfg, w.store, a.rawId);
      var source := w.store[i];
      assert source in w.store && Marked(source);
      MarkerIsCanonical();
      assert !IsReplay(source);
      ReplayHeadersSpec(source.payload.value, id);
      RecordIsMarked(cfg, req, a.base, a.seenBody);
    }
  }

  lemma StoreKeepsInv(cfg: Config, w: World, a: Action)
    requires Inv(w) && Enabled(w, a) && a.Store?
    ensures Inv(Apply(cfg, w, a))
  {
    hide Canonical, OneLevel;
    var w' := Apply(cfg, w, a);
    var e := w.pending[0];
    assert e in w.pending && Marked(e);
    assert Marked(e.(id := a.generatedId));
    forall i | 0 <= i < |w.store| ensures w.store[i].id != a.generatedId {}
    OneLevelKept(w, w');
  }

  lemma StepKeepsInv(cfg: Config, w: World, a: Action)
    requires cfg.captureHeaders && Inv(w) && Enabled(w, a)
    ensures Inv(Apply(cfg, w, a))
  {
    hide Decide, Record, Canonical, UniqueIds, Marked, OneLevel;
    match a
    case Client(req, base, b) =>
      RecordIsMarked(cfg, req, base, b);
      OneLevelKept(w, Apply(cfg, w, a));
    case TryIt(req, base, b) =>
      RecordIsMarked(cfg, req, base, b);
      OneLevelKept(w, Apply(cfg, w, a));
    case ReplayCall(_, _, _) => ReplayKeepsInv(cfg, w, a);
    case Store(_) => StoreKeepsInv(cfg, w, a);
    case Lose => OneLevelKept(w, Apply(cfg, w, a));
  }

  lemma {:induction false} RunKeepsInv(cfg: Config, w: World, run: seq<Action>)
    requires cfg.captureHeaders && Inv(w) && Possible(cfg, w, run)
    ensures Inv(Exec(cfg, w, run))
    decreases |run|
  {
    hide Inv, Apply;
    if |run| > 0 {
      StepKeepsInv(cfg, w, run[0]);
      RunKeepsInv(cfg, Apply(cfg, w, run[0]), run[1..]);
    }
  }

  /** Replay lineage: with headers captured, in every run every stored replay
      is refused for replay, under any spelling of its id, and every id that
      was replayed names an event that is not itself a replay. */
  lemma Lineage(cfg: Config, run: seq<Action>, rawId: string, i: nat)
    requires cfg.captureHeaders && Possible(cfg, EMPTY, run)
    ensures var w := Exec(cfg, EMPTY, run);
            && OneLevel(w)
            && (i < |w.store| && IsReplay(w.store[i]) && cfg.parseUuid(rawId) == Some(w.store[i].id) ==>
                  Decide(cfg, w.store, rawId).Refused?)
  {
    hide Canonical;
    RunKeepsInv(cfg, EMPTY, run);
    var w := Exec(cfg, EMPTY, run);
    if i < |w.store| && IsReplay(w.store[i]) && cfg.parseUuid(rawId) == Some(w.store[i].id) {
      PayloadAt(w.store, i);
      assert w.store[i] in w.store && Marked(w.store[i]);
      MarkerIsCanonical();
      assert IsMarker(MARKER);
    }
  }

  /** The event recorded for a replay is linked to exactly the replayed id. */
  lemma ReplayIsLinked(cfg: Config, store: seq<Event>, rawId: string, base: Event, seenBody: seq<int>)
    requires cfg.capturePayloads && forall e | e in store :: Marked(e)
    ensures Decide(cfg, store, rawId).Dispatch? ==>
              var Dispatch(id, req) := Decide(cfg, store, rawId);
              var e := Record(cfg, req, base, seenBody);
              e.payload.Some? && e.payload.value.replayedFrom == id
  {
    hide Decide, Canonical, Sanitize;
    var i := DispatchSource(cfg, store, rawId);
    if Decide(cfg, store, rawId).Dispatch? {
      assert store[i] in store;
      ReplayHeadersSpec(store[i].payload.value, Decide(cfg, store, rawId).id);
    }
  }

  // ---------------------------------------------------------------- exactly when lineage holds

  /** Nothing can be replayed at all. */
  predicate ReplayOff(cfg: Config)
  {
    !cfg.targetWired || !cfg.persistsPayloads || !cfg.capturePayloads
  }

  ghost predicate Untouched(cfg: Config, w: World)
  {
    && w.replayed == {}
    && (!cfg.capturePayloads ==>
          (forall e | e in w.pending :: e.payload.None?) && (forall e | e in w.store :: e.payload.None?))
  }

  lemma {:induction false} NoPayloads(store: seq<Event>, id: string)
    requires forall e | e in store :: e.payload.None?
    ensures PayloadOf(store, id).None?
  {
    if store != [] {
      assert store[0] in store && forall e | e in store[1..] :: e in store;
      NoPayloads(store[1..], id);
    }
  }

  lemma OffKeepsUntouched(cfg: Config, w: World, a: Action)
    requires ReplayOff(cfg) && Untouched(cfg, w) && Enabled(w, a)
    ensures Untouched(cfg, Apply(cfg, w, a))
  {
    hide Canonical, Sanitize, Query, ReplayHeaders, IsMarker, Get;
    if a.ReplayCall? {
      if !cfg.capturePayloads && cfg.parseUuid(a.rawId).Some? {
        NoPayloads(w.store, cfg.parseUuid(a.rawId).value);
      }
    } else if a.Store? {
      assert w.pending[0] in w.pending;
    }
  }

  lemma {:induction false} OffStaysUntouched(cfg: Config, w: World, run: seq<Action>)
    requires ReplayOff(cfg) && Untouched(cfg, w) && Possible(cfg, w, run)
    ensures Untouched(cfg, Exec(cfg, w, run))
    decreases |run|
  {
    hide Untouched, Apply;
    if |run| > 0 {
      OffKeepsUntouched(cfg, w, run[0]);
      OffStaysUntouched(cfg, Apply(cfg, w, run[0]), run[1..]);
    }
  }

  const PROBE := Event("", 1, 0, "", "", "", "", "", "GET", "/v1/echo", "", "", 200, true, "", None)

  function ProbeRequest(): Request
  {
    Request("GET", "/v1/echo", map[], map[], [])
  }

  /** The event recorded with headers off, once stored under an id. */
  function Bare(id: string, from: string): Event
  {
    PROBE.(id := id, payload := Some(Payload(map[], map[], "", [], from)))
  }

  lemma BareFound(store: seq<Event>, i: nat, id: string, from: string)
    requires UniqueIds(store) && i < |store| && store[i] == Bare(id, from) && id != ""
    ensures Query(store, ById(id)) == [Bare(id, from)]
    ensures PayloadOf(store, id) == Some(Payload(map[], map[], "", [], from))
  {
    hide Query;
    FoundById(store, i);
    PayloadAt(store, i);
  }

  /** Replaying a bare event succeeds, and records another bare event. */
  lemma BareReplayed(cfg: Config, w: World, i: nat, id: string, from: string)
    requires !cfg.captureHeaders && !ReplayOff(cfg) && cfg.parseUuid(id) == Some(id) && id != ""
    requires UniqueIds(w.store) && i < |w.store| && w.store[i] == Bare(id, from)
    ensures var w' := Apply(cfg, w, ReplayCall(id, PROBE, []));
            w' == w.(pending := w.pending + [Bare("", id)], replayed := w.replayed + {id})
  {
    hide MatchList, Canonical, Query;
    BareFound(w.store, i, id, from);
    MarkerIsCanonical();
    var p := Payload(map[], map[], "", [], from);
    assert Copied(map[]) == map[];
    assert ReplayHeaders(p, id) == map[MARKER := [id]];
    assert Get(map[MARKER := [id]], CONTENT_TYPE) == "" by {
      ContentTypeIsCanonical();
      assert MARKER[0] != CONTENT_TYPE[0];
    }
    assert ReplayQuery(map[]) == map[];
  }

  lemma BareRecorded(cfg: Config)
    requires !cfg.captureHeaders && cfg.capturePayloads
    ensures Record(cfg, ProbeRequest(), PROBE, []) == Bare("", "")
  {}

  lemma NewIds(a: string, b: string)
    requires a != b
    ensures !HasId([], a) && !HasId([Bare(a, "")], b) && UniqueIds([Bare(a, "")])
  {}

  lemma StoreBare(cfg: Config, w: World, id: string, from: string, rest: seq<Event>)
    requires w.pending == [Bare("", from)] + rest
    ensures Apply(cfg, w, Store(id)) == World(rest, w.store + [Bare(id, from)], w.replayed)
  {}

  /** Without captured headers a replay is replayed again. */
  lemma HeadersOffBreaksLineage(cfg: Config, a: string, b: string) returns (run: seq<Action>)
    requires !cfg.captureHeaders && !ReplayOff(cfg)
    requires a != b && a != "" && b != "" && cfg.parseUuid(a) == Some(a) && cfg.parseUuid(b) == Some(b)
    ensures Possible(cfg, EMPTY, run) && !OneLevel(Exec(cfg, EMPTY, run))
  {
    hide Decide, Canonical, Query, OneLevel, Record, HasId;
    var a1, a2 := Client(ProbeRequest(), PROBE, []), Store(a);
    var a3, a4, a5 := ReplayCall(a, PROBE, []), Store(b), ReplayCall(b, PROBE, []);
    var w1 := World([Bare("", "")], [], {});
    var w2 := World([], [Bare(a, "")], {});
    var w3 := World([Bare("", a)], [Bare(a, "")], {a});
    var w4 := World([], [Bare(a, ""), Bare(b, a)], {a});
    var w5 := Apply(cfg, w4, a5);
    BareRecorded(cfg);
    NewIds(a, b);
    assert Apply(cfg, EMPTY, a1) == w1;
    StoreBare(cfg, w1, a, "", []);
    BareReplayed(cfg, w2, 0, a, "");
    assert Apply(cfg, w2, a3) == w3;
    StoreBare(cfg, w3, b, a, []);
    BareReplayed(cfg, w4, 1, b, a);
    NotOneLevel(w5, a, b);
    run := FiveSteps(cfg, EMPTY, w1, w2, w3, w4, w5, a1, a2, a3, a4, a5);
  }

  lemma FiveSteps(cfg: Config, w0: World, w1: World, w2: World, w3: World, w4: World, w5: World,
                  a1: Action, a2: Action, a3: Action, a4: Action, a5: Action) returns (run: seq<Action>)
    requires Enabled(w0, a1) && Apply(cfg, w0, a1) == w1 && Enabled(w1, a2) && Apply(cfg, w1, a2) == w2
    requires Enabled(w2, a3) && Apply(cfg, w2, a3) == w3 && Enabled(w3, a4) && Apply(cfg, w3, a4) == w4
    requires Enabled(w4, a5) && Apply(cfg, w4, a5) == w5
    ensures Possible(cfg, w0, run) && Exec(cfg, w0, run) == w5
  {
    hide Apply;
    run := [a1] + ([a2] + ([a3] + ([a4] + ([a5] + []))));
    FirstStep(cfg, w4, a5, []);
    FirstStep(cfg, w3, a4, [a5] + []);
    FirstStep(cfg, w2, a3, [a4] + ([a5] + []));
    FirstStep(cfg, w1, a2, [a3] + ([a4] + ([a5] + [])));
    FirstStep(cfg, w0, a1, [a2] + ([a3] + ([a4] + ([a5] + []))));
  }

  lemma NotOneLevel(w: World, a: string, b: string)
    requires w.store == [Bare(a, ""), Bare(b, a)] && b in w.replayed && a != b && a != ""
    ensures !OneLevel(w)
  {}

  lemma FirstStep(cfg: Config, w: World, a: Action, rest: seq<Action>)
    requires Enabled(w, a) && Possible(cfg, Apply(cfg, w, a), rest)
    ensures Possible(cfg, w, [a] + rest) && Exec(cfg, w, [a] + rest) == Exec(cfg, Apply(cfg, w, a), rest)
  {
    hide Apply;
    assert ([a] + rest)[1..] == rest;
  }

  /** Chains of replays are impossible in every run exactly when headers are
      captured or nothing can be replayed at all. */
  lemma LineageIff(cfg: Config, a: string, b: string)
    requires a != b && a != "" && b != "" && cfg.parseUuid(a) == Some(a) && cfg.parseUuid(b) == Some(b)
    ensures (forall run | Possible(cfg, EMPTY, run) :: OneLevel(Exec(cfg, EMPTY, run)))
            <==> cfg.captureHeaders || ReplayOff(cfg)
  {
    hide Possible, Exec, Decide, Canonical;
    if cfg.captureHeaders {
      forall run | Possible(cfg, EMPTY, run) ensures OneLevel(Exec(cfg, EMPTY, run)) {
        RunKeepsInv(cfg, EMPTY, run);
      }
    } else if ReplayOff(cfg) {
      forall run | Possible(cfg, EMPTY, run) ensures OneLevel(Exec(cfg, EMPTY, run)) {
        OffStaysUntouched(cfg, EMPTY, run);
      }
    } else {
      var run := HeadersOffBreaksLineage(cfg, a, b);
    }
  }
}

/** The Postgres query builder: which statement it builds, what that statement
    means, and when that is what `MemoryLogger` answers. */
module AuditSql {
  import opened Prelude
  import opened AuditStore
  import Decimal
  import Ranking
  import Text

  // ---------------------------------------------------------------- pattern matching

  /** SQL `LIKE` with its default escape character, the backslash. */
  predicate Like(p: string, t: string)
    decreases |p| + |t|
  {
    if p == [] then t == []
    else if p[0] == '%' then Like(p[1..], t) || (t != [] && Like(p, t[1..]))
    else if p[0] == '_' then t != [] && Like(p[1..], t[1..])
    else if p[0] == '\\' then |p| >= 2 && t != [] && t[0] == p[1] && Like(p[2..], t[1..])
    else t != [] && t[0] == p[0] && Like(p[1..], t[1..])
  }

  predicate ILike(p: string, t: string)
  {
    Like(Text.Lower(p), Text.Lower(t))
  }

  predicate IsMeta(c: char)
  {
    c == '%' || c == '_' || c == '\\'
  }

  /** No LIKE metacharacters. */
  predicate Plain(q: string)
  {
    forall c | c in q :: !IsMeta(c)
  }

  lemma {:induction false} AnyMatches(t: string)
    ensures Like("%", t)
  {
    if t != [] { AnyMatches(t[1..]); } else { assert "%"[1..] == []; }
  }

  lemma {:induction false} LikePrefix(q: string, t: string)
    requires Plain(q)
    ensures Like(q + "%", t) <==> q <= t
  {
    if q == [] {
      assert q + "%" == "%";
      AnyMatches(t);
    } else {
      assert q[0] in q;
      assert (q + "%")[1..] == q[1..] + "%";
      assert q == [q[0]] + q[1..];
      if t != [] {
        assert t == [t[0]] + t[1..];
        LikePrefix(q[1..], t[1..]);
      }
    }
  }

  /** LIKE with a plain text between two `%` is substring search. */
  lemma {:induction false} LikeIsContains(q: string, t: string)
    requires Plain(q)
    ensures Like("%" + q + "%", t) <==> Text.Contains(t, q)
  {
    assert ("%" + q + "%")[1..] == q + "%";
    LikePrefix(q, t);
    if t != [] { LikeIsContains(q, t[1..]); }
  }

  /** A text that the pattern %q% accepts and that, when q has a
      metacharacter, does not contain q. */
  function Decoy(q: string): (r: string)
    ensures |r| <= |q|
  {
    if q == [] then []
    else if q[0] == '%' then Decoy(q[1..])
    else if q[0] == '_' then "x" + Decoy(q[1..])
    else if q[0] == '\\' then if |q| == 1 then "%" else [q[1]] + Decoy(q[2..])
    else [q[0]] + Decoy(q[1..])
  }

  lemma {:induction false} DecoyAccepted(q: string)
    ensures Like(q + "%", Decoy(q))
  {
    var p := q + "%";
    if q == [] {
      AnyMatches([]);
      assert p == "%";
    } else if q == "\\" {
      assert p[2..] == [] && Decoy(q)[1..] == [];
    } else if q[0] == '\\' {
      DecoyAccepted(q[2..]);
      assert p[2..] == q[2..] + "%";
      assert Decoy(q)[1..] == Decoy(q[2..]);
    } else {
      DecoyAccepted(q[1..]);
      assert p[1..] == q[1..] + "%";
      assert q[0] != '%' ==> Decoy(q)[1..] == Decoy(q[1..]);
    }
  }

  lemma {:induction false} DecoyDiffers(q: string)
    requires !Plain(q)
    ensures Decoy(q) != q
  {
    if IsMeta(q[0]) {
    } else {
      assert q == [q[0]] + q[1..];
      assert !Plain(q[1..]) by { var c :| c in q && IsMeta(c); assert c in q[1..]; }
      DecoyDiffers(q[1..]);
      assert Decoy(q)[1..] == Decoy(q[1..]);
    }
  }

  lemma {:induction false} LongerNotContained(t: string, q: string)
    requires |t| <= |q| && t != q
    ensures !Text.Contains(t, q)
  {
    if t != [] { LongerNotContained(t[1..], q); }
  }

  lemma {:induction false} DecoyIsLower(q: string)
    requires Text.Lower(q) == q
    ensures Text.Lower(Decoy(q)) == Decoy(q)
  {
    var d := Decoy(q);
    if q != [] && q != "\\" {
      var rest := if q[0] == '\\' then q[2..] else q[1..];
      assert forall i | 0 <= i < |rest| :: rest[i] == q[i + |q| - |rest|];
      assert Text.Lower(rest) == rest;
      DecoyIsLower(rest);
      var r := Decoy(rest);
      assert forall i | 0 <= i < |r| :: Text.LowerChar(r[i]) == r[i] by {
        assert forall i | 0 <= i < |r| :: Text.Lower(r)[i] == Text.LowerChar(r[i]);
      }
      assert d == r || d == [d[0]] + r;
      assert Text.LowerChar(q[0]) == Text.Lower(q)[0];
      assert |q| > 1 ==> Text.LowerChar(q[1]) == Text.Lower(q)[1];
    }
  }

  // ---------------------------------------------------------------- the search clause

  function Pattern(q: string): string
  {
    "%" + q + "%"
  }

  predicate SqlSearchHits(ev: Event, q: string)
  {
    ILike(Pattern(q), ev.path) || ILike(Pattern(q), ev.errorMessage)
  }

  lemma LowerPattern(q: string)
    ensures Text.Lower(Pattern(q)) == Pattern(Text.Lower(q))
    ensures Plain(Text.Lower(q)) <==> Plain(q)
  {
    var l := Text.Lower(q);
    assert forall i | 0 <= i < |q| :: IsMeta(l[i]) <==> IsMeta(q[i]);
    if !Plain(q) {
      var i :| 0 <= i < |q| && IsMeta(q[i]);
      assert l[i] in l;
    }
    if !Plain(l) {
      var i :| 0 <= i < |l| && IsMeta(l[i]);
      assert q[i] in q;
    }
  }

  lemma PlainSearchAgrees(q: string, t: string)
    requires Plain(q)
    ensures ILike(Pattern(q), t) <==> Text.Contains(Text.Lower(t), Text.Lower(q))
  {
    LowerPattern(q);
    LikeIsContains(Text.Lower(q), Text.Lower(t));
  }

  /** The text on which the two searches disagree when q is not plain. */
  lemma DecoyDisagrees(q: string)
    requires !Plain(q)
    ensures var t := Decoy(Text.Lower(q));
            ILike(Pattern(q), t) && !Text.Contains(Text.Lower(t), Text.Lower(q))
  {
    hide Decoy;
    var l := Text.Lower(q);
    LowerPattern(q);
    assert Text.Lower(l) == l;
    DecoyIsLower(l);
    DecoyAccepted(l);
    assert Pattern(l)[1..] == l + "%";
    DecoyDiffers(l);
    LongerNotContained(Decoy(l), l);
  }

  /** The builder does not escape the search text, so both stores search alike
      for every event exactly when the text has no LIKE metacharacter. */
  lemma SearchAgreesIff(q: string)
    ensures (forall ev :: SqlSearchHits(ev, q) <==> SearchHits(ev, q)) <==> Plain(q)
  {
    hide ILike, Decoy;
    if Plain(q) {
      forall ev ensures SqlSearchHits(ev, q) <==> SearchHits(ev, q) {
        PlainSearchAgrees(q, ev.path);
        PlainSearchAgrees(q, ev.errorMessage);
      }
    } else {
      DecoyDisagrees(q);
      var t := Decoy(Text.Lower(q));
      var ev := SOME_EVENT.(path := t, errorMessage := t);
      assert SqlSearchHits(ev, q) && !SearchHits(ev, q);
    }
  }

  // ---------------------------------------------------------------- statements and their meaning

  datatype Column =
    | TsCol | MethodCol | PathCol | RouteNameCol | UserSubjectCol | SessionIdCol | IdCol | StatusCol | SuccessCol

  datatype Op = Ge | Le | Eq

  datatype Value = Instant(t: int) | Str(s: string) | Num(n: int) | Flag(b: bool)

  /** A WHERE clause with its numbered placeholders. */
  datatype Clause =
    | Compare(col: Column, op: Op, placeholder: nat)
    | SearchEither(inPath: nat, inError: nat)

  /** LIMIT and OFFSET are spliced into the text as decimal numbers. */
  datatype Statement =
    | SelectPage(where: seq<Clause>, limitText: string, offsetText: string)
    | SelectCount(where: seq<Clause>)

  function Cell(ev: Event, col: Column): Value
  {
    match col
    case TsCol => Instant(ev.ts)
    case MethodCol => Str(ev.method_)
    case PathCol => Str(ev.path)
    case RouteNameCol => Str(ev.routeName)
    case UserSubjectCol => Str(ev.userSubject)
    case SessionIdCol => Str(ev.sessionId)
    case IdCol => Str(ev.id)
    case StatusCol => Num(ev.status)
    case SuccessCol => Flag(ev.success)
  }

  predicate OpHolds(op: Op, cell: Value, arg: Value)
  {
    match op
    case Eq => cell == arg
    case Ge => cell.Instant? && arg.Instant? && cell.t >= arg.t
    case Le => cell.Instant? && arg.Instant? && cell.t <= arg.t
  }

  /** $n refers to the n-th argument, counted from one. */
  predicate Bound(n: nat, args: seq<Value>)
  {
    1 <= n <= |args|
  }

  predicate ClauseHolds(c: Clause, args: seq<Value>, ev: Event)
  {
    match c
    case Compare(col, op, n) => Bound(n, args) && OpHolds(op, Cell(ev, col), args[n - 1])
    case SearchEither(a, b) =>
      && Bound(a, args) && Bound(b, args) && args[a - 1].Str? && args[b - 1].Str?
      && (ILike(args[a - 1].s, ev.path) || ILike(args[b - 1].s, ev.errorMessage))
  }

  predicate Where(clauses: seq<Clause>, args: seq<Value>, ev: Event)
  {
    forall c | c in clauses :: ClauseHolds(c, args, ev)
  }

  /** `rows` answers the page statement: the rows of the table that satisfy the
      WHERE clause, by ts descending and id ascending, from OFFSET, up to LIMIT. */
  ghost predicate AnswersPage(stmt: Statement, args: seq<Value>, table: seq<Event>, rows: seq<Event>)
    requires stmt.SelectPage?
  {
    var limit, offset := Decimal.Atoi(stmt.limitText), Decimal.Atoi(stmt.offsetText);
    && limit.Some? && offset.Some? && limit.value >= 0
    && exists all ::
         && Ranking.Ranked(Before, all)
         && (forall e :: e in all <==> e in table && Where(stmt.where, args, e))
         && rows == Slice(all, offset.value, limit.value)
  }

  /** `n` answers the count statement. */
  ghost predicate AnswersCount(stmt: Statement, args: seq<Value>, table: seq<Event>, n: nat)
    requires stmt.SelectCount?
  {
    exists all ::
      && Ranking.Ranked(Before, all) && n == |all|
      && forall e :: e in all <==> e in table && Where(stmt.where, args, e)
  }

  // ---------------------------------------------------------------- the builder

  /** The k-th condition of a filter, in the order the builder visits them. */
  predicate Wanted(f: QueryFilter, k: nat, ev: Event)
  {
    match k
    case 0 => f.from != 0 ==> f.from <= ev.ts
    case 1 => f.to != 0 ==> ev.ts <= f.to
    case 2 => f.method_ != "" ==> ev.method_ == f.method_
    case 3 => f.path != "" ==> ev.path == f.path
    case 4 => f.routeName != "" ==> ev.routeName == f.routeName
    case 5 => f.userId != "" ==> ev.userSubject == f.userId
    case 6 => f.sessionId != "" ==> ev.sessionId == f.sessionId
    case 7 => f.eventId != "" ==> ev.id == f.eventId
    case 8 => f.status != 0 ==> ev.status == f.status
    case 9 => f.success.Some? ==> ev.success == f.success.value
    case 10 => f.search != "" ==> SqlSearchHits(ev, f.search)
    case _ => true
  }

  const CONDITIONS: nat := 11

  ghost predicate AllWanted(f: QueryFilter, k: nat, ev: Event)
  {
    forall j: nat | j < k :: Wanted(f, j, ev)
  }

  /** Every placeholder of the clause is $n. */
  predicate Numbered(c: Clause, n: nat)
  {
    match c
    case Compare(_, _, p) => p == n
    case SearchEither(a, b) => a == b == n
  }

  /** The clauses built so far mean the first k conditions, and the i-th clause
      refers to the i-th argument. */
  ghost predicate Means(clauses: seq<Clause>, args: seq<Value>, f: QueryFilter, k: nat)
  {
    && |clauses| == |args| && (forall i | 0 <= i < |clauses| :: Numbered(clauses[i], i + 1))
    && forall ev :: Where(clauses, args, ev) <==> AllWanted(f, k, ev)
  }

  lemma MeansNothing(f: QueryFilter)
    ensures Means([], [], f, 0)
  {}

  lemma MeansSkip(clauses: seq<Clause>, args: seq<Value>, f: QueryFilter, k: nat)
    requires Means(clauses, args, f, k) && forall ev :: Wanted(f, k, ev)
    ensures Means(clauses, args, f, k + 1)
  {
    hide Where;
    forall ev ensures Where(clauses, args, ev) <==> AllWanted(f, k + 1, ev) {
      assert Wanted(f, k, ev);
    }
  }

  lemma WhereExtends(clauses: seq<Clause>, args: seq<Value>, f: QueryFilter, k: nat, c: Clause, v: Value, ev: Event)
    requires Means(clauses, args, f, k)
    ensures Where(clauses + [c], args + [v], ev) <==> Where(clauses, args, ev) && ClauseHolds(c, args + [v], ev)
  {
    hide ILike, Cell, OpHolds, Where, AllWanted;
    var more := args + [v];
    assert forall i | 0 <= i < |args| :: more[i] == args[i];
    assert forall d | d in clauses :: ClauseHolds(d, more, ev) <==> ClauseHolds(d, args, ev);
    WhereSplit(clauses, c, more, ev);
    WhereSame(clauses, args, more, ev);
  }

  lemma WhereSplit(clauses: seq<Clause>, c: Clause, args: seq<Value>, ev: Event)
    ensures Where(clauses + [c], args, ev) <==> Where(clauses, args, ev) && ClauseHolds(c, args, ev)
  {
    hide ClauseHolds;
    assert c in clauses + [c];
    assert forall d | d in clauses :: d in clauses + [c];
  }

  lemma WhereSame(clauses: seq<Clause>, args: seq<Value>, more: seq<Value>, ev: Event)
    requires forall d | d in clauses :: ClauseHolds(d, more, ev) <==> ClauseHolds(d, args, ev)
    ensures Where(clauses, more, ev) <==> Where(clauses, args, ev)
  {
    hide ClauseHolds;
  }

  lemma MeansAdd(clauses: seq<Clause>, args: seq<Value>, f: QueryFilter, k: nat, c: Clause, v: Value)
    requires Means(clauses, args, f, k)
    requires Numbered(c, |args| + 1)
    requires forall ev :: ClauseHolds(c, args + [v], ev) <==> Wanted(f, k, ev)
    ensures Means(clauses + [c], args + [v], f, k + 1)
  {
    hide Where, ClauseHolds, Wanted;
    forall ev ensures Where(clauses + [c], args + [v], ev) <==> AllWanted(f, k + 1, ev) {
      WhereExtends(clauses, args, f, k, c, v, ev);
      assert ClauseHolds(c, args + [v], ev) <==> Wanted(f, k, ev);
    }
  }

  /** The clauses and arguments captured by the builder's closure. */
  class Builder {
    var clauses: seq<Clause>
    var args: seq<Value>

    constructor (ghost f: QueryFilter)
      ensures clauses == [] && args == [] && Means(clauses, args, f, 0)
    {
      clauses, args := [], [];
      MeansNothing(f);
    }

    /** Bind the value, and let the clause refer to it by its number. */
    method Add(col: Column, op: Op, val: Value, ghost f: QueryFilter, ghost k: nat)
      requires Means(clauses, args, f, k)
      requires forall ev :: OpHolds(op, Cell(ev, col), val) <==> Wanted(f, k, ev)
      modifies this
      ensures args == old(args) + [val]
      ensures clauses == old(clauses) + [Compare(col, op, |args|)]
      ensures Means(clauses, args, f, k + 1)
    {
      hide Means, Cell, OpHolds, Wanted;
      ghost var c := Compare(col, op, |args| + 1);
      forall ev ensures ClauseHolds(c, args + [val], ev) <==> Wanted(f, k, ev) {
        assert OpHolds(op, Cell(ev, col), val) <==> Wanted(f, k, ev);
      }
      MeansAdd(clauses, args, f, k, c, val);
      args := args + [val];
      clauses := clauses + [Compare(col, op, |args|)];
    }

    /** Bind the pattern once, and refer to it from two places. */
    method AddSearch(q: string, ghost f: QueryFilter)
      requires Means(clauses, args, f, 10) && f.search == q != ""
      modifies this
      ensures args == old(args) + [Str(Pattern(q))]
      ensures clauses == old(clauses) + [SearchEither(|args|, |args|)]
      ensures Means(clauses, args, f, 11)
    {
      hide Means, ILike;
      MeansAdd(clauses, args, f, 10, SearchEither(|args| + 1, |args| + 1), Str(Pattern(q)));
      args := args + [Str(Pattern(q))];
      var idx := |args|;
      clauses := clauses + [SearchEither(idx, idx)];
    }

    method AddWindow(f: QueryFilter)
      requires Means(clauses, args, f, 0)
      modifies this
      ensures Means(clauses, args, f, 2)
    {
      hide Means, SqlSearchHits;
      if f.from != 0 { Add(TsCol, Ge, Instant(f.from), f, 0); } else { MeansSkip(clauses, args, f, 0); }
      if f.to != 0 { Add(TsCol, Le, Instant(f.to), f, 1); } else { MeansSkip(clauses, args, f, 1); }
    }

    method AddRequest(f: QueryFilter)
      requires Means(clauses, args, f, 2)
      modifies this
      ensures Means(clauses, args, f, 5)
    {
      hide Means, SqlSearchHits;
      if f.method_ != "" { Add(MethodCol, Eq, Str(f.method_), f, 2); } else { MeansSkip(clauses, args, f, 2); }
      if f.path != "" { Add(PathCol, Eq, Str(f.path), f, 3); } else { MeansSkip(clauses, args, f, 3); }
      if f.routeName != "" { Add(RouteNameCol, Eq, Str(f.routeName), f, 4); } else { MeansSkip(clauses, args, f, 4); }
    }

    method AddPrincipal(f: QueryFilter)
      requires Means(clauses, args, f, 5)
      modifies this
      ensures Means(clauses, args, f, 8)
    {
      hide Means, SqlSearchHits;
      if f.userId != "" { Add(UserSubjectCol, Eq, Str(f.userId), f, 5); } else { MeansSkip(clauses, args, f, 5); }
      if f.sessionId != "" { Add(SessionIdCol, Eq, Str(f.sessionId), f, 6); } else { MeansSkip(clauses, args, f, 6); }
      if f.eventId != "" { Add(IdCol, Eq, Str(f.eventId), f, 7); } else { MeansSkip(clauses, args, f, 7); }
    }

    method AddOutcome(f: QueryFilter)
      requires Means(clauses, args, f, 8)
      modifies this
      ensures Means(clauses, args, f, 11)
    {
      hide Means, SqlSearchHits;
      if f.status != 0 { Add(StatusCol, Eq, Num(f.status), f, 8); } else { MeansSkip(clauses, args, f, 8); }
      if f.success.Some? { Add(SuccessCol, Eq, Flag(f.success.value), f, 9); } else { MeansSkip(clauses, args, f, 9); }
      if f.search != "" { AddSearch(f.search, f); } else { MeansSkip(clauses, args, f, 10); }
    }
  }

  /** What the builder promises about the statement it returns. */
  ghost predicate Built(stmt: Statement, args: seq<Value>, f: QueryFilter, count: bool)
  {
    && Means(stmt.where, args, f, CONDITIONS)
    && (count <==> stmt.SelectCount?)
    && (!count ==>
          && Decimal.Atoi(stmt.limitText) == Some(EffectiveLimit(f.limit))
          && Decimal.Atoi(stmt.offsetText) == Some(if f.offset < 0 then 0 else f.offset))
  }

  method BuildSelect(f: QueryFilter, count: bool) returns (stmt: Statement, args: seq<Value>)
    requires Decimal.MIN_INT64 <= f.offset <= Decimal.MAX_INT64
    ensures Built(stmt, args, f, count)
  {
    hide Means, SqlSearchHits, Decimal.Itoa, Decimal.Atoi;
    var b := new Builder(f);
    b.AddWindow(f);
    b.AddRequest(f);
    b.AddPrincipal(f);
    b.AddOutcome(f);
    args := b.args;
    if count {
      stmt := SelectCount(b.clauses);
      return;
    }
    var limit := f.limit;
    if limit <= 0 {
      limit := DEFAULT_QUERY_LIMIT;
    }
    if limit > MAX_QUERY_LIMIT {
      limit := MAX_QUERY_LIMIT;
    }
    var offset := f.offset;
    if offset < 0 {
      offset := 0;
    }
    var limitText := Decimal.ItoaBuffer(limit);
    var offsetText := Decimal.ItoaBuffer(offset);
    Decimal.AtoiItoa(limit);
    Decimal.AtoiItoa(offset);
    stmt := SelectPage(b.clauses, limitText, offsetText);
  }

  // ---------------------------------------------------------------- refinement

  /** The conditions of the statement are those of the filter, but for the search. */
  lemma WantedIsMatch(f: QueryFilter, ev: Event)
    ensures AllWanted(f, CONDITIONS, ev) <==>
            (f.search != "" ==> SqlSearchHits(ev, f.search)) && MatchesFilter(ev, f.(search := ""))
  {
    hide SqlSearchHits, SearchHits;
    if AllWanted(f, CONDITIONS, ev) {
      assert Wanted(f, 0, ev) && Wanted(f, 1, ev) && Wanted(f, 2, ev) && Wanted(f, 3, ev) && Wanted(f, 4, ev)
             && Wanted(f, 5, ev) && Wanted(f, 6, ev) && Wanted(f, 7, ev) && Wanted(f, 8, ev) && Wanted(f, 9, ev)
             && Wanted(f, 10, ev);
    }
  }

  /** Filters on which both stores select alike whatever is stored: plain
      search text, an empty time window, or an exact path that both searches
      accept anyway. */
  predicate SafeFilter(f: QueryFilter)
  {
    || Plain(f.search)
    || (f.from != 0 && f.to != 0 && f.from > f.to)
    || (f.path != "" && ILike(Pattern(f.search), f.path)
        && Text.Contains(Text.Lower(f.path), Text.Lower(f.search)))
  }

  /** An event that meets every condition of the filter but the search. */
  function Probe(f: QueryFilter, path: string, error: string): Event
  {
    SOME_EVENT.(id := f.eventId, method_ := f.method_, path := path, routeName := f.routeName,
      userSubject := f.userId, sessionId := f.sessionId, status := f.status,
      success := if f.success.Some? then f.success.value else true, errorMessage := error,
      ts := if f.from != 0 then f.from else f.to)
  }

  /** The two stores select the same events, for every event, if and only if
      the filter is one of those. */
  lemma FilterAgreesIff(f: QueryFilter)
    ensures (forall ev :: AllWanted(f, CONDITIONS, ev) <==> MatchesFilter(ev, f)) <==> SafeFilter(f)
  {
    hide AllWanted, Decoy, ILike;
    if SafeFilter(f) {
      forall ev ensures AllWanted(f, CONDITIONS, ev) <==> MatchesFilter(ev, f) {
        WantedIsMatch(f, ev);
        SearchAgreesIff(f.search);
        if Plain(f.search) { assert SqlSearchHits(ev, f.search) <==> SearchHits(ev, f.search); }
      }
    } else {
      DecoyDisagrees(f.search);
      var t := Decoy(Text.Lower(f.search));
      var path := if f.path != "" then f.path else t;
      var onPath := ILike(Pattern(f.search), path);
      var inPath := Text.Contains(Text.Lower(path), Text.Lower(f.search));
      var ev := Probe(f, path, if onPath == inPath then t else path);
      WantedIsMatch(f, ev);
      assert MatchesFilter(ev, f.(search := ""));
      assert SqlSearchHits(ev, f.search) != SearchHits(ev, f.search);
      assert AllWanted(f, CONDITIONS, ev) != MatchesFilter(ev, f);
    }
  }

  /** The statement selects exactly the events that match the filter. */
  lemma WhereIsFilter(stmt: Statement, args: seq<Value>, f: QueryFilter, count: bool, ev: Event)
    requires Built(stmt, args, f, count) && SafeFilter(f)
    ensures Where(stmt.where, args, ev) <==> MatchesFilter(ev, f)
  {
    hide AllWanted, MatchesFilter, Where, SafeFilter;
    FilterAgreesIff(f);
    assert AllWanted(f, CONDITIONS, ev) <==> MatchesFilter(ev, f);
  }

  /** Query refinement: on any table, for every safe filter (every filter with
      plain search text among them), the built statement has exactly one answer, the page that
      `MemoryLogger` returns for the same events. */
  lemma PageRefines(stmt: Statement, args: seq<Value>, f: QueryFilter, table: seq<Event>, rows: seq<Event>)
    requires Built(stmt, args, f, false) && SafeFilter(f) && UniqueIds(table)
    ensures AnswersPage(stmt, args, table, rows) <==> rows == Query(table, f)
  {
    hide MatchList, MatchesFilter, Where, SafeFilter, Means;
    forall ev ensures Where(stmt.where, args, ev) <==> MatchesFilter(ev, f) {
      WhereIsFilter(stmt, args, f, false, ev);
    }
    MatchListSpec(table, f);
    forall all | Ranking.Ranked(Before, all) && forall e :: e in all <==> e in table && Where(stmt.where, args, e)
      ensures all == MatchList(table, f)
    {
      MatchListUnique(table, f, all);
    }
    assert forall e :: e in MatchList(table, f) <==> e in table && Where(stmt.where, args, e);
  }

  /** The count statement agrees with `Count`. */
  lemma CountRefines(stmt: Statement, args: seq<Value>, f: QueryFilter, table: seq<Event>, n: nat)
    requires Built(stmt, args, f, true) && SafeFilter(f) && UniqueIds(table)
    ensures AnswersCount(stmt, args, table, n) <==> n == |MatchList(table, f)|
  {
    hide MatchList, MatchesFilter, Where, SafeFilter, Means;
    forall ev ensures Where(stmt.where, args, ev) <==> MatchesFilter(ev, f) {
      WhereIsFilter(stmt, args, f, true, ev);
    }
    MatchListSpec(table, f);
    forall all | Ranking.Ranked(Before, all) && forall e :: e in all <==> e in table && Where(stmt.where, args, e)
      ensures all == MatchList(table, f)
    {
      MatchListUnique(table, f, all);
    }
    assert forall e :: e in MatchList(table, f) <==> e in table && Where(stmt.where, args, e);
  }

  lemma CountOfOne(ev: Event, f: QueryFilter)
    ensures |MatchList([ev], f)| == if MatchesFilter(ev, f) then 1 else 0
  {
    hide MatchesFilter;
    assert [ev][..0] == [];
    assert Filter([], f) == [];
    assert Filter([ev], f) == Filter([], f) + if MatchesFilter(ev, f) then [ev] else [];
    MatchListSpec([ev], f);
  }

  lemma AnswerOfOne(stmt: Statement, args: seq<Value>, ev: Event)
    requires stmt.SelectCount?
    ensures AnswersCount(stmt, args, [ev], if Where(stmt.where, args, ev) then 1 else 0)
  {
    hide Where;
    var all := if Where(stmt.where, args, ev) then [ev] else [];
    assert Ranking.Ranked(Before, all);
    assert forall e :: e in all <==> e in [ev] && Where(stmt.where, args, e);
  }

  /** The two stores count alike on every table exactly when the filter is safe. */
  lemma CountRefinesIff(stmt: Statement, args: seq<Value>, f: QueryFilter)
    requires Built(stmt, args, f, true)
    ensures (forall table: seq<Event>, n: nat | UniqueIds(table) && AnswersCount(stmt, args, table, n) ::
               n == |MatchList(table, f)|) <==> SafeFilter(f)
  {
    hide MatchList, MatchesFilter, Where, SafeFilter, AllWanted, AnswersCount;
    if SafeFilter(f) {
      forall table: seq<Event>, n: nat | UniqueIds(table) && AnswersCount(stmt, args, table, n)
        ensures n == |MatchList(table, f)|
      {
        CountRefines(stmt, args, f, table, n);
      }
    } else {
      FilterAgreesIff(f);
      var ev :| AllWanted(f, CONDITIONS, ev) != MatchesFilter(ev, f);
      AnswerOfOne(stmt, args, ev);
      CountOfOne(ev, f);
      assert UniqueIds([ev]);
    }
  }

  // ---------------------------------------------------------------- when pages agree

  /** A filter that names no event does not look at ids. */
  lemma IdIgnored(f: QueryFilter, ev: Event, id: string)
    requires f.eventId == ""
    ensures AllWanted(f, CONDITIONS, ev.(id := id)) == AllWanted(f, CONDITIONS, ev)
    ensures MatchesFilter(ev.(id := id), f) == MatchesFilter(ev, f)
  {
    hide AllWanted, SqlSearchHits, SearchHits;
    WantedIsMatch(f, ev);
    WantedIsMatch(f, ev.(id := id));
    SearchIgnoresId(f.search, ev, id);
  }

  lemma SearchIgnoresId(q: string, ev: Event, id: string)
    ensures SqlSearchHits(ev.(id := id), q) == SqlSearchHits(ev, q)
    ensures SearchHits(ev.(id := id), q) == SearchHits(ev, q)
  {}

  /** A table that one store selects whole and the other not at all, long enough
      for the requested page. */
  lemma TellingTable(f: QueryFilter) returns (table: seq<Event>, inSql: bool)
    requires !SafeFilter(f) && (f.eventId == "" || f.offset <= 0)
    ensures UniqueIds(table) && |table| > 0 && |table| > f.offset
    ensures forall e | e in table :: AllWanted(f, CONDITIONS, e) == inSql && MatchesFilter(e, f) == !inSql
  {
    hide AllWanted, MatchesFilter, SafeFilter;
    FilterAgreesIff(f);
    var ev :| AllWanted(f, CONDITIONS, ev) != MatchesFilter(ev, f);
    inSql := AllWanted(f, CONDITIONS, ev);
    if f.offset <= 0 {
      table := [ev];
    } else {
      table := Copies(ev, f.offset + 1);
      forall e | e in table ensures AllWanted(f, CONDITIONS, e) == inSql && MatchesFilter(e, f) == !inSql {
        IdIgnored(f, ev, e.id);
      }
    }
  }

  lemma AnswerAllOrNone(stmt: Statement, args: seq<Value>, table: seq<Event>, hit: bool) returns (all: seq<Event>)
    requires UniqueIds(table) && forall e | e in table :: Where(stmt.where, args, e) == hit
    ensures Ranking.Ranked(Before, all) && |all| == if hit then |table| else 0
    ensures forall e :: e in all <==> e in table && Where(stmt.where, args, e)
  {
    hide Where;
    BeforeIsStrict();
    forall i, j | 0 <= i < j < |table| ensures Before(table[i], table[j]) || Before(table[j], table[i]) {
      Text.LessConnected(table[i].id, table[j].id);
    }
    Ranking.SortRanked(Before, table);
    all := if hit then Ranking.Sort(Before, table) else [];
  }

  lemma SliceNotEmpty(s: seq<Event>, offset: int, limit: nat)
    requires limit >= 1
    ensures Slice(s, offset, limit) != [] <==> |s| > 0 && |s| > offset
  {}

  lemma PageOf(stmt: Statement, args: seq<Value>, f: QueryFilter, table: seq<Event>, all: seq<Event>)
    requires Built(stmt, args, f, false) && Ranking.Ranked(Before, all)
    requires forall e :: e in all <==> e in table && Where(stmt.where, args, e)
    ensures AnswersPage(stmt, args, table, Slice(all, f.offset, EffectiveLimit(f.limit)))
  {
    hide Means, Where, Decimal.Atoi;
  }

  /** On such a table the two pages differ. */
  lemma PagesDiffer(stmt: Statement, args: seq<Value>, f: QueryFilter, table: seq<Event>, inSql: bool)
    returns (rows: seq<Event>)
    requires Built(stmt, args, f, false) && UniqueIds(table) && |table| > 0 && |table| > f.offset
    requires forall e | e in table :: AllWanted(f, CONDITIONS, e) == inSql && MatchesFilter(e, f) == !inSql
    ensures AnswersPage(stmt, args, table, rows) && rows != Query(table, f)
  {
    hide AllWanted, MatchesFilter, Where, MatchList, Decimal.Atoi, Slice, AnswersPage, Filter, EffectiveLimit;
    assert forall e | e in table :: Where(stmt.where, args, e) == inSql;
    var all := AnswerAllOrNone(stmt, args, table, inSql);
    var limit := EffectiveLimit(f.limit);
    rows := Slice(all, f.offset, limit);
    PageOf(stmt, args, f, table, all);
    FilterAllOrNone(table, f, !inSql);
    MatchListSpec(table, f);
    SliceNotEmpty(all, f.offset, limit);
    SliceNotEmpty(MatchList(table, f), f.offset, limit);
  }

  /** A filter that names an event selects at most that one. */
  lemma AtMostOne(table: seq<Event>, all: seq<Event>, id: string)
    requires UniqueIds(table) && Ranking.Ranked(Before, all)
    requires forall e | e in all :: e in table && e.id == id
    ensures |all| <= 1
  {
    BeforeIsStrict();
    forall x, y | x in all && y in all ensures x == y {
      var i, j :| 0 <= i < |table| && table[i] == x && 0 <= j < |table| && table[j] == y;
    }
    Ranking.RankedNoDup(Before, all);
    if all != [] { Ranking.DistinctFits(all, [all[0]]); }
  }

  lemma NamedPageEmpty(stmt: Statement, args: seq<Value>, f: QueryFilter, table: seq<Event>, rows: seq<Event>)
    requires Built(stmt, args, f, false) && UniqueIds(table) && f.eventId != "" && f.offset > 0
    requires AnswersPage(stmt, args, table, rows)
    ensures rows == [] == Query(table, f)
  {
    hide AllWanted, Where, MatchList, Decimal.Atoi;
    var limit, offset := Decimal.Atoi(stmt.limitText), Decimal.Atoi(stmt.offsetText);
    var all :| Ranking.Ranked(Before, all) && (forall e :: e in all <==> e in table && Where(stmt.where, args, e))
               && rows == Slice(all, offset.value, limit.value);
    forall e | e in all ensures e in table && e.id == f.eventId {
      assert AllWanted(f, CONDITIONS, e);
      WantedIsMatch(f, e);
    }
    AtMostOne(table, all, f.eventId);
    MatchListSpec(table, f);
    AtMostOne(table, MatchList(table, f), f.eventId);
  }

  /** The two stores return the same page on every table if and only if the
      filter is safe, or asks for a page after the one event it names. */
  lemma PageRefinesIff(stmt: Statement, args: seq<Value>, f: QueryFilter)
    requires Built(stmt, args, f, false)
    ensures (forall table: seq<Event>, rows: seq<Event> | UniqueIds(table) && AnswersPage(stmt, args, table, rows) ::
               rows == Query(table, f))
            <==> SafeFilter(f) || (f.eventId != "" && f.offset > 0)
  {
    hide Means, Query, SafeFilter, AnswersPage, AllWanted, MatchesFilter;
    if SafeFilter(f) || (f.eventId != "" && f.offset > 0) {
      forall table: seq<Event>, rows: seq<Event> | UniqueIds(table) && AnswersPage(stmt, args, table, rows)
        ensures rows == Query(table, f)
      {
        if SafeFilter(f) {
          PageRefines(stmt, args, f, table, rows);
        } else {
          NamedPageEmpty(stmt, args, f, table, rows);
        }
      }
    } else {
      var table, inSql := TellingTable(f);
      var rows := PagesDiffer(stmt, args, f, table, inSql);
    }
  }
}

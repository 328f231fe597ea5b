/** Three pagination styles over one synthetic dataset: Link header (section 5
    of RFC 5988), OData next links, and opaque cursors. Requests carry raw query
    text; an absent parameter is the empty string. */
module Pagination {
  import opened Prelude
  import opened Decimal
  import Base64Url

  const DEFAULT_TOTAL: nat := 100
  const DEFAULT_PAGE_SIZE: nat := 10
  const MAX_TOTAL: nat := 10_000
  const MAX_PAGE_SIZE: nat := 1000

  /** Every value the handlers compute after validation. Far below any machine
      integer bound, so no operation on them overflows. */
  type Small = x: int | 0 <= x < MAX_TOTAL + MAX_PAGE_SIZE witness 0

  datatype Item = Item(id: int, value: string)

  /** A page, and the request that its `next` reference makes. */
  datatype Reply<+R> = Page(items: seq<Item>, next: Option<R>) | BadRequest

  // ---------------------------------------------------------------- parameters

  function PositiveDefault(raw: string, def: nat): (r: Option<int>)
    requires 1 <= def
    ensures r.Some? ==> 1 <= r.value
    ensures raw == "" ==> r == Some(def)
    ensures raw != "" && r.Some? ==> Atoi(raw) == r
    ensures raw != "" && r.None? ==> Atoi(raw).None? || Atoi(raw).value < 1
  {
    if raw == "" then Some(def) else
      match Atoi(raw)
      case Some(n) => if n < 1 then None else Some(n)
      case None => None
  }

  function NonNegativeDefault(raw: string, def: nat): (r: Option<int>)
    ensures r.Some? ==> 0 <= r.value
    ensures raw == "" ==> r == Some(def)
    ensures raw != "" && r.Some? ==> Atoi(raw) == r
    ensures raw != "" && r.None? ==> Atoi(raw).None? || Atoi(raw).value < 0
  {
    if raw == "" then Some(def) else
      match Atoi(raw)
      case Some(n) => if n < 0 then None else Some(n)
      case None => None
  }

  function BoundedDefault(raw: string, def: nat, upper: nat): (r: Option<int>)
    requires 1 <= def <= upper
    ensures r.Some? ==> 1 <= r.value <= upper
    ensures raw == "" ==> r == Some(def)
    ensures raw != "" && r.Some? ==> Atoi(raw) == r
    ensures raw != "" && r.None? ==> Atoi(raw).None? || !(1 <= Atoi(raw).value <= upper)
  {
    if raw == "" then Some(def) else
      match Atoi(raw)
      case Some(n) => if n < 1 || n > upper then None else Some(n)
      case None => None
  }

  // ---------------------------------------------------------------- the dataset

  /** Items [lo, hi) of the dataset. */
  function Items(value: int -> string, lo: int, hi: int): (r: seq<Item>)
    requires lo <= hi
    ensures |r| == hi - lo && forall i | 0 <= i < |r| :: r[i] == Item(lo + i, value(lo + i))
  {
    seq(hi - lo, i requires 0 <= i < hi - lo => Item(lo + i, value(lo + i)))
  }

  function Slice(value: int -> string, start: Small, pageSize: int, total: int): seq<Item>
    requires 1 <= pageSize <= MAX_PAGE_SIZE && 1 <= total <= MAX_TOTAL
  {
    if start >= total then []
    else
      var end: Small := start + pageSize;
      Items(value, start, if end > total then total else end)
  }

  /** The loop that fills a page. */
  method SliceItems(value: int -> string, start: Small, pageSize: int, total: int) returns (out: seq<Item>)
    requires 1 <= pageSize <= MAX_PAGE_SIZE && 1 <= total <= MAX_TOTAL
    ensures out == Slice(value, start, pageSize, total)
    ensures |out| <= pageSize && forall it | it in out :: start <= it.id < total && it.value == value(it.id)
  {
    out := [];
    if start >= total {
      return;
    }
    var end: Small := start + pageSize;
    if end > total {
      end := total;
    }
    for i := start to end
      invariant out == Items(value, start, i)
    {
      out := out + [Item(i, value(i))];
    }
  }

  /** The 1-indexed number of the last page. */
  function LastPageFor(total: int, perPage: int): Small
    requires 1 <= perPage <= MAX_PAGE_SIZE && total <= MAX_TOTAL
  {
    if total <= 0 then 1 else
      var dividend: Small := total + perPage - 1;
      dividend / perPage
  }

  /** The last page is the one that holds the last item. */
  lemma LastPageHoldsLastItem(total: int, perPage: int)
    requires 1 <= perPage <= MAX_PAGE_SIZE && 1 <= total <= MAX_TOTAL
    ensures var last := LastPageFor(total, perPage);
            last >= 1 && (last - 1) * perPage < total <= last * perPage
  {
    var n := total + perPage - 1;
    var last := n / perPage;
    assert n == last * perPage + n % perPage;
    assert (last - 1) * perPage == last * perPage - perPage;
    assert n >= perPage;
  }

  /** Pages up to the last start before the end, without overflow. */
  lemma StartInRange(total: int, perPage: int, page: int)
    requires 1 <= perPage <= MAX_PAGE_SIZE && 1 <= total <= MAX_TOTAL
    requires 1 <= page <= LastPageFor(total, perPage)
    ensures 0 <= (page - 1) * perPage < total
    ensures page < LastPageFor(total, perPage) <==> page * perPage < total
  {
    var last := LastPageFor(total, perPage);
    LastPageHoldsLastItem(total, perPage);
    MulMono(page - 1, last - 1, perPage);
    if page < last { MulMono(page, last - 1, perPage); }
    if page == last { assert page * perPage >= total; }
  }

  lemma MulMono(a: int, b: int, k: int)
    requires 0 <= a <= b && k > 0
    ensures 0 <= a * k <= b * k
  {}

  // ---------------------------------------------------------------- the handlers

  datatype LinkRequest = LinkRequest(page: string, perPage: string, total: string)

  /** The Link header also names the first, last and previous pages. */
  datatype LinkReply =
    | LinkPage(items: seq<Item>, page: int, first: LinkRequest, last: LinkRequest,
               prev: Option<LinkRequest>, next: Option<LinkRequest>)
    | LinkBadRequest

  function LinkTo(page: int, perPage: int, total: int): LinkRequest
  {
    LinkRequest(Itoa(page), Itoa(perPage), Itoa(total))
  }

  function Link(value: int -> string, q: LinkRequest): LinkReply
  {
    var page := PositiveDefault(q.page, 1);
    var perPage := BoundedDefault(q.perPage, DEFAULT_PAGE_SIZE, MAX_PAGE_SIZE);
    var total := BoundedDefault(q.total, DEFAULT_TOTAL, MAX_TOTAL);
    if page.None? || perPage.None? || total.None? then LinkBadRequest
    else LinkAt(value, page.value, perPage.value, total.value)
  }

  function LinkAt(value: int -> string, page: int, perPage: int, total: int): LinkReply
    requires 1 <= perPage <= MAX_PAGE_SIZE && 1 <= total <= MAX_TOTAL && page >= 1
  {
    var lastPage := LastPageFor(total, perPage);
    if page > lastPage then LinkBadRequest
    else
      StartInRange(total, perPage, page);
      var start: Small := (page - 1) * perPage;
      LinkPage(
        Slice(value, start, perPage, total), page,
        LinkTo(1, perPage, total),
        LinkTo(lastPage, perPage, total),
        if page > 1 then var p: Small := page - 1; Some(LinkTo(p, perPage, total)) else None,
        if page < lastPage then var p: Small := page + 1; Some(LinkTo(p, perPage, total)) else None)
  }

  datatype ODataRequest = ODataRequest(top: string, skip: string, total: string)

  function OData(value: int -> string, q: ODataRequest): Reply<ODataRequest>
  {
    var top := BoundedDefault(q.top, DEFAULT_PAGE_SIZE, MAX_PAGE_SIZE);
    var skip := NonNegativeDefault(q.skip, 0);
    var total := BoundedDefault(q.total, DEFAULT_TOTAL, MAX_TOTAL);
    if top.None? || skip.None? || total.None? then BadRequest
    else if skip.value >= total.value then BadRequest
    else
      var end: Small := skip.value + top.value;
      Page(Slice(value, skip.value, top.value, total.value),
           if end < total.value then Some(ODataRequest(Itoa(top.value), Itoa(end), Itoa(total.value))) else None)
  }

  datatype CursorRequest = CursorRequest(cursor: string, limit: string, total: string)

  function ToBytes(s: string): seq<Byte>
  {
    seq(|s|, i requires 0 <= i < |s| => if s[i] as int < 256 then s[i] as int else 0)
  }

  function FromBytes(b: seq<Byte>): string
  {
    seq(|b|, i requires 0 <= i < |b| => b[i] as char)
  }

  function EncodeCursor(offset: int): string
  {
    Base64Url.Encode(ToBytes(Itoa(offset)))
  }

  function DecodeCursor(s: string): (r: Option<int>)
    ensures r.Some? ==> r.value >= 0
  {
    match Base64Url.Decode(s)
    case None => None
    case Some(raw) =>
      match Atoi(FromBytes(raw))
      case Some(n) => if n < 0 then None else Some(n)
      case None => None
  }

  function Cursor(value: int -> string, q: CursorRequest): Reply<CursorRequest>
  {
    var limit := BoundedDefault(q.limit, DEFAULT_PAGE_SIZE, MAX_PAGE_SIZE);
    var total := BoundedDefault(q.total, DEFAULT_TOTAL, MAX_TOTAL);
    var offset := if q.cursor == "" then Some(0) else DecodeCursor(q.cursor);
    if limit.None? || total.None? || offset.None? then BadRequest
    else if offset.value >= total.value then BadRequest
    else
      var end: Small := offset.value + limit.value;
      Page(Slice(value, offset.value, limit.value, total.value),
           if end < total.value then Some(CursorRequest(EncodeCursor(end), q.limit, q.total)) else None)
  }

  // ---------------------------------------------------------------- the cursor codec

  lemma ItoaIsAscii(n: int)
    ensures forall c | c in Itoa(n) :: c as int < 128
  {
    hide Digits;
    assert forall c | IsDigit(c) :: c as int < 128;
  }

  lemma FromToBytes(s: string)
    requires forall c | c in s :: c as int < 128
    ensures FromBytes(ToBytes(s)) == s
  {
    forall i | 0 <= i < |s| ensures ToBytes(s)[i] as char == s[i] { assert s[i] in s; }
  }

  /** Cursor round trip for every offset the machine can hold. */
  lemma DecodeEncodeCursor(n: int)
    requires 0 <= n <= MAX_INT64
    ensures DecodeCursor(EncodeCursor(n)) == Some(n) && EncodeCursor(n) != ""
  {
    hide Itoa, Atoi, FromBytes, Base64Url.Decode;
    ItoaIsAscii(n);
    FromToBytes(Itoa(n));
    AtoiItoa(n);
    Base64Url.DecodeEncode(ToBytes(Itoa(n)));
    assert Itoa(n) != "" by { ItoaNotEmpty(n); }
  }

  /** A cursor is the base64url form of the text of a number that is not
      negative. */
  lemma CursorMeans(s: string, n: int)
    ensures DecodeCursor(s) == Some(n) <==>
            n >= 0 && Base64Url.Decode(s).Some? && Atoi(FromBytes(Base64Url.Decode(s).value)) == Some(n)
    ensures n >= 0 ==> var raw := Base64Url.Decode(EncodeCursor(n)); raw.Some? && FromBytes(raw.value) == Itoa(n)
  {
    hide Atoi, Itoa, FromBytes, Base64Url.Decode, Base64Url.Encode;
    ItoaIsAscii(n);
    FromToBytes(Itoa(n));
    Base64Url.DecodeEncode(ToBytes(Itoa(n)));
  }

  lemma ItoaNotEmpty(n: int)
    ensures Itoa(n) != ""
  {
    hide Digits;
  }

  // ---------------------------------------------------------------- pages of the dataset

  /** The dataset from item `start` on, cut into pages. */
  function PagesFrom(value: int -> string, total: int, size: int, start: nat): seq<seq<Item>>
    requires 1 <= size <= MAX_PAGE_SIZE && 1 <= total <= MAX_TOTAL
    decreases total - start
  {
    if start >= total then [] else [Slice(value, start, size, total)] + PagesFrom(value, total, size, start + size)
  }

  function Flatten(pages: seq<seq<Item>>): seq<Item>
  {
    if pages == [] then [] else pages[0] + Flatten(pages[1..])
  }

  lemma ItemsConcat(value: int -> string, a: int, b: int, c: int)
    requires a <= b <= c
    ensures Items(value, a, b) + Items(value, b, c) == Items(value, a, c)
  {}

  lemma FlattenCons(page: seq<Item>, rest: seq<seq<Item>>)
    ensures Flatten([page] + rest) == page + Flatten(rest)
  {
    assert ([page] + rest)[1..] == rest;
  }

  /** The pages hold items start .. total - 1, once each and in order, and there
      are ceil((total - start) / size) of them. */
  lemma {:induction false} PagesCoverDataset(value: int -> string, total: int, size: int, start: nat)
    requires 1 <= size <= MAX_PAGE_SIZE && 1 <= total <= MAX_TOTAL && start < total
    ensures Flatten(PagesFrom(value, total, size, start)) == Items(value, start, total)
    ensures var n := |PagesFrom(value, total, size, start)|; (n - 1) * size < total - start <= n * size
    decreases total - start
  {
    hide Items, Flatten;
    var rest := PagesFrom(value, total, size, start + size);
    FlattenCons(Slice(value, start, size, total), rest);
    var n := |rest|;
    assert (n + 1) * size == n * size + size;
    if start + size < total {
      PagesCoverDataset(value, total, size, start + size);
      ItemsConcat(value, start, start + size, total);
      assert (n - 1) * size == n * size - size;
    } else {
      assert rest == [] && n * size == 0;
      NothingLeft(value, start, total);
    }
  }

  lemma NothingLeft(value: int -> string, start: int, total: int)
    requires start <= total
    ensures Items(value, start, total) + Flatten([]) == Items(value, start, total)
  {}

  // ---------------------------------------------------------------- the three styles agree

  function LinkStep(value: int -> string, q: LinkRequest): Reply<LinkRequest>
  {
    match Link(value, q)
    case LinkBadRequest => BadRequest
    case LinkPage(items, _, _, _, _, next) => Page(items, next)
  }

  /** What a request asks for, once its texts are read: pages of `size` items,
      from item `start`, of a dataset of `total`. */
  datatype Window = Window(total: int, size: int, start: int)

  predicate Bounded(w: Window)
  {
    1 <= w.size <= MAX_PAGE_SIZE && 1 <= w.total <= MAX_TOTAL && w.start >= 0
  }

  function Reading(total: Option<int>, size: Option<int>, start: Option<int>): Option<Window>
  {
    if total.None? || size.None? || start.None? then None else Some(Window(total.value, size.value, start.value))
  }

  function PageStart(page: int, size: int): nat
    requires page >= 1 && size >= 1
  {
    MulMono(0, page - 1, size);
    (page - 1) * size
  }

  function LinkWindow(q: LinkRequest): (w: Option<Window>)
    ensures w.Some? ==> Bounded(w.value)
  {
    var page := PositiveDefault(q.page, 1);
    var size := BoundedDefault(q.perPage, DEFAULT_PAGE_SIZE, MAX_PAGE_SIZE);
    Reading(BoundedDefault(q.total, DEFAULT_TOTAL, MAX_TOTAL), size,
            if page.None? || size.None? then None else Some(PageStart(page.value, size.value)))
  }

  function ODataWindow(q: ODataRequest): (w: Option<Window>)
    ensures w.Some? ==> Bounded(w.value)
  {
    Reading(BoundedDefault(q.total, DEFAULT_TOTAL, MAX_TOTAL),
            BoundedDefault(q.top, DEFAULT_PAGE_SIZE, MAX_PAGE_SIZE), NonNegativeDefault(q.skip, 0))
  }

  function CursorWindow(q: CursorRequest): (w: Option<Window>)
    ensures w.Some? ==> Bounded(w.value)
  {
    Reading(BoundedDefault(q.total, DEFAULT_TOTAL, MAX_TOTAL),
            BoundedDefault(q.limit, DEFAULT_PAGE_SIZE, MAX_PAGE_SIZE),
            if q.cursor == "" then Some(0) else DecodeCursor(q.cursor))
  }

  /** The reply a request should get: refused if a text cannot be read or the
      window starts after the dataset, otherwise the page there, and a next
      request exactly when items follow, which asks for the window after. */
  ghost predicate Answers<R>(value: int -> string, w: Option<Window>, reply: Reply<R>, meaning: R -> Option<Window>)
    requires w.Some? ==> Bounded(w.value)
  {
    if w.None? || w.value.start >= w.value.total then reply.BadRequest?
    else
      var Window(total, size, start) := w.value;
      && reply.Page? && reply.items == Slice(value, start, size, total)
      && (reply.next.Some? <==> start + size < total)
      && (reply.next.Some? ==> meaning(reply.next.value) == Some(Window(total, size, start + size)))
  }

  lemma ParsesBack(n: int, def: nat, upper: nat)
    requires 1 <= n <= upper <= 10_000 && 1 <= def <= upper
    ensures BoundedDefault(Itoa(n), def, upper) == Some(n)
    ensures PositiveDefault(Itoa(n), def) == Some(n) && NonNegativeDefault(Itoa(n), def) == Some(n)
  {
    hide Itoa, Atoi;
    AtoiItoa(n);
    ItoaNotEmpty(n);
  }

  lemma LinkNext(page: int, size: int, total: int)
    requires 1 <= size <= MAX_PAGE_SIZE && 1 <= total <= MAX_TOTAL && 1 <= page < LastPageFor(total, size)
    ensures LinkWindow(LinkTo(page + 1, size, total)) == Some(Window(total, size, page * size))
  {
    hide Itoa, Atoi, LastPageFor, BoundedDefault, PositiveDefault;
    LastPageSmall(total, size);
    ParsesBack(size, DEFAULT_PAGE_SIZE, MAX_PAGE_SIZE);
    ParsesBack(total, DEFAULT_TOTAL, MAX_TOTAL);
    PositiveParses(page + 1);
  }

  lemma PositiveParses(n: int)
    requires 1 <= n <= MAX_TOTAL
    ensures PositiveDefault(Itoa(n), 1) == Some(n)
  {
    hide Itoa, Atoi;
    AtoiItoa(n);
    ItoaNotEmpty(n);
  }

  /** Every Link request, whatever its texts. */
  lemma LinkServes(value: int -> string, q: LinkRequest)
    ensures Answers(value, LinkWindow(q), LinkStep(value, q), LinkWindow)
  {
    hide Itoa, Atoi, BoundedDefault, PositiveDefault, LastPageFor, Slice, LinkTo;
    var page := PositiveDefault(q.page, 1);
    var w := LinkWindow(q);
    if w.Some? {
      var Window(total, size, start) := w.value;
      LinkServedIff(value, page.value, size, total);
      if start < total {
        StartInRange(total, size, page.value);
        assert page.value * size == start + size;
        if page.value < LastPageFor(total, size) { LinkNext(page.value, size, total); }
      }
    }
  }

  /** Every OData request, whatever its texts. */
  lemma ODataServes(value: int -> string, q: ODataRequest)
    ensures Answers(value, ODataWindow(q), OData(value, q), ODataWindow)
  {
    hide Itoa, Atoi, BoundedDefault, NonNegativeDefault, Slice;
    var w := ODataWindow(q);
    if w.Some? && w.value.start < w.value.total {
      var Window(total, size, start) := w.value;
      ParsesBack(size, DEFAULT_PAGE_SIZE, MAX_PAGE_SIZE);
      ParsesBack(total, DEFAULT_TOTAL, MAX_TOTAL);
      SkipParses(start + size);
    }
  }

  lemma SkipParses(n: int)
    requires 0 <= n <= MAX_INT64
    ensures NonNegativeDefault(Itoa(n), 0) == Some(n)
  {
    hide Itoa, Atoi;
    AtoiItoa(n);
    ItoaNotEmpty(n);
  }

  /** Every cursor request, whatever its texts. */
  lemma CursorServes(value: int -> string, q: CursorRequest)
    ensures Answers(value, CursorWindow(q), Cursor(value, q), CursorWindow)
  {
    hide BoundedDefault, EncodeCursor, DecodeCursor, Slice;
    var w := CursorWindow(q);
    if w.Some? && w.value.start < w.value.total { DecodeEncodeCursor(w.value.start + w.value.size); }
  }

  datatype AnyRequest = L(link: LinkRequest) | O(odata: ODataRequest) | C(cursor: CursorRequest)

  function WindowOf(r: AnyRequest): (w: Option<Window>)
    ensures w.Some? ==> Bounded(w.value)
  {
    match r
    case L(q) => LinkWindow(q)
    case O(q) => ODataWindow(q)
    case C(q) => CursorWindow(q)
  }

  /** A whole number between two bounds, or the given default for no text. */
  ghost predicate Reads(raw: string, def: int, lo: int, hi: int, n: int)
  {
    if raw == "" then n == def else Atoi(raw) == Some(n) && lo <= n <= hi
  }

  /** What a request asks for, told from its texts: at most 10000 items, 100 if
      not given; at most 1000 to a page, 10 if not given; from the start if not
      given, and otherwise from a page number, an item number or a cursor. */
  lemma WindowMeans(r: AnyRequest, total: int, size: int, start: int)
    ensures WindowOf(r) == Some(Window(total, size, start)) <==>
            match r
            case L(q) =>
              && Reads(q.total, 100, 1, 10_000, total) && Reads(q.perPage, 10, 1, 1000, size)
              && exists page :: Reads(q.page, 1, 1, MAX_INT64, page) && start == (page - 1) * size
            case O(q) =>
              && Reads(q.total, 100, 1, 10_000, total) && Reads(q.top, 10, 1, 1000, size)
              && Reads(q.skip, 0, 0, MAX_INT64, start)
            case C(q) =>
              && Reads(q.total, 100, 1, 10_000, total) && Reads(q.limit, 10, 1, 1000, size)
              && if q.cursor == "" then start == 0 else DecodeCursor(q.cursor) == Some(start)
  {
    hide Atoi, DecodeCursor, BoundedDefault, PositiveDefault, NonNegativeDefault;
    match r {
      case L(q) =>
        BoundedMeans(q.total, 100, 10_000, total);
        BoundedMeans(q.perPage, 10, 1000, size);
        if WindowOf(r) == Some(Window(total, size, start)) {
          var page := PositiveDefault(q.page, 1).value;
          PositiveMeans(q.page, page);
        }
        if page :| Reads(q.page, 1, 1, MAX_INT64, page) && start == (page - 1) * size { PositiveMeans(q.page, page); }
      case O(q) =>
        BoundedMeans(q.total, 100, 10_000, total);
        BoundedMeans(q.top, 10, 1000, size);
        NonNegativeMeans(q.skip, start);
      case C(q) =>
        BoundedMeans(q.total, 100, 10_000, total);
        BoundedMeans(q.limit, 10, 1000, size);
    }
  }

  lemma BoundedMeans(raw: string, def: nat, upper: nat, n: int)
    requires 1 <= def <= upper
    ensures BoundedDefault(raw, def, upper) == Some(n) <==> Reads(raw, def, 1, upper, n)
  {
    hide Atoi;
  }

  lemma AtoiRange(raw: string)
    ensures Atoi(raw).Some? ==> MIN_INT64 <= Atoi(raw).value <= MAX_INT64
  {}

  lemma PositiveMeans(raw: string, n: int)
    ensures PositiveDefault(raw, 1) == Some(n) <==> Reads(raw, 1, 1, MAX_INT64, n)
  {
    hide Atoi;
    AtoiRange(raw);
  }

  lemma NonNegativeMeans(raw: string, n: int)
    ensures NonNegativeDefault(raw, 0) == Some(n) <==> Reads(raw, 0, 0, MAX_INT64, n)
  {
    hide Atoi;
    AtoiRange(raw);
  }

  function Tagged<R, S>(r: Reply<R>, tag: R -> S): Reply<S>
  {
    match r
    case BadRequest => BadRequest
    case Page(items, None) => Page(items, None)
    case Page(items, Some(q)) => Page(items, Some(tag(q)))
  }

  function Serve(value: int -> string, r: AnyRequest): Reply<AnyRequest>
  {
    match r
    case L(q) => Tagged(LinkStep(value, q), x => L(x))
    case O(q) => Tagged(OData(value, q), x => O(x))
    case C(q) => Tagged(Cursor(value, q), x => C(x))
  }

  lemma Serves(value: int -> string, r: AnyRequest)
    ensures Answers(value, WindowOf(r), Serve(value, r), WindowOf)
  {
    hide LinkStep, OData, Cursor, LinkWindow, ODataWindow, CursorWindow, Slice;
    match r {
      case L(q) => LinkServes(value, q);
      case O(q) => ODataServes(value, q);
      case C(q) => CursorServes(value, q);
    }
  }

  /** The pages a client collects by following `next` until there is none;
      nothing if a request is refused or the replies run out first. */
  function Follow(value: int -> string, r: AnyRequest, replies: nat): Option<seq<seq<Item>>>
    decreases replies
  {
    if replies == 0 then None else
      match Serve(value, r)
      case BadRequest => None
      case Page(items, None) => Some([items])
      case Page(items, Some(r')) =>
        match Follow(value, r', replies - 1)
        case None => None
        case Some(rest) => Some([items] + rest)
  }

  /** What following a request collects: the pages of the window it asks for,
      complete after exactly that many replies. */
  function Collected(value: int -> string, w: Option<Window>, replies: nat): Option<seq<seq<Item>>>
    requires w.Some? ==> Bounded(w.value)
  {
    if w.None? || w.value.start >= w.value.total then None
    else
      var pages := PagesFrom(value, w.value.total, w.value.size, w.value.start);
      if replies < |pages| then None else Some(pages)
  }

  /** Pagination equivalence, for every request of every style and whatever its
      texts: what a client collects depends only on the window asked for, so a
      Link, an OData and a cursor request for the same window give the same
      pages. A refused request gives none. */
  lemma {:induction false} StylesAgree(value: int -> string, r: AnyRequest, replies: nat)
    ensures Follow(value, r, replies) == Collected(value, WindowOf(r), replies)
    decreases replies
  {
    hide Serve, WindowOf, Slice;
    var w := WindowOf(r);
    Serves(value, r);
    if w.Some? && w.value.start < w.value.total {
      var Window(total, size, start) := w.value;
      var rest := PagesFrom(value, total, size, start + size);
      assert PagesFrom(value, total, size, start) == [Slice(value, start, size, total)] + rest;
      if replies > 0 && start + size < total {
        StylesAgree(value, Serve(value, r).next.value, replies - 1);
      } else if start + size >= total {
        assert [Slice(value, start, size, total)] + rest == [Slice(value, start, size, total)];
      }
    }
  }

  /** References repeat what was understood, in plain decimal, and a Link reply
      names the page it is; a cursor reply leaves size and total to the client. */
  lemma ReferencesMean(value: int -> string, r: AnyRequest, total: int, size: int, start: int)
    requires WindowOf(r) == Some(Window(total, size, start)) && start < total
    ensures match r
            case L(q) =>
              && Link(value, q).LinkPage? && start == (Link(value, q).page - 1) * size
              && (start + size < total ==>
                    Link(value, q).next == Some(LinkRequest(Itoa(Link(value, q).page + 1), Itoa(size), Itoa(total))))
            case O(q) =>
              && OData(value, q).Page?
              && (start + size < total ==>
                    OData(value, q).next == Some(ODataRequest(Itoa(size), Itoa(start + size), Itoa(total))))
            case C(q) =>
              && Cursor(value, q).Page?
              && (start + size < total ==>
                    Cursor(value, q).next.Some? && Cursor(value, q).next.value.limit == q.limit
                    && Cursor(value, q).next.value.total == q.total)
  {
    hide Itoa, Atoi, BoundedDefault, PositiveDefault, NonNegativeDefault, LastPageFor, Slice, EncodeCursor, DecodeCursor;
    match r {
      case L(q) =>
        var page := PositiveDefault(q.page, 1).value;
        LinkServes(value, q);
        LinkServedIff(value, page, size, total);
      case O(q) =>
        ODataServes(value, q);
      case C(q) =>
        CursorServes(value, q);
    }
  }

  /** Following `prev` from the next page leads back to the same page. */
  lemma PrevUndoesNext(value: int -> string, q: LinkRequest)
    requires Link(value, q).LinkPage? && Link(value, q).next.Some?
    ensures var after := Link(value, Link(value, q).next.value);
            after.LinkPage? && after.prev.Some? && Link(value, after.prev.value) == Link(value, q)
  {
    hide Itoa, Atoi, Slice;
    var page := PositiveDefault(q.page, 1).value;
    var perPage := BoundedDefault(q.perPage, DEFAULT_PAGE_SIZE, MAX_PAGE_SIZE).value;
    var total := BoundedDefault(q.total, DEFAULT_TOTAL, MAX_TOTAL).value;
    ParsesBack(perPage, DEFAULT_PAGE_SIZE, MAX_PAGE_SIZE);
    ParsesBack(total, DEFAULT_TOTAL, MAX_TOTAL);
    AtoiItoa(page);
    AtoiItoa(page + 1);
    ItoaNotEmpty(page);
    ItoaNotEmpty(page + 1);
  }

  /** A page is served exactly when it starts inside the dataset, however large
      the requested number is. */
  lemma LinkServedIff(value: int -> string, page: int, perPage: int, total: int)
    requires 1 <= perPage <= MAX_PAGE_SIZE && 1 <= total <= MAX_TOTAL && page >= 1
    ensures LinkAt(value, page, perPage, total).LinkPage? <==> (page - 1) * perPage < total
  {
    var last := LastPageFor(total, perPage);
    LastPageHoldsLastItem(total, perPage);
    if page <= last {
      StartInRange(total, perPage, page);
    } else {
      MulMono(last, page - 1, perPage);
    }
  }

  /** A reference to a page leads to that page. */
  lemma LinkToLeads(value: int -> string, page: int, perPage: int, total: int)
    requires 1 <= perPage <= MAX_PAGE_SIZE && 1 <= total <= MAX_TOTAL && 1 <= page <= MAX_TOTAL
    ensures Link(value, LinkTo(page, perPage, total)) == LinkAt(value, page, perPage, total)
  {
    hide Itoa, Atoi, LinkAt;
    ParsesBack(perPage, DEFAULT_PAGE_SIZE, MAX_PAGE_SIZE);
    ParsesBack(total, DEFAULT_TOTAL, MAX_TOTAL);
    AtoiItoa(page);
    ItoaNotEmpty(page);
  }

  lemma FirstAndLastAt(value: int -> string, perPage: int, total: int)
    requires 1 <= perPage <= MAX_PAGE_SIZE && 1 <= total <= MAX_TOTAL
    ensures var first := LinkAt(value, 1, perPage, total);
            first.LinkPage? && first.prev.None? && |first.items| > 0 && first.items[0] == Item(0, value(0))
    ensures var last := LinkAt(value, LastPageFor(total, perPage), perPage, total);
            && last.LinkPage? && last.next.None? && |last.items| > 0
            && last.items[|last.items| - 1] == Item(total - 1, value(total - 1))
  {
    hide LinkTo, LastPageFor, Items;
    var lastPage := LastPageFor(total, perPage);
    LastPageHoldsLastItem(total, perPage);
    StartInRange(total, perPage, 1);
    StartInRange(total, perPage, lastPage);
    var start := (lastPage - 1) * perPage;
    assert start + perPage == lastPage * perPage;
    assert (1 - 1) * perPage == 0;
  }

  /** From any page, `first` leads to a page without `prev` that starts with
      item 0, and `last` to a page without `next` that ends with the last item. */
  lemma FirstAndLast(value: int -> string, q: LinkRequest)
    requires Link(value, q).LinkPage?
    ensures var total := BoundedDefault(q.total, DEFAULT_TOTAL, MAX_TOTAL).value;
            var first, last := Link(value, Link(value, q).first), Link(value, Link(value, q).last);
            && first.LinkPage? && first.prev.None? && |first.items| > 0 && first.items[0] == Item(0, value(0))
            && last.LinkPage? && last.next.None? && |last.items| > 0
            && last.items[|last.items| - 1] == Item(total - 1, value(total - 1))
  {
    hide LinkTo, BoundedDefault, PositiveDefault, LastPageFor, Slice;
    var perPage := BoundedDefault(q.perPage, DEFAULT_PAGE_SIZE, MAX_PAGE_SIZE).value;
    var total := BoundedDefault(q.total, DEFAULT_TOTAL, MAX_TOTAL).value;
    LastPageHoldsLastItem(total, perPage);
    LastPageSmall(total, perPage);
    LinkToLeads(value, 1, perPage, total);
    LinkToLeads(value, LastPageFor(total, perPage), perPage, total);
    FirstAndLastAt(value, perPage, total);
  }

  lemma LastPageSmall(total: int, perPage: int)
    requires 1 <= perPage <= MAX_PAGE_SIZE && 1 <= total <= MAX_TOTAL
    ensures LastPageFor(total, perPage) <= MAX_TOTAL
  {
    hide LastPageFor;
    LastPageHoldsLastItem(total, perPage);
    AtLeastItself(LastPageFor(total, perPage) - 1, perPage);
  }

  lemma AtLeastItself(a: int, k: int)
    requires a >= 0 && k >= 1
    ensures a <= a * k
  {}
}

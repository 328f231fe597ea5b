/** The three capped writers that record request and response bodies, and the
    one specification they meet. */
module Capture {
  import opened Prelude

  const STATUS_OK := 200

  /** What a handler does to a response: set the status, or write bytes. */
  datatype Op = Status(code: int) | Body(bytes: seq<Byte>)

  /** All bytes written by a sequence of operations. */
  function Bytes(ops: seq<Op>): seq<Byte>
  {
    if ops == [] then []
    else
      var n := |ops| - 1;
      Bytes(ops[..n]) + match ops[n] case Body(b) => b case Status(_) => []
  }

  function Cap(max: int): nat
  {
    if max < 0 then 0 else max
  }

  /** The first `max` bytes, or all of them. */
  function Prefix(s: seq<Byte>, max: int): seq<Byte>
  {
    if |s| <= Cap(max) then s else s[..Cap(max)]
  }

  /** The first status wins; a write without one means 200. */
  function FirstStatus(ops: seq<Op>): int
  {
    if ops == [] || ops[0].Body? then STATUS_OK else ops[0].code
  }

  /** Some write was empty although the capture was already full. */
  ghost predicate EmptyWriteAtCap(ops: seq<Op>, max: int)
  {
    exists i | 0 <= i < |ops| :: ops[i] == Body([]) && |Bytes(ops[..i])| >= Cap(max)
  }

  ghost predicate NonEmptyWrites(ops: seq<Op>)
  {
    forall i | 0 <= i < |ops| :: ops[i] != Body([])
  }

  lemma NoBytes()
    ensures Bytes([]) == []
  {}

  /** The bytes of two histories follow one another. */
  lemma {:induction false} BytesConcat(a: seq<Op>, b: seq<Op>)
    ensures Bytes(a + b) == Bytes(a) + Bytes(b)
  {
    hide Bytes;
    if b == [] {
      NoBytes();
      assert a + b == a;
    } else {
      var n := |b| - 1;
      BytesConcat(a, b[..n]);
      BytesSnoc(a + b[..n], b[n]);
      BytesSnoc(b[..n], b[n]);
      assert a + b == a + b[..n] + [b[n]] && b == b[..n] + [b[n]];
    }
  }

  lemma BytesSnoc(ops: seq<Op>, op: Op)
    ensures Bytes(ops + [op]) == Bytes(ops) + match op case Body(b) => b case Status(_) => []
  {
    assert (ops + [op])[..|ops|] == ops;
  }

  lemma EmptyWriteSnoc(ops: seq<Op>, op: Op, max: int)
    ensures EmptyWriteAtCap(ops + [op], max) <==>
            EmptyWriteAtCap(ops, max) || (op == Body([]) && |Bytes(ops)| >= Cap(max))
  {
    var more := ops + [op];
    assert more[..|ops|] == ops;
    assert forall i | 0 <= i < |ops| :: more[..i] == ops[..i] && more[i] == ops[i];
    if EmptyWriteAtCap(ops, max) {
      var i :| 0 <= i < |ops| && ops[i] == Body([]) && |Bytes(ops[..i])| >= Cap(max);
      assert more[i] == Body([]) && |Bytes(more[..i])| >= Cap(max);
    }
    if op == Body([]) && |Bytes(ops)| >= Cap(max) {
      assert more[|ops|] == Body([]) && |Bytes(more[..|ops|])| >= Cap(max);
    }
  }

  /** What one more write adds to a capture. */
  lemma PrefixExtends(s: seq<Byte>, p: seq<Byte>, max: int)
    ensures var remaining := max - |Prefix(s, max)|;
            && (remaining <= 0 <==> |s| >= Cap(max))
            && (remaining <= 0 ==> Prefix(s + p, max) == Prefix(s, max))
            && (0 < remaining < |p| ==> Prefix(s + p, max) == Prefix(s, max) + p[..remaining])
            && (remaining > 0 && remaining >= |p| ==> Prefix(s + p, max) == Prefix(s, max) + p)
            && (remaining > 0 ==> (|s + p| > Cap(max) <==> |p| > remaining))
            && (|s| > Cap(max) ==> |s + p| > Cap(max))
  {}

  /** When the replay and request writers raise their flag. */
  ghost predicate Overflowed(ops: seq<Op>, max: int)
  {
    |Bytes(ops)| > Cap(max) || EmptyWriteAtCap(ops, max)
  }

  /** With an empty write at a full capture the flag says more than it should. */
  lemma EmptyWriteRaisesFlag()
    ensures Overflowed([Body([7]), Body([])], 1) && |Bytes([Body([7]), Body([])])| == 1
  {
    var ops := [Body([7]), Body([])];
    assert ops[..1] == [Body([7])] && [Body([7])][..0] == [];
    assert Bytes([Body([7])]) == [7];
    assert ops[1] == Body([]) && |Bytes(ops[..1])| >= Cap(1);
  }

  // ---------------------------------------------------------------- replay and Try-It responses

  class CapResponseWriter {
    var status: int
    var body: seq<Byte>
    const maxBytes: int
    var truncated: bool
    var wroteHeader: bool
    ghost var ops: seq<Op>

    ghost predicate Valid()
      reads this
    {
      && status == FirstStatus(ops) && (wroteHeader <==> ops != [])
      && body == Prefix(Bytes(ops), maxBytes)
      && (truncated <==> Overflowed(ops, maxBytes))
    }

    constructor (maxBytes: int)
      ensures Valid() && ops == [] && this.maxBytes == maxBytes
    {
      this.maxBytes := maxBytes;
      status, body, truncated, wroteHeader, ops := STATUS_OK, [], false, false, [];
    }

    method WriteHeader(code: int)
      requires Valid()
      modifies this
      ensures Valid() && ops == old(ops) + [Status(code)]
    {
      BytesSnoc(ops, Status(code));
      EmptyWriteSnoc(ops, Status(code), maxBytes);
      ops := ops + [Status(code)];
      if wroteHeader {
        return;
      }
      status := code;
      wroteHeader := true;
    }

    method Write(p: seq<Byte>) returns (n: nat)
      requires Valid()
      modifies this
      ensures Valid() && ops == old(ops) + [Body(p)] && n == |p|
    {
      hide Bytes, EmptyWriteAtCap, Prefix;
      BytesSnoc(ops, Body(p));
      EmptyWriteSnoc(ops, Body(p), maxBytes);
      PrefixExtends(Bytes(ops), p, maxBytes);
      ops := ops + [Body(p)];
      if !wroteHeader {
        status := STATUS_OK;
        wroteHeader := true;
      }
      var remaining := maxBytes - |body|;
      if remaining <= 0 {
        truncated := true;
        return |p|;
      }
      if |p| > remaining {
        body := body + p[..remaining];
        truncated := true;
        return |p|;
      }
      body := body + p;
      return |p|;
    }
  }

  // ---------------------------------------------------------------- audited responses

  class AuditRecorder {
    var status: int
    var wroteHeader: bool
    var body: seq<Byte>
    const max: int
    const capture: bool
    var truncated: bool
    var bytesTotal: int
    ghost var ops: seq<Op>

    ghost predicate Valid()
      reads this
    {
      && status == FirstStatus(ops) && (wroteHeader <==> ops != [])
      && body == (if capture then Prefix(Bytes(ops), max) else [])
      && (truncated <==> capture && |Bytes(ops)| > Cap(max))
    }

    constructor (max: int, capture: bool)
      ensures Valid() && ops == [] && this.max == max && this.capture == capture && bytesTotal == 0
    {
      this.max, this.capture := max, capture;
      status, wroteHeader, body, truncated, bytesTotal, ops := STATUS_OK, false, [], false, 0, [];
    }

    method WriteHeader(code: int)
      requires Valid()
      modifies this
      ensures Valid() && ops == old(ops) + [Status(code)] && bytesTotal == old(bytesTotal)
    {
      BytesSnoc(ops, Status(code));
      ops := ops + [Status(code)];
      if wroteHeader {
        return;
      }
      wroteHeader := true;
      status := code;
    }

    /** `downstream` is the count the wrapped writer reports. */
    method Write(b: seq<Byte>, downstream: nat) returns (n: nat)
      requires Valid()
      modifies this
      ensures Valid() && ops == old(ops) + [Body(b)]
      ensures n == downstream && bytesTotal == old(bytesTotal) + downstream
    {
      hide Bytes, Prefix;
      BytesSnoc(ops, Body(b));
      PrefixExtends(Bytes(ops), b, max);
      ops := ops + [Body(b)];
      if !wroteHeader {
        wroteHeader := true;
        status := STATUS_OK;
      }
      if capture {
        var remaining := max - |body|;
        var captured := 0;
        if remaining > 0 {
          captured := remaining;
          if captured > |b| {
            captured := |b|;
          }
          body := body + b[..captured];
        }
        if captured < |b| {
          truncated := true;
        }
      }
      n := downstream;
      bytesTotal := bytesTotal + n;
    }
  }

  /** A whole response through the replay writer: the first status, the first
      `max` bytes, and a flag that, for non-empty writes, means bytes were lost. */
  method ReplayResponse(ops: seq<Op>, max: int) returns (status: int, body: seq<Byte>, truncated: bool)
    ensures status == FirstStatus(ops) && body == Prefix(Bytes(ops), max)
    ensures truncated <==> |Bytes(ops)| > Cap(max) || EmptyWriteAtCap(ops, max)
    ensures NonEmptyWrites(ops) ==> (truncated <==> |Bytes(ops)| > Cap(max))
    ensures status == if ops != [] && ops[0].Status? then ops[0].code else 200
    ensures body <= Bytes(ops) && (|body| == |Bytes(ops)| <= max || |body| == max < |Bytes(ops)| || max <= 0 == |body|)
    ensures NonEmptyWrites(ops) ==> (truncated <==> body != Bytes(ops))
  {
    hide Bytes;
    var w := new CapResponseWriter(max);
    for i := 0 to |ops|
      invariant fresh(w) && w.Valid() && w.maxBytes == max && w.ops == ops[..i]
    {
      match ops[i] {
        case Status(code) => w.WriteHeader(code);
        case Body(bytes) => var _ := w.Write(bytes);
      }
    }
    assert ops[..|ops|] == ops;
    status, body, truncated := w.status, w.body, w.truncated;
  }

  /** A whole response through the audit recorder, with a downstream writer
      that takes all it is given. */
  method AuditResponse(ops: seq<Op>, max: int) returns (status: int, body: seq<Byte>, truncated: bool, total: int)
    ensures status == FirstStatus(ops) && body == Prefix(Bytes(ops), max)
    ensures truncated <==> |Bytes(ops)| > Cap(max)
    ensures total == |Bytes(ops)|
    ensures status == if ops != [] && ops[0].Status? then ops[0].code else 200
    ensures body <= Bytes(ops) && (|body| == |Bytes(ops)| <= max || |body| == max < |Bytes(ops)| || max <= 0 == |body|)
    ensures truncated <==> body != Bytes(ops)
  {
    hide Bytes;
    assert |Bytes(ops[..0])| == 0 by { NoBytes(); assert ops[..0] == []; }
    var w := new AuditRecorder(max, true);
    for i := 0 to |ops|
      invariant fresh(w) && w.Valid() && w.max == max && w.capture && w.ops == ops[..i]
      invariant w.bytesTotal == |Bytes(ops[..i])|
    {
      assert ops[..i + 1] == ops[..i] + [ops[i]];
      BytesSnoc(ops[..i], ops[i]);
      match ops[i] {
        case Status(code) => w.WriteHeader(code);
        case Body(bytes) => var _ := w.Write(bytes, |bytes|);
      }
    }
    assert ops[..|ops|] == ops;
    status, body, truncated, total := w.status, w.body, w.truncated, w.bytesTotal;
  }

  // ---------------------------------------------------------------- request bodies

  class CapWriter {
    var buf: seq<Byte>
    const max: int
    var oversize: bool
    ghost var ops: seq<Op>

    ghost predicate Valid()
      reads this
    {
      && buf == Prefix(Bytes(ops), max)
      && (oversize <==> Overflowed(ops, max))
    }

    constructor (max: int)
      ensures Valid() && ops == [] && this.max == max
    {
      this.max := max;
      buf, oversize, ops := [], false, [];
    }

    method Write(p: seq<Byte>) returns (n: nat)
      requires Valid()
      modifies this
      ensures Valid() && ops == old(ops) + [Body(p)] && n == |p|
    {
      hide Bytes, EmptyWriteAtCap, Prefix;
      BytesSnoc(ops, Body(p));
      EmptyWriteSnoc(ops, Body(p), max);
      PrefixExtends(Bytes(ops), p, max);
      ops := ops + [Body(p)];
      var remaining := max - |buf|;
      if remaining <= 0 {
        oversize := true;
        return |p|;
      }
      var k := remaining;
      if k > |p| {
        k := |p|;
      }
      buf := buf + p[..k];
      if k < |p| {
        oversize := true;
      }
      return |p|;
    }
  }

  /** The tee mirrors each read into the writer, but never an empty one. */
  method TeeRead(w: CapWriter, read: seq<Byte>) returns (n: nat)
    requires w.Valid() && NonEmptyWrites(w.ops)
    modifies w
    ensures w.Valid() && NonEmptyWrites(w.ops) && n == |read|
    ensures Bytes(w.ops) == old(Bytes(w.ops)) + read
  {
    n := |read|;
    BytesSnoc(w.ops, Body(read));
    if n > 0 {
      var _ := w.Write(read);
    }
  }

  /** Reading a whole body through the tee captures its first `max` bytes and
      flags exactly the bodies that are longer. */
  method CaptureRequest(chunks: seq<seq<Byte>>, max: int) returns (captured: seq<Byte>, oversize: bool)
    ensures captured == Prefix(Concat(chunks), max)
    ensures oversize <==> |Concat(chunks)| > Cap(max)
    ensures captured <= Concat(chunks) && (oversize <==> captured != Concat(chunks))
    ensures |captured| == |Concat(chunks)| <= max || |captured| == max < |Concat(chunks)| || max <= 0 == |captured|
  {
    var w := new CapWriter(max);
    for i := 0 to |chunks|
      invariant fresh(w) && w.Valid() && NonEmptyWrites(w.ops)
      invariant Bytes(w.ops) == Concat(chunks[..i])
    {
      assert chunks[..i + 1][..i] == chunks[..i];
      var _ := TeeRead(w, chunks[i]);
    }
    assert chunks[..|chunks|] == chunks;
    captured, oversize := w.buf, w.oversize;
  }

  function Concat(chunks: seq<seq<Byte>>): seq<Byte>
  {
    if chunks == [] then [] else Concat(chunks[..|chunks| - 1]) + chunks[|chunks| - 1]
  }

  /** The three writers over the same bytes, however each was cut into writes
      and whatever statuses were set between: the captured bytes are the same,
      the audit flags of a request and of a response agree, and the replay flag
      agrees with them unless an empty write met a capture that was just full. */
  method WritersAgree(replay: seq<Op>, audit: seq<Op>, request: seq<seq<Byte>>, max: int)
    returns (bodies: seq<seq<Byte>>, flags: seq<bool>)
    requires Bytes(replay) == Bytes(audit) == Concat(request)
    ensures |bodies| == |flags| == 3 && bodies[0] == bodies[1] == bodies[2] <= Concat(request)
    ensures flags[1] == flags[2] == (bodies[0] != Concat(request))
    ensures flags[0] == flags[1] <==> !(EmptyWriteAtCap(replay, max) && bodies[0] == Concat(request))
  {
    var _, body0, flag0 := ReplayResponse(replay, max);
    var _, body1, flag1, _ := AuditResponse(audit, max);
    var body2, flag2 := CaptureRequest(request, max);
    bodies, flags := [body0, body1, body2], [flag0, flag1, flag2];
  }
}

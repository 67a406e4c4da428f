/**
 * The server's response object (`AsyncHttpServerResponseImpl`): the status
 * code and header block, the one-time first write that fixes the framing, the
 * callback slots held until the connection sink exists, and the Range header
 * handling of `sendStream`. What it hands to the connection is recorded as a
 * sequence of events.
 */
module ServerResponse {
  import opened Outcomes
  import opened Chain
  import opened HttpText

  /** A writable or closed callback handed to the response; only its identity matters. */
  type Callback = nat

  /** `mSink`: unset until the header write completes, then the socket or a chunking filter over it. */
  datatype Sink = NoSink | SocketSink | ChunkedSink(maxBuffer: int)

  /** What the response hands to the connection and to its callbacks, in order. */
  datatype Event =
      /** `Util.writeAll` of the status line for `code` and the header block. */
    | HeadWrite(code: int, headers: Headers)
      /** `mSink.write` of a list holding `count` bytes. */
    | BodyWrite(count: int)
      /** A pending writable callback called on completion of the header write. */
    | WritableFired(callback: Callback)
      /** `Util.writeAll` of a whole body through this response (`send`). */
    | BodyQueued(body: seq<int>)
      /** `Util.pump` of `length` bytes of a stream through this response. */
    | StreamPumped(length: int)

  const TransferEncoding: string := "Transfer-Encoding"
  const ContentLengthHeader: string := "Content-Length"

  /** A Java `long` result: `x` wrapped into the 64-bit two's complement range. */
  function Wrap64(x: int): (r: int)
    ensures LongMin <= r <= LongMax
    ensures (r - x) % 0x1_0000_0000_0000_0000 == 0
    ensures LongMin <= x <= LongMax ==> r == x
  {
    (x - LongMin) % 0x1_0000_0000_0000_0000 + LongMin
  }

  // ---------------------------------------------------------------------------
  // the first-write decision

  /** The headers with an empty Transfer-Encoding removed. */
  function Cleared(h: Headers): (c: Headers)
    ensures Get(h, TransferEncoding) == Some("") ==> TransferEncoding !in c
    ensures Get(h, TransferEncoding) != Some("") ==> c == h
    ensures forall k | k != TransferEncoding :: Get(c, k) == Get(h, k)
  {
    if Get(h, TransferEncoding) == Some("") then h - {TransferEncoding} else h
  }

  /**
   * The content length once the header has been consulted: a length already
   * set stays; otherwise a non-empty Content-Length is read with
   * `Long.valueOf`, which fails (None) on anything that is not a `long`.
   */
  function ReadLength(h: Headers, len: int): Option<int>
  {
    if len < 0 && !IsEmpty(Get(h, ContentLengthHeader)) then ParseDecimal(Get(h, ContentLengthHeader), LongMin, LongMax)
    else Some(len)
  }

  /** Chunking is allowed when Transfer-Encoding is absent or "Chunked" and Connection is not "close" (ignoring case). */
  predicate CanChunk(h: Headers)
  {
    (MatchesIgnoreCase("Chunked", Get(h, TransferEncoding)) || Get(h, TransferEncoding).None?)
    && !MatchesIgnoreCase("close", Get(h, "Connection"))
  }

  /** The outcome of a successful first write: the headers sent, the content length, and the framing. */
  datatype FirstWrite = FirstWrite(headers: Headers, contentLength: int, chunked: bool)

  /** The decision `initFirstWrite` makes from the headers and the content length set so far. */
  function Decide(h: Headers, len: int): Result<FirstWrite>
  {
    match ReadLength(Cleared(h), len)
    case None => Failure
    case Some(n) =>
      var chunked := n < 0 && CanChunk(h);
      Success(FirstWrite(if chunked then Cleared(h)[TransferEncoding := "Chunked"] else Cleared(h), n, chunked))
  }

  /**
   * The first write chooses chunked framing exactly when no length is known
   * and chunking is allowed, and then announces it; an empty
   * Transfer-Encoding is dropped (and rules chunking out); no other header
   * changes.
   */
  lemma FirstWriteRule(h: Headers, len: int)
    requires Decide(h, len).Success?
    ensures var d := Decide(h, len).value;
      && (d.chunked <==>
           d.contentLength < 0
           && (Get(h, TransferEncoding).None? || MatchesIgnoreCase("Chunked", Get(h, TransferEncoding)))
           && !MatchesIgnoreCase("close", Get(h, "Connection")))
      && (d.chunked ==> Get(d.headers, TransferEncoding) == Some("Chunked"))
      && (Get(h, TransferEncoding) == Some("") ==> !d.chunked && TransferEncoding !in d.headers)
      && (forall k | k != TransferEncoding :: Get(d.headers, k) == Get(h, k))
      && (len >= 0 ==> d.contentLength == len)
  {
  }

  /** The first write fails exactly when it must parse a Content-Length that is not a `long`. */
  lemma FirstWriteFailure(h: Headers, len: int)
    ensures Decide(h, len).Failure? <==>
              len < 0 && ContentLengthHeader in h && h[ContentLengthHeader] != ""
              && ParseDecimal(Some(h[ContentLengthHeader]), LongMin, LongMax).None?
  {
  }

  /** A Content-Length header that spells out a `long` length leaves the first write that length. */
  lemma DeclaredLengthDecides(h: Headers, n: int)
    requires LongMin <= n <= LongMax && Get(h, ContentLengthHeader) == Some(ToDecimal(n))
    ensures Decide(h, n).Success? && Decide(h, n).value.contentLength == n
  {
    if n < 0 {
      DecimalRoundTrip(n, LongMin, LongMax);
    }
  }

  /** The events of a first write whose header write does (or does not yet) complete. */
  function FirstWriteEvents(code: int, headers: Headers, writable: Option<Callback>, completes: bool): seq<Event>
  {
    [HeadWrite(code, headers)] + (if completes && writable.Some? then [WritableFired(writable.value)] else [])
  }

  // ---------------------------------------------------------------------------
  // Range

  /** What the Range header of a request asks `sendStream` for. */
  datatype RangeReply =
      /** No Range header: the whole stream. */
    | Whole(start: int, end: int)
      /** 416 Requested Range Not Satisfiable. */
    | Unsatisfiable
      /** 206 Partial Content for `start..end`, as given. */
    | Partial(start: int, end: int)

  /**
   * The Range parsing of `sendStream`: "bytes=" and one spec of at most two
   * `-`-separated numbers; a missing start is 0 and a missing end is the last
   * byte. Neither bound is checked against the other or against the length.
   */
  function ParseRange(range: Option<string>, total: int): RangeReply
  {
    var last := Wrap64(total - 1);
    if range.None? then Whole(0, last)
    else
      var parts := Split(range.value, '=');
      if |parts| != 2 || parts[0] != "bytes" then Unsatisfiable
      else
        var bounds := Split(parts[1], '-');
        if |bounds| == 0 || |bounds| > 2 then Unsatisfiable
        else
          var start := if bounds[0] == "" then Some(0) else ParseDecimal(Some(bounds[0]), LongMin, LongMax);
          var end := if |bounds| == 2 && bounds[1] != "" then ParseDecimal(Some(bounds[1]), LongMin, LongMax) else Some(last);
          if start.None? || end.None? then Unsatisfiable else Partial(start.value, end.value)
  }

  /** The Content-Range value of a partial reply. */
  function ContentRange(start: int, end: int, total: int): string
  {
    "bytes " + ToDecimal(start) + "-" + ToDecimal(end) + "/" + ToDecimal(total)
  }

  lemma {:induction false} FieldsOfSingle(x: string, c: char)
    requires c !in x
    ensures Fields(x, c) == [x]
  {
    if x != [] {
      FieldsOfSingle(x[1..], c);
      assert [x[0]] + x[1..] == x;
    }
  }

  lemma {:induction false} FieldsOfPair(x: string, c: char, y: string)
    requires c !in x
    ensures Fields(x + [c] + y, c) == [x] + Fields(y, c)
  {
    if x == [] {
      assert x + [c] + y == [c] + y;
      assert ([c] + y)[1..] == y;
    } else {
      FieldsOfPair(x[1..], c, y);
      assert (x + [c] + y)[1..] == x[1..] + [c] + y;
      assert [x[0]] + x[1..] == x;
    }
  }

  /** Splitting `x c y` on `c`, where neither part holds `c` and `y` is not empty, gives the two parts. */
  lemma SplitPair(x: string, c: char, y: string)
    requires c !in x && c !in y && y != ""
    ensures Split(x + [c] + y, c) == [x, y]
  {
    FieldsOfPair(x, c, y);
    FieldsOfSingle(y, c);
    assert (x + [c] + y)[|x|] == c;
  }

  lemma {:induction false} NatDigitsPlain(n: nat)
    ensures forall i | 0 <= i < |NatDigits(n)| :: NatDigits(n)[i] != '-' && NatDigits(n)[i] != '='
  {
    if n >= 10 {
      NatDigitsPlain(n / 10);
    }
  }

  /** A range written as "bytes=s-e" with decimal bounds reads back as exactly that range. */
  lemma RangeRoundTrip(s: nat, e: nat, total: int)
    requires s <= LongMax && e <= LongMax
    ensures ParseRange(Some("bytes=" + ToDecimal(s) + "-" + ToDecimal(e)), total) == Partial(s, e)
  {
    var a, b := ToDecimal(s), ToDecimal(e);
    NatDigitsPlain(s);
    NatDigitsPlain(e);
    SplitPair(a, '-', b);
    assert '=' !in a + ['-'] + b;
    assert "bytes=" + a + "-" + b == "bytes" + ['='] + (a + ['-'] + b);
    SplitPair("bytes", '=', a + ['-'] + b);
    DecimalRoundTrip(s, LongMin, LongMax);
    DecimalRoundTrip(e, LongMin, LongMax);
  }

  /** "bytes=-n" is not a suffix range here: it asks for bytes 0 through n. */
  lemma LeadingDashIsNoSuffix(n: nat, total: int)
    requires n <= LongMax
    ensures ParseRange(Some("bytes=-" + ToDecimal(n)), total) == Partial(0, n)
  {
    var b := ToDecimal(n);
    NatDigitsPlain(n);
    SplitPair("", '-', b);
    assert "" + ['-'] + b == "-" + b;
    assert '=' !in "-" + b;
    assert "bytes=-" + b == "bytes" + ['='] + ("-" + b);
    SplitPair("bytes", '=', "-" + b);
    DecimalRoundTrip(n, LongMin, LongMax);
  }

  /** Only "bytes=" with one spec can be satisfied; a missing end means the last byte. */
  lemma RangeShape(r: string, total: int)
    ensures ParseRange(Some(r), total).Partial? ==>
              var parts := Split(r, '=');
              |parts| == 2 && parts[0] == "bytes" && 1 <= |Split(parts[1], '-')| <= 2
    ensures ParseRange(Some(r), total).Partial? && |Split(Split(r, '=')[1], '-')| == 1 ==>
              ParseRange(Some(r), total).end == Wrap64(total - 1)
    ensures ParseRange(Some(r), total).Partial? ==>
              LongMin <= ParseRange(Some(r), total).start <= LongMax && LongMin <= ParseRange(Some(r), total).end <= LongMax
  {
  }

  // ---------------------------------------------------------------------------
  // the response

  class Response {
    var headers: Headers
    var contentLength: int
    var hasWritten: bool
    /** `isChunked`, as fixed by the first write. */
    var chunked: bool
    /** Whether the header write has been issued and has not completed yet. */
    var headPending: bool
    var sink: Sink
    var code: int
    var ended: bool
    /** The writable and closed slots held by the response until the sink exists. */
    var writable: Option<Callback>
    var closedCallback: Option<Callback>
    /** The same slots on the sink, once it exists. */
    var sinkWritable: Option<Callback>
    var sinkClosed: Option<Callback>
    var events: seq<Event>
    /** The request being answered: its method and its headers. */
    const requestMethod: string
    const requestHeaders: Headers

    /**
     * The sink exists only after the header write completed and then matches
     * the framing; from then on the response's own slots stay empty.
     */
    ghost predicate Valid()
      reads this
    {
      && (sink != NoSink ==> hasWritten && !headPending && writable.None? && closedCallback.None?
                             && (sink.ChunkedSink? <==> chunked))
      && (sink == NoSink ==> sinkWritable.None? && sinkClosed.None?)
      && (headPending ==> hasWritten && sink == NoSink)
      && (chunked ==> hasWritten)
    }

    /** The response to a request; `keepAlive` is what `HttpUtil.isKeepAlive` says of the request. */
    constructor (keepAlive: bool, reqMethod: string, reqHeaders: Headers)
      ensures Valid() && requestMethod == reqMethod && requestHeaders == reqHeaders
      ensures headers == if keepAlive then map["Connection" := "Keep-Alive"] else map[]
      ensures contentLength == -1 && code == 200 && !hasWritten && !ended && sink == NoSink && events == []
      ensures writable.None? && closedCallback.None?
    {
      headers := if keepAlive then map["Connection" := "Keep-Alive"] else map[];
      contentLength, hasWritten, chunked, headPending := -1, false, false, false;
      sink, code, ended := NoSink, 200, false;
      writable, closedCallback, sinkWritable, sinkClosed := None, None, None, None;
      events := [];
      requestMethod, requestHeaders := reqMethod, reqHeaders;
    }

    /** `code()`. */
    function Code(): int
      reads this
    {
      code
    }

    /** `code(c)`. */
    method SetCode(c: int)
      requires Valid()
      modifies this`code
      ensures Valid() && Code() == c
    {
      code := c;
    }

    /** `getWriteableCallback()`: the sink's slot once there is a sink, the response's own before. */
    function GetWriteableCallback(): Option<Callback>
      reads this
    {
      if sink != NoSink then sinkWritable else writable
    }

    /** `getClosedCallback()`. */
    function GetClosedCallback(): Option<Callback>
      reads this
    {
      if sink != NoSink then sinkClosed else closedCallback
    }

    /** `setWriteableCallback`: held in the response's slot until the sink exists, handed to the sink after. */
    method SetWriteableCallback(handler: Option<Callback>)
      requires Valid()
      modifies this`writable, this`sinkWritable
      ensures Valid() && GetWriteableCallback() == handler && GetClosedCallback() == old(GetClosedCallback())
      ensures sink == NoSink ==> writable == handler && sinkWritable == old(sinkWritable)
      ensures sink != NoSink ==> sinkWritable == handler && writable == old(writable)
    {
      if sink != NoSink {
        sinkWritable := handler;
      } else {
        writable := handler;
      }
    }

    /** `setClosedCallback`, the same for the closed slot. */
    method SetClosedCallback(handler: Option<Callback>)
      requires Valid()
      modifies this`closedCallback, this`sinkClosed
      ensures Valid() && GetClosedCallback() == handler && GetWriteableCallback() == old(GetWriteableCallback())
      ensures sink == NoSink ==> closedCallback == handler && sinkClosed == old(sinkClosed)
      ensures sink != NoSink ==> sinkClosed == handler && closedCallback == old(closedCallback)
    {
      if sink != NoSink {
        sinkClosed := handler;
      } else {
        closedCallback := handler;
      }
    }

    /**
     * Completion of the header write: the sink is created for the chosen
     * framing, both slots move to it, and a pending writable callback is
     * called once and cleared. Callers see the same callbacks as before.
     */
    method HeadWritten()
      requires Valid() && headPending
      modifies this`sink, this`headPending, this`writable, this`closedCallback, this`sinkWritable, this`sinkClosed, this`events
      ensures Valid() && !headPending
      ensures sink == if chunked then ChunkedSink(0) else SocketSink
      ensures sinkWritable == old(writable) && sinkClosed == old(closedCallback)
      ensures GetWriteableCallback() == old(GetWriteableCallback()) && GetClosedCallback() == old(GetClosedCallback())
      ensures events == old(events) + if old(writable).Some? then [WritableFired(old(writable).value)] else []
    {
      sink := if chunked then ChunkedSink(0) else SocketSink;
      headPending := false;
      sinkClosed := closedCallback;
      closedCallback := None;
      sinkWritable := writable;
      if writable.Some? {
        events := events + [WritableFired(writable.value)];
        writable := None;
      }
    }

    /**
     * `initFirstWrite`: only the first call does anything. It marks the
     * response written, applies `Decide`, and issues the header write; when
     * `completes` the write finishes at once and `HeadWritten` runs inside.
     * A Content-Length that `Long.valueOf` rejects throws after the response
     * was marked written and an empty Transfer-Encoding dropped.
     */
    method InitFirstWrite(completes: bool) returns (r: Result<()>)
      requires Valid()
      modifies this`hasWritten, this`headers, this`contentLength, this`chunked, this`headPending, this`sink,
               this`writable, this`closedCallback, this`sinkWritable, this`sinkClosed, this`events
      ensures Valid() && hasWritten
      ensures old(hasWritten) ==> r.Success? && unchanged(this)
      ensures !old(hasWritten) ==> (r.Failure? <==> Decide(old(headers), old(contentLength)).Failure?)
      ensures !old(hasWritten) && r.Failure? ==>
                headers == Cleared(old(headers)) && contentLength == old(contentLength) && !headPending
                && sink == NoSink && events == old(events)
                && writable == old(writable) && closedCallback == old(closedCallback)
      ensures !old(hasWritten) && r.Success? ==>
                var d := Decide(old(headers), old(contentLength)).value;
                && headers == d.headers && contentLength == d.contentLength && chunked == d.chunked
                && events == old(events) + FirstWriteEvents(code, d.headers, old(writable), completes)
                && (completes ==> sink == (if d.chunked then ChunkedSink(0) else SocketSink) && !headPending)
                && (!completes ==> sink == NoSink && headPending)
                && GetWriteableCallback() == old(GetWriteableCallback()) && GetClosedCallback() == old(GetClosedCallback())
    {
      if hasWritten {
        return Success(());
      }
      hasWritten := true;
      r := ChooseFraming();
      if r.Failure? {
        return;
      }
      IssueHead(completes);
    }

    /** The header and length part of `initFirstWrite`, which `Decide` describes. */
    method ChooseFraming() returns (r: Result<()>)
      requires Valid() && hasWritten && sink == NoSink && !headPending
      modifies this`headers, this`contentLength, this`chunked
      ensures Valid()
      ensures r.Failure? <==> Decide(old(headers), old(contentLength)).Failure?
      ensures r.Failure? ==> headers == Cleared(old(headers)) && contentLength == old(contentLength)
      ensures r.Success? ==>
                var d := Decide(old(headers), old(contentLength)).value;
                headers == d.headers && contentLength == d.contentLength && chunked == d.chunked
    {
      var current := Get(headers, TransferEncoding);
      if current == Some("") {
        headers := headers - {TransferEncoding};
      }
      var canChunk := (MatchesIgnoreCase("Chunked", current) || current.None?)
                      && !MatchesIgnoreCase("close", Get(headers, "Connection"));
      if contentLength < 0 {
        var declared := Get(headers, ContentLengthHeader);
        if !IsEmpty(declared) {
          var parsed := ParseDecimal(declared, LongMin, LongMax);
          if parsed.None? {
            return Failure;
          }
          contentLength := parsed.value;
        }
      }
      if contentLength < 0 && canChunk {
        headers := headers[TransferEncoding := "Chunked"];
        chunked := true;
      } else {
        chunked := false;
      }
      return Success(());
    }

    /** The header write, and its completion at once when `completes`. */
    method IssueHead(completes: bool)
      requires Valid() && hasWritten && sink == NoSink && !headPending
      modifies this`headPending, this`sink, this`writable, this`closedCallback, this`sinkWritable, this`sinkClosed, this`events
      ensures Valid()
      ensures events == old(events) + FirstWriteEvents(code, headers, old(writable), completes)
      ensures completes ==> sink == (if chunked then ChunkedSink(0) else SocketSink) && !headPending
      ensures !completes ==> sink == NoSink && headPending && writable == old(writable) && closedCallback == old(closedCallback)
      ensures GetWriteableCallback() == old(GetWriteableCallback()) && GetClosedCallback() == old(GetClosedCallback())
    {
      events := events + [HeadWrite(code, headers)];
      headPending := true;
      if completes {
        HeadWritten();
      }
    }

    /**
     * `write(bb)`: the first write comes first; the bytes go to the sink only
     * when the list holds some and the sink exists. The result says whether
     * they went.
     */
    method Write(bb: ByteBufferList, completes: bool) returns (r: Result<bool>)
      requires Valid() && bb.Valid()
      modifies this`hasWritten, this`headers, this`contentLength, this`chunked, this`headPending, this`sink,
               this`writable, this`closedCallback, this`sinkWritable, this`sinkClosed, this`events
      ensures Valid() && hasWritten
      ensures r.Failure? <==> !old(hasWritten) && Decide(old(headers), old(contentLength)).Failure?
      ensures r.Success? ==> (r.value <==> bb.Remaining() > 0 && sink != NoSink)
      ensures old(hasWritten) ==>
                events == old(events) + (if r.Success? && r.value then [BodyWrite(bb.Remaining())] else [])
                && headers == old(headers) && sink == old(sink) && contentLength == old(contentLength)
      ensures !old(hasWritten) && r.Success? ==>
                var d := Decide(old(headers), old(contentLength)).value;
                events == old(events) + FirstWriteEvents(code, d.headers, old(writable), completes)
                          + (if r.value then [BodyWrite(bb.Remaining())] else [])
    {
      if !hasWritten {
        var first := InitFirstWrite(completes);
        if first.Failure? {
          return Failure;
        }
      }
      if bb.Remaining() == 0 || sink == NoSink {
        return Success(false);
      }
      events := events + [BodyWrite(bb.Remaining())];
      return Success(true);
    }

    /** `onEnd()`, also run when a queued body or a pumped stream has been written. */
    method OnEnd()
      modifies this`ended
      ensures ended
    {
      ended := true;
    }

    /**
     * `send(contentType, body)`: the length and type headers are set and the
     * body goes out through `Util.writeAll(this, …)`. writeAll puts its own
     * writable callback in the response's slot, so no callback of the
     * caller's is left there, and writes through `write`, so the first write
     * happens here if it has not already; the length is known, so that first
     * write cannot throw. writeAll completes, running `onEnd`, as soon as
     * nothing is left to write: at once for an empty body, and otherwise
     * when the connection takes writes at once (`completes`) and the sink
     * exists.
     */
    method Send(contentType: string, body: seq<int>, completes: bool)
      requires Valid()
      modifies this
      ensures Valid() && hasWritten && contentLength == |body| && code == old(code)
      ensures Get(headers, ContentLengthHeader) == Some(ToDecimal(|body|)) && Get(headers, "Content-Type") == Some(contentType)
      ensures var h := old(headers)[ContentLengthHeader := ToDecimal(|body|)]["Content-Type" := contentType];
              && (old(hasWritten) ==> headers == h && events == old(events) + [BodyQueued(body)])
              && (!old(hasWritten) ==>
                    headers == Cleared(h) && !chunked && events == old(events) + [HeadWrite(code, Cleared(h)), BodyQueued(body)])
      ensures GetWriteableCallback().None? && GetClosedCallback() == old(GetClosedCallback())
      ensures ended <==> old(ended) || body == [] || (completes && sink != NoSink)
    {
      contentLength := |body|;
      headers := headers[ContentLengthHeader := ToDecimal(|body|)];
      headers := headers["Content-Type" := contentType];
      WriteAll(body, completes);
    }

    /** `Util.writeAll(this, body, …)` once the length of `body` is set, as `Send` describes it. */
    method WriteAll(body: seq<int>, completes: bool)
      requires Valid() && contentLength == |body|
      modifies this
      ensures Valid() && hasWritten && contentLength == |body| && code == old(code)
      ensures old(hasWritten) ==> headers == old(headers) && events == old(events) + [BodyQueued(body)]
      ensures !old(hasWritten) ==>
                headers == Cleared(old(headers)) && !chunked
                && events == old(events) + [HeadWrite(code, Cleared(old(headers))), BodyQueued(body)]
      ensures GetWriteableCallback().None? && GetClosedCallback() == old(GetClosedCallback())
      ensures ended <==> old(ended) || body == [] || (completes && sink != NoSink)
    {
      SetWriteableCallback(None);
      assert Decide(headers, contentLength).Success?;
      var first := InitFirstWrite(completes);
      if first.Failure? {
        assert false;
      }
      events := events + [BodyQueued(body)];
      if body == [] || (completes && sink != NoSink) {
        ended := true;
      }
    }

    /**
     * What `end()` leaves, starting from the headers `h` and otherwise from
     * the state before the call. With Transfer-Encoding "Chunked" it writes
     * the terminating empty chunk through the chunking sink, which fails (a
     * null or mistyped sink in the source) when the sink is not the chunking
     * filter. Before any write it sends an empty text/html body, or only the
     * head for a HEAD request. Otherwise it just marks the response ended.
     * Whatever happens, no header other than Transfer-Encoding,
     * Content-Length and Content-Type changes.
     */
    twostate predicate EndOutcome(new r: Result<()>, completes: bool, h: Headers)
      reads this
    {
      && (forall k | k != TransferEncoding && k != ContentLengthHeader && k != "Content-Type" :: Get(headers, k) == Get(h, k))
      && (old(hasWritten) ==> hasWritten)
      && (MatchesIgnoreCase("Chunked", Get(h, TransferEncoding)) ==>
            && (r.Success? <==> (old(hasWritten) || Decide(h, old(contentLength)).Success?)
                                && (old(sink).ChunkedSink? || (!old(hasWritten) && completes
                                    && Decide(h, old(contentLength)).value.chunked)))
            && (r.Success? ==> ended && sink == ChunkedSink(IntMax) && |events| > 0 && events[|events| - 1] == BodyWrite(0))
            && (r.Failure? ==> ended == old(ended))
            && (old(hasWritten) && r.Failure? ==> headers == h && events == old(events)))
      && (!MatchesIgnoreCase("Chunked", Get(h, TransferEncoding)) && !old(hasWritten)
          && !EqualsIgnoreCase(requestMethod, "HEAD") ==>
            var b := h[ContentLengthHeader := "0"]["Content-Type" := "text/html"];
            && r.Success? && hasWritten && contentLength == 0 && headers == Cleared(b)
            && events == old(events) + [HeadWrite(code, Cleared(b)), BodyQueued([])] && ended)
      && (!MatchesIgnoreCase("Chunked", Get(h, TransferEncoding)) && !old(hasWritten)
          && EqualsIgnoreCase(requestMethod, "HEAD") ==>
            && (r.Failure? <==> Decide(h, old(contentLength)).Failure?)
            && (r.Success? ==>
                  ended && headers == Decide(h, old(contentLength)).value.headers
                  && events == old(events) + FirstWriteEvents(code, headers, old(writable), completes)))
      && (!MatchesIgnoreCase("Chunked", Get(h, TransferEncoding)) && old(hasWritten) ==>
            r.Success? && ended && headers == h && events == old(events) && sink == old(sink))
    }

    /** `end()`, as `EndOutcome` describes it. */
    method End(completes: bool) returns (r: Result<()>)
      requires Valid()
      modifies this
      ensures Valid() && code == old(code)
      ensures EndOutcome(r, completes, old(headers))
    {
      if Decide(headers, contentLength).Success? {
        FirstWriteRule(headers, contentLength);
      }
      if MatchesIgnoreCase("Chunked", Get(headers, TransferEncoding)) {
        var first := InitFirstWrite(completes);
        if first.Failure? {
          return Failure;
        }
        if !sink.ChunkedSink? {
          return Failure;
        }
        sink := ChunkedSink(IntMax);
        events := events + [BodyWrite(0)];
        ended := true;
        return Success(());
      } else if !hasWritten {
        if !EqualsIgnoreCase(requestMethod, "HEAD") {
          Send("text/html", [], completes);
          return Success(());
        }
        var first := InitFirstWrite(completes);
        if first.Failure? {
          return Failure;
        }
        ended := true;
        return Success(());
      }
      ended := true;
      return Success(());
    }

    /** `redirect(location)`: 302, a Location header, then `end()`, which keeps that header. */
    method Redirect(location: string, completes: bool) returns (r: Result<()>)
      requires Valid()
      modifies this
      ensures Valid() && Code() == 302 && Get(headers, "Location") == Some(location)
      ensures EndOutcome(r, completes, old(headers)["Location" := location])
    {
      code := 302;
      headers := headers["Location" := location];
      r := End(completes);
    }

    /** `code(c)` followed by `end()`, the way errors are answered. */
    method Refuse(c: int, completes: bool) returns (r: Result<()>)
      requires Valid()
      modifies this
      ensures Valid() && Code() == c
      ensures EndOutcome(r, completes, old(headers))
    {
      code := c;
      r := End(completes);
    }

    /**
     * What `sendStream` leaves once the Range header has been read into
     * `reply`: 416 and `end()` for an unsatisfiable Range, 500 and `end()`
     * when the skip falls short; otherwise the code (206 for a range), the
     * length headers, and the head alone and an ended response for HEAD, or
     * the pump whose first chunk brings the head.
     */
    twostate predicate RangeOutcome(new r: Result<()>, reply: RangeReply, totalLength: int, skipped: int, completes: bool, pumps: bool)
      reads this
    {
      && (reply.Unsatisfiable? ==> Code() == 416 && EndOutcome(r, completes, old(headers)))
      && (!reply.Unsatisfiable? && skipped != reply.start ==>
            && Code() == 500
            && EndOutcome(r, completes, if reply.Partial?
                                        then old(headers)["Content-Range" := ContentRange(reply.start, reply.end, totalLength)]
                                        else old(headers)))
      && (!reply.Unsatisfiable? && skipped == reply.start ==>
            && (reply.Partial? ==> Get(headers, "Content-Range") == Some(ContentRange(reply.start, reply.end, totalLength)))
            && Served(r, Wrap64(reply.end - reply.start + 1), completes, pumps,
                      if reply.Partial? then 206 else old(code),
                      if reply.Partial?
                      then old(headers)["Content-Range" := ContentRange(reply.start, reply.end, totalLength)]
                      else old(headers)))
    }

    /**
     * `sendStream(stream, totalLength)`, with what `stream.skip(start)`
     * returned given as `skipped` and whether the pump writes anything
     * before it finishes as `pumps`: the Range reply decides the code; an
     * unsatisfiable Range answers 416 and a skip that falls short 500, each
     * followed by `end()`; otherwise the length and Accept-Ranges headers are
     * set and the stream is pumped, or only the head written for HEAD.
     */
    method SendStream(totalLength: int, skipped: int, completes: bool, pumps: bool) returns (r: Result<()>, ghost reply: RangeReply)
      requires Valid() && LongMin <= totalLength <= LongMax
      modifies this
      ensures Valid() && reply == ParseRange(Get(requestHeaders, "Range"), totalLength)
      ensures RangeOutcome(r, reply, totalLength, skipped, completes, pumps)
    {
      var parsed := ParseRange(Get(requestHeaders, "Range"), totalLength);
      reply := parsed;
      r := Reply(parsed, totalLength, skipped, completes, pumps);
    }

    /** `sendStream` once the Range header has been read into `reply`. */
    method Reply(reply: RangeReply, totalLength: int, skipped: int, completes: bool, pumps: bool) returns (r: Result<()>)
      requires Valid()
      modifies this
      ensures Valid()
      ensures RangeOutcome(r, reply, totalLength, skipped, completes, pumps)
    {
      match reply
      case Unsatisfiable =>
        r := Refuse(416, completes);
      case Partial(_, _) =>
        r := ReplyPartial(reply, totalLength, skipped, completes, pumps);
      case Whole(_, _) =>
        r := ReplyWhole(reply, totalLength, skipped, completes, pumps);
    }

    /** The 206 answer: Content-Range set, then 500 for a short skip or the stream served. */
    method ReplyPartial(reply: RangeReply, totalLength: int, skipped: int, completes: bool, pumps: bool) returns (r: Result<()>)
      requires Valid() && reply.Partial?
      modifies this
      ensures Valid()
      ensures RangeOutcome(r, reply, totalLength, skipped, completes, pumps)
    {
      code := 206;
      headers := headers["Content-Range" := ContentRange(reply.start, reply.end, totalLength)];
      if skipped != reply.start {
        r := Refuse(500, completes);
      } else {
        r := Serve(Wrap64(reply.end - reply.start + 1), completes, pumps);
      }
    }

    /** The answer without a Range header: 500 for a short skip, or the stream served. */
    method ReplyWhole(reply: RangeReply, totalLength: int, skipped: int, completes: bool, pumps: bool) returns (r: Result<()>)
      requires Valid() && reply.Whole?
      modifies this
      ensures Valid()
      ensures RangeOutcome(r, reply, totalLength, skipped, completes, pumps)
    {
      if skipped != reply.start {
        r := Refuse(500, completes);
      } else {
        r := Serve(Wrap64(reply.end - reply.start + 1), completes, pumps);
      }
    }

    /**
     * What `Serve` leaves for a `long` length, starting from the code `c`
     * and the headers `h`: the code kept, the length and Accept-Ranges
     * headers set and no other header but Transfer-Encoding changed; for HEAD
     * the head alone and the response ended; otherwise the pump, whose first
     * chunk brings the head.
     */
    twostate predicate Served(new r: Result<()>, length: int, completes: bool, pumps: bool, c: int, h: Headers)
      reads this
    {
      && r.Success? && contentLength == length && code == c
      && Get(headers, ContentLengthHeader) == Some(ToDecimal(length))
      && Get(headers, "Accept-Ranges") == Some("bytes")
      && (forall k | k != TransferEncoding && k != ContentLengthHeader && k != "Accept-Ranges" :: Get(headers, k) == Get(h, k))
      && (requestMethod == "HEAD" ==>
            && ended && hasWritten
            && events == old(events) + (if old(hasWritten) then [] else FirstWriteEvents(code, headers, old(writable), completes)))
      && (requestMethod != "HEAD" ==>
            && (pumps ==> hasWritten)
            && (!pumps ==> ended)
            && events == old(events) + (if pumps && !old(hasWritten) then [HeadWrite(code, headers)] else [])
                                     + [StreamPumped(length)])
    }

    /**
     * The end of `sendStream` once the stream is positioned: the length
     * headers, then the head alone or `Util.pump(…, this, …)`. The length is
     * a `long`, so the header just set makes the first write keep that
     * length: the head cannot fail, and only Transfer-Encoding may change
     * after it.
     */
    method Serve(length: int, completes: bool, pumps: bool) returns (r: Result<()>)
      requires Valid() && LongMin <= length <= LongMax
      modifies this
      ensures Valid() && Served(r, length, completes, pumps, old(code), old(headers))
    {
      contentLength := length;
      headers := headers[ContentLengthHeader := ToDecimal(contentLength)];
      headers := headers["Accept-Ranges" := "bytes"];
      DeclaredLengthDecides(headers, length);
      FirstWriteRule(headers, length);
      r := Dispatch(completes, pumps);
    }

    /** The HEAD answer or the pump, for the headers and length already set. */
    method Dispatch(completes: bool, pumps: bool) returns (r: Result<()>)
      requires Valid()
      modifies this
      ensures Valid()
      ensures requestMethod != "HEAD" ==> r.Success? && PumpOutcome(completes, pumps, old(headers), old(contentLength))
      ensures requestMethod == "HEAD" ==> HeadOutcome(r, completes, old(headers), old(contentLength), old(code))
    {
      if requestMethod == "HEAD" {
        r := ServeHead(completes);
        return;
      }
      Pump(completes, pumps);
      return Success(());
    }

    /**
     * What `Util.pump(…, this, …)` leaves, starting from the headers `h` and
     * the length `len`. The pump puts its own writable callback in the
     * response's slot and writes through `write`, so the first write happens
     * with its first chunk; an exception there is caught by the pump, whose
     * completion runs `onEnd`. A pump that finishes without writing
     * (`!pumps`) completes at once.
     */
    twostate predicate PumpOutcome(completes: bool, pumps: bool, h: Headers, len: int)
      reads this
    {
      && code == old(code) && GetWriteableCallback().None?
      && (!pumps || old(hasWritten) ==>
            headers == h && contentLength == len && hasWritten == old(hasWritten)
            && events == old(events) + [StreamPumped(len)]
            && (ended <==> old(ended) || !pumps))
      && (pumps ==> hasWritten)
      && (pumps && !old(hasWritten) && Decide(h, len).Success? ==>
            headers == Decide(h, len).value.headers && contentLength == Decide(h, len).value.contentLength
            && events == old(events) + [HeadWrite(code, headers), StreamPumped(len)] && ended == old(ended))
      && (pumps && !old(hasWritten) && Decide(h, len).Failure? ==>
            headers == Cleared(h) && ended && events == old(events) + [StreamPumped(len)])
    }

    /** `Util.pump` of the declared length through this response, as `PumpOutcome` describes it. */
    method Pump(completes: bool, pumps: bool)
      requires Valid()
      modifies this
      ensures Valid() && PumpOutcome(completes, pumps, old(headers), old(contentLength))
    {
      var length := contentLength;
      SetWriteableCallback(None);
      if pumps {
        var first := InitFirstWrite(completes);
        if first.Failure? {
          ended := true;
        }
      } else {
        ended := true;
      }
      events := events + [StreamPumped(length)];
    }

    /**
     * What the HEAD answer of `sendStream` leaves, starting from the headers
     * `h`, the length `len` and the code `c`: the head alone and the
     * response ended; or, when the first write throws, 500 and `end()`,
     * which fails on a "Chunked" Transfer-Encoding since there is no
     * chunking sink.
     */
    twostate predicate HeadOutcome(new r: Result<()>, completes: bool, h: Headers, len: int, c: int)
      reads this
    {
      && (old(hasWritten) ==>
            r.Success? && code == c && ended && hasWritten && headers == h && contentLength == len && events == old(events))
      && (!old(hasWritten) && Decide(h, len).Success? ==>
            && r.Success? && code == c && ended && hasWritten
            && headers == Decide(h, len).value.headers && contentLength == Decide(h, len).value.contentLength
            && events == old(events) + FirstWriteEvents(code, headers, old(writable), completes))
      && (!old(hasWritten) && Decide(h, len).Failure? ==>
            && code == 500 && hasWritten && headers == Cleared(h) && events == old(events)
            && (MatchesIgnoreCase("Chunked", Get(h, TransferEncoding)) ==> r.Failure? && ended == old(ended))
            && (!MatchesIgnoreCase("Chunked", Get(h, TransferEncoding)) ==> r.Success? && ended))
    }

    /** The HEAD answer of `sendStream`: `writeHead()` and `onEnd()`, or 500 and `end()` when the first write throws. */
    method ServeHead(completes: bool) returns (r: Result<()>)
      requires Valid()
      modifies this
      ensures Valid()
      ensures HeadOutcome(r, completes, old(headers), old(contentLength), old(code))
    {
      var first := InitFirstWrite(completes);
      if first.Failure? {
        assert MatchesIgnoreCase("Chunked", Get(headers, TransferEncoding))
               <==> MatchesIgnoreCase("Chunked", Get(old(headers), TransferEncoding));
        r := Refuse(500, completes);
        return;
      }
      ended := true;
      return Success(());
    }
  }
}

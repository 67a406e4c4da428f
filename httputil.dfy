/**
 * How an HTTP message body is read (`http/Util.java`): which request-body
 * object the Content-Type selects, which framing and decompression filters the
 * headers put in front of the connection, how the reporter learns that the
 * body ended, and the content-length watcher that cuts each incoming chain
 * at the declared length.
 */
module HttpUtil {
  import opened Outcomes
  import opened Bytes
  import opened Buffers
  import opened Chain
  import opened HttpText

  // ---------------------------------------------------------------------------
  // getBody

  /** `UrlEncodedFormBody.CONTENT_TYPE`. */
  const UrlEncodedType: string := "application/x-www-form-urlencoded"
  /** `MultipartFormDataBody.CONTENT_TYPE`. */
  const MultipartType: string := "multipart/form-data"

  /** The request-body object `getBody` builds. */
  datatype Body =
    | UrlEncodedForm
      /** Built from the whole Content-Type and its trimmed parts. */
    | MultipartForm(contentType: string, parts: seq<string>)
      /** Holds the Content-Type as given, null included. */
    | UnknownBody(declared: Option<string>)

  predicate IsKnownType(part: string)
  {
    part == UrlEncodedType || part == MultipartType
  }

  /** The `;`-separated parts of a Content-Type, each trimmed. */
  function Parts(contentType: string): (ps: seq<string>)
    ensures |ps| == |Split(contentType, ';')|
    ensures forall i | 0 <= i < |ps| :: ps[i] == Trim(Split(contentType, ';')[i])
  {
    var vs := Split(contentType, ';');
    seq(|vs|, i requires 0 <= i < |vs| => Trim(vs[i]))
  }

  /** The body named by the first known part at or after `i`. */
  function FirstKnown(contentType: string, parts: seq<string>, i: nat): Body
    requires i <= |parts|
    decreases |parts| - i
  {
    if i == |parts| then UnknownBody(Some(contentType))
    else if parts[i] == UrlEncodedType then UrlEncodedForm
    else if parts[i] == MultipartType then MultipartForm(contentType, parts)
    else FirstKnown(contentType, parts, i + 1)
  }

  /** `getBody`: the body for the request's Content-Type. */
  function GetBody(h: Headers): Body
  {
    match Get(h, "Content-Type")
    case None => UnknownBody(None)
    case Some(ct) => FirstKnown(ct, Parts(ct), 0)
  }

  lemma {:induction false} FirstKnownPicks(ct: string, parts: seq<string>, i: nat, k: nat)
    requires i <= k < |parts| && IsKnownType(parts[k])
    requires forall j | i <= j < k :: !IsKnownType(parts[j])
    ensures FirstKnown(ct, parts, i) == if parts[k] == UrlEncodedType then UrlEncodedForm else MultipartForm(ct, parts)
    decreases k - i
  {
    if i < k {
      FirstKnownPicks(ct, parts, i + 1, k);
    }
  }

  lemma {:induction false} FirstKnownNone(ct: string, parts: seq<string>, i: nat)
    requires i <= |parts|
    ensures FirstKnown(ct, parts, i).UnknownBody? <==> forall j | i <= j < |parts| :: !IsKnownType(parts[j])
    decreases |parts| - i
  {
    if i < |parts| {
      FirstKnownNone(ct, parts, i + 1);
    }
  }

  /** The first trimmed part that names a known type decides the body. */
  lemma GetBodyFirstMatch(h: Headers, k: nat)
    requires "Content-Type" in h
    requires k < |Parts(h["Content-Type"])| && IsKnownType(Parts(h["Content-Type"])[k])
    requires forall j | 0 <= j < k :: !IsKnownType(Parts(h["Content-Type"])[j])
    ensures Parts(h["Content-Type"])[k] == UrlEncodedType ==> GetBody(h) == UrlEncodedForm
    ensures Parts(h["Content-Type"])[k] == MultipartType ==>
              GetBody(h) == MultipartForm(h["Content-Type"], Parts(h["Content-Type"]))
  {
    FirstKnownPicks(h["Content-Type"], Parts(h["Content-Type"]), 0, k);
  }

  /** Without a known part (or without a Content-Type) the body is unknown and keeps the header value. */
  lemma GetBodyUnknown(h: Headers)
    ensures GetBody(h).UnknownBody? <==>
              ("Content-Type" in h ==> forall j | 0 <= j < |Parts(h["Content-Type"])| :: !IsKnownType(Parts(h["Content-Type"])[j]))
    ensures GetBody(h).UnknownBody? ==> GetBody(h).declared == Get(h, "Content-Type")
  {
    if "Content-Type" in h {
      FirstKnownNone(h["Content-Type"], Parts(h["Content-Type"]), 0);
      FirstKnownUnknownKeeps(h["Content-Type"], Parts(h["Content-Type"]), 0);
    }
  }

  lemma {:induction false} FirstKnownUnknownKeeps(ct: string, parts: seq<string>, i: nat)
    requires i <= |parts|
    ensures FirstKnown(ct, parts, i).UnknownBody? ==> FirstKnown(ct, parts, i).declared == Some(ct)
    decreases |parts| - i
  {
    if i < |parts| {
      FirstKnownUnknownKeeps(ct, parts, i + 1);
    }
  }

  // ---------------------------------------------------------------------------
  // getBodyDecoder

  /** The emitter chain `getBodyDecoder` returns, innermost the connection itself. */
  datatype Emitter =
    | Source
    | LengthWatcherOn(contentLength: int, inner: Emitter)
    | ChunkerOn(inner: Emitter)
    | GunzipperOn(inner: Emitter)
    | InflaterOn(inner: Emitter)

  /** How the reporter learns that the body is over. */
  datatype Completion =
      /** An error is posted to the event loop at once. */
    | PostedError
      /** Success (a null error) is posted to the event loop at once. */
    | PostedDone
      /** The reporter is the end callback of the framing filter. */
    | FilterEnd
      /** Nothing is reported here: the body ends when the connection closes. */
    | AtClose

  datatype Decoder = Decoder(emitter: Emitter, completion: Completion)

  /** The declared Content-Length as `Integer.parseInt` reads it; -1 when absent or unreadable. */
  function ContentLength(h: Headers): (n: int)
    ensures ParseDecimal(Get(h, "Content-Length"), IntMin, IntMax).None? ==> n == -1
    ensures ParseDecimal(Get(h, "Content-Length"), IntMin, IntMax).Some? ==>
              n == ParseDecimal(Get(h, "Content-Length"), IntMin, IntMax).value
  {
    match ParseDecimal(Get(h, "Content-Length"), IntMin, IntMax)
    case None => -1
    case Some(n) => n
  }

  predicate IsChunked(h: Headers)
  {
    MatchesIgnoreCase("chunked", Get(h, "Transfer-Encoding"))
  }

  /** The decompression filter, if any, that Content-Encoding puts over `e`. */
  function Decompress(h: Headers, e: Emitter): Emitter
  {
    if Get(h, "Content-Encoding") == Some("gzip") then GunzipperOn(e)
    else if Get(h, "Content-Encoding") == Some("deflate") then InflaterOn(e)
    else e
  }

  /** The framing chosen before decompression is considered. */
  function Framing(h: Headers, server: bool): Decoder
  {
    var n := ContentLength(h);
    if n != -1 then Decoder(LengthWatcherOn(n, Source), FilterEnd)
    else if IsChunked(h) then Decoder(ChunkerOn(Source), FilterEnd)
    else if server then Decoder(Source, PostedDone)
    else Decoder(Source, AtClose)
  }

  /** `getBodyDecoder`. A negative or zero length returns the bare connection before any decompression. */
  function BodyDecoder(h: Headers, server: bool): (d: Decoder)
    ensures ContentLength(h) < -1 ==> d == Decoder(Source, PostedError)
    ensures ContentLength(h) == 0 ==> d == Decoder(Source, PostedDone)
    ensures ContentLength(h) == -1 || ContentLength(h) > 0 ==>
              d == Decoder(Decompress(h, Framing(h, server).emitter), Framing(h, server).completion)
  {
    var n := ContentLength(h);
    if n != -1 && n < 0 then Decoder(Source, PostedError)
    else if n == 0 then Decoder(Source, PostedDone)
    else
      var f := Framing(h, server);
      Decoder(Decompress(h, f.emitter), f.completion)
  }

  /** The emitter with its decompression filter, if any, taken off. */
  function Undecompressed(e: Emitter): Emitter
  {
    match e
    case GunzipperOn(inner) => inner
    case InflaterOn(inner) => inner
    case _ => e
  }

  /**
   * A readable Content-Length decides the framing whatever Transfer-Encoding
   * says; the chunked decoder is used only without one, when Transfer-Encoding
   * is "chunked" up to case.
   */
  lemma LengthTakesPrecedence(h: Headers, server: bool)
    ensures ContentLength(h) > 0 ==> Undecompressed(BodyDecoder(h, server).emitter) == LengthWatcherOn(ContentLength(h), Source)
    ensures Undecompressed(BodyDecoder(h, server).emitter).ChunkerOn? <==> ContentLength(h) == -1 && IsChunked(h)
  {
  }

  /** When and how the reporter is told the body ended. */
  lemma CompletionRule(h: Headers, server: bool)
    ensures BodyDecoder(h, server).completion == PostedError <==> ContentLength(h) < -1
    ensures BodyDecoder(h, server).completion == PostedDone <==>
              ContentLength(h) == 0 || (ContentLength(h) == -1 && !IsChunked(h) && server)
    ensures BodyDecoder(h, server).completion == AtClose <==> ContentLength(h) == -1 && !IsChunked(h) && !server
    ensures BodyDecoder(h, server).completion == FilterEnd <==> ContentLength(h) > 0 || (ContentLength(h) == -1 && IsChunked(h))
  {
  }

  /**
   * "gzip" (exactly) puts a gunzip filter outermost, otherwise "deflate"
   * (exactly) an inflater; a non-positive declared length never decompresses.
   */
  lemma DecompressionRule(h: Headers, server: bool)
    ensures BodyDecoder(h, server).emitter.GunzipperOn? <==>
              (ContentLength(h) == -1 || ContentLength(h) > 0) && Get(h, "Content-Encoding") == Some("gzip")
    ensures BodyDecoder(h, server).emitter.InflaterOn? <==>
              (ContentLength(h) == -1 || ContentLength(h) > 0) && Get(h, "Content-Encoding") == Some("deflate")
  {
  }

  // ---------------------------------------------------------------------------
  // the content-length watcher

  /** `bb.get(k)` for a `k` the list can serve. */
  method Take(bb: ByteBufferList, k: int, pool: BufferPool, mayPool: bool) returns (list: ByteBufferList)
    requires bb.Owned(pool) && 0 <= k <= bb.Remaining()
    modifies bb`buffers, bb`remaining, pool, Footprint(bb.buffers), Footprint(pool.items)
    ensures bb.Owned(pool) && fresh(list) && list.Owned(pool) && list.Remaining() == k
    ensures list.Contents() == old(bb.Contents())[..k] && bb.Contents() == old(bb.Contents())[k..]
  {
    var got := bb.GetList(k, pool, mayPool);
    match got
    case Failure =>
      assert false;
    case Success(l) =>
      list := l;
  }

  /** The filter that passes on at most `contentLength` bytes and then reports the end. */
  class LengthWatcher {
    const contentLength: int
    var totalRead: int
    /** Everything passed on so far, in order. */
    ghost var forwarded: seq<byte>
    /** Whether `report(null)` has been called. */
    var reported: bool

    ghost predicate Valid()
      reads this
    {
      0 <= totalRead <= contentLength && |forwarded| == totalRead && (reported <==> totalRead == contentLength)
    }

    /** Made only for a positive declared length. */
    constructor (n: int)
      requires n > 0
      ensures Valid() && contentLength == n && totalRead == 0 && forwarded == [] && !reported
    {
      contentLength, totalRead, forwarded, reported := n, 0, [], false;
    }

    /**
     * `onDataAvailable`: take `min(contentLength - totalRead, remaining)` bytes
     * off the front of `bb`, pass them on, and report the end once the
     * declared length has been read. Called only while the body is unfinished.
     */
    method OnDataAvailable(bb: ByteBufferList, pool: BufferPool, mayPool: bool) returns (list: ByteBufferList)
      requires Valid() && totalRead < contentLength
      requires bb.Owned(pool)
      modifies this, bb`buffers, bb`remaining, pool, Footprint(bb.buffers), Footprint(pool.items)
      ensures Valid() && bb.Owned(pool) && fresh(list) && list.Owned(pool)
      ensures totalRead - old(totalRead) == Min(contentLength - old(totalRead), old(bb.Remaining()))
      ensures list.Contents() == old(bb.Contents())[..totalRead - old(totalRead)]
      ensures bb.Contents() == old(bb.Contents())[totalRead - old(totalRead)..]
      ensures forwarded == old(forwarded) + list.Contents()
    {
      var k := Min(contentLength - totalRead, bb.Remaining());
      ghost var c0, t0, f0 := bb.Contents(), totalRead, forwarded;
      list := Take(bb, k, pool, mayPool);
      assert totalRead == t0 && forwarded == f0 && Valid();
      Count(list, bb, pool);
    }

    /** `totalRead += list.remaining()`, the list passed on, and `report(null)` at the declared length. */
    method Count(list: ByteBufferList, bb: ByteBufferList, pool: BufferPool)
      requires list.Owned(pool) && bb.Owned(pool)
      requires Valid() && totalRead + list.Remaining() <= contentLength
      modifies this
      ensures Valid() && totalRead == old(totalRead) + list.Remaining() && forwarded == old(forwarded) + list.Contents()
      ensures list.Owned(pool) && bb.Owned(pool)
      ensures list.Contents() == old(list.Contents()) && bb.Contents() == old(bb.Contents())
    {
      totalRead := totalRead + list.Remaining();
      forwarded := forwarded + list.Contents();
      reported := totalRead == contentLength;
    }
  }
}

# AndroidAsync core in Dafny

This project models the core of AndroidAsync, an asynchronous socket and HTTP
library for Android, and proves properties of that model:

- **`ByteBufferList`** (`chain.dfy`, with `buffers.dfy`, `snapshots.dfy`,
  `bytes.dfy`). This is the queue of `java.nio.ByteBuffer`s that every
  emitter and sink passes data through. The model covers its `remaining`
  count and its byte order. It also covers appending and prepending with
  merge into spare room, `read(count)` consolidation and gathering, the
  scalar getters, and the bulk getters. It also covers the static buffer
  pool behind `reclaim`, `obtain` and `obtainArray`.
  - `ByteBuffer` is a class with a backing array, an array offset, a
    capacity, and a mutable position and limit.
  - The pool is a class holding its queue as a capacity-ordered sequence.
  - The list is a class whose logical content is the concatenation of its
    buffers' windows.
- **`ByteString`** (`bytestring.dfy`). The okio immutable byte string: `of`,
  `hex`/`decodeHex`, ASCII case mapping, `getByte`, `size` and `equals`.
- **`http/Util`** (`httputil.dfy`, with `httptext.dfy`). `getBody` chooses the
  request body from the Content-Type. `getBodyDecoder` chooses the emitter
  chain from Content-Length, Transfer-Encoding and Content-Encoding. The
  content-length watcher is a class.
- **`AsyncHttpRequest`** (`request.dfy`). The request line, the default
  headers, and the redirect and body slots.
- **`AsyncHttpServerResponseImpl`** (`response.dfy`). The status code, the
  one-time first write that fixes chunked or fixed-length framing, and the
  writable/closed callback slots that move to the sink once the head is
  written. It also covers `send`, `end`, `redirect`, and `sendStream` with
  its Range header. What the response hands to the connection is a log of
  events.
- **`AsyncHttpServerRouter`** (`router.dfy`). Registering and removing
  routes, the first-match `route` with delegation to nested routers, the
  WebSocket route's checks, the extension-to-content-type table, and the
  404 answer of its request callback.

Java `byte`s are integers 0..255 holding the bit pattern. Signedness is
applied where the source reads a byte as signed. Headers are a map from name
to value. The main-thread check of the pool (`getReclaimed() == null`) is a
`mayPool` argument. A regular expression is a `Matcher` function argument
that returns no match or a match with capture group 1.

## Model

| member | source | states |
|---|---|---|
| Bytes.Decode | AndroidAsync/src/com/koushikdutta/async/ByteBufferList.java:82-110 | the value a scalar getter returns for n bytes in the list's byte order fits a signed n-byte integer |
| Bytes.DecodeEncode | AndroidAsync/src/com/koushikdutta/async/ByteBufferList.java:82-110 | reading back the n bytes written for a value, in either byte order, gives that value back |
| Bytes.LittleEndianRoundTrip | AndroidAsync/src/com/koushikdutta/async/ByteBufferList.java:82-110 | little-endian order reads the big-endian encoding reversed back to the same value |
| Bytes.ByteToChar | AndroidAsync/src/com/koushikdutta/async/ByteBufferList.java:88-92 | `(char)` of a byte: bytes below 128 keep their value, the others are sign-extended into the upper half of the 16-bit range |
| Bytes.AsciiDecode | AndroidAsync/src/com/koushikdutta/async/ByteBufferList.java:361-376 | US-ASCII decoding yields one character per byte, U+FFFD for a byte above 127 |
| Bytes.AsciiDecodeAppend | AndroidAsync/src/com/koushikdutta/async/ByteBufferList.java:368-373 | decoding buffer by buffer is decoding the concatenated content |
| Buffers.ByteBuffer.AppendFrom | AndroidAsync/src/com/koushikdutta/async/ByteBufferList.java:287-293 | the merge of `add`: b's bytes land after the last buffer's limit, which grows over them, and b is drained |
| Buffers.ByteBuffer.PrependFrom | AndroidAsync/src/com/koushikdutta/async/ByteBufferList.java:313-317 | the merge of `addFirst`: the position moves back by b's length and b's bytes land there |
| Buffers.InsertByCapacity | AndroidAsync/src/com/koushikdutta/async/ByteBufferList.java:378-390 | the queue's add keeps every entry, adds b once, and adds its capacity to the total |
| Buffers.InsertSorted | AndroidAsync/src/com/koushikdutta/async/ByteBufferList.java:378-390 | adding to the queue keeps it ordered by capacity, smallest first |
| Buffers.PoolInvInsert | AndroidAsync/src/com/koushikdutta/async/ByteBufferList.java:447-454 | queuing a reset, poolable buffer keeps the pool invariant: ordered, no array twice, total = sum of capacities |
| Buffers.PoolInvTail | AndroidAsync/src/com/koushikdutta/async/ByteBufferList.java:434-438 | removing the head keeps the pool invariant with the head's capacity taken off the total |
| Buffers.EvictCountSpec | AndroidAsync/src/com/koushikdutta/async/ByteBufferList.java:434-438 | reclaim evicts only entries smaller than the incoming buffer while over MAX_SIZE, and stops at the first head where that fails |
| Buffers.AfterReclaimMembers | AndroidAsync/src/com/koushikdutta/async/ByteBufferList.java:419-456 | reclaim brings no buffer into the pool except the one it is given |
| Buffers.FirstFitSpec | AndroidAsync/src/com/koushikdutta/async/ByteBufferList.java:465-476 | the buffer obtain returns is the first queued one large enough; every one before it is too small |
| Buffers.TakeCover | AndroidAsync/src/com/koushikdutta/async/ByteBufferList.java:493-500 | the buffers obtainArray takes cover the request up to what is left unmet, and never more than the slots before the last |
| Buffers.BufferPool.constructor | AndroidAsync/src/com/koushikdutta/async/ByteBufferList.java:390-401 | a new pool is empty with size 0, watermark 0 and the given ceilings |
| Buffers.BufferPool.NonEmptyIffSize | AndroidAsync/src/com/koushikdutta/async/ByteBufferList.java:452 | the queue holds buffers exactly when currentSize is not zero |
| Buffers.BufferPool.PooledBounds | AndroidAsync/src/com/koushikdutta/async/ByteBufferList.java:419-428 | every pooled buffer has capacity at least 8192, at most MAX_ITEM_SIZE and at most maxItem |
| Buffers.BufferPool.Evict | AndroidAsync/src/com/koushikdutta/async/ByteBufferList.java:434-438 | the eviction loop drops exactly the EvictCount smallest entries |
| Buffers.BufferPool.PopSmallest | AndroidAsync/src/com/koushikdutta/async/ByteBufferList.java:436-437 | the queue's remove takes the smallest entry and its capacity off the total |
| Buffers.BufferPool.Reclaim | AndroidAsync/src/com/koushikdutta/async/ByteBufferList.java:419-456 | null, direct, sliced, too small or too large buffers and main-thread calls leave the pool alone; otherwise the pool becomes AfterReclaim: evictions, then b reset and queued if the pool is within MAX_SIZE; maxItem grows to b's capacity |
| Buffers.BufferPool.Insert | AndroidAsync/src/com/koushikdutta/async/ByteBufferList.java:447-454 | b is reset to position 0 and a full limit, queued by capacity, and the watermark raised |
| Buffers.BufferPool.TakeFit | AndroidAsync/src/com/koushikdutta/async/ByteBufferList.java:465-476 | pops entries up to and including the first fit; returns it or null when none fits; maxItem drops to 0 when the queue empties |
| Buffers.BufferPool.Obtain | AndroidAsync/src/com/koushikdutta/async/ByteBufferList.java:460-484 | returns a reset poolable buffer of capacity at least size: the first pooled fit when size <= maxItem off the main thread, else a fresh one of max(8192, size) bytes |
| Buffers.BufferPool.TakeOne | AndroidAsync/src/com/koushikdutta/async/ByteBufferList.java:494-499 | one round of obtainArray's loop: the smallest pooled buffer goes to the next slot |
| Buffers.BufferPool.TakeInto | AndroidAsync/src/com/koushikdutta/async/ByteBufferList.java:491-502 | obtainArray's loop takes exactly TakeCount pooled buffers into the first slots and leaves Unmet bytes wanted |
| Buffers.BufferPool.ObtainArray | AndroidAsync/src/com/koushikdutta/async/ByteBufferList.java:486-512 | the slots hold the taken pooled buffers, then a fresh max(8192, unmet) buffer when needed, then the empty buffer; total capacity covers size |
| Buffers.BufferPool.FillEmpty | AndroidAsync/src/com/koushikdutta/async/ByteBufferList.java:509-511 | every slot from the index on holds the shared empty buffer; earlier slots are untouched |
| Chain.GetAsWritten | AndroidAsync/src/com/koushikdutta/async/ByteBufferList.java:116-172 | get with a length, as written: refused only when the length exceeds remaining; the count then drops by the length whatever its sign |
| Chain.GetAsWrittenServes | AndroidAsync/src/com/koushikdutta/async/ByteBufferList.java:116-172 | for a length in 0..remaining the code as written moves exactly the first length bytes |
| Chain.NegativeLengthInflatesCount | AndroidAsync/src/com/koushikdutta/async/ByteBufferList.java:116-135 | a negative length passes the guard, moves nothing, and leaves remaining above the content size |
| Chain.NegativeLengthExample | AndroidAsync/src/com/koushikdutta/async/ByteBufferList.java:137-172 | one byte held, -1 requested: the list then claims two bytes |
| Chain.AllByteArrayAsWritten | AndroidAsync/src/com/koushikdutta/async/ByteBufferList.java:47-59 | getAllByteArray as written returns the whole backing array when one buffer's capacity equals remaining |
| Chain.FastPathSound | AndroidAsync/src/com/koushikdutta/async/ByteBufferList.java:47-53 | the fast path is right for a buffer whose array is exactly its window |
| Chain.SlicedHeadLeaks | AndroidAsync/src/com/koushikdutta/async/ByteBufferList.java:47-53 | a slice at a non-zero array offset passes the guard and the fast path returns more bytes than the list holds |
| Chain.ByteBufferList.constructor | AndroidAsync/src/com/koushikdutta/async/ByteBufferList.java:17-30 | a new list is empty, big-endian, with remaining 0 |
| Chain.ByteBufferList.Remaining | AndroidAsync/src/com/koushikdutta/async/ByteBufferList.java:73-76 | remaining() is the length of the content (the windows of the buffers, front to back) |
| Chain.ByteBufferList.IsEmpty | AndroidAsync/src/com/koushikdutta/async/ByteBufferList.java:69-71 | true exactly when the content is empty, whatever empty buffers remain |
| Chain.ByteBufferList.HasRemaining | AndroidAsync/src/com/koushikdutta/async/ByteBufferList.java:78-80 | true exactly when the content is not empty |
| Chain.ByteBufferList.SetOrder | AndroidAsync/src/com/koushikdutta/async/ByteBufferList.java:24-27 | sets the byte order the getters use |
| Chain.ByteBufferList.DropEmptyHeads | AndroidAsync/src/com/koushikdutta/async/ByteBufferList.java:195-199 | empty head buffers go to the pool until the head holds data; the content is unchanged |
| Chain.ByteBufferList.Scan | AndroidAsync/src/com/koushikdutta/async/ByteBufferList.java:209-224 | finds the minimal front run holding count bytes and the first largest buffer in it that can hold them |
| Chain.ByteBufferList.Consolidate | AndroidAsync/src/com/koushikdutta/async/ByteBufferList.java:226-246 | the run's bytes are compacted into the chosen buffer, which becomes the head holding them; the content is unchanged |
| Chain.ByteBufferList.Gather | AndroidAsync/src/com/koushikdutta/async/ByteBufferList.java:248-268 | an obtained buffer receives the first count bytes and becomes the head; drained buffers go to the pool; content unchanged |
| Chain.ByteBufferList.Read | AndroidAsync/src/com/koushikdutta/async/ByteBufferList.java:191-269 | fails iff fewer than count bytes remain; otherwise the content is unchanged and the returned head holds at least count bytes (the empty buffer when the list is empty) |
| Chain.ByteBufferList.FillHead | AndroidAsync/src/com/koushikdutta/async/ByteBufferList.java:200-268 | after the head is found short, the head is made to hold at least count bytes with the content unchanged |
| Chain.ByteBufferList.ReadScalar | AndroidAsync/src/com/koushikdutta/async/ByteBufferList.java:82-110 | fails iff fewer than n bytes remain, changing nothing; otherwise returns the first n bytes and removes them |
| Chain.ByteBufferList.GetInt | AndroidAsync/src/com/koushikdutta/async/ByteBufferList.java:82-86 | the signed decoding of the first four bytes in the list's order; they leave the list; fails when fewer remain |
| Chain.ByteBufferList.GetShort | AndroidAsync/src/com/koushikdutta/async/ByteBufferList.java:94-98 | the signed decoding of the first two bytes in the list's order; they leave the list |
| Chain.ByteBufferList.GetLong | AndroidAsync/src/com/koushikdutta/async/ByteBufferList.java:106-110 | the signed decoding of the first eight bytes in the list's order; they leave the list |
| Chain.ByteBufferList.Get | AndroidAsync/src/com/koushikdutta/async/ByteBufferList.java:100-104 | the first byte, which leaves the list |
| Chain.ByteBufferList.GetByteChar | AndroidAsync/src/com/koushikdutta/async/ByteBufferList.java:88-92 | the first byte as a sign-extended char, which leaves the list |
| Chain.ByteBufferList.Trim | AndroidAsync/src/com/koushikdutta/async/ByteBufferList.java:271-274 | drops the empty head buffers only; content and count unchanged |
| Chain.ByteBufferList.GetBytes | AndroidAsync/src/com/koushikdutta/async/ByteBufferList.java:116-135 | corrected: fails iff the length is negative or exceeds remaining; otherwise the first length bytes land in the array at offset and leave the list |
| Chain.ByteBufferList.GetInto | AndroidAsync/src/com/koushikdutta/async/ByteBufferList.java:137-172 | corrected: fails iff the length is negative or exceeds remaining; otherwise the first length bytes move to the end of into |
| Chain.ByteBufferList.GetRest | AndroidAsync/src/com/koushikdutta/async/ByteBufferList.java:174-176 | the whole content moves to the end of into and this list is left empty |
| Chain.ByteBufferList.GetList | AndroidAsync/src/com/koushikdutta/async/ByteBufferList.java:178-182 | a new list in this list's order holding the first length bytes, which leave this list |
| Chain.ByteBufferList.GetArray | AndroidAsync/src/com/koushikdutta/async/ByteBufferList.java:112-114 | fails iff the array is longer than remaining; otherwise it receives the first bytes, which leave the list |
| Chain.ByteBufferList.Remove | AndroidAsync/src/com/koushikdutta/async/ByteBufferList.java:338-342 | the head buffer leaves and its window leaves the count; an empty list fails |
| Chain.ByteBufferList.GetAll | AndroidAsync/src/com/koushikdutta/async/ByteBufferList.java:184-189 | one buffer whose window is the whole content, which leaves the list; the empty buffer when nothing remains |
| Chain.ByteBufferList.GetAllArray | AndroidAsync/src/com/koushikdutta/async/ByteBufferList.java:61-67 | the buffers themselves, in order, as a fresh array; the list is emptied |
| Chain.ByteBufferList.GetAllByteArray | AndroidAsync/src/com/koushikdutta/async/ByteBufferList.java:47-59 | corrected: an array holding exactly the content, the lone buffer's own array only when it is exactly the content; the list is emptied |
| Chain.ByteBufferList.Recycle | AndroidAsync/src/com/koushikdutta/async/ByteBufferList.java:330-336 | every buffer is offered to the pool and the list emptied |
| Chain.ByteBufferList.ReadString | AndroidAsync/src/com/koushikdutta/async/ByteBufferList.java:361-376 | the US-ASCII decoding of the content; every buffer offered to the pool; the list emptied |
| Chain.ByteBufferList.AddData | AndroidAsync/src/com/koushikdutta/async/ByteBufferList.java:282-299 | a non-empty b is copied into the last buffer when Mergeable, else appended; the content grows by b's window |
| Chain.ByteBufferList.Add | AndroidAsync/src/com/koushikdutta/async/ByteBufferList.java:276-301 | the content grows by b's window; an empty b leaves the buffers alone; merge versus append follows the room after the last limit; the head then holds data |
| Chain.ByteBufferList.AddAndTrim | AndroidAsync/src/com/koushikdutta/async/ByteBufferList.java:282-300 | a non-empty b is merged or appended and the list trimmed; the head holds data |
| Chain.ByteBufferList.AddFirst | AndroidAsync/src/com/koushikdutta/async/ByteBufferList.java:303-323 | the content becomes b's window followed by the old content; merged before the first buffer when its position leaves room, else b becomes the head |
| ByteStrings.DecodeHexDigit | AndroidAsync/src/com/koushikdutta/async/http/spdy/okio/ByteString.java:139-144 | succeeds exactly on 0-9, a-f, A-F, with a value below 16 |
| ByteStrings.DigitRoundTrip | AndroidAsync/src/com/koushikdutta/async/http/spdy/okio/ByteString.java:44-45 | every digit in HEX_DIGITS decodes to its index |
| ByteStrings.DigitCaseBlind | AndroidAsync/src/com/koushikdutta/async/http/spdy/okio/ByteString.java:139-144 | an upper-case letter digit decodes like its lower-case form |
| ByteStrings.HexOf | AndroidAsync/src/com/koushikdutta/async/http/spdy/okio/ByteString.java:115-123 | two lower-case hex digits per byte |
| ByteStrings.Unhex | AndroidAsync/src/com/koushikdutta/async/http/spdy/okio/ByteString.java:126-137 | a decoded string has half as many bytes as characters |
| ByteStrings.HexRoundTrip | AndroidAsync/src/com/koushikdutta/async/http/spdy/okio/ByteString.java:115-137 | decodeHex(hex()) gives the bytes back |
| ByteStrings.UnhexThenHex | AndroidAsync/src/com/koushikdutta/async/http/spdy/okio/ByteString.java:115-144 | hex(decodeHex(s)) is s with its letter digits in lower case |
| ByteStrings.Recase | AndroidAsync/src/com/koushikdutta/async/http/spdy/okio/ByteString.java:169-212 | a mapped byte is never one the mapping rewrites, and equals the input exactly when the input is not rewritten |
| ByteStrings.RecaseAllFixes | AndroidAsync/src/com/koushikdutta/async/http/spdy/okio/ByteString.java:169-212 | the case mapping changes a string exactly when it holds a letter of the other case, and is idempotent |
| ByteStrings.RecaseAbsorbs | AndroidAsync/src/com/koushikdutta/async/http/spdy/okio/ByteString.java:169-212 | lower-casing after upper-casing is plain lower-casing, and vice versa |
| ByteStrings.Clone | AndroidAsync/src/com/koushikdutta/async/http/spdy/okio/ByteString.java:62-65 | a fresh array with the same bytes |
| ByteStrings.ByteString.Of | AndroidAsync/src/com/koushikdutta/async/http/spdy/okio/ByteString.java:62-65 | a null array fails; otherwise a fresh byte string holding a copy |
| ByteStrings.ByteString.OfRange | AndroidAsync/src/com/koushikdutta/async/http/spdy/okio/ByteString.java:71-78 | fails exactly on a null array or a range outside it; otherwise a copy of the range |
| ByteStrings.ByteString.Hex | AndroidAsync/src/com/koushikdutta/async/http/spdy/okio/ByteString.java:115-123 | the loop writes HexOf of the bytes |
| ByteStrings.ByteString.DecodeHex | AndroidAsync/src/com/koushikdutta/async/http/spdy/okio/ByteString.java:126-137 | fails exactly on a null text or when Unhex does (odd length or non-digit); otherwise holds the decoded bytes |
| ByteStrings.ByteString.Recased | AndroidAsync/src/com/koushikdutta/async/http/spdy/okio/ByteString.java:169-212 | returns this exactly when nothing needs rewriting, else a fresh string; its bytes are the mapped bytes |
| ByteStrings.ByteString.ToAsciiLowercase | AndroidAsync/src/com/koushikdutta/async/http/spdy/okio/ByteString.java:169-187 | the bytes with A-Z lower-cased; this itself when there is none |
| ByteStrings.ByteString.ToAsciiUppercase | AndroidAsync/src/com/koushikdutta/async/http/spdy/okio/ByteString.java:194-212 | the bytes with a-z upper-cased; this itself when there is none |
| ByteStrings.ByteString.GetByte | AndroidAsync/src/com/koushikdutta/async/http/spdy/okio/ByteString.java:215-217 | the byte at pos; fails exactly outside the data |
| ByteStrings.ByteString.Size | AndroidAsync/src/com/koushikdutta/async/http/spdy/okio/ByteString.java:222-224 | the number of bytes |
| ByteStrings.ByteString.Equals | AndroidAsync/src/com/koushikdutta/async/http/spdy/okio/ByteString.java:239-241 | true exactly for a non-null byte string with the same bytes |
| ByteStrings.ByteString.EqualsByteWise | AndroidAsync/src/com/koushikdutta/async/http/spdy/okio/ByteString.java:239-241 | equal exactly when sizes agree and every position holds the same byte |
| HttpText.Get | AndroidAsync/src/com/koushikdutta/async/http/Util.java:18 | a header's value, or none (null) when absent |
| HttpText.Trim | AndroidAsync/src/com/koushikdutta/async/http/Util.java:21-23 | String.trim: the longest middle part without leading or trailing characters up to the space |
| HttpText.TrimIdempotent | AndroidAsync/src/com/koushikdutta/async/http/Util.java:21-23 | trimming twice is trimming once |
| HttpText.FieldsJoin | AndroidAsync/src/com/koushikdutta/async/http/Util.java:20 | joining the fields between separators gives the string back |
| HttpText.Split | AndroidAsync/src/com/koushikdutta/async/http/server/AsyncHttpServerResponseImpl.java:222-230 | String.split on one character: the fields without trailing empty ones, or the string itself when the character is absent |
| HttpText.EqualsIgnoreCaseLowers | AndroidAsync/src/com/koushikdutta/async/http/server/AsyncHttpServerResponseImpl.java:84-85 | equalsIgnoreCase is equality of the folded strings, where A-Z and the four other characters whose case mapping is an ASCII letter fold to lower case |
| HttpText.ParseDecimal | AndroidAsync/src/com/koushikdutta/async/http/Util.java:40-46 | a parsed value lies within the type's range and comes from a non-empty string |
| HttpText.DecimalRoundTrip | AndroidAsync/src/com/koushikdutta/async/http/server/AsyncHttpServerResponseImpl.java:178 | parsing a printed number gives it back whenever it is within range |
| HttpUtil.Parts | AndroidAsync/src/com/koushikdutta/async/http/Util.java:20-23 | the Content-Type split on ';' with each part trimmed |
| HttpUtil.GetBodyFirstMatch | AndroidAsync/src/com/koushikdutta/async/http/Util.java:17-37 | the first trimmed part naming a known form type decides the body |
| HttpUtil.GetBodyUnknown | AndroidAsync/src/com/koushikdutta/async/http/Util.java:17-37 | the body is unknown exactly when no part names a known type (or there is no Content-Type), and it keeps the header value |
| HttpUtil.ContentLength | AndroidAsync/src/com/koushikdutta/async/http/Util.java:40-47 | the Content-Length parsed as an int, -1 when absent or unparseable |
| HttpUtil.BodyDecoder | AndroidAsync/src/com/koushikdutta/async/http/Util.java:39-113 | below -1: bare connection with an error posted; 0: bare connection with success posted; otherwise the framing, then any decompression |
| HttpUtil.LengthTakesPrecedence | AndroidAsync/src/com/koushikdutta/async/http/Util.java:48-88 | a positive length always gives the length watcher; chunking only when no length is declared |
| HttpUtil.CompletionRule | AndroidAsync/src/com/koushikdutta/async/http/Util.java:48-97 | when the end is posted as an error, posted as done, left to the filter, or left to the close |
| HttpUtil.DecompressionRule | AndroidAsync/src/com/koushikdutta/async/http/Util.java:99-108 | Content-Encoding exactly gzip or deflate puts the matching filter outermost; a length of 0 or below -1 never decompresses |
| HttpUtil.LengthWatcher.constructor | AndroidAsync/src/com/koushikdutta/async/http/Util.java:67-68 | a watcher for a positive length starts with nothing read |
| HttpUtil.LengthWatcher.OnDataAvailable | AndroidAsync/src/com/koushikdutta/async/http/Util.java:70-77 | passes on exactly min(length - read, available) bytes in order, leaves the excess in bb, and reports exactly when the length is reached |
| HttpUtil.LengthWatcher.Count | AndroidAsync/src/com/koushikdutta/async/http/Util.java:73-76 | the count grows by the list passed on |
| HttpUtil.Take | AndroidAsync/src/com/koushikdutta/async/http/Util.java:72 | bb.get(k) yields the first k bytes as a new list |
| Request.Target | AndroidAsync/src/com/koushikdutta/async/http/AsyncHttpRequest.java:11-18 | the path, "/" for an empty one, followed by "?query" for a non-empty query |
| Request.RequestLineParts | AndroidAsync/src/com/koushikdutta/async/http/AsyncHttpRequest.java:11-20 | the request line splits on spaces into method, target and HTTP/1.1 |
| Request.TargetParts | AndroidAsync/src/com/koushikdutta/async/http/AsyncHttpRequest.java:15-18 | a query is appended after exactly one '?'; without one the target holds no '?' |
| Request.Request.constructor | AndroidAsync/src/com/koushikdutta/async/http/AsyncHttpRequest.java:32-42 | status line from the method and URI; Host, User-Agent, Accept-Encoding, Connection: close, Accept set; redirects followed; no body |
| Request.Request.SetFollowRedirect | AndroidAsync/src/com/koushikdutta/async/http/AsyncHttpRequest.java:59-65 | the getter returns what was set |
| Request.Request.SetBody | AndroidAsync/src/com/koushikdutta/async/http/AsyncHttpRequest.java:67-74 | the getter returns what was set |
| ServerResponse.Wrap64 | AndroidAsync/src/com/koushikdutta/async/http/server/AsyncHttpServerResponseImpl.java:253 | a Java long result: in range and congruent modulo 2^64 |
| ServerResponse.Cleared | AndroidAsync/src/com/koushikdutta/async/http/server/AsyncHttpServerResponseImpl.java:81-83 | an empty Transfer-Encoding is removed; no other header changes |
| ServerResponse.FirstWriteRule | AndroidAsync/src/com/koushikdutta/async/http/server/AsyncHttpServerResponseImpl.java:80-97 | chunked exactly when no length is known, Transfer-Encoding is absent or Chunked, and Connection is not close; then announced; other headers kept |
| ServerResponse.FirstWriteFailure | AndroidAsync/src/com/koushikdutta/async/http/server/AsyncHttpServerResponseImpl.java:86-90 | the first write throws exactly when it must parse a Content-Length that is not a long |
| ServerResponse.RangeRoundTrip | AndroidAsync/src/com/koushikdutta/async/http/server/AsyncHttpServerResponseImpl.java:216-243 | a Range of bytes=s-e reads back as exactly s..e |
| ServerResponse.LeadingDashIsNoSuffix | AndroidAsync/src/com/koushikdutta/async/http/server/AsyncHttpServerResponseImpl.java:230-239 | bytes=-n is read as 0..n, not as a suffix range |
| ServerResponse.RangeShape | AndroidAsync/src/com/koushikdutta/async/http/server/AsyncHttpServerResponseImpl.java:220-248 | only bytes= with one spec of at most two numbers is satisfiable; a missing end is the last byte |
| ServerResponse.Response.constructor | AndroidAsync/src/com/koushikdutta/async/http/server/AsyncHttpServerResponseImpl.java:45-50 | code 200, no length, Connection: Keep-Alive when keep-alive, nothing written |
| ServerResponse.Response.SetCode | AndroidAsync/src/com/koushikdutta/async/http/server/AsyncHttpServerResponseImpl.java:289-294 | the code becomes c |
| ServerResponse.Response.SetWriteableCallback | AndroidAsync/src/com/koushikdutta/async/http/server/AsyncHttpServerResponseImpl.java:126-132 | held by the response until the sink exists, then set on the sink; the getter returns it |
| ServerResponse.Response.SetClosedCallback | AndroidAsync/src/com/koushikdutta/async/http/server/AsyncHttpServerResponseImpl.java:321-327 | the same for the closed callback |
| ServerResponse.Response.HeadWritten | AndroidAsync/src/com/koushikdutta/async/http/server/AsyncHttpServerResponseImpl.java:102-122 | the sink is made for the framing, both callbacks move to it, a pending writable callback fires once |
| ServerResponse.Response.InitFirstWrite | AndroidAsync/src/com/koushikdutta/async/http/server/AsyncHttpServerResponseImpl.java:74-123 | runs only once; fails exactly when Decide does; otherwise the decided headers and length are set and the head is written |
| ServerResponse.Response.ChooseFraming | AndroidAsync/src/com/koushikdutta/async/http/server/AsyncHttpServerResponseImpl.java:80-97 | applies Decide to the headers and length |
| ServerResponse.Response.IssueHead | AndroidAsync/src/com/koushikdutta/async/http/server/AsyncHttpServerResponseImpl.java:99-122 | records the head write, and its completion when it completes at once |
| ServerResponse.Response.Write | AndroidAsync/src/com/koushikdutta/async/http/server/AsyncHttpServerResponseImpl.java:53-70 | first write first; the bytes go to the sink exactly when there are some and the sink exists |
| ServerResponse.Response.OnEnd | AndroidAsync/src/com/koushikdutta/async/http/server/AsyncHttpServerResponseImpl.java:194-196 | marks the response ended |
| ServerResponse.Response.Send | AndroidAsync/src/com/koushikdutta/async/http/server/AsyncHttpServerResponseImpl.java:173-191 | sets the length, Content-Length and Content-Type; the body goes through write, so the first write fixes unchunked framing and sends the head before the body; writeAll takes the writable slot; ended at once for an empty body, otherwise once the body is written at once |
| ServerResponse.Response.WriteAll | AndroidAsync/src/com/koushikdutta/async/http/server/AsyncHttpServerResponseImpl.java:181-186 | writeAll takes the writable slot and writes through write: the first write with unchunked framing, then the body; ended at once for an empty body |
| ServerResponse.Response.End | AndroidAsync/src/com/koushikdutta/async/http/server/AsyncHttpServerResponseImpl.java:142-160 | chunked: terminating empty chunk and end, failing without a chunking sink; before any write: send of an empty text/html body, which writes the head and ends the response, or the head alone and end for HEAD; else just end; no header but the framing and type headers changes |
| ServerResponse.Response.Redirect | AndroidAsync/src/com/koushikdutta/async/http/server/AsyncHttpServerResponseImpl.java:302-306 | code 302 and the Location header hold in every outcome; the rest is what end does from the headers with Location set |
| ServerResponse.Response.Refuse | AndroidAsync/src/com/koushikdutta/async/http/server/AsyncHttpServerResponseImpl.java:225-226 | code c, and otherwise exactly what end does |
| ServerResponse.Response.SendStream | AndroidAsync/src/com/koushikdutta/async/http/server/AsyncHttpServerResponseImpl.java:216-273 | 416 and end for an unsatisfiable Range, 500 and end when the skip falls short; else 206 or the original code, the length headers, and for HEAD the head alone and the response ended, otherwise a pump whose first chunk brings the head |
| ServerResponse.Response.Reply | AndroidAsync/src/com/koushikdutta/async/http/server/AsyncHttpServerResponseImpl.java:220-272 | the same once the Range reply is known |
| ServerResponse.Response.ReplyPartial | AndroidAsync/src/com/koushikdutta/async/http/server/AsyncHttpServerResponseImpl.java:241-266 | 206 with Content-Range; then 500 and end for a short skip, or the stream served |
| ServerResponse.Response.ReplyWhole | AndroidAsync/src/com/koushikdutta/async/http/server/AsyncHttpServerResponseImpl.java:250-266 | without a Range: 500 and end for a short skip, or the stream served with the code kept |
| ServerResponse.Response.Serve | AndroidAsync/src/com/koushikdutta/async/http/server/AsyncHttpServerResponseImpl.java:253-267 | code kept, Content-Length and Accept-Ranges set, no other header but Transfer-Encoding changed; HEAD: the head alone and the response ended; otherwise the pump, whose first chunk brings the head, or an end at once when it writes nothing |
| ServerResponse.Response.Dispatch | AndroidAsync/src/com/koushikdutta/async/http/server/AsyncHttpServerResponseImpl.java:256-267 | the HEAD answer for HEAD, the pump otherwise |
| ServerResponse.Response.Pump | AndroidAsync/src/com/koushikdutta/async/http/server/AsyncHttpServerResponseImpl.java:261-267 | the pump takes the writable slot; the first write runs with its first chunk, and a throw there or a pump that writes nothing ends the response |
| ServerResponse.DeclaredLengthDecides | AndroidAsync/src/com/koushikdutta/async/http/server/AsyncHttpServerResponseImpl.java:80-97 | a Content-Length spelling out a long length makes the first write succeed with that length |
| ServerResponse.Response.ServeHead | AndroidAsync/src/com/koushikdutta/async/http/server/AsyncHttpServerResponseImpl.java:256-259 | the head alone, the code kept and the response ended when the first write succeeds; when it throws, 500 and end, which fails on a Chunked Transfer-Encoding |
| Router.Scan | AndroidAsync/src/com/koushikdutta/async/http/server/AsyncHttpServerRouter.java:332-349 | a hit is a route index inside the table, and only on a non-null path |
| Router.ScanFinds | AndroidAsync/src/com/koushikdutta/async/http/server/AsyncHttpServerRouter.java:332-349 | on a path the scan stops at the first route the request reaches, and misses exactly when none reaches |
| Router.ScanNullPath | AndroidAsync/src/com/koushikdutta/async/http/server/AsyncHttpServerRouter.java:332-349 | on a null path route throws exactly when some route is tried |
| Router.ScanAppend | AndroidAsync/src/com/koushikdutta/async/http/server/AsyncHttpServerRouter.java:48-56 | a route appended at the end catches only requests no earlier route catches |
| Router.RouteFirstMatch | AndroidAsync/src/com/koushikdutta/async/http/server/AsyncHttpServerRouter.java:332-349 | route answers with the first matching handler, delegates group 1 to a nested router, or returns null |
| Router.ResolveEndsAtHandler | AndroidAsync/src/com/koushikdutta/async/http/server/AsyncHttpServerRouter.java:340-343 | route never returns a nested router |
| Router.FirstNamed | AndroidAsync/src/com/koushikdutta/async/http/server/AsyncHttpServerRouter.java:38-46 | the first route with the given method and pattern text, or the end |
| Router.RemoveFirstRule | AndroidAsync/src/com/koushikdutta/async/http/server/AsyncHttpServerRouter.java:38-46 | removeAction deletes exactly the first route so named and keeps the others in order |
| Router.FirstNamedAppend | AndroidAsync/src/com/koushikdutta/async/http/server/AsyncHttpServerRouter.java:38-56 | appending keeps the first route so named |
| Router.RemoveNeedsStoredPattern | AndroidAsync/src/com/koushikdutta/async/http/server/AsyncHttpServerRouter.java:38-56 | removeAction with the regex given to addAction finds nothing, since the stored pattern starts with ^ |
| Router.LastIndexOf | AndroidAsync/src/com/koushikdutta/async/http/server/AsyncHttpServerRouter.java:157 | the last position of the character, or -1 |
| Router.ExtensionLookup | AndroidAsync/src/com/koushikdutta/async/http/server/AsyncHttpServerRouter.java:136-165 | the content type is the table's entry for the text after the last dot; a name without a dot has none |
| Router.FallbackExactlyWhenUnknown | AndroidAsync/src/com/koushikdutta/async/http/server/AsyncHttpServerRouter.java:149-154 | getContentType falls back to text/plain exactly when the lookup fails |
| Router.ListsUpgradeSome | AndroidAsync/src/com/koushikdutta/async/http/server/AsyncHttpServerRouter.java:66-76 | the loop finds Upgrade exactly when some trimmed item equals it ignoring case |
| Router.WebSocketChecks | AndroidAsync/src/com/koushikdutta/async/http/server/AsyncHttpServerRouter.java:62-90 | the WebSocket route connects exactly when Upgrade is websocket, Connection lists Upgrade, and the protocols agree |
| Router.UpgradeAmongTwo | AndroidAsync/src/com/koushikdutta/async/http/server/AsyncHttpServerRouter.java:66-76 | with two comma-separated items Upgrade may be either |
| Router.Router.constructor | AndroidAsync/src/com/koushikdutta/async/http/server/AsyncHttpServerRouter.java:36 | no routes |
| Router.Router.AddAction | AndroidAsync/src/com/koushikdutta/async/http/server/AsyncHttpServerRouter.java:48-56 | one route with pattern ^regex appended |
| Router.Router.Get | AndroidAsync/src/com/koushikdutta/async/http/server/AsyncHttpServerRouter.java:93-95 | addAction with GET |
| Router.Router.Post | AndroidAsync/src/com/koushikdutta/async/http/server/AsyncHttpServerRouter.java:97-99 | addAction with POST |
| Router.Router.WebSocketRoute | AndroidAsync/src/com/koushikdutta/async/http/server/AsyncHttpServerRouter.java:62-91 | a GET route running the WebSocket checks |
| Router.Router.RemoveAction | AndroidAsync/src/com/koushikdutta/async/http/server/AsyncHttpServerRouter.java:38-46 | the routes become RemoveFirst of the old routes |
| Router.Router.Route | AndroidAsync/src/com/koushikdutta/async/http/server/AsyncHttpServerRouter.java:332-349 | the loop returns Resolve: the first-match result |
| Router.Router.OnRequest | AndroidAsync/src/com/koushikdutta/async/http/server/AsyncHttpServerRouter.java:306-317 | no route: 404 and the outcome of end; otherwise the matched handler, or the WebSocket checks (404 and end when they fail), decide |
| Router.NotFoundAnswer | AndroidAsync/src/com/koushikdutta/async/http/server/AsyncHttpServerRouter.java:310-313 | code 404 and the outcome of end; the answer exactly when end succeeds |

## Left out

- Concurrency: the `synchronized` blocks and the `LOCK` object are left out. Every operation is sequential. The main-thread test is the `mayPool` argument.
- `setMaxPoolSize`/`setMaxItemSize`: the two ceilings are constructor constants of `BufferPool`. The pool never sees them change.
- The `ByteBufferList(ByteBuffer...)` and `ByteBufferList(byte[])` constructors and `addAll`: not modelled. They are a sequence of `add` calls, and `Add` states each one.
- `spewString`, `peekString` and `readString(Charset)` for charsets other than US-ASCII: not modelled, because they involve console output or character decoding beyond ASCII.
- The 32-bit `int` arithmetic of `remaining` and `addRemaining`'s `remaining() >= 0` guard: not modelled. Counts are unbounded, and the guard only matters once the count has gone negative. Only the corrected getters are used, so that never happens in the model.
- Buffers.BufferPool.ObtainArray: it requires a non-empty array or a non-positive size. With an empty array and a positive size the source throws `ArrayIndexOutOfBoundsException` at the fresh-buffer store, and the model does not represent that throw.
- Java assertions (`assert !reclaimedContains(b)` and the like): these are preconditions or proved invariants here, not runtime checks.
- `ByteString`: `encodeUtf8`, `utf8`, base64, `read(InputStream)`, `write`, `toByteArray`, `hashCode`, `toString` and serialization are not modelled. They involve I/O, character encodings or hashing outside the core's byte logic.
- Util.getBody/getBodyDecoder: the body objects and filters (`UrlEncodedFormBody`, `MultipartFormDataBody`, chunked, gzip and inflate filters) are modelled as tags. Their own parsing is not modelled. Posting to the event loop is a completion tag.
- HttpUtil.LengthWatcher.OnDataAvailable: `Assert.assertTrue(totalRead < contentLength)` is a precondition. `super.onDataAvailable` is represented by the `forwarded` log.
- Headers: `RawHeaders` and `RequestHeaders` are a case-sensitive map with one value per name. Header-name case folding and repeated headers are not modelled.
- Request.RequestLine: the URI always has a path. For an opaque URI `getPath()` is null and `getRequestLine` throws `NullPointerException` at `path.length()`; that throw is not modelled.
- Chain.ByteBufferList.Read and GetAll: the source sets the buffer it hands back to the list's byte order (`.order(order)`). The model's ByteBuffer has no byte order of its own, so that side effect is not modelled.
- ServerResponse.Response.Serve: it requires a length in the `long` range, because `mContentLength` is a Java `long`.
- Request.Request.constructor: `System.getProperty` is replaced by the user-agent parameter (`DefaultUserAgent` shows how it is built). The URI is reduced to host, path and raw query. The body is an identity (`Option<nat>`).
- ServerResponse: sockets, the `DataSink` chain, `Util.writeAll` and `Util.pump` are an event log. `completes` says whether the connection takes a write at once, so that its completion callback runs inside the call. `HttpUtil.isKeepAlive` is a constructor argument. `getResponseCodeDescription` and the formatting of the status line are not modelled.
- ServerResponse: `sendFile`, `send(JSONObject)`, `send(String)`, `setContentType`, `writeHead` (the same as the first write), `isOpen`, `getServer` and `onCompleted` are not modelled. They are thin wrappers or involve file and JSON I/O.
- ServerResponse.Response.Send: the body is a sequence of code units. Its UTF-8 length is taken to be its length, because UTF-8 encoding is not modelled.
- ServerResponse.Response.SendStream: `InputStream.skip` is its `skipped` argument. Whether `Util.pump` writes anything before it finishes is its `pumps` argument; the completion of a pump that has written is left to a later `OnEnd`.
- ServerResponse.Response.Send and ServerResponse.Response.Pump: `Util.writeAll` and `Util.pump` put their own writable callback in the response's slot. The model shows that slot as holding no callback, and does not model the internal callback's re-entrant writes.
- Chain.ByteBufferList.GetBytes: it requires the destination range to fit. Java throws `IndexOutOfBoundsException` part-way through, after draining and reclaiming the earlier buffers, which leaves `remaining` stale. That partial state is not modelled.
- Chain.ByteBufferList.Add, AddFirst, AddData, AddAndTrim, GetInto, GetRest, GetBytes and GetArray: they require that the list owns its backing arrays alone. Adding the same buffer twice, or adding a `duplicate()` or `slice()` of a held buffer, is not modelled.
- HttpText.EqualsIgnoreCaseLowers: the fold covers A-Z and the four non-ASCII characters that Java's case mapping turns into ASCII letters (U+0130, U+0131, U+017F and U+212A). That makes it exact whenever one side is ASCII, as at every call site. Other non-ASCII pairs, such as É and é, are not equated.
- HttpText.ParseDecimal: it accepts only ASCII digits, while `Integer.parseInt` and `Long.parseLong` accept any Unicode decimal digit. This carries over to `HttpUtil.ContentLength`, `ServerResponse.ReadLength`, `ServerResponse.Decide`, `ServerResponse.FirstWriteRule`, `ServerResponse.FirstWriteFailure`, `ServerResponse.ParseRange` and `ServerResponse.Response.SendStream`.
- Router.ExtensionLookup: the content-type table is a constant. The source fills its static table in each router's instance initializer, so a static lookup made before any router exists finds nothing and gives null or "text/plain".
- Headers: libcore's `RawHeaders.set` trims the values it stores (User-Agent, Host, Location, Content-Type among them). The model stores values as given.
- Router: `java.util.regex` is the `Matcher` argument. Regex compilation and its syntax errors are not modelled. `directory`, `getAssetStream` and the `Asset` class are not modelled, because they involve Android assets and the file system. `WebSocketImpl` is the `onConnected` identity.
- Router.Router.Route: the depth of nested routers is bounded by a `fuel` argument. With fuel exhausted the result is a failure, whereas the source has no bound.

## Findings

| source | as written | input that shows it | evidently intended | confidence | as-written member | corrected member |
|---|---|---|---|---|---|---|
| AndroidAsync/src/com/koushikdutta/async/ByteBufferList.java:116-172 | `get(bytes, offset, length)` and `get(into, length)` refuse only `remaining() < length`. A negative length skips the copy loop, then `remaining -= length` raises the count. | a list holding the single byte 7, `get(into, -1)`: nothing moves and `remaining()` becomes 2 | reject a negative length, like the `IllegalArgumentException("length")` for one that is too long | not executed | Chain.NegativeLengthExample | Chain.ByteBufferList.GetInto |
| AndroidAsync/src/com/koushikdutta/async/ByteBufferList.java:47-53 | `getAllByteArray`'s fast path returns `array()` of a lone buffer whose `capacity()` equals `remaining()`. It ignores `arrayOffset()`, so a slice hands out bytes before its window. | a lone buffer sliced at array offset 2 of a 6-byte array, with capacity 4 and all 4 bytes remaining: the result has 6 bytes, not 4 | return the array only when it is exactly the content (offset 0, array length = remaining) | not executed | Chain.SlicedHeadLeaks | Chain.ByteBufferList.GetAllByteArray |

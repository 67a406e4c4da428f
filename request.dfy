/**
 * A client request (`AsyncHttpRequest`): the request line built from the
 * method and the URI, the default headers the constructor sets, and the
 * follow-redirect flag and body slot.
 */
module Request {
  import opened Outcomes
  import opened HttpText
  import opened ServerResponse

  /** The parts of a hierarchical `java.net.URI` the request reads: host, path and raw query. */
  datatype Uri = Uri(host: Option<string>, path: string, rawQuery: Option<string>)

  /** The request target: the path, "/" for an empty one, and "?" + the raw query when there is a non-empty one. */
  function Target(uri: Uri): (t: string)
    ensures t != ""
    ensures uri.path != "" ==> |uri.path| <= |t| && t[..|uri.path|] == uri.path
    ensures uri.path == "" ==> t[0] == '/'
    ensures IsEmpty(uri.rawQuery) ==> t == (if uri.path == "" then "/" else uri.path)
  {
    var path := if uri.path == "" then "/" else uri.path;
    if !IsEmpty(uri.rawQuery) then path + "?" + uri.rawQuery.value else path
  }

  /** `getRequestLine()`: `%s %s HTTP/1.1` of the method and the target. */
  function RequestLine(verb: string, uri: Uri): string
  {
    verb + " " + Target(uri) + " HTTP/1.1"
  }

  lemma {:induction false} FieldsOfTriple(x: string, c: char, y: string, z: string)
    requires c !in x && c !in y && c !in z
    ensures Fields(x + [c] + y + [c] + z, c) == [x, y, z]
  {
    assert x + [c] + y + [c] + z == x + [c] + (y + [c] + z);
    FieldsOfPair(x, c, y + [c] + z);
    FieldsOfPair(y, c, z);
    FieldsOfSingle(z, c);
  }

  /**
   * The request line is method SP request-target SP "HTTP/1.1": split on the
   * spaces it gives back the method, the target and the version, whenever
   * the method and the target hold no space.
   */
  lemma RequestLineParts(verb: string, uri: Uri)
    requires ' ' !in verb && ' ' !in Target(uri)
    ensures Split(RequestLine(verb, uri), ' ') == [verb, Target(uri), "HTTP/1.1"]
  {
    var t := Target(uri);
    assert RequestLine(verb, uri) == verb + [' '] + t + [' '] + "HTTP/1.1";
    FieldsOfTriple(verb, ' ', t, "HTTP/1.1");
    assert RequestLine(verb, uri)[|verb|] == ' ';
  }

  /**
   * The target splits at its '?' into the path ("/" when empty) and the raw
   * query when the query is non-empty, and has no '?' otherwise, provided
   * neither part holds one.
   */
  lemma TargetParts(uri: Uri)
    requires '?' !in uri.path
    requires uri.rawQuery.Some? ==> '?' !in uri.rawQuery.value
    ensures !IsEmpty(uri.rawQuery) ==>
              Split(Target(uri), '?') == [if uri.path == "" then "/" else uri.path, uri.rawQuery.value]
    ensures IsEmpty(uri.rawQuery) ==> '?' !in Target(uri)
  {
    var path := if uri.path == "" then "/" else uri.path;
    if !IsEmpty(uri.rawQuery) {
      assert path + "?" + uri.rawQuery.value == path + ['?'] + uri.rawQuery.value;
      SplitPair(path, '?', uri.rawQuery.value);
    }
  }

  /** `getDefaultUserAgent()`: the `http.agent` property when set, otherwise "Java" and the Java version. */
  function DefaultUserAgent(agentProperty: Option<string>, javaVersion: string): string
  {
    if agentProperty.Some? then agentProperty.value else "Java" + javaVersion
  }

  /** The headers the constructor sets over the `Host` it starts from. */
  function DefaultHeaders(host: Option<string>, userAgent: string): Headers
  {
    var base: Headers := if host.Some? then map["Host" := host.value] else map[];
    base["User-Agent" := userAgent]["Accept-Encoding" := "gzip, deflate"]["Connection" := "close"]["Accept" := "*/*"]
  }

  class Request {
    /** `mMethod`. */
    const verb: string
    const uri: Uri
    /** The status line of the raw header block. */
    var statusLine: string
    var headers: Headers
    var followRedirect: bool
    /** `mBody`: the identity of the body, or None for null. */
    var body: Option<nat>

    /**
     * `AsyncHttpRequest(uri, method)`: the status line is the request line;
     * Host is the URI's host, User-Agent the default agent (given as
     * `userAgent`), Accept-Encoding "gzip, deflate", Connection "close" and
     * Accept every media type; redirects are followed and there is no body.
     */
    constructor (uri: Uri, verb: string, userAgent: string)
      ensures this.uri == uri && this.verb == verb
      ensures statusLine == RequestLine(verb, uri)
      ensures Get(headers, "Accept-Encoding") == Some("gzip, deflate")
      ensures Get(headers, "Connection") == Some("close")
      ensures Get(headers, "Accept") == Some("*/*")
      ensures Get(headers, "User-Agent") == Some(userAgent)
      ensures Get(headers, "Host") == uri.host
      ensures headers.Keys <= {"Host", "User-Agent", "Accept-Encoding", "Connection", "Accept"}
      ensures followRedirect && body.None?
    {
      this.verb := verb;
      this.uri := uri;
      statusLine := RequestLine(verb, uri);
      headers := DefaultHeaders(uri.host, userAgent);
      followRedirect := true;
      body := None;
    }

    /** `getMethod()`. */
    function GetMethod(): string
    {
      verb
    }

    /** `getRequestLine()`, which reads the method and the URI, neither of which changes. */
    function GetRequestLine(): string
    {
      RequestLine(verb, uri)
    }

    function GetFollowRedirect(): bool
      reads this
    {
      followRedirect
    }

    /** `setFollowRedirect`: the getter returns what was set; nothing else changes. */
    method SetFollowRedirect(follow: bool)
      modifies this`followRedirect
      ensures GetFollowRedirect() == follow
    {
      followRedirect := follow;
    }

    function GetBody(): Option<nat>
      reads this
    {
      body
    }

    /** `setBody`: the getter returns what was set; nothing else changes. */
    method SetBody(b: Option<nat>)
      modifies this`body
      ensures GetBody() == b
    {
      body := b;
    }
  }
}

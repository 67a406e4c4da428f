/**
 * The server's router (`AsyncHttpServerRouter`): an ordered list of routes,
 * each a method (or none, the wildcard used for nesting), a pattern and a
 * callback; first-match selection with delegation to nested routers; the
 * extension-to-content-type table; and the header checks of a WebSocket route.
 * The regular-expression engine is not modelled: what a pattern makes of a
 * path is given by a function.
 */
module Router {
  import opened Outcomes
  import opened HttpText
  import opened ServerResponse

  /** Capture group 1 after a whole match: the pattern has none, it took no part, or it captured `text`. */
  datatype Group = NoGroup | Unset | Captured(text: string)

  /** `Matcher.matches()` over the whole path, and group 1 when it matched. */
  datatype MatchResult = NoMatch | Match(group1: Group)

  /** The regular-expression engine: what the pattern (first argument) makes of a path. */
  type Matcher = (string, string) -> MatchResult

  /** A route's callback: an ordinary handler, the handler `websocket` registers, or a nested router. */
  datatype Handler =
    | Plain(id: nat)
    | WebSocket(protocol: Option<string>, onConnected: nat)
    | Nested(router: Router)

  /** `RouteInfo`: the method (None for the wildcard), the compiled pattern's text, and the callback. */
  datatype RouteInfo = RouteInfo(action: Option<string>, pattern: string, callback: Handler)

  /** `RouteMatch`, without the matcher object. */
  datatype RouteMatch = RouteMatch(verb: string, path: string, callback: Handler)

  const GetMethod: string := "GET"
  const PostMethod: string := "POST"

  // ---------------------------------------------------------------------------
  // route selection

  /** A route is tried for a request when its method is the request's or is the wildcard. */
  predicate Admits(p: RouteInfo, verb: string)
  {
    p.action.None? || p.action == Some(verb)
  }

  /** Route `j` is one the request reaches: it is tried and its pattern matches the whole path. */
  predicate Selects(rs: seq<RouteInfo>, verb: string, path: string, matches: Matcher, j: int)
    requires 0 <= j < |rs|
  {
    Admits(rs[j], verb) && matches(rs[j].pattern, path).Match?
  }

  /** Where the scan of the routes from `i` on stops: nowhere, at a matching route, or on a null path. */
  datatype Hit = Miss | Hit(index: nat, group: Group) | Crash

  /**
   * The loop of `route` from route `i`: routes of another method are skipped;
   * the first tried route whose pattern matches stops the scan; a null path
   * throws at the first route tried.
   */
  function Scan(rs: seq<RouteInfo>, verb: string, path: Option<string>, matches: Matcher, i: nat): (h: Hit)
    requires i <= |rs|
    decreases |rs| - i
    ensures h.Hit? ==> i <= h.index < |rs| && path.Some?
  {
    if i == |rs| then Miss
    else if !Admits(rs[i], verb) then Scan(rs, verb, path, matches, i + 1)
    else if path.None? then Crash
    else match matches(rs[i].pattern, path.value)
      case NoMatch => Scan(rs, verb, path, matches, i + 1)
      case Match(g) => Hit(i, g)
  }

  /** On a path, the scan stops at the first route the request reaches, and misses only when it reaches none. */
  lemma {:induction false} ScanFinds(rs: seq<RouteInfo>, verb: string, path: string, matches: Matcher, i: nat)
    requires i <= |rs|
    decreases |rs| - i
    ensures !Scan(rs, verb, Some(path), matches, i).Crash?
    ensures Scan(rs, verb, Some(path), matches, i).Miss? <==>
              forall j | i <= j < |rs| :: !Selects(rs, verb, path, matches, j)
    ensures var h := Scan(rs, verb, Some(path), matches, i);
            h.Hit? ==>
              && Selects(rs, verb, path, matches, h.index)
              && matches(rs[h.index].pattern, path) == Match(h.group)
              && forall j | i <= j < h.index :: !Selects(rs, verb, path, matches, j)
  {
    if i < |rs| {
      ScanFinds(rs, verb, path, matches, i + 1);
      if Selects(rs, verb, path, matches, i) {
        assert Scan(rs, verb, Some(path), matches, i) == Hit(i, matches(rs[i].pattern, path).group1);
      }
    }
  }

  /** On a null path the scan throws exactly when some route is tried. */
  lemma {:induction false} ScanNullPath(rs: seq<RouteInfo>, verb: string, matches: Matcher, i: nat)
    requires i <= |rs|
    decreases |rs| - i
    ensures Scan(rs, verb, None, matches, i).Crash? <==> exists j | i <= j < |rs| :: Admits(rs[j], verb)
    ensures !Scan(rs, verb, None, matches, i).Crash? ==> Scan(rs, verb, None, matches, i).Miss?
  {
    if i < |rs| {
      ScanNullPath(rs, verb, matches, i + 1);
    }
  }

  /** A route appended at the end is reached only by requests that no earlier route reaches. */
  lemma {:induction false} ScanAppend(rs: seq<RouteInfo>, p: RouteInfo, verb: string, path: string, matches: Matcher, i: nat)
    requires i <= |rs|
    decreases |rs| - i
    ensures var before := Scan(rs, verb, Some(path), matches, i);
            var after := Scan(rs + [p], verb, Some(path), matches, i);
            && (before.Hit? ==> after == before)
            && (before.Miss? && Admits(p, verb) && matches(p.pattern, path).Match? ==>
                  after == Hit(|rs|, matches(p.pattern, path).group1))
            && (before.Miss? && !(Admits(p, verb) && matches(p.pattern, path).Match?) ==> after.Miss?)
  {
    var rs' := rs + [p];
    if i < |rs| {
      assert rs'[i] == rs[i];
      ScanAppend(rs, p, verb, path, matches, i + 1);
    } else {
      assert rs'[i] == p;
      if !Admits(p, verb) || matches(p.pattern, path).NoMatch? {
        assert Scan(rs', verb, Some(path), matches, i + 1) == Miss;
      }
    }
  }

  /**
   * What `route(method, path)` returns on a router: null (Success(None)) when
   * no route is reached, the first reached route's handler, or what the
   * nested router at that route returns for capture group 1. A group the
   * pattern lacks throws, as does a null path once a route is tried; `fuel`
   * bounds the nesting depth, and running out of it stands for the stack
   * overflow of a router nested in itself.
   */
  ghost function Resolve(rt: Router, verb: string, path: Option<string>, matches: Matcher, fuel: nat): Result<Option<RouteMatch>>
    reads *
    decreases fuel
  {
    match Scan(rt.routes, verb, path, matches, 0)
    case Miss => Success(None)
    case Crash => Failure
    case Hit(k, g) =>
      match rt.routes[k].callback
      case Nested(sub) =>
        if fuel == 0 then Failure
        else (match g
          case NoGroup => Failure
          case Unset => Resolve(sub, verb, None, matches, fuel - 1)
          case Captured(s) => Resolve(sub, verb, Some(s), matches, fuel - 1))
      case _ => Success(Some(RouteMatch(verb, path.value, rt.routes[k].callback)))
  }

  /**
   * First match: a request that reaches no route gets null; otherwise the
   * first route it reaches decides, by its handler or by delegating group 1
   * to its nested router. Later routes are never consulted.
   */
  lemma RouteFirstMatch(rt: Router, verb: string, path: string, matches: Matcher, fuel: nat, k: nat)
    requires k <= |rt.routes|
    requires forall j | 0 <= j < k :: !Selects(rt.routes, verb, path, matches, j)
    ensures k == |rt.routes| ==> Resolve(rt, verb, Some(path), matches, fuel) == Success(None)
    ensures k < |rt.routes| && Selects(rt.routes, verb, path, matches, k) && !rt.routes[k].callback.Nested? ==>
              Resolve(rt, verb, Some(path), matches, fuel) == Success(Some(RouteMatch(verb, path, rt.routes[k].callback)))
    ensures k < |rt.routes| && Selects(rt.routes, verb, path, matches, k) && rt.routes[k].callback.Nested?
            && fuel > 0 && matches(rt.routes[k].pattern, path).group1.Captured? ==>
              Resolve(rt, verb, Some(path), matches, fuel)
              == Resolve(rt.routes[k].callback.router, verb, Some(matches(rt.routes[k].pattern, path).group1.text), matches, fuel - 1)
  {
    ScanFinds(rt.routes, verb, path, matches, 0);
    var h := Scan(rt.routes, verb, Some(path), matches, 0);
    if h.Hit? {
      assert !(h.index < k);
    }
  }

  /** What `route` returns is never a nested router: delegation goes on until a handler answers. */
  lemma {:induction false} ResolveEndsAtHandler(rt: Router, verb: string, path: Option<string>, matches: Matcher, fuel: nat)
    decreases fuel
    ensures var r := Resolve(rt, verb, path, matches, fuel);
            r.Success? && r.value.Some? ==> !r.value.value.callback.Nested?
  {
    var h := Scan(rt.routes, verb, path, matches, 0);
    if h.Hit? && rt.routes[h.index].callback.Nested? && fuel > 0 {
      var sub := rt.routes[h.index].callback.router;
      match h.group
      case NoGroup =>
      case Unset => ResolveEndsAtHandler(sub, verb, None, matches, fuel - 1);
      case Captured(s) => ResolveEndsAtHandler(sub, verb, Some(s), matches, fuel - 1);
    }
  }

  // ---------------------------------------------------------------------------
  // removal

  /** The index of the first route with method `action` and pattern text `pattern` from `i` on, or |rs|. */
  function FirstNamed(rs: seq<RouteInfo>, action: Option<string>, pattern: string, i: nat): (k: nat)
    requires i <= |rs|
    decreases |rs| - i
    ensures i <= k <= |rs|
    ensures k < |rs| ==> rs[k].action == action && rs[k].pattern == pattern
    ensures forall j | i <= j < k :: !(rs[j].action == action && rs[j].pattern == pattern)
  {
    if i == |rs| then |rs|
    else if rs[i].action == action && rs[i].pattern == pattern then i
    else FirstNamed(rs, action, pattern, i + 1)
  }

  /** The routes after `removeAction(action, pattern)`: the first one so named is gone. */
  function RemoveFirst(rs: seq<RouteInfo>, action: Option<string>, pattern: string): seq<RouteInfo>
  {
    var k := FirstNamed(rs, action, pattern, 0);
    if k == |rs| then rs else rs[..k] + rs[k + 1..]
  }

  /**
   * Removal takes out exactly one route, the first with that method and
   * pattern text, and keeps the order of the rest; with no such route
   * nothing changes.
   */
  lemma RemoveFirstRule(rs: seq<RouteInfo>, action: Option<string>, pattern: string)
    ensures var k := FirstNamed(rs, action, pattern, 0);
            var r := RemoveFirst(rs, action, pattern);
            && (k == |rs| ==> r == rs)
            && (k < |rs| ==> |r| == |rs| - 1 && rs == r[..k] + [RouteInfo(action, pattern, rs[k].callback)] + r[k..])
  {
    var k := FirstNamed(rs, action, pattern, 0);
    if k < |rs| {
      var r := RemoveFirst(rs, action, pattern);
      assert r[..k] == rs[..k] && r[k..] == rs[k + 1..];
      assert rs == rs[..k] + [rs[k]] + rs[k + 1..];
    }
  }

  /** Appending a route keeps the first route so named; when there was none, the appended route is it if it carries the name. */
  lemma {:induction false} FirstNamedAppend(rs: seq<RouteInfo>, p: RouteInfo, action: Option<string>, pattern: string, i: nat)
    requires i <= |rs|
    decreases |rs| - i
    ensures FirstNamed(rs, action, pattern, i) < |rs| ==>
              FirstNamed(rs + [p], action, pattern, i) == FirstNamed(rs, action, pattern, i)
    ensures FirstNamed(rs, action, pattern, i) == |rs| ==>
              FirstNamed(rs + [p], action, pattern, i) == (if p.action == action && p.pattern == pattern then |rs| else |rs| + 1)
  {
    var rs' := rs + [p];
    if i < |rs| {
      assert rs'[i] == rs[i];
      FirstNamedAppend(rs, p, action, pattern, i + 1);
    } else {
      assert rs'[i] == p;
    }
  }

  /**
   * `addAction` stores "^" + regex, so `removeAction` with the regex that was
   * added never takes that route out, while `removeAction` with the stored
   * text "^" + regex does (when no earlier route carries the same name).
   */
  lemma RemoveNeedsStoredPattern(rs: seq<RouteInfo>, action: Option<string>, regex: string, callback: Handler)
    ensures RemoveFirst(rs + [RouteInfo(action, "^" + regex, callback)], action, regex)
            == RemoveFirst(rs, action, regex) + [RouteInfo(action, "^" + regex, callback)]
    ensures FirstNamed(rs, action, "^" + regex, 0) == |rs| ==>
              RemoveFirst(rs + [RouteInfo(action, "^" + regex, callback)], action, "^" + regex) == rs
  {
    var p := RouteInfo(action, "^" + regex, callback);
    assert |p.pattern| != |regex|;
    FirstNamedAppend(rs, p, action, regex, 0);
    FirstNamedAppend(rs, p, action, "^" + regex, 0);
    var k := FirstNamed(rs, action, regex, 0);
    if k < |rs| {
      assert (rs + [p])[..k] == rs[..k];
      assert (rs + [p])[k + 1..] == rs[k + 1..] + [p];
    } else {
      assert (rs + [p])[..|rs|] == rs;
    }
  }

  // ---------------------------------------------------------------------------
  // content types

  /** The extension table filled in by the router's initializer. */
  const ContentTypes: map<string, string> := map[
    "js" := "application/javascript",
    "json" := "application/json",
    "png" := "image/png",
    "jpg" := "image/jpeg",
    "html" := "text/html",
    "css" := "text/css",
    "mp4" := "video/mp4",
    "mov" := "video/quicktime",
    "wmv" := "video/x-ms-wmv"
  ]

  /** `s.lastIndexOf(c)`: the last position holding `c`, or -1. */
  function LastIndexOf(s: string, c: char): (k: int)
    ensures -1 <= k < |s|
    ensures k >= 0 ==> s[k] == c
    ensures forall j | k < j < |s| :: s[j] != c
  {
    if s == [] then -1
    else if s[|s| - 1] == c then |s| - 1
    else LastIndexOf(s[..|s| - 1], c)
  }

  /** `tryGetContentType(path)`: the type of the text after the last '.', or None (null). */
  function TryGetContentType(path: string): Option<string>
  {
    var k := LastIndexOf(path, '.');
    if k == -1 then None
    else
      var e := path[k + 1..];
      if e in ContentTypes then Some(ContentTypes[e]) else None
  }

  /** `getContentType(path)`: the table's type, or "text/plain". */
  function GetContentType(path: string): string
  {
    match TryGetContentType(path)
    case Some(t) => t
    case None => "text/plain"
  }

  /**
   * The lookup uses exactly the text after the last '.': a path without a
   * '.' has no type, and "stem.ext" with a dot-free `ext` has the table's
   * type for `ext`, whatever the stem holds.
   */
  lemma ExtensionLookup(stem: string, ext: string)
    requires '.' !in ext
    ensures TryGetContentType(stem + "." + ext) == if ext in ContentTypes then Some(ContentTypes[ext]) else None
    ensures '.' !in stem ==> TryGetContentType(stem) == None
  {
    var path := stem + "." + ext;
    assert path[|stem|] == '.';
    forall j | |stem| < j < |path|
      ensures path[j] != '.'
    {
      assert path[j] == ext[j - |stem| - 1];
    }
    assert LastIndexOf(path, '.') == |stem|;
    assert path[|stem| + 1..] == ext;
    if '.' !in stem {
      forall j | 0 <= j < |stem|
        ensures stem[j] != '.'
      {
        assert stem[j] in stem;
      }
    }
  }

  /** "text/plain" is never in the table, so the fallback shows exactly when the lookup fails. */
  lemma FallbackExactlyWhenUnknown(path: string)
    ensures GetContentType(path) == "text/plain" <==> TryGetContentType(path).None?
    ensures TryGetContentType(path).Some? ==> GetContentType(path) in ContentTypes.Values
  {
    if TryGetContentType(path).Some? {
      var e := path[LastIndexOf(path, '.') + 1..];
      assert e in ContentTypes;
      assert ContentTypes[e] != "text/plain";
    }
  }

  // ---------------------------------------------------------------------------
  // WebSocket header checks

  /** Whether some item of the list, trimmed, is "Upgrade" ignoring case (the loop with `break`). */
  predicate ListsUpgrade(items: seq<string>)
  {
    items != [] && (EqualsIgnoreCase("Upgrade", Trim(items[0])) || ListsUpgrade(items[1..]))
  }

  lemma {:induction false} ListsUpgradeSome(items: seq<string>)
    ensures ListsUpgrade(items) <==> exists i | 0 <= i < |items| :: EqualsIgnoreCase("Upgrade", Trim(items[i]))
  {
    if items != [] {
      ListsUpgradeSome(items[1..]);
      if !EqualsIgnoreCase("Upgrade", Trim(items[0])) && exists i | 0 <= i < |items| :: EqualsIgnoreCase("Upgrade", Trim(items[i])) {
        var i :| 0 <= i < |items| && EqualsIgnoreCase("Upgrade", Trim(items[i]));
        assert items[1..][i - 1] == items[i];
      }
    }
  }

  /** `hasUpgrade`: a Connection header whose comma-separated items include "Upgrade". */
  predicate HasUpgrade(connection: Option<string>)
  {
    connection.Some? && ListsUpgrade(Split(connection.value, ','))
  }

  /** The WebSocket route connects exactly when all three checks pass, and answers 404 otherwise. */
  predicate AcceptsWebSocket(h: Headers, protocol: Option<string>)
  {
    && MatchesIgnoreCase("websocket", Get(h, "Upgrade"))
    && HasUpgrade(Get(h, "Connection"))
    && protocol == Get(h, "Sec-WebSocket-Protocol")
  }

  /**
   * The WebSocket checks spelled out: Upgrade is "websocket" up to case, some
   * trimmed comma-separated Connection item is "Upgrade" up to case, and the
   * offered subprotocol is the registered one (both absent counting as equal).
   */
  lemma WebSocketChecks(h: Headers, protocol: Option<string>)
    ensures AcceptsWebSocket(h, protocol) <==>
              && "Upgrade" in h && EqualsIgnoreCase("websocket", h["Upgrade"])
              && "Connection" in h
              && (exists i | 0 <= i < |Split(h["Connection"], ',')| :: EqualsIgnoreCase("Upgrade", Trim(Split(h["Connection"], ',')[i])))
              && (protocol.None? <==> "Sec-WebSocket-Protocol" !in h)
              && (protocol.Some? ==> protocol.value == h["Sec-WebSocket-Protocol"])
  {
    if "Connection" in h {
      ListsUpgradeSome(Split(h["Connection"], ','));
    }
  }

  /** With two comma-separated items, "Upgrade" may be either of them, surrounded by blanks. */
  lemma UpgradeAmongTwo(x: string, y: string)
    requires ',' !in x && ',' !in y && y != ""
    ensures HasUpgrade(Some(x + [','] + y)) <==>
              EqualsIgnoreCase("Upgrade", Trim(x)) || EqualsIgnoreCase("Upgrade", Trim(y))
  {
    SplitPair(x, ',', y);
    ListsUpgradeSome([x, y]);
  }

  // ---------------------------------------------------------------------------
  // the router

  /** What `Callback.onRequest` did with a request. */
  datatype Dispatch =
      /** No route: 404 and `end()`. */
    | NotFound
      /** The matched handler was called. */
    | Invoked(id: nat)
      /** A WebSocket route whose checks passed: `onConnected` was called. */
    | Connected(id: nat)
      /** A WebSocket route whose checks failed: 404 and `end()`. */
    | Refused

  class Router {
    var routes: seq<RouteInfo>

    constructor ()
      ensures routes == []
    {
      routes := [];
    }

    /** `addAction`: one route with pattern "^" + regex at the end; earlier routes stay as they were. */
    method AddAction(action: Option<string>, regex: string, callback: Handler)
      modifies this
      ensures routes == old(routes) + [RouteInfo(action, "^" + regex, callback)]
    {
      routes := routes + [RouteInfo(action, "^" + regex, callback)];
    }

    /** `get(regex, callback)`. */
    method Get(regex: string, callback: Handler)
      modifies this
      ensures routes == old(routes) + [RouteInfo(Some(GetMethod), "^" + regex, callback)]
    {
      AddAction(Some(GetMethod), regex, callback);
    }

    /** `post(regex, callback)`. */
    method Post(regex: string, callback: Handler)
      modifies this
      ensures routes == old(routes) + [RouteInfo(Some(PostMethod), "^" + regex, callback)]
    {
      AddAction(Some(PostMethod), regex, callback);
    }

    /** `websocket(regex, protocol, callback)`: a GET route running the WebSocket checks. */
    method WebSocketRoute(regex: string, protocol: Option<string>, onConnected: nat)
      modifies this
      ensures routes == old(routes) + [RouteInfo(Some(GetMethod), "^" + regex, WebSocket(protocol, onConnected))]
    {
      Get(regex, WebSocket(protocol, onConnected));
    }

    /**
     * `removeAction(action, regex)`: the first route whose method equals
     * `action` (null-safe) and whose stored pattern text equals `regex` is
     * removed; the rest keep their order.
     */
    method RemoveAction(action: Option<string>, regex: string)
      modifies this
      ensures routes == RemoveFirst(old(routes), action, regex)
    {
      var i := 0;
      while i < |routes|
        invariant 0 <= i <= |routes|
        invariant routes == old(routes)
        invariant FirstNamed(routes, action, regex, 0) == FirstNamed(routes, action, regex, i)
      {
        var p := routes[i];
        if p.action == action && regex == p.pattern {
          routes := routes[..i] + routes[i + 1..];
          return;
        }
        i := i + 1;
      }
    }

    /** `route(method, path)`: the first-match loop, delegating to a nested router on group 1. */
    method Route(verb: string, path: Option<string>, matches: Matcher, fuel: nat) returns (r: Result<Option<RouteMatch>>)
      ensures r == Resolve(this, verb, path, matches, fuel)
      decreases fuel
    {
      var i := 0;
      while i < |routes|
        invariant 0 <= i <= |routes|
        invariant Scan(routes, verb, path, matches, 0) == Scan(routes, verb, path, matches, i)
      {
        var p := routes[i];
        if Admits(p, verb) {
          if path.None? {
            return Failure;
          }
          var m := matches(p.pattern, path.value);
          if m.Match? {
            if !p.callback.Nested? {
              return Success(Some(RouteMatch(verb, path.value, p.callback)));
            }
            if fuel == 0 {
              return Failure;
            }
            match m.group1
            case NoGroup =>
              return Failure;
            case Unset =>
              r := p.callback.router.Route(verb, None, matches, fuel - 1);
              return;
            case Captured(s) =>
              r := p.callback.router.Route(verb, Some(s), matches, fuel - 1);
              return;
          }
        }
        i := i + 1;
      }
      return Success(None);
    }

    /**
     * `Callback.onRequest`: routes the request's method and path; with no
     * route the answer is 404 and `end()`; otherwise exactly the matched
     * handler runs. A WebSocket handler runs its checks and answers 404 and
     * `end()` when one fails. An exception from routing or from `end()` is
     * Failure.
     */
    method OnRequest(path: string, response: Response, matches: Matcher, fuel: nat, completes: bool) returns (r: Result<Dispatch>)
      requires response.Valid()
      modifies response
      ensures response.Valid()
      ensures old(Resolve(this, response.requestMethod, Some(path), matches, fuel)).Failure? ==> r.Failure?
      ensures old(Resolve(this, response.requestMethod, Some(path), matches, fuel)) == Success(None) ==>
                && response.Code() == 404 && (r.Success? ==> r.value == NotFound)
                && response.EndOutcome(if r.Success? then Success(()) else Failure, completes, old(response.headers))
      ensures old(Resolve(this, response.requestMethod, Some(path), matches, fuel)).Success? ==>
                match old(Resolve(this, response.requestMethod, Some(path), matches, fuel)).value
                case None => true
                case Some(rm) =>
                  match rm.callback
                  case Plain(id) => r == Success(Invoked(id)) && unchanged(response)
                  case WebSocket(protocol, id) =>
                    && (AcceptsWebSocket(response.requestHeaders, protocol) ==> r == Success(Connected(id)) && unchanged(response))
                    && (!AcceptsWebSocket(response.requestHeaders, protocol) ==>
                          && response.Code() == 404 && (r.Success? ==> r.value == Refused)
                          && response.EndOutcome(if r.Success? then Success(()) else Failure, completes, old(response.headers)))
                  case Nested(_) => false
    {
      var found := Route(response.requestMethod, Some(path), matches, fuel);
      ResolveEndsAtHandler(this, response.requestMethod, Some(path), matches, fuel);
      if found.Failure? {
        return Failure;
      }
      if found.value.None? {
        r := NotFoundAnswer(response, completes, NotFound);
        return;
      }
      match found.value.value.callback
      case Plain(id) =>
        return Success(Invoked(id));
      case WebSocket(protocol, id) =>
        if AcceptsWebSocket(response.requestHeaders, protocol) {
          return Success(Connected(id));
        }
        r := NotFoundAnswer(response, completes, Refused);
      case Nested(_) =>
        assert false;
        return Failure;
    }
  }

  /** `response.code(404); response.end();`, then `answer` unless `end()` throws. */
  method NotFoundAnswer(response: Response, completes: bool, answer: Dispatch) returns (r: Result<Dispatch>)
    requires response.Valid()
    modifies response
    ensures response.Valid() && response.Code() == 404
    ensures r.Success? ==> r.value == answer
    ensures response.EndOutcome(if r.Success? then Success(()) else Failure, completes, old(response.headers))
  {
    var e := response.Refuse(404, completes);
    if e.Failure? {
      return Failure;
    }
    return Success(answer);
  }
}

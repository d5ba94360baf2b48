/** From the octets of one framed request to the handler that answers it. */
module Routing {
  import opened Wrappers
  import opened ByteText
  import opened Http
  import opened Fields
  import opened Framing
  import opened Patterns

  // ---------- routes ----------

  type RouteKey = (Method, Bytes)

  /** A handler, and the protocol extension that may take the connection over. */
  datatype Entry = Entry(handler: Request -> Response, upgrade: Option<nat>)

  /** A route table, and the order in which iterating over it yields its keys. */
  datatype Routes = Routes(table: map<RouteKey, Entry>, order: seq<RouteKey>)

  predicate Distinct<T(==)>(s: seq<T>) {
    forall i, j | 0 <= i < j < |s| :: s[i] != s[j]
  }

  /** The order lists every key of the table, once. */
  ghost predicate Enumerates(routes: Routes) {
    && (forall k :: k in routes.order <==> k in routes.table)
    && Distinct(routes.order)
  }

  predicate Matches(k: RouteKey, verb: Method, path: Bytes) {
    k.0 == verb && Params(k.1, path) != map[]
  }

  /** The first key in iteration order whose pattern matches. */
  function FirstMatch(order: seq<RouteKey>, verb: Method, path: Bytes): (k: Option<RouteKey>)
    ensures k.Some? ==> k.value in order && Matches(k.value, verb, path)
    ensures k.None? ==> forall j | j in order :: !Matches(j, verb, path)
  {
    if order == [] then None
    else if Matches(order[0], verb, path) then Some(order[0])
    else FirstMatch(order[1..], verb, path)
  }

  method FindMatch(routes: Routes, verb: Method, path: Bytes) returns (k: Option<RouteKey>)
    ensures k == FirstMatch(routes.order, verb, path)
  {
    hide Params;
    var i := 0;
    while i < |routes.order|
      invariant 0 <= i <= |routes.order|
      invariant FirstMatch(routes.order, verb, path) == FirstMatch(routes.order[i..], verb, path)
    {
      if routes.order[i].0 == verb {
        var params := ExtractParams(routes.order[i].1, path);
        if params != map[] {
          return Some(routes.order[i]);
        }
      }
      i := i + 1;
    }
    k := None;
  }

  // ---------- parsing a framed request ----------

  function MethodNamed(s: Bytes): Option<Method> {
    if s == "GET" then Some(GET)
    else if s == "POST" then Some(POST)
    else if s == "PUT" then Some(PUT)
    else if s == "DELETE" then Some(DELETE)
    else if s == "OPTIONS" then Some(OPTIONS)
    else if s == "HEAD" then Some(HEAD)
    else if s == "PATCH" then Some(PATCH)
    else if s == "CONNECT" then Some(CONNECT)
    else if s == "TRACE" then Some(TRACE)
    else if s == "QUERY" then Some(QUERY)
    else None
  }

  const MAX_URI: nat := 2000

  datatype Target = Target(verb: Method, path: Bytes, query: Option<Bytes>)

  /** The request line: three words, a known method, HTTP/1.1, a target that is not too long. */
  function ParseRequestLine(line: Bytes): Result<Target, Status> {
    var words := Words(line);
    if |words| != 3 then Err(BadRequest)
    else if MethodNamed(words[0]).None? then Err(MethodNotAllowed)
    else if words[2] != "HTTP/1.1" then Err(VersionNotSupported)
    else if |words[1]| > MAX_URI then Err(UriTooLong)
    else
      var verb := MethodNamed(words[0]).value;
      match SplitOnce(words[1], "?")
      case None => Ok(Target(verb, words[1], None))
      case Some((path, query)) => Ok(Target(verb, path, Some(query)))
  }

  function QueryParams(pairs: seq<Bytes>, params: map<Bytes, Bytes>): map<Bytes, Bytes> {
    if pairs == [] then params
    else
      match SplitOnce(pairs[0], "=")
      case None => QueryParams(pairs[1..], params)
      case Some((key, value)) => QueryParams(pairs[1..], params[key := value])
  }

  /** The pair gives this name a value. */
  predicate Sets(pair: Bytes, name: Bytes) {
    var halves := SplitOnce(pair, "=");
    halves.Some? && halves.value.0 == name
  }

  predicate NoneSets(pairs: seq<Bytes>, name: Bytes) {
    forall pair | pair in pairs :: !Sets(pair, name)
  }

  predicate LastToSet(pairs: seq<Bytes>, i: nat, name: Bytes) {
    i < |pairs| && Sets(pairs[i], name) && NoneSets(pairs[i + 1..], name)
  }

  /** A name has the value of the last pair that sets it, or else the one it had in `start`, if any. */
  ghost predicate Overrides(params: map<Bytes, Bytes>, pairs: seq<Bytes>, start: map<Bytes, Bytes>) {
    && (forall i: nat, name | LastToSet(pairs, i, name) ::
          name in params && params[name] == SplitOnce(pairs[i], "=").value.1)
    && (forall name | NoneSets(pairs, name) ::
          (name in params <==> name in start) && (name in start ==> params[name] == start[name]))
  }

  lemma {:induction false} UnsetIsKept(pairs: seq<Bytes>, params: map<Bytes, Bytes>, name: Bytes)
    requires NoneSets(pairs, name)
    ensures name in QueryParams(pairs, params) <==> name in params
    ensures name in params ==> QueryParams(pairs, params)[name] == params[name]
  {
    hide SplitOnce;
    if pairs != [] {
      assert pairs[0] in pairs && !Sets(pairs[0], name);
      match SplitOnce(pairs[0], "=")
      case None => UnsetIsKept(pairs[1..], params, name);
      case Some((key, value)) => UnsetIsKept(pairs[1..], params[key := value], name);
    }
  }

  lemma {:induction false} LastIsSet(pairs: seq<Bytes>, params: map<Bytes, Bytes>, i: nat, name: Bytes)
    requires LastToSet(pairs, i, name)
    ensures name in QueryParams(pairs, params)
    ensures QueryParams(pairs, params)[name] == SplitOnce(pairs[i], "=").value.1
  {
    hide SplitOnce;
    var next := match SplitOnce(pairs[0], "=") case None => params case Some((key, value)) => params[key := value];
    if i == 0 {
      UnsetIsKept(pairs[1..], next, name);
    } else {
      assert pairs[1..][i - 1] == pairs[i] && pairs[1..][i..] == pairs[i + 1..];
      LastIsSet(pairs[1..], next, i - 1, name);
    }
  }

  /** The loop over the pairs of a query: later pairs win over earlier ones, and all over the path. */
  lemma QueryOverrides(pairs: seq<Bytes>, start: map<Bytes, Bytes>)
    ensures Overrides(QueryParams(pairs, start), pairs, start)
  {
    hide QueryParams, LastToSet, NoneSets;
    forall i: nat, name | LastToSet(pairs, i, name)
      ensures i < |pairs| && SplitOnce(pairs[i], "=").Some? && name in QueryParams(pairs, start)
      ensures QueryParams(pairs, start)[name] == SplitOnce(pairs[i], "=").value.1
    {
      LastIsSet(pairs, start, i, name);
      LastSplits(pairs, i, name);
    }
    forall name | NoneSets(pairs, name)
      ensures name in QueryParams(pairs, start) <==> name in start
      ensures name in start ==> QueryParams(pairs, start)[name] == start[name]
    {
      UnsetIsKept(pairs, start, name);
    }
  }

  lemma LastSplits(pairs: seq<Bytes>, i: nat, name: Bytes)
    requires LastToSet(pairs, i, name)
    ensures i < |pairs| && SplitOnce(pairs[i], "=").Some?
  {
  }

  function PathParams(routes: Routes, verb: Method, path: Bytes): map<Bytes, Bytes> {
    match FirstMatch(routes.order, verb, path)
    case None => map[]
    case Some(k) => Params(k.1, path)
  }

  /** Path parameters, overridden by the query's. */
  function TargetParams(routes: Routes, target: Target): map<Bytes, Bytes> {
    var params := PathParams(routes, target.verb, target.path);
    match target.query
    case None => params
    case Some(query) => QueryParams(Split(query, "&"), params)
  }

  /** `parse_raw_only`. */
  function ParseRaw(raw: Bytes, routes: Routes): Result<Request, Status> {
    match Find(raw, BLANK)
    case None => Err(BadRequest)
    case Some(sep) =>
      if !Utf8(raw[..sep]) then Err(BadRequest)
      else
        var lines := Split(raw[..sep], CRLF);
        match ParseRequestLine(lines[0])
        case Err(status) => Err(status)
        case Ok(target) =>
          Ok(Request(target.verb, target.path, "HTTP/1.1", ReadHeaders(lines[1..]), raw[sep + 4..],
            TargetParams(routes, target)))
  }

  /** The target of a request that can be parsed. */
  function TargetOf(raw: Bytes): Option<Target> {
    match Find(raw, BLANK)
    case None => None
    case Some(sep) =>
      if !Utf8(raw[..sep]) then None
      else
        match ParseRequestLine(Split(raw[..sep], CRLF)[0])
        case Err(_) => None
        case Ok(target) => Some(target)
  }

  method CollectParams(routes: Routes, target: Target) returns (params: map<Bytes, Bytes>)
    ensures params == TargetParams(routes, target)
    ensures match target.query
      case None => params == PathParams(routes, target.verb, target.path)
      case Some(query) => Overrides(params, Split(query, "&"), PathParams(routes, target.verb, target.path))
  {
    hide Overrides, Params;
    params := map[];
    var k := FindMatch(routes, target.verb, target.path);
    if k.Some? {
      params := ExtractParams(k.value.1, target.path);
    }
    if target.query.Some? {
      var pairs := Split(target.query.value, "&");
      ghost var start := params;
      var i := 0;
      while i < |pairs|
        invariant 0 <= i <= |pairs|
        invariant QueryParams(pairs, start) == QueryParams(pairs[i..], params)
      {
        var pair := SplitOnce(pairs[i], "=");
        if pair.Some? {
          params := params[pair.value.0 := pair.value.1];
        }
        i := i + 1;
      }
      QueryOverrides(pairs, start);
    }
  }

  method ParseRawOnly(raw: Bytes, routes: Routes) returns (r: Result<Request, Status>)
    ensures r == ParseRaw(raw, routes)
  {
    hide Find, Utf8, Words, MethodNamed, ReadHeaders, TargetParams;
    var separator := Find(raw, BLANK);
    if separator.None? {
      return Err(BadRequest);
    }
    var head := raw[..separator.value];
    if !Utf8(head) {
      return Err(BadRequest);
    }
    var body := raw[separator.value + 4..];
    var lines := Split(head, CRLF);
    var words := Words(lines[0]);
    if |words| != 3 {
      return Err(BadRequest);
    }
    var verb := MethodNamed(words[0]);
    if verb.None? {
      return Err(MethodNotAllowed);
    }
    if words[2] != "HTTP/1.1" {
      return Err(VersionNotSupported);
    }
    if |words[1]| > MAX_URI {
      return Err(UriTooLong);
    }
    var headers := ReadHeaders(lines[1..]);
    var target := Target(verb.value, words[1], None);
    var question := Find(words[1], "?");
    if question.Some? {
      target := Target(verb.value, words[1][..question.value], Some(words[1][question.value + 1..]));
    }
    var params := CollectParams(routes, target);
    r := Ok(Request(target.verb, target.path, words[2], headers, body, params));
  }

  /**
   The parser splits a framed request where it was framed: the body it finds is
   exactly what the framing put after the head, and it can only complain of the
   request line.
  */
  lemma FramedBodyIsParsed(b: Bytes, lim: Limits, idleEnd: bool, routes: Routes, payload: Bytes)
    requires Frame(b, lim, idleEnd).Take? && Find(b, BLANK).Some?
    requires Frame(b, lim, idleEnd).raw == b[..Find(b, BLANK).value + 4] + payload
    ensures var parsed := ParseRaw(Frame(b, lim, idleEnd).raw, routes);
      && (parsed.Ok? ==> parsed.value.body == payload)
      && (parsed.Err? ==> ParseRequestLine(Split(b[..Find(b, BLANK).value], CRLF)[0]) == Err(parsed.error))
  {
    FramedHeadIsKept(b, lim, idleEnd);
    FramedHeadIsText(b, lim, idleEnd);
    hide Frame, Find, Utf8, ParseRequestLine, TargetParams, ReadHeaders;
    var n := Find(b, BLANK).value + 4;
    var raw := Frame(b, lim, idleEnd).raw;
    assert raw[n..] == payload;
    assert raw[..n] == b[..n];
    assert raw[..n - 4] == b[..n][..n - 4] == b[..n - 4];
  }

  lemma FramedHeadIsText(b: Bytes, lim: Limits, idleEnd: bool)
    requires Frame(b, lim, idleEnd).Take?
    ensures Find(b, BLANK).Some? && Utf8(b[..Find(b, BLANK).value])
  {
    hide Find, Utf8, FrameBody, BodyFramingOf;
  }

  // ---------- dispatch ----------

  /** `upgrade_handler`. */
  function UpgradeFor(request: Request, routes: Routes): Option<nat>
    requires Enumerates(routes)
  {
    var exact := (request.verb, request.path);
    if exact in routes.table then routes.table[exact].upgrade
    else
      match FirstMatch(routes.order, request.verb, request.path)
      case None => None
      case Some(k) => routes.table[k].upgrade
  }

  /** The route that answers, and the request as its handler sees it. */
  function Dispatch(request: Request, routes: Routes): Option<(Entry, Request)>
    requires Enumerates(routes)
  {
    var exact := (request.verb, request.path);
    if exact in routes.table then Some((routes.table[exact], request))
    else
      match FirstMatch(routes.order, request.verb, request.path)
      case None => None
      case Some(k) =>
        Some((routes.table[k], request.(params := Params(k.1, request.path) + request.params)))
  }

  /** The search of `route_sync`: an exact route, else the first pattern that matches. */
  method FindRoute(request: Request, routes: Routes) returns (found: Option<(Entry, Request)>)
    requires Enumerates(routes)
    ensures found == Dispatch(request, routes)
  {
    hide Params, FirstMatch;
    var exact := (request.verb, request.path);
    if exact in routes.table {
      return Some((routes.table[exact], request));
    }
    var k := FindMatch(routes, request.verb, request.path);
    if k.None? {
      return None;
    }
    var merged := ExtractParams(k.value.1, request.path);
    merged := merged + request.params;
    found := Some((routes.table[k.value], request.(params := merged)));
  }
}

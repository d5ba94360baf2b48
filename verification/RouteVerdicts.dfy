/**
 Who answers a request, and what is refused before anyone can: stated on the request
 as it was printed.
*/
module RouteVerdicts {
  import opened Wrappers
  import opened ByteText
  import opened Http
  import opened Patterns
  import opened Routing
  import RouteOrder
  import opened ResponseHead
  import opened Connection
  import opened Pipelining
  import C = Characters

  // ---------- the request line ----------

  const METHODS: set<Bytes> :=
    {"GET", "POST", "PUT", "DELETE", "HEAD", "OPTIONS", "CONNECT", "PATCH", "TRACE", "QUERY"}

  lemma MethodsExactly(s: Bytes)
    ensures MethodNamed(s).Some? <==> s in METHODS
    ensures MethodNamed(s).Some? ==> MethodName(MethodNamed(s).value) == s
  {
  }

  lemma {:induction false} WordsOneByOne(words: seq<seq<C.Scalar>>)
    ensures |C.OctetsEach(words)| == |words|
    ensures forall i | 0 <= i < |words| :: C.OctetsEach(words)[i] == C.Octets(words[i])
  {
    hide C.Octets;
    if words != [] {
      WordsOneByOne(words[1..]);
    }
  }

  /**
   A request line, whatever white space parts its words: three words, or a 400; a
   known method, or a 405; this version, or a 505; a target of 2000 octets at most,
   or a 414. These are tried in this order.
  */
  lemma RequestLineVerdicts(words: seq<seq<C.Scalar>>, gaps: seq<seq<C.Scalar>>)
    requires C.SpacedOk(words, gaps)
    ensures var parsed := ParseRequestLine(C.Spaced(words, gaps));
      if |words| != 3 then parsed == Err(BadRequest)
      else
        var verb, target, version := C.Octets(words[0]), C.Octets(words[1]), C.Octets(words[2]);
        if verb !in METHODS then parsed == Err(MethodNotAllowed)
        else if version != "HTTP/1.1" then parsed == Err(VersionNotSupported)
        else if |target| > 2000 then parsed == Err(UriTooLong)
        else
          && parsed.Ok? && MethodName(parsed.value.verb) == verb
          && Rejoined(parsed.value) == target && '?' !in parsed.value.path
  {
    C.WordsText(words, gaps);
    WordsOneByOne(words);
    hide C.Octets, C.Spaced, C.SpacedOk, Words, MethodNamed, MethodName;
    if |words| == 3 {
      MethodsExactly(C.Octets(words[0]));
      TargetApart(C.Octets(words[1]));
    }
    hide SplitOnce, METHODS;
  }

  /** A request that cannot be parsed is answered by its status alone, as a GET, and the connection may go on. */
  lemma UnparsedIsAnswered(raw: Bytes, handled: nat, lim: Limits, app: App)
    requires AppOk(app) && ParseRaw(raw, app.routes).Err?
    ensures var x := Answer(raw, handled, lim, app);
      && x.message == Message(
           Response(ParseRaw(raw, app.routes).error, [], ""), Some(GET), handled >= lim.maxRequests, app.cors, None)
      && x.upgrade.None? && (x.ends <==> HeadOf(x.message).None? || handled >= lim.maxRequests)
  {
    ComplaintsDoNotSwitch(raw, app.routes);
    hide ParseRaw, UpgradeFor, HeadOf, Code;
    assert !WantsClose([]);
  }

  /** The answer to octets that are no request: their status alone, and the end of the connection. */
  lemma UnreadIsAnswered(status: Status, app: App)
    ensures Refusal(status, app)
      == Exchange(None, Message(Response(status, [], ""), None, true, app.cors, None), true, None)
  {
  }

  // ---------- the query ----------

  /** A key and a value of a query, as they are written. */
  datatype Pair = Pair(key: Bytes, value: Bytes)

  function PairText(p: Pair): Bytes {
    p.key + "=" + p.value
  }

  function PairTexts(pairs: seq<Pair>): (texts: seq<Bytes>)
    ensures |texts| == |pairs| && forall i | 0 <= i < |pairs| :: texts[i] == PairText(pairs[i])
  {
    if pairs == [] then [] else [PairText(pairs[0])] + PairTexts(pairs[1..])
  }

  predicate PairOk(p: Pair) {
    '=' !in p.key && '&' !in p.key && '&' !in p.value
  }

  lemma PairIsRead(p: Pair)
    requires PairOk(p)
    ensures SplitOnce(PairText(p), "=") == Some((p.key, p.value)) && FreeOf(PairText(p), "&")
  {
    assert "=" == ['='] && "&" == ['&'];
    OneOctet(p.key, '=');
    FindAfter(p.key, "=", p.value);
    OneOctet(PairText(p), '&');
    hide Find, FreeOf;
    assert PairText(p)[..|p.key|] == p.key && PairText(p)[|p.key| + 1..] == p.value;
  }

  /** The i-th pair is the last of its key. */
  predicate LastOfKey(pairs: seq<Pair>, i: nat) {
    i < |pairs| && forall j | i < j < |pairs| :: pairs[j].key != pairs[i].key
  }

  lemma PairsAreRead(pairs: seq<Pair>)
    requires |pairs| > 0 && forall p | p in pairs :: PairOk(p)
    ensures Split(Join(PairTexts(pairs), "&"), "&") == PairTexts(pairs)
  {
    hide Split, Join, FreeOf, SplitOnce, PairText, PairOk;
    var texts := PairTexts(pairs);
    forall i | 0 <= i < |pairs| ensures FreeOf(texts[i], "&") {
      assert pairs[i] in pairs;
      PairIsRead(pairs[i]);
    }
    SplitJoin(texts, "&");
  }

  /** No pair has this key. */
  predicate NoKey(pairs: seq<Pair>, name: Bytes) {
    forall p | p in pairs :: p.key != name
  }

  lemma PairSets(pairs: seq<Pair>, i: nat, name: Bytes)
    requires i < |pairs| && forall p | p in pairs :: PairOk(p)
    ensures Sets(PairTexts(pairs)[i], name) <==> pairs[i].key == name
    ensures SplitOnce(PairTexts(pairs)[i], "=") == Some((pairs[i].key, pairs[i].value))
  {
    assert pairs[i] in pairs;
    PairIsRead(pairs[i]);
    hide SplitOnce, PairText, PairOk, FreeOf;
  }

  lemma LastPairSets(pairs: seq<Pair>, i: nat)
    requires LastOfKey(pairs, i) && forall p | p in pairs :: PairOk(p)
    ensures LastToSet(PairTexts(pairs), i, pairs[i].key)
  {
    hide PairOk, Sets, PairText, SplitOnce;
    var texts := PairTexts(pairs);
    PairSets(pairs, i, pairs[i].key);
    forall text | text in texts[i + 1..] ensures !Sets(text, pairs[i].key) {
      var j :| i < j < |texts| && texts[j] == text;
      PairSets(pairs, j, pairs[i].key);
    }
  }

  lemma NoPairSets(pairs: seq<Pair>, name: Bytes)
    requires NoKey(pairs, name) && forall p | p in pairs :: PairOk(p)
    ensures NoneSets(PairTexts(pairs), name)
  {
    hide PairOk, Sets, PairText, SplitOnce;
    var texts := PairTexts(pairs);
    forall text | text in texts ensures !Sets(text, name) {
      var j :| 0 <= j < |texts| && texts[j] == text;
      assert pairs[j] in pairs;
      PairSets(pairs, j, name);
    }
  }

  /** A printed query sets each of its keys to the last value it gives it, over what the path gave. */
  lemma QueryIsRead(pairs: seq<Pair>, routes: Routes, verb: Method, path: Bytes)
    requires |pairs| > 0 && forall p | p in pairs :: PairOk(p)
    ensures var params := TargetParams(routes, Target(verb, path, Some(Join(PairTexts(pairs), "&"))));
      var start := PathParams(routes, verb, path);
      && (forall i: nat | LastOfKey(pairs, i) ::
            pairs[i].key in params && params[pairs[i].key] == pairs[i].value)
      && (forall name | NoKey(pairs, name) ::
            (name in params <==> name in start) && (name in start ==> params[name] == start[name]))
  {
    hide PathParams, QueryParams, Split, Join, PairTexts, PairOk, SplitOnce, LastToSet, NoneSets, NoKey, LastOfKey;
    var texts, start := PairTexts(pairs), PathParams(routes, verb, path);
    PairsAreRead(pairs);
    QueryOverrides(texts, start);
    forall i: nat | LastOfKey(pairs, i)
      ensures i < |pairs| && LastToSet(texts, i, pairs[i].key)
      ensures SplitOnce(texts[i], "=") == Some((pairs[i].key, pairs[i].value))
    {
      LastIsPair(pairs, i);
      LastPairSets(pairs, i);
      PairSets(pairs, i, pairs[i].key);
    }
    forall name | NoKey(pairs, name) ensures NoneSets(texts, name) {
      NoPairSets(pairs, name);
    }
  }

  lemma LastIsPair(pairs: seq<Pair>, i: nat)
    requires LastOfKey(pairs, i)
    ensures i < |pairs|
  {
  }

  // ---------- who answers ----------

  /** The request a client printed, as the server hands it on with these parameters. */
  function Seen(r: Outgoing, t: Target, params: map<Bytes, Bytes>): Request {
    Request(r.verb, t.path, "HTTP/1.1", AllHeaders(r), r.body, params)
  }

  lemma SeenIsParsed(r: Outgoing, t: Target, lim: Limits, routes: Routes)
    requires OutgoingOk(r, lim) && TargetOf(RequestText(r)) == Some(t)
    ensures t.verb == r.verb && Rejoined(t) == r.target
    ensures ParseRaw(RequestText(r), routes) == Ok(Seen(r, t, TargetParams(routes, t)))
  {
    hide ParseRaw, TargetOf, OutgoingOk, RequestText, TargetParams, AllHeaders, Rejoined;
    var u := RequestIsParsed(r, lim, routes);
  }

  /** What the program answers when no handler does. */
  function ByDefault(r: Outgoing, seen: Request, app: App): Response {
    if r.verb == GET then app.files(seen)
    else if r.verb == OPTIONS && app.cors.Some? then Response(NoContent, [("Content-Type", "text/plain")], "")
    else Response(NotFound, [("Content-Type", "text/plain")], "404 Not Found")
  }

  lemma AppIsEnumerated(app: App)
    requires AppOk(app)
    ensures Enumerates(app.routes)
  {
  }

  lemma UnroutedParams(routes: Routes, t: Target)
    requires FirstMatch(routes.order, t.verb, t.path).None?
    ensures match t.query
      case None => TargetParams(routes, t) == map[]
      case Some(query) => Overrides(TargetParams(routes, t), Split(query, "&"), map[])
  {
    hide Overrides, QueryParams, Split, FirstMatch, Params;
    if t.query.Some? {
      QueryOverrides(Split(t.query.value, "&"), map[]);
    }
  }

  /**
   Without a route, exact or matching, a GET is answered by the files, an OPTIONS
   under a policy by an empty 204, and anything else by the 404 page.
  */
  lemma UnroutedIsAnswered(r: Outgoing, t: Target, handled: nat, lim: Limits, app: App)
    requires AppOk(app) && OutgoingOk(r, lim) && TargetOf(RequestText(r)) == Some(t)
    requires (r.verb, t.path) !in app.routes.table
    requires forall k | k in app.routes.table && k.0 == r.verb :: Params(k.1, t.path) == map[]
    ensures Answer(RequestText(r), handled, lim, app).message.response
      == ByDefault(r, Seen(r, t, TargetParams(app.routes, t)), app)
    ensures Answer(RequestText(r), handled, lim, app).upgrade.None?
    ensures match t.query
      case None => TargetParams(app.routes, t) == map[]
      case Some(query) => Overrides(TargetParams(app.routes, t), Split(query, "&"), map[])
  {
    AppIsEnumerated(app);
    hide *;
    NoMatch(app.routes, r.verb, t.path);
    SeenIsParsed(r, t, lim, app.routes);
    UnroutedParams(app.routes, t);
    UnroutedReply(r, t, lim, app);
    AnswerIsReply(RequestText(r), handled, lim, app);
  }

  /** The response of an answer, and its hand-over. */
  lemma AnswerIsReply(raw: Bytes, handled: nat, lim: Limits, app: App)
    requires AppOk(app)
    ensures var (request, early) := ParseAndRoute(raw, app);
      && Answer(raw, handled, lim, app).message.response == Reply(request, early, app)
      && (UpgradeFor(request, app.routes).None? ==> Answer(raw, handled, lim, app).upgrade.None?)
  {
    hide ParseAndRoute, Reply, UpgradeFor, HeadOf, WantsClose, Origin;
  }

  lemma UnroutedReply(r: Outgoing, t: Target, lim: Limits, app: App)
    requires AppOk(app) && OutgoingOk(r, lim) && TargetOf(RequestText(r)) == Some(t)
    requires (r.verb, t.path) !in app.routes.table && FirstMatch(app.routes.order, r.verb, t.path).None?
    ensures var (request, early) := ParseAndRoute(RequestText(r), app);
      && request == Seen(r, t, TargetParams(app.routes, t))
      && Reply(request, early, app) == ByDefault(r, request, app)
      && UpgradeFor(request, app.routes).None?
  {
    SeenIsParsed(r, t, lim, app.routes);
    hide ParseRaw, TargetOf, OutgoingOk, RequestText, AllHeaders, Params, TargetParams, FirstMatch, Rejoined;
  }

  lemma NoMatch(routes: Routes, verb: Method, path: Bytes)
    requires Enumerates(routes) && forall k | k in routes.table && k.0 == verb :: Params(k.1, path) == map[]
    ensures FirstMatch(routes.order, verb, path).None?
  {
    hide Params;
  }

  /** A route for the very path answers, with the parameters of the target. */
  lemma ExactRouteAnswers(r: Outgoing, t: Target, handled: nat, lim: Limits, app: App)
    requires AppOk(app) && OutgoingOk(r, lim) && TargetOf(RequestText(r)) == Some(t)
    requires (r.verb, t.path) in app.routes.table
    ensures Answer(RequestText(r), handled, lim, app).message.response
      == app.routes.table[(r.verb, t.path)].handler(Seen(r, t, TargetParams(app.routes, t)))
  {
    SeenIsParsed(r, t, lim, app.routes);
    hide ParseRaw, TargetOf, OutgoingOk, RequestText, AllHeaders, TargetParams, HeadOf, WantsClose, Origin, UpgradeFor;
    hide FirstMatch, Rejoined;
  }

  /** `k` is the first key in iteration order whose pattern matches. */
  ghost predicate IsFirst(routes: Routes, verb: Method, path: Bytes, k: RouteKey) {
    exists i | 0 <= i < |routes.order| ::
      && routes.order[i] == k && Matches(k, verb, path)
      && forall j | 0 <= j < i :: !Matches(routes.order[j], verb, path)
  }

  lemma {:induction false} FirstIsFound(order: seq<RouteKey>, verb: Method, path: Bytes, i: nat)
    requires i < |order| && Matches(order[i], verb, path) && forall j | 0 <= j < i :: !Matches(order[j], verb, path)
    ensures FirstMatch(order, verb, path) == Some(order[i])
  {
    hide Matches;
    if i > 0 {
      assert !Matches(order[0], verb, path);
      assert forall j | 0 <= j < i - 1 :: order[1..][j] == order[j + 1];
      FirstIsFound(order[1..], verb, path, i - 1);
    }
  }

  lemma FirstRouteFound(routes: Routes, verb: Method, path: Bytes, k: RouteKey)
    requires IsFirst(routes, verb, path, k)
    ensures FirstMatch(routes.order, verb, path) == Some(k)
  {
    hide Matches;
    var i :| 0 <= i < |routes.order| && routes.order[i] == k && Matches(k, verb, path)
      && forall j | 0 <= j < i :: !Matches(routes.order[j], verb, path);
    FirstIsFound(routes.order, verb, path, i);
  }

  /**
   Without one, the first matching pattern answers. Its handler sees the slots'
   values, and those of the query over them.
  */
  lemma PatternAnswers(r: Outgoing, t: Target, k: RouteKey, handled: nat, lim: Limits, app: App)
    requires AppOk(app) && OutgoingOk(r, lim) && TargetOf(RequestText(r)) == Some(t)
    requires (r.verb, t.path) !in app.routes.table && k in app.routes.table
    requires IsFirst(app.routes, r.verb, t.path, k)
    ensures var params := TargetParams(app.routes, t);
      && Answer(RequestText(r), handled, lim, app).message.response == app.routes.table[k].handler(Seen(r, t, params))
      && match t.query {
           case None => params == Params(k.1, t.path)
           case Some(query) => Overrides(params, Split(query, "&"), Params(k.1, t.path))
         }
  {
    SeenIsParsed(r, t, lim, app.routes);
    FirstRouteFound(app.routes, r.verb, t.path, k);
    RouteOrder.PathIsInParams(t, k);
    if t.query.Some? {
      QueryOverrides(Split(t.query.value, "&"), Params(k.1, t.path));
    }
    hide ParseRaw, TargetOf, OutgoingOk, RequestText, AllHeaders, Params, Overrides, QueryParams;
    hide HeadOf, WantsClose, Origin, FirstMatch, UpgradeFor, Split, Rejoined;
  }

  /** Whatever the response, its message answers the request's method and origin, under the server's policy. */
  lemma AnswerCarries(r: Outgoing, handled: nat, lim: Limits, app: App)
    requires AppOk(app) && OutgoingOk(r, lim)
    ensures var m := Answer(RequestText(r), handled, lim, app).message;
      m.verb == Some(r.verb) && m.cors == app.cors && m.origin == Origin(AllHeaders(r))
  {
    var t := RequestIsParsed(r, lim, app.routes);
    hide ParseRaw, OutgoingOk, RequestText, AllHeaders, HeadOf, WantsClose, Origin, UpgradeFor, Reply, Params;
  }

  /** The origin of a request is the value of its first Origin header. */
  lemma {:induction false} OriginIsFirst(headers: seq<Header>)
    ensures Origin(headers).None? <==> forall h | h in headers :: !SameText(h.0, "origin")
    ensures forall i | 0 <= i < |headers| && SameText(headers[i].0, "origin")
      && (forall j | 0 <= j < i :: !SameText(headers[j].0, "origin")) :: Origin(headers) == Some(headers[i].1)
  {
    hide SameText;
    if headers != [] {
      OriginIsFirst(headers[1..]);
      forall i | 0 <= i < |headers| && SameText(headers[i].0, "origin")
        && (forall j | 0 <= j < i :: !SameText(headers[j].0, "origin"))
        ensures Origin(headers) == Some(headers[i].1)
      {
        if i > 0 {
          assert headers[1..][i - 1] == headers[i];
          assert forall j | 0 <= j < i - 1 :: headers[1..][j] == headers[j + 1];
        }
      }
    }
  }

  /** A route whose handler switches protocols hands the connection to its hook, if it has one and its head prints. */
  lemma SwitchingHandsOver(r: Outgoing, t: Target, handled: nat, lim: Limits, app: App)
    requires AppOk(app) && OutgoingOk(r, lim) && TargetOf(RequestText(r)) == Some(t)
    requires (r.verb, t.path) in app.routes.table
    requires Code(app.routes.table[(r.verb, t.path)].handler(Seen(r, t, TargetParams(app.routes, t))).status) == 101
    ensures var x, hook := Answer(RequestText(r), handled, lim, app), app.routes.table[(r.verb, t.path)].upgrade;
      && x.upgrade == (if HeadOf(x.message).Some? then hook else None)
      && (hook.Some? ==> x.ends && !x.message.close)
  {
    SeenIsParsed(r, t, lim, app.routes);
    hide ParseRaw, TargetOf, OutgoingOk, RequestText, AllHeaders, TargetParams, HeadOf, WantsClose, Origin, Code;
    hide FirstMatch, Rejoined;
  }
}

/**
 A persistent connection from its first octet to its last: the loop of
 `handle_stream` around the read loop, with handlers as arbitrary functions. The
 asynchronous servers run the same loop.
*/
module Connection {
  import opened Wrappers
  import opened ByteText
  import opened Http
  import opened Fields
  import opened Framing
  import opened Receiver
  import opened ResponseHead
  import opened PrintedHead
  import opened ResponseStream
  import opened CloseNotice
  import opened Patterns
  import opened Routing
  import opened RouteOrder

  /** What a server serves: routes, files, and its cross-origin policy. */
  datatype App = App(routes: Routes, files: Request -> Response, cors: Option<Cors>)

  ghost predicate AppOk(app: App) {
    Enumerates(app.routes)
  }

  const DEFAULT_REQUEST: Request := Request(GET, "", "", [], "", map[])

  function Bare(status: Status): Response {
    Response(status, [], "")
  }

  // ---------- answering one request ----------

  /** `route_sync`: the response, if any, and the request as routing leaves it. */
  function RouteRequest(request: Request, app: App): (Option<Response>, Request)
    requires AppOk(app)
  {
    match Dispatch(request, app.routes)
    case Some((entry, seen)) => (Some(entry.handler(seen)), seen)
    case None => (if request.verb == GET then Some(app.files(request)) else None, request)
  }

  /** `parse_raw_sync`: a request that cannot be parsed is answered as the default request. */
  function ParseAndRoute(raw: Bytes, app: App): (Request, Option<Response>)
    requires AppOk(app)
  {
    match ParseRaw(raw, app.routes)
    case Err(status) => (DEFAULT_REQUEST, Some(Bare(status)))
    case Ok(request) =>
      var (early, seen) := RouteRequest(request, app);
      (seen, early)
  }

  /** `response_or_default`. */
  function ResponseOrDefault(response: Option<Response>, verb: Method, cors: Option<Cors>): Response {
    if response.Some? then response.value
    else if verb == OPTIONS && cors.Some? then Response(NoContent, [("Content-Type", "text/plain")], "")
    else Response(NotFound, [("Content-Type", "text/plain")], "404 Not Found")
  }

  function Origin(headers: seq<Header>): Option<Bytes> {
    if headers == [] then None
    else if SameText(headers[0].0, "origin") then Some(headers[0].1)
    else Origin(headers[1..])
  }

  /**
   One response on the connection. `raw` is the request it answers, or nothing
   for a request that could not be read; `ends` says that the loop stops here.
  */
  datatype Exchange = Exchange(raw: Option<Bytes>, message: Message, ends: bool, upgrade: Option<nat>)

  function Reply(request: Request, early: Option<Response>, app: App): Response
    requires AppOk(app)
  {
    if early.Some? then early.value
    else ResponseOrDefault(RouteRequest(request, app).0, request.verb, app.cors)
  }

  /** The answer to a framed request, the `handled`-th of its connection. */
  function Answer(raw: Bytes, handled: nat, lim: Limits, app: App): Exchange
    requires AppOk(app)
  {
    var (request, early) := ParseAndRoute(raw, app);
    var response := Reply(request, early, app);
    var upgrade := UpgradeFor(request, app.routes);
    var origin := Origin(request.headers);
    if Code(response.status) == 101 && upgrade.Some? then
      var m := Message(response, Some(request.verb), false, app.cors, origin);
      Exchange(Some(raw), m, true, if HeadOf(m).Some? then upgrade else None)
    else
      var close := WantsClose(request.headers) || WantsClose(response.headers) || handled >= lim.maxRequests;
      var m := Message(response, Some(request.verb), close, app.cors, origin);
      Exchange(Some(raw), m, HeadOf(m).None? || close, None)
  }

  function Refusal(status: Status, app: App): Exchange {
    Exchange(None, Message(Bare(status), None, true, app.cors, None), true, None)
  }

  lemma AnswerGoesOn(raw: Bytes, handled: nat, lim: Limits, app: App)
    requires AppOk(app)
    ensures !Answer(raw, handled, lim, app).ends ==> handled < lim.maxRequests
  {
    hide ParseAndRoute, Reply, UpgradeFor, HeadOf, WantsClose, Origin;
  }

  // ---------- the whole connection ----------

  function Left(handled: nat, lim: Limits): nat {
    if handled < lim.maxRequests then lim.maxRequests - handled else 0
  }

  /** The responses of a connection that has handled `handled` requests, and the reader when it ends. */
  function Serve(st: Reader, handled: nat, lim: Limits, app: App, net: Network): (seq<Exchange>, Reader)
    requires AppOk(app)
    decreases Left(handled, lim)
  {
    hide Receive, Answer;
    var (read, st') := Receive(st, handled > 0, lim, net);
    match read
    case Idle => ([], st')
    case Closed => ([], st')
    case Error(status) => ([Refusal(status, app)], st')
    case Ready(raw) =>
      var exchange := Answer(raw, handled + 1, lim, app);
      if exchange.ends then ([exchange], st')
      else
        AnswerGoesOn(raw, handled + 1, lim, app);
        var (more, last) := Serve(st', handled + 1, lim, app, net);
        ([exchange] + more, last)
  }

  const FRESH: Reader := Reader("", 0, 0, None, "", "")

  // ---------- what every connection keeps ----------

  /** The most responses that may still be sent: never none, never more than the limit. */
  function Quota(handled: nat, lim: Limits): nat {
    if handled < lim.maxRequests then lim.maxRequests - handled else 1
  }

  /** The reader after `n` calls of the read loop, whatever is answered in between. */
  function ReaderAfter(st: Reader, handled: nat, lim: Limits, net: Network, n: nat): Reader
    decreases n
  {
    if n == 0 then st
    else ReaderAfter(Receive(st, handled > 0, lim, net).1, handled + 1, lim, net, n - 1)
  }

  /** What the call after those returns. */
  function ReadAfter(st: Reader, handled: nat, lim: Limits, net: Network, n: nat): StreamRead {
    Receive(ReaderAfter(st, handled, lim, net, n), handled + n > 0, lim, net).0
  }

  lemma ReadShift(st: Reader, handled: nat, lim: Limits, net: Network, n: nat)
    ensures var st' := Receive(st, handled > 0, lim, net).1;
      && ReaderAfter(st, handled, lim, net, n + 1) == ReaderAfter(st', handled + 1, lim, net, n)
      && ReadAfter(st, handled, lim, net, n + 1) == ReadAfter(st', handled + 1, lim, net, n)
  {
    hide Receive;
  }

  /** The response is the one answer to what was read, as the n-th of the connection. */
  ghost predicate Answers(x: Exchange, read: StreamRead, n: nat, lim: Limits, app: App)
    requires AppOk(app)
  {
    match read
    case Ready(raw) => x == Answer(raw, n, lim, app)
    case Error(status) => x == Refusal(status, app)
    case _ => false
  }

  /** The last response ends the loop. */
  predicate Ended(exchanges: seq<Exchange>) {
    exchanges != [] && exchanges[|exchanges| - 1].ends
  }

  /**
   A connection sends at most as many responses as it may handle requests, error
   responses included. Whatever the read loop returns, request or error, is
   answered once and in order, until a response ends the connection, or the
   client is quiet or gone. Only the last response can end the connection, answer
   no request or hand it over, and nothing is read after it.
  */
  lemma {:induction false} ServeKeepsProtocol(st: Reader, handled: nat, lim: Limits, app: App, net: Network)
    requires AppOk(app)
    ensures var (exchanges, last) := Serve(st, handled, lim, app, net);
      var n := |exchanges|;
      && n <= Quota(handled, lim)
      && (forall i | 0 <= i < n ::
            Answers(exchanges[i], ReadAfter(st, handled, lim, net, i), handled + i + 1, lim, app))
      && (forall i | 0 <= i < n - 1 ::
            !exchanges[i].ends && exchanges[i].raw.Some? && exchanges[i].upgrade.None?)
      && (if Ended(exchanges) then last == ReaderAfter(st, handled, lim, net, n)
          else
            && (ReadAfter(st, handled, lim, net, n).Idle? || ReadAfter(st, handled, lim, net, n).Closed?)
            && last == ReaderAfter(st, handled, lim, net, n + 1))
    decreases Left(handled, lim)
  {
    hide Answer, Receive, Refusal, Answers, ReadAfter;
    var (read, st') := Receive(st, handled > 0, lim, net);
    FirstRead(st, handled, lim, net);
    if read.Error? {
      RefusalShape(read.status, handled + 1, lim, app);
    }
    if read.Ready? {
      AnswerGoesOn(read.raw, handled + 1, lim, app);
      AnswerShape(read.raw, handled + 1, lim, app);
      var x := Answer(read.raw, handled + 1, lim, app);
      if !x.ends {
        ServeKeepsProtocol(st', handled + 1, lim, app, net);
        var (more, last) := Serve(st', handled + 1, lim, app, net);
        assert Serve(st, handled, lim, app, net) == ([x] + more, last);
        ReadShift(st, handled, lim, net, |more|);
        ReadShift(st, handled, lim, net, |more| + 1);
        forall i | 0 <= i < |[x] + more|
          ensures Answers(([x] + more)[i], ReadAfter(st, handled, lim, net, i), handled + i + 1, lim, app)
        {
          if i > 0 {
            ReadShift(st, handled, lim, net, i - 1);
            assert Answers(more[i - 1], ReadAfter(st', handled + 1, lim, net, i - 1), handled + 1 + i, lim, app);
          }
        }
      }
    }
  }

  lemma FirstRead(st: Reader, handled: nat, lim: Limits, net: Network)
    ensures ReadAfter(st, handled, lim, net, 0) == Receive(st, handled > 0, lim, net).0
    ensures ReaderAfter(st, handled, lim, net, 1) == Receive(st, handled > 0, lim, net).1
  {
    hide Receive;
  }

  lemma RefusalShape(status: Status, n: nat, lim: Limits, app: App)
    requires AppOk(app)
    ensures Refusal(status, app).ends && Answers(Refusal(status, app), Error(status), n, lim, app)
  {
  }

  lemma AnswerShape(raw: Bytes, handled: nat, lim: Limits, app: App)
    requires AppOk(app)
    ensures var exchange := Answer(raw, handled, lim, app);
      && exchange.raw == Some(raw) && (exchange.upgrade.Some? ==> exchange.ends)
      && Answers(exchange, Ready(raw), handled, lim, app)
  {
    hide ParseAndRoute, Reply, UpgradeFor, HeadOf, WantsClose, Origin;
  }

  /** No octet is lost between reads, and the buffer stays under the bound, to the end. */
  lemma {:induction false} ServeKeepsOctets(st: Reader, handled: nat, lim: Limits, app: App, net: Network)
    requires AppOk(app)
    requires Conserved(st) && |st.buffer| <= MemoryBound(lim) + READ_SIZE
    ensures var last := Serve(st, handled, lim, app, net).1;
      Conserved(last) && |last.buffer| <= MemoryBound(lim) + READ_SIZE
    decreases Left(handled, lim)
  {
    var (read, st') := Receive(st, handled > 0, lim, net);
    LoopKeepsSound(Begin(st), handled > 0, lim, net);
    hide Answer, Loop;
    if read.Ready? && !Answer(read.raw, handled + 1, lim, app).ends {
      AnswerGoesOn(read.raw, handled + 1, lim, app);
      ServeKeepsOctets(st', handled + 1, lim, app, net);
    }
  }

  // ---------- answers after which the connection goes on ----------

  /** Nothing about the request or its response ends the connection. */
  predicate Lasts(raw: Bytes, app: App)
    requires AppOk(app)
  {
    var (request, early) := ParseAndRoute(raw, app);
    var response := Reply(request, early, app);
    && !WantsClose(request.headers) && !WantsClose(response.headers)
    && !(Code(response.status) == 101 && UpgradeFor(request, app.routes).Some?)
    && OneLineEach(response.headers) && OneLineEach(CorsHeaders(app.cors, Origin(request.headers)))
  }

  /** The loop ends exactly with such an answer, or at the limit. */
  lemma EndsUnlessLasts(raw: Bytes, handled: nat, lim: Limits, app: App)
    requires AppOk(app)
    ensures Answer(raw, handled, lim, app).ends <==> !Lasts(raw, app) || handled >= lim.maxRequests
  {
    hide ParseAndRoute, Reply, UpgradeFor, WantsClose, Origin, OneLineEach, CorsHeaders, HeadLines, Join;
  }

  // ---------- the order of the routes ----------

  /** The same server, iterating over its routes in another order. */
  function Rerouted(app: App, other: Routes): App {
    app.(routes := other)
  }

  lemma SameHandlingParses(raw: Bytes, app: App, other: Routes)
    requires AppOk(app) && Reordered(app.routes, other) && HandlingOf(raw, other) == HandlingOf(raw, app.routes)
    ensures ParseAndRoute(raw, Rerouted(app, other)) == ParseAndRoute(raw, app)
    ensures ParseRaw(raw, other) == ParseRaw(raw, app.routes)
  {
    hide Find, Utf8, ParseRequestLine, ReadHeaders, TargetParams, Dispatch, UpgradeFor;
  }

  lemma SameReply(raw: Bytes, app: App, other: Routes)
    requires AppOk(app) && Reordered(app.routes, other) && HandlingOf(raw, other) == HandlingOf(raw, app.routes)
    ensures var (request, early) := ParseAndRoute(raw, app);
      && Reply(request, early, Rerouted(app, other)) == Reply(request, early, app)
      && (ParseRaw(raw, app.routes).Ok? ==> UpgradeFor(request, other) == UpgradeFor(request, app.routes))
  {
    SameHandlingParses(raw, app, other);
    hide ParseRaw, FirstMatch, Params, ResponseOrDefault;
  }

  /** A request that cannot be parsed is never answered by switching protocols. */
  lemma ComplaintsDoNotSwitch(raw: Bytes, routes: Routes)
    ensures ParseRaw(raw, routes).Err? ==> Code(ParseRaw(raw, routes).error) != 101
  {
    hide Find, Utf8, Words, MethodNamed, ReadHeaders, TargetParams, Split;
  }

  /** Where the order of the routes is free for a request, so is it for its answer. */
  lemma AnswerIgnoresOrder(raw: Bytes, handled: nat, lim: Limits, app: App, other: Routes)
    requires AppOk(app) && Reordered(app.routes, other) && OrderFree(raw, app.routes)
    ensures Answer(raw, handled, lim, Rerouted(app, other)) == Answer(raw, handled, lim, app)
  {
    hide OrderFree, HandlingOf, UpgradeFor, ParseRaw, ResponseOrDefault, HeadOf, WantsClose, Origin, RouteRequest;
    HandlingIgnoresOrder(raw, app.routes);
    SameHandlingParses(raw, app, other);
    SameReply(raw, app, other);
    ComplaintsDoNotSwitch(raw, app.routes);
    assert HandlingOf(raw, other) == HandlingOf(raw, app.routes);
    assert UpgradeFor(ParseAndRoute(raw, app).0, other) == UpgradeFor(ParseAndRoute(raw, app).0, app.routes)
      || Code(Reply(ParseAndRoute(raw, app).0, ParseAndRoute(raw, app).1, app).status) != 101;
  }

  ghost predicate OrderFreeRead(read: StreamRead, routes: Routes) {
    read.Ready? ==> OrderFree(read.raw, routes)
  }

  /** The order of the routes is free for every request the read loop returns on this connection. */
  ghost predicate OrderFreeReads(st: Reader, handled: nat, lim: Limits, net: Network, routes: Routes) {
    forall i: nat :: OrderFreeRead(ReadAfter(st, handled, lim, net, i), routes)
  }

  lemma FreeReadsGoOn(st: Reader, handled: nat, lim: Limits, net: Network, routes: Routes)
    requires OrderFreeReads(st, handled, lim, net, routes)
    ensures var (read, st') := Receive(st, handled > 0, lim, net);
      && OrderFreeRead(read, routes)
      && OrderFreeReads(st', handled + 1, lim, net, routes)
  {
    hide Receive, OrderFree, ReadAfter;
    FirstRead(st, handled, lim, net);
    var st' := Receive(st, handled > 0, lim, net).1;
    var next := handled + 1;
    forall i: nat ensures OrderFreeRead(ReadAfter(st', next, lim, net, i), routes) {
      ReadShift(st, handled, lim, net, i);
      assert ReadAfter(st, handled, lim, net, i + 1) == ReadAfter(st', next, lim, net, i);
    }
  }

  /** Then the order shows nowhere on the connection. */
  lemma {:induction false} ServeIgnoresOrder(
      st: Reader, handled: nat, lim: Limits, app: App, other: Routes, net: Network)
    requires AppOk(app) && Reordered(app.routes, other) && OrderFreeReads(st, handled, lim, net, app.routes)
    ensures Serve(st, handled, lim, Rerouted(app, other), net) == Serve(st, handled, lim, app, net)
    decreases Left(handled, lim)
  {
    hide Answer, Receive, OrderFree, OrderFreeReads, Enumerates;
    var (read, st') := Receive(st, handled > 0, lim, net);
    if read.Ready? {
      FreeReadsGoOn(st, handled, lim, net, app.routes);
      AnswerIgnoresOrder(read.raw, handled + 1, lim, app, other);
      if !Answer(read.raw, handled + 1, lim, app).ends {
        AnswerGoesOn(read.raw, handled + 1, lim, app);
        ServeIgnoresOrder(st', handled + 1, lim, app, other, net);
      }
    }
  }

  // ---------- announcing the end ----------

  /** A header whose name carries a Connection field of its own past the printer. */
  predicate SmugglesClose(h: Header) {
    ':' in h.0 && AsksClose(AsRead(h))
  }

  lemma PromisesOpenlyOrSmuggles(headers: seq<Header>)
    ensures (exists h | h in headers :: Promises(h))
      <==> WantsClose(headers) || exists h | h in headers :: SmugglesClose(h)
  {
    hide HasClose, AsRead;
    forall h: Header | ':' in h.0 ensures !AsksClose(h) {
      NoColonInName(h.0);
    }
    hide AsksClose;
    assert forall h: Header :: Promises(h) <==> AsksClose(h) || SmugglesClose(h);
  }

  /**
   Section 9.6 of RFC 9112: unless the connection is handed over, the head that
   is sent announces the end of the connection exactly when the loop ends with
   it; the one exception is a response that neither its request, its headers nor
   the limit make the last, with a header name that smuggles a Connection field in.
  */
  lemma CloseIsAnnounced(raw: Bytes, handled: nat, lim: Limits, app: App)
    requires AppOk(app) && Answer(raw, handled, lim, app).upgrade.None?
    ensures var x := Answer(raw, handled, lim, app);
      && |SentParts(x.message).0| >= 4
      && ((AnnouncesClose(SentParts(x.message).0) <==> x.ends)
          <==> (|| !Lasts(raw, app) || handled >= lim.maxRequests
                || !exists h | h in x.message.response.headers :: SmugglesClose(h)))
  {
    var x := Answer(raw, handled, lim, app);
    SentAnnounces(x.message);
    PromisesOpenlyOrSmuggles(x.message.response.headers);
    EndsWhen(raw, handled, lim, app);
    EndsUnlessLasts(raw, handled, lim, app);
    hide Lasts, Answer, SentParts, HeadOf, AnnouncesClose, WantsClose, SmugglesClose, Promises;
  }

  /** The loop ends with an answer when its head says so, or is refused, or names close itself. */
  lemma EndsWhen(raw: Bytes, handled: nat, lim: Limits, app: App)
    requires AppOk(app) && Answer(raw, handled, lim, app).upgrade.None?
    ensures var x := Answer(raw, handled, lim, app);
      && (x.ends <==> HeadOf(x.message).None? || x.message.close)
      && (WantsClose(x.message.response.headers) ==> x.ends)
  {
    hide ParseAndRoute, Reply, UpgradeFor, HeadOf, WantsClose, Origin;
  }

  /** The answer to a request that could not be read always announces the end. */
  lemma RefusalIsAnnounced(status: Status, app: App)
    ensures |SentParts(Refusal(status, app).message).0| >= 4
    ensures AnnouncesClose(SentParts(Refusal(status, app).message).0) && Refusal(status, app).ends
  {
    SentAnnounces(Refusal(status, app).message);
    hide SentParts, HeadOf, AnnouncesClose;
  }

  /** Announced and actual ends agree for this response. */
  ghost predicate EndAgrees(x: Exchange) {
    && |SentParts(x.message).0| >= 4
    && (AnnouncesClose(SentParts(x.message).0) <==> x.ends)
  }

  /** On a whole connection, announced and actual ends agree for every response not handed over. */
  lemma {:induction false} ServeAnnouncesEnd(st: Reader, handled: nat, lim: Limits, app: App, net: Network)
    requires AppOk(app)
    ensures forall x | x in Serve(st, handled, lim, app, net).0 ::
      x.upgrade.Some? || (exists h | h in x.message.response.headers :: SmugglesClose(h)) || EndAgrees(x)
    decreases Left(handled, lim)
  {
    hide Answer, Receive, Refusal, AnnouncesClose, SentParts, SmugglesClose;
    var (read, st') := Receive(st, handled > 0, lim, net);
    if read.Error? {
      RefusalIsAnnounced(read.status, app);
    } else if read.Ready? {
      var x := Answer(read.raw, handled + 1, lim, app);
      if x.upgrade.None? {
        CloseIsAnnounced(read.raw, handled + 1, lim, app);
      }
      if !x.ends {
        AnswerGoesOn(read.raw, handled + 1, lim, app);
        ServeAnnouncesEnd(st', handled + 1, lim, app, net);
      }
    }
  }

  // ---------- what the client reads ----------

  ghost predicate HonestResponse(r: Response, max: nat) {
    |r.body| <= max && forall h | h in r.headers :: !Smuggles(h)
  }

  /** No handler names a header so that it would mislead the client. */
  ghost predicate HonestApp(app: App, max: nat) {
    && (forall k, r: Request | k in app.routes.table :: HonestResponse(app.routes.table[k].handler(r), max))
    && (forall r: Request :: HonestResponse(app.files(r), max))
  }

  lemma TypeIsHarmless()
    ensures !Smuggles(("Content-Type", "text/plain"))
  {
    var h := ("Content-Type", "text/plain");
    PlainName(h);
    hide FieldName;
    assert |h.0| == 12;
  }

  lemma DefaultsAreHonest(verb: Method, cors: Option<Cors>, status: Status, max: nat)
    requires 13 <= max
    ensures HonestResponse(ResponseOrDefault(None, verb, cors), max) && HonestResponse(Bare(status), max)
  {
    TypeIsHarmless();
    hide Smuggles;
  }

  lemma RoutedIsHonest(request: Request, app: App, max: nat)
    requires AppOk(app) && HonestApp(app, max)
    ensures var response := RouteRequest(request, app).0;
      response.Some? ==> HonestResponse(response.value, max)
  {
    hide HonestResponse, Params;
  }

  lemma ReplyIsHonest(raw: Bytes, app: App, max: nat)
    requires AppOk(app) && HonestApp(app, max) && 13 <= max
    ensures var (request, early) := ParseAndRoute(raw, app);
      HonestResponse(Reply(request, early, app), max)
  {
    var (request, early) := ParseAndRoute(raw, app);
    RoutedIsHonest(request, app, max);
    if ParseRaw(raw, app.routes).Ok? {
      RoutedIsHonest(ParseRaw(raw, app.routes).value, app, max);
      DefaultsAreHonest(request.verb, app.cors, BadRequest, max);
    } else {
      DefaultsAreHonest(request.verb, app.cors, ParseRaw(raw, app.routes).error, max);
    }
    hide RouteRequest, HonestResponse, HonestApp, ParseRaw, Bare;
  }

  lemma AnswerIsHonest(raw: Bytes, handled: nat, lim: Limits, app: App, max: nat)
    requires AppOk(app) && HonestApp(app, max) && 13 <= max
    ensures Honest(Answer(raw, handled, lim, app).message, max)
  {
    ReplyIsHonest(raw, app, max);
    hide ParseAndRoute, Reply, UpgradeFor, HeadOf, WantsClose, Origin, Smuggles, HonestApp;
  }

  function Messages(exchanges: seq<Exchange>): (ms: seq<Message>)
    ensures |ms| == |exchanges| && forall i | 0 <= i < |ms| :: ms[i] == exchanges[i].message
  {
    if exchanges == [] then [] else [exchanges[0].message] + Messages(exchanges[1..])
  }

  /** Everything the server writes on the connection, upgraded protocols aside. */
  function Written(exchanges: seq<Exchange>): Bytes {
    WireAll(Messages(exchanges))
  }

  lemma {:induction false} ServeIsHonest(st: Reader, handled: nat, lim: Limits, app: App, net: Network, max: nat)
    requires AppOk(app) && HonestApp(app, max) && 13 <= max
    ensures forall x | x in Serve(st, handled, lim, app, net).0 :: Honest(x.message, max)
    decreases Left(handled, lim)
  {
    var (read, st') := Receive(st, handled > 0, lim, net);
    if read.Ready? {
      AnswerIsHonest(read.raw, handled + 1, lim, app, max);
      if !Answer(read.raw, handled + 1, lim, app).ends {
        AnswerGoesOn(read.raw, handled + 1, lim, app);
        ServeIsHonest(st', handled + 1, lim, app, net, max);
      }
    }
    hide Answer, Receive, HonestApp, Smuggles, HasContent;
  }

  /**
   The client recovers, from the octets of a whole connection, exactly the heads
   and bodies the server sent, in order: the whole body of every response, unless
   it answers HEAD or its code is 1xx, 204 or 304, or its head was refused.
  */
  lemma ConnectionReadsBack(st: Reader, handled: nat, lim: Limits, app: App, net: Network, max: nat)
    requires AppOk(app) && HonestApp(app, max) && 13 <= max
    ensures var ms := Messages(Serve(st, handled, lim, app, net).0);
      ReadStream(Verbs(ms), WireAll(ms), max) == Some(Parts(ms)) && BodiesArrive(Parts(ms), ms)
  {
    var exchanges := Serve(st, handled, lim, app, net).0;
    ServeIsHonest(st, handled, lim, app, net, max);
    hide *;
    forall m | m in Messages(exchanges) ensures Honest(m, max) {
      var i :| 0 <= i < |Messages(exchanges)| && Messages(exchanges)[i] == m;
      assert exchanges[i] in exchanges;
    }
    StreamReadsBack(Messages(exchanges), max);
  }
}

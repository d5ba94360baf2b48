/**
 Client and server together: what a client that sends its requests back to back
 reads back.
*/
module Conversation {
  import opened Wrappers
  import opened ByteText
  import opened Http
  import opened Patterns
  import opened Routing
  import opened RouteOrder
  import opened Framing
  import opened Receiver
  import opened ResponseHead
  import opened PrintedHead
  import opened ResponseStream
  import opened CloseNotice
  import opened Connection
  import opened Segmentation
  import opened Pipelining

  // ---------- a run of requests ----------

  /** The answers to requests, one each, in order. */
  function Answered(rs: seq<Outgoing>, handled: nat, lim: Limits, app: App): (xs: seq<Exchange>)
    requires AppOk(app)
    ensures |xs| == |rs|
  {
    hide Answer, RequestText;
    if rs == [] then []
    else [Answer(RequestText(rs[0]), handled + 1, lim, app)] + Answered(rs[1..], handled + 1, lim, app)
  }

  lemma {:induction false} AnsweredEach(rs: seq<Outgoing>, handled: nat, lim: Limits, app: App, i: nat)
    requires AppOk(app) && i < |rs|
    ensures Answered(rs, handled, lim, app)[i] == Answer(RequestText(rs[i]), handled + 1 + i, lim, app)
  {
    hide Answer, RequestText;
    if i > 0 {
      AnsweredEach(rs[1..], handled + 1, lim, app, i - 1);
    }
  }

  /** Each request but the last leaves the connection open, and the limit has room for all. */
  ghost predicate Welcome(rs: seq<Outgoing>, handled: nat, lim: Limits, app: App)
    requires AppOk(app)
  {
    && (forall r | r in rs :: OutgoingOk(r, lim))
    && (forall i | 0 <= i < |rs| - 1 :: Lasts(RequestText(rs[i]), app))
    && |rs| <= Quota(handled, lim)
  }

  lemma NothingLeft(handled: nat, lim: Limits, app: App)
    requires AppOk(app)
    ensures Responses("", handled, lim, app) == []
  {
    EmptyStream(lim);
    hide Frame;
  }

  lemma NextIsFirst(rs: seq<Outgoing>, lim: Limits)
    requires rs != [] && OutgoingOk(rs[0], lim)
    ensures NextRead(Sent(rs), lim) == (Ready(RequestText(rs[0])), Sent(rs[1..]))
  {
    hide OutgoingOk, RequestText, Frame;
    RequestIsFramed(rs[0], Sent(rs[1..]), lim, false);
  }

  lemma {:induction false} PipelineIsAnswered(rs: seq<Outgoing>, handled: nat, lim: Limits, app: App)
    requires AppOk(app) && Welcome(rs, handled, lim, app)
    ensures Responses(Sent(rs), handled, lim, app) == Answered(rs, handled, lim, app)
    decreases |rs|
  {
    hide OutgoingOk, RequestText, Answer, NextRead, Lasts;
    NothingLeft(handled + 1, lim, app);
    if rs == [] {
      NothingLeft(handled, lim, app);
    } else {
      var raw, rest := RequestText(rs[0]), rs[1..];
      NextIsFirst(rs, lim);
      EndsUnlessLasts(raw, handled + 1, lim, app);
      AnswerGoesOn(raw, handled + 1, lim, app);
      if rest == [] {
        assert Sent(rest) == "";
      } else {
        PipelineIsAnswered(rest, handled + 1, lim, app);
      }
    }
  }

  /** What the client asked, as it reads the responses. */
  function Asked(rs: seq<Outgoing>): (verbs: seq<Option<Method>>) {
    if rs == [] then [] else [Some(rs[0].verb)] + Asked(rs[1..])
  }

  /** The server sees the request the client printed, but for parameters. */
  lemma RequestArrives(r: Outgoing, lim: Limits, app: App)
    requires AppOk(app) && OutgoingOk(r, lim)
    ensures var (request, _) := ParseAndRoute(RequestText(r), app);
      request.verb == r.verb && request.headers == AllHeaders(r)
  {
    var _ := RequestIsParsed(r, lim, app.routes);
    hide ParseRaw, RequestText, AllHeaders, OutgoingOk, Params;
  }

  lemma AnswerToVerb(r: Outgoing, handled: nat, lim: Limits, app: App)
    requires AppOk(app) && OutgoingOk(r, lim)
    ensures Answer(RequestText(r), handled, lim, app).message.verb == Some(r.verb)
  {
    RequestArrives(r, lim, app);
    hide ParseAndRoute, Reply, UpgradeFor, HeadOf, WantsClose, Origin, OutgoingOk;
  }

  lemma {:induction false} VerbsAreAsked(rs: seq<Outgoing>, handled: nat, lim: Limits, app: App)
    requires AppOk(app) && forall r | r in rs :: OutgoingOk(r, lim)
    ensures Verbs(Messages(Answered(rs, handled, lim, app))) == Asked(rs)
  {
    hide Answer, OutgoingOk;
    if rs != [] {
      var xs, more := Answered(rs, handled, lim, app), Answered(rs[1..], handled + 1, lim, app);
      AnswerToVerb(rs[0], handled + 1, lim, app);
      VerbsAreAsked(rs[1..], handled + 1, lim, app);
      assert xs[1..] == more;
      assert Messages(xs) == [xs[0].message] + Messages(more);
      assert Messages(xs)[1..] == Messages(more);
    }
  }

  lemma {:induction false} OnePartEach(ms: seq<Message>)
    ensures |Parts(ms)| == |ms|
  {
    if ms != [] {
      OnePartEach(ms[1..]);
    }
  }

  /**
   A client sends its requests back to back, in any pieces. It is sent exactly
   one response to each, in order, and reads exactly these off the connection:
   as many heads and bodies as it sent requests.
  */
  lemma ClientIsAnswered(rs: seq<Outgoing>, lim: Limits, app: App, net: Network, blocks: seq<Block>, max: nat)
    requires AppOk(app) && Welcome(rs, 0, lim, app) && HonestApp(app, max) && 13 <= max
    requires Delivers(net, blocks) && Stream(blocks, 0) == Sent(rs) && PromptServe(FRESH, 0, lim, app, net)
    ensures var xs := Serve(FRESH, 0, lim, app, net).0;
      && |xs| == |rs|
      && (forall i | 0 <= i < |rs| :: xs[i] == Answer(RequestText(rs[i]), i + 1, lim, app))
      && ReadStream(Asked(rs), Written(xs), max) == Some(Parts(Messages(xs)))
      && BodiesArrive(Parts(Messages(xs)), Messages(xs)) && |Parts(Messages(xs))| == |rs|
  {
    hide *;
    FreshHolds(blocks);
    ServeReadsStream(FRESH, 0, lim, app, net, blocks, Sent(rs));
    PipelineIsAnswered(rs, 0, lim, app);
    forall i | 0 <= i < |rs| ensures Answered(rs, 0, lim, app)[i] == Answer(RequestText(rs[i]), i + 1, lim, app) {
      AnsweredEach(rs, 0, lim, app, i);
    }
    ClientReads(rs, lim, app, net, max);
  }

  lemma ClientReads(rs: seq<Outgoing>, lim: Limits, app: App, net: Network, max: nat)
    requires AppOk(app) && Welcome(rs, 0, lim, app) && HonestApp(app, max) && 13 <= max
    requires Serve(FRESH, 0, lim, app, net).0 == Answered(rs, 0, lim, app)
    ensures var xs := Answered(rs, 0, lim, app);
      && ReadStream(Asked(rs), Written(xs), max) == Some(Parts(Messages(xs)))
      && BodiesArrive(Parts(Messages(xs)), Messages(xs)) && |Parts(Messages(xs))| == |rs|
  {
    hide BodiesArrive, Answer, Serve, OutgoingOk, Lasts, HonestApp, ReadStream, WireAll, Parts, Verbs, Answered, Asked;
    hide Quota;
    ConnectionReadsBack(FRESH, 0, lim, app, net, max);
    VerbsAreAsked(rs, 0, lim, app);
    OnePartEach(Messages(Answered(rs, 0, lim, app)));
  }

  // ---------- one read a request ----------

  /** Each read delivers one request, and comes within the idle or keep-alive timeout. */
  ghost predicate Spaced(rs: seq<Outgoing>, lim: Limits, net: Network, blocks: seq<Block>) {
    && |blocks| == |rs| && (forall i | 0 <= i < |rs| :: blocks[i] == RequestText(rs[i]) && OutgoingOk(rs[i], lim))
    && 0 < lim.idleTimeout && 0 < lim.keepAliveTimeout
    && net(0).delay <= lim.idleTimeout && forall i: nat | 0 < i :: net(i).delay <= lim.keepAliveTimeout
  }

  lemma OneReadGathers(rs: seq<Outgoing>, n: nat, lim: Limits, net: Network, blocks: seq<Block>)
    requires Spaced(rs, lim, net, blocks)
    ensures n < |rs| ==> Gathered("", n, blocks, lim) == (RequestText(rs[n]), n + 1)
    ensures n < |rs| ==> Concluded(RequestText(rs[n]), lim) == Take(RequestText(rs[n]), |RequestText(rs[n])|)
    ensures n >= |rs| ==> Gathered("", n, blocks, lim) == ("", n + 1)
    ensures !Concluded("", lim).Take?
  {
    hide Frame, OutgoingOk, RequestText;
    EmptyEnds(lim);
    if n < |rs| {
      RequestIsFramed(rs[n], "", lim, false);
      assert RequestText(rs[n]) + "" == RequestText(rs[n]) && "" + blocks[n] == blocks[n];
    }
  }

  lemma NothingIsAwaited(n: nat, keepAlive: bool, lim: Limits, net: Network, blocks: seq<Block>)
    requires Gathered("", n, blocks, lim).1 == n + 1
    ensures ArrivesInTime("", n, keepAlive, lim, net, blocks)
      <==> 0 < FirstWait(keepAlive, lim) && net(n).delay <= FirstWait(keepAlive, lim)
  {
    hide Gathered;
  }

  /** Such requests arrive in time, however many there are: the request timeout does not matter. */
  lemma {:induction false} SpacedArePunctual(
      rs: seq<Outgoing>, n: nat, lim: Limits, app: App, net: Network, blocks: seq<Block>)
    requires AppOk(app) && Spaced(rs, lim, net, blocks)
    ensures Punctual("", n, n, lim, app, net, blocks)
    decreases |rs| - n
  {
    hide Gathered, Concluded, Answer, ArrivesInTime, RequestText, OutgoingOk;
    OneReadGathers(rs, n, lim, net, blocks);
    NothingIsAwaited(n, n > 0, lim, net, blocks);
    if n < |rs| {
      AnswerGoesOn(RequestText(rs[n]), n + 1, lim, app);
      assert RequestText(rs[n])[|RequestText(rs[n])|..] == "";
      SpacedArePunctual(rs, n + 1, lim, app, net, blocks);
    }
  }

  lemma {:induction false} SpacedStream(
      rs: seq<Outgoing>, n: nat, lim: Limits, net: Network, blocks: seq<Block>)
    requires Spaced(rs, lim, net, blocks) && n <= |rs|
    ensures Stream(blocks, n) == Sent(rs[n..])
    decreases |rs| - n
  {
    hide RequestText, OutgoingOk;
    if n < |rs| {
      SpacedStream(rs, n + 1, lim, net, blocks);
      assert rs[n..][1..] == rs[n + 1..];
    }
  }

  /** So they are what `ClientIsAnswered` asks for, on a connection of any length. */
  lemma SpacedIsPrompt(rs: seq<Outgoing>, lim: Limits, app: App, net: Network, blocks: seq<Block>)
    requires AppOk(app) && Spaced(rs, lim, net, blocks) && Delivers(net, blocks)
    ensures Stream(blocks, 0) == Sent(rs) && PromptServe(FRESH, 0, lim, app, net)
  {
    SpacedStream(rs, 0, lim, net, blocks);
    SpacedArePunctual(rs, 0, lim, app, net, blocks);
    hide Stream, Sent, Spaced, Delivers, Punctual, PromptServe;
    assert rs[0..] == rs;
    PunctualServe(FRESH, 0, lim, app, net, blocks);
  }

  // ---------- servers that keep connections open ----------

  /** The response prints, and neither closes the connection nor changes the protocol. */
  predicate SteadyResponse(r: Response) {
    OneLineEach(r.headers) && !WantsClose(r.headers) && Code(r.status) != 101
  }

  /** The texts of a cross-origin policy stay on their lines. */
  predicate PolicyOk(cors: Option<Cors>) {
    cors.Some? ==> OneLine(cors.value.allowMethods) && OneLine(cors.value.allowHeaders)
  }

  ghost predicate SteadyApp(app: App) {
    && (forall k, r: Request | k in app.routes.table :: SteadyResponse(app.routes.table[k].handler(r)))
    && (forall r: Request :: SteadyResponse(app.files(r)))
    && PolicyOk(app.cors)
  }

  lemma TypeIsSteady()
    ensures OneLine("Content-Type") && OneLine("text/plain") && !AsksClose(("Content-Type", "text/plain"))
  {
    assert |"Content-Type"| != |"connection"|;
  }

  lemma DefaultIsSteady(verb: Method, cors: Option<Cors>)
    ensures SteadyResponse(ResponseOrDefault(None, verb, cors))
  {
    TypeIsSteady();
    hide OneLine, AsksClose;
  }

  lemma ReplyIsSteady(r: Outgoing, lim: Limits, app: App)
    requires AppOk(app) && OutgoingOk(r, lim) && SteadyApp(app)
    ensures var (request, early) := ParseAndRoute(RequestText(r), app);
      SteadyResponse(Reply(request, early, app))
  {
    var _ := RequestIsParsed(r, lim, app.routes);
    hide ParseRaw, RequestText, AllHeaders, OutgoingOk, Params, SteadyResponse;
    var (request, early) := ParseAndRoute(RequestText(r), app);
    DefaultIsSteady(request.verb, app.cors);
  }

  lemma LengthAsksNothing(r: Outgoing)
    ensures WantsClose(AllHeaders(r)) <==> WantsClose(r.headers)
  {
    hide Print, HasClose;
    assert |"Content-Length"| != |"connection"|;
    assert !AsksClose(("Content-Length", Print(|r.body|, 10)));
    hide AsksClose;
    assert forall h :: h in AllHeaders(r) <==> h in r.headers || h == ("Content-Length", Print(|r.body|, 10));
  }

  lemma {:induction false} OriginIsOneLine(headers: seq<Header>)
    requires forall h | h in headers :: OneLine(h.1)
    ensures Origin(headers).Some? ==> OneLine(Origin(headers).value)
  {
    hide OneLine;
    if headers != [] {
      OriginIsOneLine(headers[1..]);
    }
  }

  lemma CorsNamesAreOneLine()
    ensures OneLine("Access-Control-") && OneLine("Allow-Origin") && OneLine("Allow-Methods") && OneLine("*")
  {
  }

  lemma CorsOptionsAreOneLine()
    ensures OneLine("Allow-Headers") && OneLine("Allow-Credentials") && OneLine("Max-Age") && OneLine("true")
  {
  }

  lemma PolicyPrints(cors: Option<Cors>, origin: Option<Bytes>)
    requires PolicyOk(cors) && (origin.Some? ==> OneLine(origin.value))
    ensures OneLineEach(CorsHeaders(cors, origin))
  {
    hide OneLine, Print, Lists;
    CorsNamesAreOneLine();
    CorsOptionsAreOneLine();
    OneLineConcat("Access-Control-", "Allow-Origin");
    OneLineConcat("Access-Control-", "Allow-Methods");
    OneLineConcat("Access-Control-", "Allow-Headers");
    OneLineConcat("Access-Control-", "Allow-Credentials");
    OneLineConcat("Access-Control-", "Max-Age");
    if cors.Some? && cors.value.maxAge.Some? {
      DigitsAreOneLine(cors.value.maxAge.value);
    }
  }

  lemma OriginPrints(r: Outgoing, lim: Limits, cors: Option<Cors>)
    requires OutgoingOk(r, lim) && PolicyOk(cors)
    ensures OneLineEach(CorsHeaders(cors, Origin(AllHeaders(r))))
  {
    HeadersAreLines(r, lim);
    hide OneLine, CorsHeaders, OutgoingOk, PolicyOk, AllHeaders, Utf8, TrimStart, Origin;
    OriginIsOneLine(AllHeaders(r));
    PolicyPrints(cors, Origin(AllHeaders(r)));
  }

  /** Where no handler ends connections, no request that does not ask for it does. */
  lemma SteadyLasts(r: Outgoing, lim: Limits, app: App)
    requires AppOk(app) && OutgoingOk(r, lim) && SteadyApp(app) && !WantsClose(r.headers)
    ensures Lasts(RequestText(r), app)
  {
    RequestArrives(r, lim, app);
    ReplyIsSteady(r, lim, app);
    LengthAsksNothing(r);
    OriginPrints(r, lim, app.cors);
    hide ParseAndRoute, Reply, UpgradeFor, WantsClose, Origin, OneLineEach, CorsHeaders, OutgoingOk, AllHeaders;
  }

  /** So a client that never asks to close is answered in full, up to the request limit. */
  lemma SteadyClientIsWelcome(rs: seq<Outgoing>, handled: nat, lim: Limits, app: App)
    requires AppOk(app) && SteadyApp(app) && |rs| <= Quota(handled, lim)
    requires forall r | r in rs :: OutgoingOk(r, lim) && !WantsClose(r.headers)
    ensures Welcome(rs, handled, lim, app)
  {
    hide Lasts, SteadyApp, OutgoingOk, WantsClose, RequestText, Quota;
    forall i | 0 <= i < |rs| - 1 ensures Lasts(RequestText(rs[i]), app) {
      assert rs[i] in rs;
      SteadyLasts(rs[i], lim, app);
    }
  }

  // ---------- an end announced that does not come ----------

  /** A server of one page, with one header, whose name spells out a Connection field. */
  function MisleadingPage(): Entry {
    Entry(request => Response(Other(200, "OK"), [("connection: close,", "")], ""), None)
  }

  function MisleadingApp(): App {
    OnePage(MisleadingPage())
  }

  /** A server of one page and no files, which answers anything else as the program does by default. */
  function OnePage(page: Entry): App {
    App(Routes(map[(GET, "/") := page], [(GET, "/")]), request => ResponseOrDefault(None, GET, None), None)
  }

  lemma ColonNameIsOneLine()
    ensures OneLine("connection: close,") && OneLine("")
  {
  }

  lemma MisleadingIsSteady()
    ensures AppOk(MisleadingApp()) && SteadyApp(MisleadingApp())
  {
    ColonNamePromises();
    ColonNameIsOneLine();
    DefaultIsSteady(GET, None);
    hide AsksClose, OneLine, Promises, ResponseOrDefault;
  }

  lemma MisleadingSmuggles()
    ensures SmugglesClose(("connection: close,", ""))
  {
    ColonNamePromises();
    ColonNameReads();
    hide AsksClose, AsRead;
  }

  /** What a request for the one page is answered. */
  lemma PageIsServed(r: Outgoing, lim: Limits, page: Entry)
    requires OutgoingOk(r, lim) && r.verb == GET && r.target == "/"
    ensures AppOk(OnePage(page))
    ensures var (request, early) := ParseAndRoute(RequestText(r), OnePage(page));
      && early == Some(page.handler(request))
      && Reply(request, early, OnePage(page)) == page.handler(request)
      && UpgradeFor(request, OnePage(page).routes) == page.upgrade
  {
    var routes := OnePage(page).routes;
    assert Enumerates(routes);
    var t := RequestIsParsed(r, lim, routes);
    assert '?' !in "/";
    PlainTarget(t, "/");
    hide ParseRaw, RequestText, OutgoingOk, AllHeaders, Params, Rejoined, TargetOf, FirstMatch, ResponseOrDefault;
  }

  lemma MisleadingReply(r: Outgoing, handled: nat, lim: Limits)
    requires AppOk(MisleadingApp()) && OutgoingOk(r, lim) && r.verb == GET && r.target == "/"
    requires Lasts(RequestText(r), MisleadingApp()) && handled < lim.maxRequests
    ensures var x := Answer(RequestText(r), handled, lim, MisleadingApp());
      && x.upgrade.None? && HeadOf(x.message).Some? && ("connection: close,", "") in x.message.response.headers
  {
    PageIsServed(r, lim, MisleadingPage());
    hide ParseAndRoute, Reply, UpgradeFor, RequestText, OutgoingOk, WantsClose, Origin, OneLineEach, HeadLines, Join;
  }

  /**
   It answers every GET for its page that does not ask to close with a head that
   announces the end of the connection, and goes on.
  */
  lemma ColonNameMisleads(r: Outgoing, handled: nat, lim: Limits)
    requires OutgoingOk(r, lim) && r.verb == GET && r.target == "/" && !WantsClose(r.headers)
    requires handled < lim.maxRequests
    ensures AppOk(MisleadingApp())
    ensures var x := Answer(RequestText(r), handled, lim, MisleadingApp());
      && !x.ends && x.upgrade.None? && HeadOf(x.message).Some?
      && |HeadOf(x.message).value| >= 4 && AnnouncesClose(HeadOf(x.message).value)
  {
    MisleadingIsSteady();
    SteadyLasts(r, lim, MisleadingApp());
    EndsUnlessLasts(RequestText(r), handled, lim, MisleadingApp());
    MisleadingReply(r, handled, lim);
    MisleadingSmuggles();
    hide Answer, Lasts, OutgoingOk, HeadOf, AnnouncesClose, SmugglesClose, MisleadingApp, SteadyApp, WantsClose;
    CloseIsAnnounced(RequestText(r), handled, lim, MisleadingApp());
  }

  /** The plainest request there is. */
  function PlainGet(target: Bytes): Outgoing {
    Outgoing(GET, target, [], "")
  }

  /** It is misled, on every server whose limits let it in and a second request after it. */
  lemma PlainGetIsMisled(lim: Limits)
    requires |RequestText(PlainGet("/"))| <= lim.headerBytes <= lim.usizeMax && 1 < lim.maxRequests
    ensures AppOk(MisleadingApp())
    ensures var x := Answer(RequestText(PlainGet("/")), 1, lim, MisleadingApp());
      !x.ends && HeadOf(x.message).Some? && |HeadOf(x.message).value| >= 4 && AnnouncesClose(HeadOf(x.message).value)
  {
    hide Answer, HeadText, HeadOf, AnnouncesClose, MisleadingApp;
    ColonNameMisleads(PlainGet("/"), 1, lim);
  }

  // ---------- octets lost to an upgrade ----------

  /** A page whose handler switches protocols, with a hook that takes the connection over. */
  function UpgradePage(): Entry {
    Entry(request => Response(SwitchingProtocols, [], ""), Some(0))
  }

  /** A network that delivers these blocks at once. */
  function Instant(blocks: seq<Block>): Network {
    (i: nat) => Arrival(0, if i < |blocks| then Got(blocks[i]) else Got(""))
  }

  lemma UpgradeIsAnswered(r: Outgoing, lim: Limits)
    requires OutgoingOk(r, lim) && r.verb == GET && r.target == "/"
    ensures AppOk(OnePage(UpgradePage()))
    ensures var x := Answer(RequestText(r), 1, lim, OnePage(UpgradePage())); x.ends && x.upgrade == Some(0)
  {
    PageIsServed(r, lim, UpgradePage());
    hide ParseAndRoute, Reply, UpgradeFor, RequestText, OutgoingOk, WantsClose, Origin, HeadLines, Join;
  }

  lemma InstantDelivers(blocks: seq<Block>)
    requires "" !in blocks
    ensures Delivers(Instant(blocks), blocks)
  {
  }

  lemma TogetherGathers(r: Outgoing, more: Bytes, lim: Limits, blocks: seq<Block>)
    requires OutgoingOk(r, lim) && blocks != [] && blocks[0] == RequestText(r) + more
    ensures Gathered("", 0, blocks, lim) == (blocks[0], 1)
    ensures Concluded(blocks[0], lim) == Take(RequestText(r), |RequestText(r)|)
  {
    EmptyEnds(lim);
    RequestIsFramed(r, more, lim, false);
    hide Frame, OutgoingOk, RequestText;
    assert "" + blocks[0] == blocks[0];
  }

  /** A request and what comes with it in one read: what comes with it stays in the buffer. */
  lemma ReadTogether(r: Outgoing, more: Bytes, lim: Limits, blocks: seq<Block>)
    requires OutgoingOk(r, lim) && 0 < lim.idleTimeout && "" !in blocks
    requires blocks != [] && blocks[0] == RequestText(r) + more
    ensures var (read, st) := Receive(FRESH, false, lim, Instant(blocks));
      read == Ready(RequestText(r)) && st.buffer == more && st.polls == 1
  {
    InstantDelivers(blocks);
    TogetherGathers(r, more, lim, blocks);
    NothingIsAwaited(0, false, lim, Instant(blocks), blocks);
    assert blocks[0][|RequestText(r)|..] == more;
    hide OutgoingOk, RequestText, Receive, PromptLoop, ArrivesInTime, Delivers, Gathered, Concluded;
    CallInTime(FRESH, false, lim, Instant(blocks), blocks);
  }

  lemma TextIsNotEmpty(r: Outgoing)
    ensures RequestText(r) != ""
  {
    hide RequestLines, Join;
  }

  /**
   A client asks to switch protocols and goes on in the new one. If the network
   delivers it all at once, the handler that takes over gets nothing of the rest;
   if it delivers the rest apart, the handler gets it.
  */
  lemma UpgradeLosesOctets(r: Outgoing, more: Bytes, lim: Limits)
    requires OutgoingOk(r, lim) && r.verb == GET && r.target == "/" && 0 < lim.idleTimeout
    requires more != "" && |RequestText(r) + more| <= READ_SIZE
    ensures AppOk(OnePage(UpgradePage()))
    ensures var app, together, apart := OnePage(UpgradePage()), [RequestText(r) + more], [RequestText(r), more];
      var (xs, lastA) := Serve(FRESH, 0, lim, app, Instant(together));
      var (ys, lastB) := Serve(FRESH, 0, lim, app, Instant(apart));
      && xs == ys && |xs| == 1 && xs[0].upgrade.Some?
      && Stream(together, lastA.polls) == "" && Stream(apart, lastB.polls) == more
  {
    hide Answer, OutgoingOk, RequestText, HeadText, Receive, Instant, OnePage;
    UpgradeIsAnswered(r, lim);
    assert RequestText(r) + "" == RequestText(r) && |RequestText(r) + more| > 0;
    TextIsNotEmpty(r);
    ReadTogether(r, more, lim, [RequestText(r) + more]);
    ReadTogether(r, "", lim, [RequestText(r), more]);
    assert more + "" == more;
  }

  // ---------- a request handled by chance ----------

  lemma PlainSlots()
    ensures SegmentOk(Slot("a", "x")) && SegmentOk(Slot("b", "x"))
    ensures "a" != "b" && "x" != "{" + "a" + "}" && "x" != "{" + "b" + "}"
    ensures Visible("/" + "x") && '?' !in "/" + "x"
  {
    assert "a" + "}" == "a}" && "b" + "}" == "b}";
    assert "/" + "x" == "/x";
  }

  /** Limits that let this request in. */
  function Roomy(r: Outgoing): Limits {
    Limits(|RequestText(r)|, |r.body|, 0, 0, 0, 1, |RequestText(r)|)
  }

  /** GET /x, where the routes are /{a} and /{b}: the order of the table decides what its handler is given. */
  lemma AmbiguousExample(entry: Entry)
    ensures var raw := RequestText(PlainGet("/" + "x"));
      var first, second := TwoSlots("a", "b", entry), TwoSlots("b", "a", entry);
      && Enumerates(first) && Reordered(first, second)
      && HandlingOf(raw, first).Ok? && HandlingOf(raw, first).value.params == map["a" := "x"]
      && HandlingOf(raw, second).Ok? && HandlingOf(raw, second).value.params == map["b" := "x"]
  {
    var r := PlainGet("/" + "x");
    PlainSlots();
    assert OutgoingOk(r, Roomy(r)) by {
      hide HeadText;
    }
    hide *;
    var t := RequestIsParsed(r, Roomy(r), TwoSlots("a", "b", entry));
    PlainTarget(t, "/" + "x");
    AmbiguousPatternsDepend("a", "b", "x", entry, RequestText(r));
  }
}

/**
 A client's view of a connection: responses read off one stream of octets.
*/
module ResponseStream {
  import opened Wrappers
  import opened ByteText
  import opened Http
  import opened Fields
  import opened ResponseHead
  import opened PrintedHead

  // ---------- reading a stream of responses ----------

  datatype Reading = Reading(head: Bytes, body: Bytes, rest: Bytes)

  /** The status code on the status line. */
  function StatusCodeIn(head: Bytes): Option<nat> {
    if |head| < 12 then None else ParseNat(head[9..12], 10, 999)
  }

  /** Section 6.3 of RFC 9112: responses that end with their head, whatever it says. */
  predicate Bodiless(verb: Option<Method>, code: nat) {
    verb == Some(HEAD) || 100 <= code <= 199 || code == 204 || code == 304
  }

  /** Octets of content after a response head, as a client counts them. */
  function ContentLength(verb: Option<Method>, head: Bytes, max: nat): Option<nat>
    requires |head| >= 4
  {
    match StatusCodeIn(head)
    case None => None
    case Some(code) =>
      if Bodiless(verb, code) then Some(0)
      else
        var framing := BodyFramingOf(head[..|head| - 4], max);
        if framing.Ok? && framing.value.Length? then Some(framing.value.n) else None
  }

  /** A client reads one response to a request with method `verb`. */
  function ReadResponse(verb: Option<Method>, stream: Bytes, max: nat): Option<Reading> {
    match Find(stream, BLANK)
    case None => None
    case Some(sep) =>
      var head := stream[..sep + 4];
      var n := ContentLength(verb, head, max);
      if n.None? || |stream| < sep + 4 + n.value then None
      else Some(Reading(head, stream[sep + 4..sep + 4 + n.value], stream[sep + 4 + n.value..]))
  }

  /** A client reads the responses to a run of requests, in order. */
  function ReadStream(verbs: seq<Option<Method>>, stream: Bytes, max: nat): Option<seq<(Bytes, Bytes)>> {
    if verbs == [] then (if stream == "" then Some([]) else None)
    else
      match ReadResponse(verbs[0], stream, max)
      case None => None
      case Some(r) =>
        match ReadStream(verbs[1..], r.rest, max)
        case None => None
        case Some(more) => Some([(r.head, r.body)] + more)
  }

  /** What is written after the head. */
  function Content(m: Message): Bytes {
    if HasContent(m.verb, m.response.status) then m.response.body else ""
  }

  /** `INTERNAL_SERVER_ERROR_HEAD`, sent in place of a head that was refused. */
  const FALLBACK: Bytes :=
    "HTTP/1.1 500 " + "Internal Server Error" + CRLF + "Content-Length: 0" + CRLF + "Connection: close" + BLANK

  /** The two parts `send_response` writes. */
  function SentParts(m: Message): (Bytes, Bytes) {
    match HeadOf(m)
    case None => (FALLBACK, "")
    case Some(head) => (head, Content(m))
  }

  function Wire(m: Message): Bytes {
    SentParts(m).0 + SentParts(m).1
  }

  /** The body a client is meant to get: all of the response's, unless there can be none. */
  function MeantBody(m: Message): Bytes {
    if HeadOf(m).None? || Bodiless(m.verb, Code(m.response.status)) then "" else m.response.body
  }

  lemma BodyIsSent(m: Message)
    ensures SentParts(m).1 == MeantBody(m)
  {
    hide HeadOf, Code;
  }

  /** No header of an accepted message misleads the client about its content. */
  ghost predicate Honest(m: Message, max: nat) {
    && |m.response.body| <= max
    && (HasContent(m.verb, m.response.status) ==> forall h | h in m.response.headers :: !Smuggles(h))
  }

  lemma ThreeDigits(code: nat)
    requires 100 <= code <= 999
    ensures |Print(code, 10)| == 3
  {
    assert |Print(code / 10 / 10, 10)| == 1;
    assert |Print(code / 10, 10)| == 2;
  }

  lemma CodeRange(status: Status)
    ensures 100 <= Code(status) <= 599
  {
  }

  lemma HeadStarts(m: Message) returns (rest: Bytes)
    requires HeadOf(m).Some?
    ensures HeadOf(m).value == StatusLine(m.response.status) + rest
  {
    hide Printable, StatusLine, SentHeaders;
    var lines := HeadLines(m);
    rest := if |lines| == 1 then BLANK else CRLF + Join(lines[1..], CRLF) + BLANK;
  }

  lemma CodeOnLine(head: Bytes, digits: Bytes, after: Bytes, code: nat)
    requires head == "HTTP/1.1 " + (digits + after) && |digits| == 3
    requires ParseNat(digits, 10, 999) == Some(code)
    ensures StatusCodeIn(head) == Some(code)
  {
    hide ParseNat;
    SlicesApart("HTTP/1.1 ", digits, after);
  }

  lemma HeadShape(m: Message) returns (after: Bytes)
    requires HeadOf(m).Some?
    ensures HeadOf(m).value == "HTTP/1.1 " + (Print(Code(m.response.status), 10) + after)
  {
    hide HeadOf, Code, Reason, Print;
    var rest := HeadStarts(m);
    after := " " + Reason(m.response.status) + rest;
  }

  lemma CodeReadsBack(m: Message)
    requires HeadOf(m).Some?
    ensures StatusCodeIn(HeadOf(m).value) == Some(Code(m.response.status))
  {
    hide *;
    var code := Code(m.response.status);
    var after := HeadShape(m);
    CodeRange(m.response.status);
    ThreeDigits(code);
    ParsePrint(code, 10, 999);
    CodeOnLine(HeadOf(m).value, Print(code, 10), after, code);
  }

  lemma LengthReadsBack(m: Message, max: nat)
    requires Honest(m, max) && HeadOf(m).Some?
    ensures |HeadOf(m).value| >= 4
    ensures ContentLength(m.verb, HeadOf(m).value, max) == Some(|Content(m)|)
  {
    HeadEndsAtBlank(m, "");
    CodeReadsBack(m);
    ParserUndoesPrinter(m, max);
    hide HeadOf, StatusCodeIn, Smuggles, Code, BodyFramingOf, Find;
  }

  lemma HeadReadsBack(head: Bytes, content: Bytes, rest: Bytes, verb: Option<Method>, max: nat)
    requires |head| >= 4 && Find(head + (content + rest), BLANK) == Some(|head| - 4)
    requires ContentLength(verb, head, max) == Some(|content|)
    ensures ReadResponse(verb, head + content + rest, max) == Some(Reading(head, content, rest))
  {
    hide ContentLength, Find;
    assert head + content + rest == head + (content + rest);
    SlicesApart(head, content, rest);
  }

  function FallbackMessage(): Message {
    Message(Response(InternalServerError, [], ""), None, true, None, None)
  }

  lemma FallbackHeaders()
    ensures SentHeaders(FallbackMessage()) == [("Content-Length", "0"), ("Connection", "close")]
  {
    FallbackNumbers();
    hide Print;
  }

  lemma FallbackLines()
    ensures StatusLine(FallbackMessage().response.status) == "HTTP/1.1 500 " + "Internal Server Error"
    ensures HeaderText(("Content-Length", "0")) == "Content-Length: 0"
    ensures HeaderText(("Connection", "close")) == "Connection: close"
  {
    FallbackNumbers();
    hide Print;
    assert "HTTP/1.1 " + ("500" + " ") == "HTTP/1.1 500 ";
  }

  /** The constant is what the printer makes of an empty 500 response that closes. */
  lemma FallbackIsAHead()
    ensures HeadOf(FallbackMessage()) == Some(FALLBACK)
  {
    var m := FallbackMessage();
    FallbackHeaders();
    FallbackLines();
    hide StatusLine, SentHeaders, HeaderText;
    var h0, h1 := ("Content-Length", "0"), ("Connection", "close");
    assert HeaderTexts([h0, h1]) == [HeaderText(h0), HeaderText(h1)];
    JoinThree(StatusLine(m.response.status), HeaderText(h0), HeaderText(h1));
  }

  lemma FallbackIsHonest(max: nat)
    ensures Honest(FallbackMessage(), max) && Content(FallbackMessage()) == ""
  {
  }

  lemma JoinThree(a: Bytes, b: Bytes, c: Bytes)
    ensures Join([a, b, c], CRLF) == a + CRLF + b + CRLF + c
  {
    assert [a, b, c][1..] == [b, c] && [b, c][1..] == [c];
    assert Join([b, c], CRLF) == b + CRLF + c;
  }

  lemma FallbackNumbers()
    ensures Print(500, 10) == "500" && Print(0, 10) == "0"
  {
    assert Print(50, 10) == "50" && Print(5, 10) == "5";
  }

  lemma FallbackReadsBack(verb: Option<Method>, rest: Bytes, max: nat)
    ensures ReadResponse(verb, FALLBACK + "" + rest, max) == Some(Reading(FALLBACK, "", rest))
  {
    hide *;
    FallbackIsAHead();
    FallbackEnds(rest);
    FallbackLength(verb, max);
    HeadReadsBack(FALLBACK, "", rest, verb, max);
  }

  lemma FallbackEnds(rest: Bytes)
    ensures |FALLBACK| >= 4 && Find(FALLBACK + ("" + rest), BLANK) == Some(|FALLBACK| - 4)
  {
    FallbackIsAHead();
    FallbackIsHonest(0);
    hide HeadOf, Find;
    HeadEndsAtBlank(FallbackMessage(), "" + rest);
  }

  lemma FallbackLength(verb: Option<Method>, max: nat)
    requires |FALLBACK| >= 4
    ensures ContentLength(verb, FALLBACK, max) == Some(0)
  {
    FallbackIsAHead();
    FallbackIsHonest(max);
    LengthReadsBack(FallbackMessage(), max);
    hide HeadOf, StatusCodeIn, BodyFramingOf, Honest;
  }

  /** One response, read back whole from the front of a stream. */
  lemma ResponseReadsBack(m: Message, rest: Bytes, max: nat)
    requires Honest(m, max)
    ensures var (head, content) := SentParts(m);
      ReadResponse(m.verb, Wire(m) + rest, max) == Some(Reading(head, content, rest))
  {
    hide ReadResponse, HeadOf, Content, Honest, Find;
    if HeadOf(m).None? {
      FallbackReadsBack(m.verb, rest, max);
    } else {
      LengthReadsBack(m, max);
      AcceptedHead(m, rest, max);
      HeadReadsBack(HeadOf(m).value, Content(m), rest, m.verb, max);
    }
  }

  lemma AcceptedHead(m: Message, rest: Bytes, max: nat)
    requires Honest(m, max) && HeadOf(m).Some?
    ensures Find(HeadOf(m).value + (Content(m) + rest), BLANK) == Some(|HeadOf(m).value| - 4)
  {
    hide Find, HeadOf, Content, Smuggles;
    HeadEndsAtBlank(m, Content(m) + rest);
  }

  lemma SlicesApart(a: Bytes, b: Bytes, c: Bytes)
    ensures var s := a + (b + c);
      s[..|a|] == a && s[|a|..|a| + |b|] == b && s[|a| + |b|..] == c
  {
  }

  function WireAll(ms: seq<Message>): Bytes {
    if ms == [] then "" else Wire(ms[0]) + WireAll(ms[1..])
  }

  function Verbs(ms: seq<Message>): seq<Option<Method>> {
    if ms == [] then [] else [ms[0].verb] + Verbs(ms[1..])
  }

  function Parts(ms: seq<Message>): seq<(Bytes, Bytes)> {
    if ms == [] then [] else [SentParts(ms[0])] + Parts(ms[1..])
  }

  /** Each part read carries the code and the body that were meant. */
  ghost predicate BodiesArrive(parts: seq<(Bytes, Bytes)>, ms: seq<Message>) {
    && |parts| == |ms|
    && forall i | 0 <= i < |ms| :: parts[i].1 == MeantBody(ms[i]) && StatusCodeIn(parts[i].0) == Some(MeantCode(ms[i]))
  }

  /** The code a client is meant to get. */
  function MeantCode(m: Message): nat {
    if HeadOf(m).None? then 500 else Code(m.response.status)
  }

  lemma CodeIsSent(m: Message)
    ensures StatusCodeIn(SentParts(m).0) == Some(MeantCode(m))
  {
    hide HeadOf, StatusCodeIn;
    if HeadOf(m).None? {
      FallbackIsAHead();
      CodeReadsBack(FallbackMessage());
    } else {
      CodeReadsBack(m);
    }
  }

  lemma {:induction false} PartsArrive(ms: seq<Message>)
    ensures BodiesArrive(Parts(ms), ms)
  {
    hide SentParts, MeantBody, MeantCode, StatusCodeIn;
    if ms != [] {
      BodyIsSent(ms[0]);
      CodeIsSent(ms[0]);
      PartsArrive(ms[1..]);
      assert Parts(ms)[1..] == Parts(ms[1..]);
      assert forall i | 1 <= i < |ms| :: ms[i] == ms[1..][i - 1] && Parts(ms)[i] == Parts(ms[1..])[i - 1];
    }
  }

  /**
   A stream of responses has one reading: a client that splits at blank lines
   and counts Content-Length octets recovers every head and body that was sent,
   and these carry the codes and the bodies that were meant.
  */
  lemma {:induction false} StreamReadsBack(ms: seq<Message>, max: nat)
    requires forall m | m in ms :: Honest(m, max)
    ensures ReadStream(Verbs(ms), WireAll(ms), max) == Some(Parts(ms))
    ensures BodiesArrive(Parts(ms), ms)
  {
    hide ReadResponse, Wire, SentParts, Honest, BodiesArrive;
    PartsArrive(ms);
    if ms != [] {
      ResponseReadsBack(ms[0], WireAll(ms[1..]), max);
      StreamReadsBack(ms[1..], max);
      assert Verbs(ms) != [] && Verbs(ms)[1..] == Verbs(ms[1..]);
      assert Parts(ms) == [SentParts(ms[0])] + Parts(ms[1..]);
    }
  }
}

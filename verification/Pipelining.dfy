/**
 A well-behaved client: requests printed with a Content-Length, sent one after
 the other on one connection, and what the server makes of them.
*/
module Pipelining {
  import opened Wrappers
  import opened ByteText
  import opened Http
  import opened Fields
  import opened Framing
  import opened Routing
  import opened ResponseHead
  import opened PrintedHead
  import opened Segmentation

  /** A request as a client means it. */
  datatype Outgoing = Outgoing(verb: Method, target: Bytes, headers: seq<Header>, body: Bytes)

  function MethodName(verb: Method): Bytes {
    match verb
    case GET => "GET"
    case POST => "POST"
    case PUT => "PUT"
    case DELETE => "DELETE"
    case HEAD => "HEAD"
    case OPTIONS => "OPTIONS"
    case CONNECT => "CONNECT"
    case PATCH => "PATCH"
    case TRACE => "TRACE"
    case QUERY => "QUERY"
  }

  function AllHeaders(r: Outgoing): seq<Header> {
    r.headers + [("Content-Length", Print(|r.body|, 10))]
  }

  function RequestLine(r: Outgoing): Bytes {
    MethodName(r.verb) + " " + (r.target + " " + "HTTP/1.1")
  }

  function RequestLines(r: Outgoing): seq<Bytes> {
    [RequestLine(r)] + HeaderTexts(AllHeaders(r))
  }

  function HeadText(r: Outgoing): Bytes {
    Join(RequestLines(r), CRLF) + BLANK
  }

  function RequestText(r: Outgoing): Bytes {
    HeadText(r) + r.body
  }

  predicate Visible(s: Bytes) {
    s != "" && forall c | c in s :: '!' <= c <= '~'
  }

  /** A header of one line whose name is plain and says nothing about framing. */
  ghost predicate HeaderOk(h: Header) {
    && OneLine(h.0) && OneLine(h.1) && ':' !in h.0 && Harmless(h)
    && Utf8(h.0) && Utf8(h.1) && TrimStart(h.1) == h.1
  }

  ghost predicate OutgoingOk(r: Outgoing, lim: Limits) {
    && Visible(r.target) && |r.target| <= MAX_URI
    && (forall h | h in r.headers :: HeaderOk(h))
    && |HeadText(r)| <= lim.headerBytes
    && |r.body| <= lim.bodyBytes
    && |RequestText(r)| <= lim.usizeMax
  }

  // ---------- the request line ----------

  lemma VisibleIsNoSpace(s: Bytes)
    requires s != "" && '!' <= s[0] <= '~'
    ensures SpaceFront(s) == 0
  {
  }

  lemma SpaceFirst(rest: Bytes)
    ensures SpaceFront(" " + rest) == 1
  {
  }

  lemma {:induction false} WordEnds(w: Bytes, rest: Bytes)
    requires Visible(w)
    ensures SpaceFront(w + " " + rest) == 0 && WordEnd(w + " " + rest) == |w|
  {
    var s := w + " " + rest;
    assert w[0] in w;
    VisibleIsNoSpace(s);
    hide Blank, WideSpace;
    if |w| == 1 {
      SpaceFirst(rest);
      assert s[1..] == " " + rest;
    } else {
      assert s[1..] == w[1..] + " " + rest;
      assert forall c | c in w[1..] :: c in w;
      WordEnds(w[1..], rest);
    }
  }

  lemma {:induction false} LastWordEnds(w: Bytes)
    requires Visible(w)
    ensures SpaceFront(w) == 0 && WordEnd(w) == |w|
  {
    assert w[0] in w;
    VisibleIsNoSpace(w);
    hide Blank, WideSpace;
    if |w| > 1 {
      assert forall c | c in w[1..] :: c in w;
      LastWordEnds(w[1..]);
    }
  }

  lemma FirstWord(w: Bytes, rest: Bytes)
    requires Visible(w)
    ensures Words(w + " " + rest) == [w] + Words(rest)
  {
    WordEnds(w, rest);
    SpaceFirst(rest);
    hide SpaceFront, WordEnd;
    var s := w + " " + rest;
    assert s[..|w|] == w && s[|w|..] == " " + rest;
    assert (" " + rest)[1..] == rest;
    assert Words(" " + rest) == Words(rest);
  }

  lemma LastWord(w: Bytes)
    requires Visible(w)
    ensures Words(w) == [w]
  {
    LastWordEnds(w);
    hide SpaceFront, WordEnd;
    assert w[..|w|] == w && w[|w|..] == "";
  }

  lemma NamesAreVisible(verb: Method)
    ensures Visible(MethodName(verb)) && Visible("HTTP/1.1")
  {
  }

  lemma NamesReadBack(verb: Method)
    ensures MethodNamed(MethodName(verb)) == Some(verb)
  {
  }

  lemma LineWords(r: Outgoing)
    requires Visible(r.target)
    ensures Words(RequestLine(r)) == [MethodName(r.verb), r.target, "HTTP/1.1"]
  {
    hide Visible, MethodName, Words;
    NamesAreVisible(r.verb);
    FirstWord(MethodName(r.verb), r.target + " " + "HTTP/1.1");
    FirstWord(r.target, "HTTP/1.1");
    LastWord("HTTP/1.1");
  }

  /** A target put together again from its path and query. */
  function Rejoined(t: Target): Bytes {
    t.path + match t.query { case None => "" case Some(query) => "?" + query }
  }

  lemma LineReadsBack(r: Outgoing) returns (t: Target)
    requires Visible(r.target) && |r.target| <= MAX_URI
    ensures ParseRequestLine(RequestLine(r)) == Ok(t)
    ensures t.verb == r.verb && Rejoined(t) == r.target && '?' !in t.path
  {
    LineWords(r);
    NamesReadBack(r.verb);
    hide Words, MethodName, MethodNamed, RequestLine, Visible;
    t := ParseRequestLine(RequestLine(r)).value;
    TargetApart(r.target);
  }

  lemma TargetApart(target: Bytes)
    ensures match SplitOnce(target, "?")
      case None => '?' !in target
      case Some((path, query)) => target == path + ("?" + query) && '?' !in path
  {
    assert "?" == ['?'];
    OneOctet(target, '?');
    if Find(target, "?").Some? {
      var i := Find(target, "?").value;
      assert target[i..i + 1] == "?";
      assert target == target[..i] + target[i..];
      forall j: nat ensures !At(target[..i], "?", j) {
        AtAppend(target[..i], target[i..], "?", j);
      }
      OneOctet(target[..i], '?');
    }
    hide Find;
  }

  // ---------- the head ----------

  lemma VisibleIsOneLine(s: Bytes)
    requires Visible(s)
    ensures OneLine(s) && Utf8(s)
  {
    forall i | 0 <= i < |s| ensures s[i] < 0x80 as char {
      assert s[i] in s;
    }
    AsciiIsUtf8(s);
    hide Utf8;
  }

  lemma LineIsOneLine(r: Outgoing)
    requires Visible(r.target)
    ensures RequestLine(r) != "" && OneLine(RequestLine(r)) && Utf8(RequestLine(r))
  {
    hide OneLine, Utf8, Visible, MethodName;
    NamesAreVisible(r.verb);
    VisibleIsOneLine(MethodName(r.verb));
    VisibleIsOneLine(r.target);
    VisibleIsOneLine("HTTP/1.1");
    SpaceIsOneLine();
    var rest := r.target + " " + "HTTP/1.1";
    OneLineConcat(r.target, " ");
    OneLineConcat(r.target + " ", "HTTP/1.1");
    OneLineConcat(MethodName(r.verb), " ");
    OneLineConcat(MethodName(r.verb) + " ", rest);
    Utf8Append(r.target, " ");
    Utf8Append(r.target + " ", "HTTP/1.1");
    Utf8Append(MethodName(r.verb), " ");
    Utf8Append(MethodName(r.verb) + " ", rest);
  }

  lemma SpaceIsOneLine()
    ensures OneLine(" ") && Utf8(" ") && OneLine(": ") && Utf8(": ")
  {
    AsciiIsUtf8(" ");
    AsciiIsUtf8(": ");
    hide Utf8;
  }

  lemma LengthHeaderOk(n: nat)
    ensures OneLine("Content-Length") && ':' !in "Content-Length" && Utf8("Content-Length")
    ensures OneLine(Print(n, 10)) && Utf8(Print(n, 10)) && TrimStart(Print(n, 10)) == Print(n, 10)
  {
    hide Print, Utf8, OneLine, WideSpace;
    LengthIsOneLine(n);
    LengthName();
    AsciiIsUtf8("Content-Length");
    PrintChars(n, 10);
    var digits := Print(n, 10);
    forall i | 0 <= i < |digits| ensures digits[i] < 0x80 as char {
      assert digits[i] in digits;
    }
    AsciiIsUtf8(digits);
    assert digits[0] in digits;
    VisibleIsNoSpace(digits);
  }

  /** What a header line of the request is to splitting and to UTF-8. */
  ghost predicate LineOk(h: Header) {
    OneLine(h.0) && OneLine(h.1) && ':' !in h.0 && Utf8(h.0) && Utf8(h.1) && TrimStart(h.1) == h.1
  }

  lemma HeadersAreLines(r: Outgoing, lim: Limits)
    requires OutgoingOk(r, lim)
    ensures forall h | h in AllHeaders(r) :: LineOk(h)
  {
    hide OneLine, Utf8, TrimStart, Visible, HeadText, RequestText, Harmless, Print;
    LengthHeaderOk(|r.body|);
    forall h | h in AllHeaders(r) ensures LineOk(h) {
      assert h in r.headers || h == ("Content-Length", Print(|r.body|, 10));
    }
  }

  lemma HeaderTextOk(h: Header)
    requires LineOk(h)
    ensures HeaderText(h) != "" && FreeOf(HeaderText(h), CRLF) && Utf8(HeaderText(h))
  {
    hide OneLine, Utf8, FreeOf, TrimStart;
    SpaceIsOneLine();
    OneLineConcat(": ", h.1);
    OneLineConcat(h.0, ": " + h.1);
    Utf8Append(": ", h.1);
    Utf8Append(h.0, ": " + h.1);
    OneLineIsFree(HeaderText(h));
  }

  lemma LinesOk(r: Outgoing, lim: Limits)
    requires OutgoingOk(r, lim)
    ensures var lines := RequestLines(r);
      forall i | 0 <= i < |lines| :: lines[i] != "" && FreeOf(lines[i], CRLF) && Utf8(lines[i])
  {
    HeadersAreLines(r, lim);
    LineIsOneLine(r);
    OneLineIsFree(RequestLine(r));
    hide OutgoingOk, LineOk, RequestLine, AllHeaders, HeaderText, FreeOf, Utf8, OneLine;
    var lines := RequestLines(r);
    forall i | 0 <= i < |lines| ensures lines[i] != "" && FreeOf(lines[i], CRLF) && Utf8(lines[i]) {
      if i > 0 {
        assert lines[i] == HeaderText(AllHeaders(r)[i - 1]);
        HeaderTextOk(AllHeaders(r)[i - 1]);
      }
    }
  }

  /** The head of a printed request ends at its blank line, is text, and is its lines. */
  lemma HeadReads(r: Outgoing, rest: Bytes, lim: Limits)
    requires OutgoingOk(r, lim)
    ensures |HeadText(r)| >= 4 && Find(HeadText(r) + rest, BLANK) == Some(|HeadText(r)| - 4)
    ensures var head := HeadText(r)[..|HeadText(r)| - 4]; Utf8(head) && head == Join(RequestLines(r), CRLF)
  {
    LinesOk(r, lim);
    hide OutgoingOk, RequestLine, HeaderTexts, FreeOf, Utf8, Find, Join;
    TextReads(RequestLines(r), rest);
  }

  lemma TextReads(lines: seq<Bytes>, rest: Bytes)
    requires |lines| > 0
    requires forall i | 0 <= i < |lines| :: lines[i] != "" && FreeOf(lines[i], CRLF) && Utf8(lines[i])
    ensures var text := Join(lines, CRLF) + BLANK;
      && Find(text + rest, BLANK) == Some(|text| - 4)
      && text[..|text| - 4] == Join(lines, CRLF) && Utf8(Join(lines, CRLF))
  {
    hide FreeOf, Utf8, Find, Join;
    FindBlank(lines, rest);
    JoinIsUtf8(lines);
  }

  lemma HeadHeaders(r: Outgoing, lim: Limits)
    requires OutgoingOk(r, lim)
    ensures Split(Join(RequestLines(r), CRLF), CRLF) == RequestLines(r)
    ensures HeaderLines(Join(RequestLines(r), CRLF)) == HeaderTexts(AllHeaders(r))
  {
    LinesOk(r, lim);
    hide OutgoingOk, RequestLine, HeaderTexts, AllHeaders, FreeOf, Utf8;
    var lines := RequestLines(r);
    assert lines[1..] == HeaderTexts(AllHeaders(r));
    SplitJoin(lines, CRLF);
    NoEmptyTexts(AllHeaders(r));
    HeaderLinesOfJoin(lines);
  }

  lemma HeadersFrame(r: Outgoing, lim: Limits)
    requires OutgoingOk(r, lim)
    ensures FramingOf(HeaderTexts(AllHeaders(r)), lim.usizeMax) == Ok(Length(|r.body|))
  {
    var max, own := lim.usizeMax, [("Content-Length", Print(|r.body|, 10))];
    var line := HeaderText(own[0]);
    HarmlessLines(r.headers, max);
    LengthLine(|r.body|, max);
    ReadInTurn(r.headers, own, max);
    hide OutgoingOk, HeaderText, Malformed, LengthIn, CodingsIn, Print;
    assert HeaderTexts(own) == [line];
    FlatMapSnoc([], line, LengthsWithin(max));
    FlatMapSnoc([], line, CodingsIn);
    assert [] + [line] == [line];
  }

  // ---------- what the server makes of it ----------

  lemma FramesLength(head: Bytes, body: Bytes, rest: Bytes, lim: Limits, idleEnd: bool)
    requires 4 <= |head| <= lim.headerBytes && Find(head + (body + rest), BLANK) == Some(|head| - 4)
    requires Utf8(head[..|head| - 4]) && BodyFramingOf(head[..|head| - 4], lim.usizeMax) == Ok(Length(|body|))
    requires |body| <= lim.bodyBytes && |head + body| <= lim.usizeMax
    ensures Frame(head + body + rest, lim, idleEnd) == Take(head + body, |head + body|)
  {
    hide Find, Utf8, BodyFramingOf, UnframedBody, DecodeChunks;
    var b := head + body + rest;
    assert b == head + (body + rest);
    assert b[..|head| - 4] == head[..|head| - 4];
    assert b[..|head + body|] == head + body;
  }

  lemma HeadFraming(r: Outgoing, lim: Limits)
    requires OutgoingOk(r, lim)
    ensures |HeadText(r)| >= 4
    ensures BodyFramingOf(HeadText(r)[..|HeadText(r)| - 4], lim.usizeMax) == Ok(Length(|r.body|))
  {
    hide OutgoingOk, HeadText, RequestLines, FramingOf, HeaderLines, HeaderTexts, AllHeaders, Find, Utf8, Join;
    HeadReads(r, "", lim);
    HeadHeaders(r, lim);
    HeadersFrame(r, lim);
  }

  lemma OutgoingFits(r: Outgoing, lim: Limits)
    requires OutgoingOk(r, lim)
    ensures |HeadText(r)| <= lim.headerBytes && |r.body| <= lim.bodyBytes && |RequestText(r)| <= lim.usizeMax
    ensures RequestText(r) == HeadText(r) + r.body
    ensures Visible(r.target) && |r.target| <= MAX_URI
  {
  }

  /** A printed request is framed whole and exactly, whatever follows it. */
  lemma RequestIsFramed(r: Outgoing, rest: Bytes, lim: Limits, idleEnd: bool)
    requires OutgoingOk(r, lim)
    ensures Frame(RequestText(r) + rest, lim, idleEnd) == Take(RequestText(r), |RequestText(r)|)
    ensures (RequestText(r) + rest)[|RequestText(r)|..] == rest
  {
    hide *;
    OutgoingFits(r, lim);
    HeadReads(r, r.body + rest, lim);
    HeadFraming(r, lim);
    FramesLength(HeadText(r), r.body, rest, lim, idleEnd);
    assert (RequestText(r) + rest)[|RequestText(r)|..] == rest;
  }

  lemma LinesArePlain(headers: seq<Header>)
    requires forall h | h in headers :: LineOk(h)
    ensures forall h | h in headers :: PlainHeader(h)
  {
  }

  /**
   The parser undoes the client's printer: method, target, headers and body all
   come back, the target cut at its first question mark.
  */
  lemma RequestIsParsed(r: Outgoing, lim: Limits, routes: Routes) returns (t: Target)
    requires OutgoingOk(r, lim)
    ensures t.verb == r.verb && Rejoined(t) == r.target && '?' !in t.path
    ensures TargetOf(RequestText(r)) == Some(t)
    ensures ParseRaw(RequestText(r), routes)
      == Ok(Request(r.verb, t.path, "HTTP/1.1", AllHeaders(r), r.body, TargetParams(routes, t)))
  {
    hide *;
    OutgoingFits(r, lim);
    t := LineReadsBack(r);
    HeadReads(r, r.body, lim);
    HeadHeaders(r, lim);
    HeadersAreLines(r, lim);
    LinesArePlain(AllHeaders(r));
    PlainReadBack(AllHeaders(r));
    ParsesParts(HeadText(r), r, t, routes);
  }

  lemma ParsesParts(head: Bytes, r: Outgoing, t: Target, routes: Routes)
    requires |head| >= 4 && Find(head + r.body, BLANK) == Some(|head| - 4) && Utf8(head[..|head| - 4])
    requires Split(head[..|head| - 4], CRLF) == RequestLines(r)
    requires ParseRequestLine(RequestLine(r)) == Ok(t) && t.verb == r.verb
    requires ReadHeaders(HeaderTexts(AllHeaders(r))) == AllHeaders(r)
    ensures TargetOf(head + r.body) == Some(t)
    ensures ParseRaw(head + r.body, routes)
      == Ok(Request(r.verb, t.path, "HTTP/1.1", AllHeaders(r), r.body, TargetParams(routes, t)))
  {
    hide Find, Utf8, ParseRequestLine, ReadHeaders, TargetParams, AllHeaders, RequestLine, Split;
    assert (head + r.body)[..|head| - 4] == head[..|head| - 4];
    assert (head + r.body)[|head|..] == r.body;
    assert RequestLines(r)[0] == RequestLine(r);
    assert RequestLines(r)[1..] == HeaderTexts(AllHeaders(r));
  }

  lemma MarkIsKept(t: Target)
    ensures t.query.Some? ==> '?' in Rejoined(t)
  {
    assert t.query.Some? ==> Rejoined(t)[|t.path|] == '?';
  }

  /** A target without a question mark is a path. */
  lemma PlainTarget(t: Target, target: Bytes)
    requires Rejoined(t) == target && '?' !in target
    ensures t.path == target && t.query.None?
  {
    MarkIsKept(t);
  }

  function Texts(rs: seq<Outgoing>): seq<Bytes> {
    if rs == [] then [] else [RequestText(rs[0])] + Texts(rs[1..])
  }

  function Sent(rs: seq<Outgoing>): Bytes {
    if rs == [] then "" else RequestText(rs[0]) + Sent(rs[1..])
  }

  /** Requests sent back to back are found in the stream one by one, as they were sent. */
  lemma {:induction false} PipelineIsFramed(rs: seq<Outgoing>, lim: Limits)
    requires forall r | r in rs :: OutgoingOk(r, lim)
    ensures Requests(Sent(rs), lim) == Texts(rs)
    decreases |rs|
  {
    hide OutgoingOk, RequestText, Frame;
    if rs == [] {
      EmptyStream(lim);
    } else {
      RequestIsFramed(rs[0], Sent(rs[1..]), lim, false);
      PipelineIsFramed(rs[1..], lim);
    }
  }

  lemma EmptyStream(lim: Limits)
    ensures Frame("", lim, false).NotYet?
  {
    assert Find("", BLANK).None?;
  }
}

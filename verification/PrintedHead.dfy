/**
 A printed head, read back: where it ends, what each of its lines says to a parser,
 and which body the repository's own header parser finds it to announce.
*/
module PrintedHead {
  import opened Wrappers
  import opened ByteText
  import opened Http
  import opened Fields
  import opened ResponseHead

  // ---------- a head is lines, and ends at its only blank line ----------

  lemma OneLineConcat(a: Bytes, b: Bytes)
    ensures OneLine(a + b) <==> OneLine(a) && OneLine(b)
  {
  }

  lemma OneLineIsFree(s: Bytes)
    requires OneLine(s)
    ensures FreeOf(s, CRLF)
  {
    LineFree(s);
  }

  lemma RequestReasons()
    ensures OneLine("Bad Request") && OneLine("Not Found") && OneLine("Not Implemented")
  {
  }

  lemma RefusalReasons()
    ensures OneLine("URI Too Long") && OneLine("Payload Too Large") && OneLine("Request Timeout")
  {
  }

  lemma ServerReasons()
    ensures OneLine("Internal Server Error") && OneLine("No Content")
  {
  }

  lemma ProtocolReasons()
    ensures OneLine("Switching Protocols") && OneLine("Method Not Allowed")
  {
  }

  lemma HeaderReasons()
    ensures OneLine("Request Header ") && OneLine("Fields Too Large")
  {
  }

  lemma VersionReasons()
    ensures OneLine("HTTP Version ") && OneLine("Not Supported") && OneLine("HTTP/1.1 ") && OneLine(" ")
  {
  }

  lemma ReasonIsOneLine(status: Status)
    ensures OneLine(Reason(status))
  {
    hide OneLine;
    RequestReasons();
    RefusalReasons();
    ServerReasons();
    ProtocolReasons();
    HeaderReasons();
    VersionReasons();
    OneLineConcat("Request Header ", "Fields Too Large");
    OneLineConcat("HTTP Version ", "Not Supported");
    OtherIsOneLine(status);
  }

  lemma OtherIsOneLine(status: Status)
    ensures status.Other? ==> OneLine(status.reason)
  {
  }

  lemma StatusLineIsOneLine(status: Status)
    ensures OneLine(StatusLine(status))
  {
    hide OneLine, Print, Reason, Code;
    ReasonIsOneLine(status);
    VersionReasons();
    DigitsAreOneLine(Code(status));
    var digits, reason := Print(Code(status), 10), Reason(status);
    OneLineConcat(" ", reason);
    OneLineConcat(digits, " " + reason);
    OneLineConcat("HTTP/1.1 ", digits + (" " + reason));
  }

  lemma DigitsAreOneLine(n: nat)
    ensures OneLine(Print(n, 10))
  {
    PrintChars(n, 10);
    hide Print;
  }

  lemma {:induction false} KeptAreHeaders(headers: seq<Header>, close: bool)
    ensures forall h | h in Kept(headers, close) :: h in headers && !Replaced(h.0, close)
    ensures forall h | h in headers && !Replaced(h.0, close) :: h in Kept(headers, close)
  {
    if headers != [] {
      KeptAreHeaders(headers[1..], close);
      assert headers == [headers[0]] + headers[1..];
    }
  }

  lemma LengthIsOneLine(n: nat)
    ensures OneLine("Content-Length") && OneLine(Print(n, 10)) && OneLine("Connection") && OneLine("close")
  {
    hide Print;
    DigitsAreOneLine(n);
  }

  lemma SentAreOneLine(m: Message)
    requires Printable(m)
    ensures OneLineEach(SentHeaders(m))
  {
    hide OneLine, CorsHeaders, HasContent, Replaced;
    KeptAreHeaders(m.response.headers, m.close);
    LengthIsOneLine(|m.response.body|);
  }

  lemma HeadLinesAreLines(m: Message)
    requires Printable(m)
    ensures forall i | 0 <= i < |HeadLines(m)| :: HeadLines(m)[i] != "" && FreeOf(HeadLines(m)[i], CRLF)
  {
    var lines := HeadLines(m);
    hide SentHeaders;
    SentAreOneLine(m);
    StatusLineIsOneLine(m.response.status);
    forall i | 0 <= i < |lines| ensures lines[i] != "" && FreeOf(lines[i], CRLF) {
      if i > 0 {
        assert lines[i] == HeaderText(SentHeaders(m)[i - 1]);
        assert SentHeaders(m)[i - 1] in SentHeaders(m);
      }
      LineFree(lines[i]);
    }
  }

  /** A printed head ends at the only blank line in it, whatever is sent after it. */
  lemma HeadEndsAtBlank(m: Message, rest: Bytes)
    requires HeadOf(m).Some?
    ensures 4 <= |HeadOf(m).value|
    ensures Find(HeadOf(m).value + rest, BLANK) == Some(|HeadOf(m).value| - 4)
  {
    hide FreeOf, StatusLine, SentHeaders, Printable;
    HeadLinesAreLines(m);
    FindBlank(HeadLines(m), rest);
  }

  // ---------- what a header line says to a parser ----------

  /** The field name a parser reads: what precedes the first colon. */
  function FieldName(key: Bytes): Bytes {
    match Find(key, ":")
    case None => key
    case Some(i) => key[..i]
  }

  /** The value a parser reads. */
  function FieldRest(h: Header): Bytes {
    match Find(h.0, ":")
    case None => " " + h.1
    case Some(i) => h.0[i + 1..] + (": " + h.1)
  }

  lemma SplitHeader(h: Header)
    ensures SplitOnce(HeaderText(h), ":") == Some((FieldName(h.0), FieldRest(h)))
  {
    hide Find, FreeOf, FieldName, FieldRest, HeaderText;
    HeaderApart(h);
    NameIsPlain(h.0);
    SplitAtColon(FieldName(h.0), FieldRest(h));
  }

  lemma SplitAtColon(name: Bytes, rest: Bytes)
    requires FreeOf(name, ":")
    ensures SplitOnce(name + ":" + rest, ":") == Some((name, rest))
  {
    FindAfter(name, ":", rest);
    hide Find, FreeOf;
    var text := name + ":" + rest;
    assert text[..|name|] == name && text[|name| + 1..] == rest;
  }

  lemma HeaderApart(h: Header)
    ensures HeaderText(h) == FieldName(h.0) + ":" + FieldRest(h)
  {
    hide Find;
    if Find(h.0, ":").Some? {
      var i := Find(h.0, ":").value;
      assert h.0[i..i + 1] == ":";
      assert h.0 == h.0[..i] + ":" + h.0[i + 1..];
    } else {
      assert ": " + h.1 == ":" + (" " + h.1);
    }
  }

  lemma NameIsPlain(key: Bytes)
    ensures FreeOf(FieldName(key), ":")
  {
    if Find(key, ":").Some? {
      var i := Find(key, ":").value;
      assert key == key[..i] + key[i..];
      forall j: nat ensures !At(key[..i], ":", j) {
        AtAppend(key[..i], key[i..], ":", j);
      }
    }
    hide Find;
  }

  /** Header names that reach the framing decision behind the printer's back. */
  predicate Smuggles(h: Header) {
    || SameText(FieldName(h.0), "transfer-encoding")
    || (':' in h.0 && SameText(FieldName(h.0), "content-length"))
  }

  // ---------- the framing a head announces ----------

  /** What a client must read after the head. */
  function Expected(m: Message): BodyFraming {
    if HasContent(m.verb, m.response.status) then Length(|m.response.body|) else NoBody
  }

  lemma WideIsWide(s: Bytes, c: char)
    requires c < 0x80 as char && WideSpace(s)
    ensures c !in s
  {
  }

  lemma FrontIsSpace(s: Bytes, c: char)
    requires c < 0x80 as char && !Blank(c)
    ensures c !in s[..SpaceFront(s)]
  {
    hide WideSpace;
    if SpaceFront(s) > 1 {
      WideIsWide(s[..SpaceFront(s)], c);
    }
  }

  lemma BackIsSpace(s: Bytes, c: char)
    requires c < 0x80 as char && !Blank(c)
    ensures c !in s[|s| - SpaceBack(s)..]
  {
    hide WideSpace;
    if SpaceBack(s) > 1 {
      WideIsWide(s[|s| - SpaceBack(s)..], c);
    }
  }

  lemma {:induction false} TrimStartKeeps(s: Bytes, c: char)
    requires c in s && c < 0x80 as char && !Blank(c)
    ensures c in TrimStart(s)
    decreases |s|
  {
    FrontIsSpace(s, c);
    hide SpaceFront, Blank;
    if SpaceFront(s) > 0 {
      assert s == s[..SpaceFront(s)] + s[SpaceFront(s)..];
      TrimStartKeeps(s[SpaceFront(s)..], c);
    }
  }

  lemma {:induction false} TrimEndKeeps(s: Bytes, c: char)
    requires c in s && c < 0x80 as char && !Blank(c)
    ensures c in TrimEnd(s)
    decreases |s|
  {
    BackIsSpace(s, c);
    hide SpaceBack, Blank;
    var k := |s| - SpaceBack(s);
    if SpaceBack(s) > 0 {
      assert s == s[..k] + s[k..];
      TrimEndKeeps(s[..k], c);
    }
  }

  lemma NoNumberWithColon(s: Bytes, max: nat)
    requires ':' in s
    ensures ParseNat(Trim(s), 10, max).None?
  {
    TrimStartKeeps(s, ':');
    TrimEndKeeps(TrimStart(s), ':');
    hide TrimStart, TrimEnd;
    ColonIsNoDigit(Trim(s), max);
  }

  lemma ColonIsNoDigit(t: Bytes, max: nat)
    requires ':' in t
    ensures ParseNat(t, 10, max).None?
  {
    hide Value;
    var digits := if t != "" && t[0] == '+' then t[1..] else t;
    var i :| 0 <= i < |t| && t[i] == ':';
    assert digits[|digits| - (|t| - i)] == ':';
  }

  /** A smuggling line spoils the head or brings a coding into it. */
  lemma SmuggleSpoils(h: Header, max: nat)
    requires Smuggles(h)
    ensures Malformed(HeaderText(h), max) || CodingsIn(HeaderText(h)) != []
  {
    SplitHeader(h);
    hide Trim, ParseNat, HeaderText, ToLower;
    if !SameText(FieldName(h.0), "transfer-encoding") {
      OneOctet(h.0, ':');
      assert ':' in FieldRest(h);
      NoNumberWithColon(FieldRest(h), max);
    }
  }

  predicate Harmless(h: Header) {
    !SameText(FieldName(h.0), "transfer-encoding") && !SameText(FieldName(h.0), "content-length")
  }

  /** A line of any other name, Content-Length aside, says nothing about framing. */
  lemma HarmlessLine(h: Header, max: nat)
    requires Harmless(h)
    ensures var line := HeaderText(h);
      !Malformed(line, max) && LengthIn(line, max) == [] && CodingsIn(line) == []
  {
    SplitHeader(h);
    hide HeaderText;
  }

  /** Text without a colon is its own field name. */
  lemma PlainName(h: Header)
    requires ':' !in h.0
    ensures FieldName(h.0) == h.0 && FieldRest(h) == " " + h.1
  {
    OneOctet(h.0, ':');
  }

  lemma {:induction false} HarmlessLines(headers: seq<Header>, max: nat)
    requires forall h | h in headers :: Harmless(h)
    ensures Lengths(HeaderTexts(headers), max) == [] && Codings(HeaderTexts(headers)) == []
    ensures !AnyMalformed(HeaderTexts(headers), max)
  {
    hide Malformed, LengthIn, CodingsIn, HeaderText, Harmless;
    if headers != [] {
      HarmlessLine(headers[0], max);
      HarmlessLines(headers[1..], max);
      var lines := HeaderTexts(headers);
      assert lines == [HeaderText(headers[0])] + HeaderTexts(headers[1..]);
      assert forall line | line in lines :: line == HeaderText(headers[0]) || line in HeaderTexts(headers[1..]);
    }
  }

  lemma CorsNames(cors: Option<Cors>, origin: Option<Bytes>)
    ensures forall h | h in CorsHeaders(cors, origin) :: ':' !in h.0 && |h.0| > 20
  {
    hide AllowedOrigin, Print;
    CorsTexts();
  }

  lemma CorsTexts()
    ensures ':' !in "Access-Control-" && |"Access-Control-"| == 15
    ensures ':' !in "Allow-Origin" && ':' !in "Allow-Methods" && ':' !in "Allow-Headers"
    ensures ':' !in "Allow-Credentials" && ':' !in "Max-Age"
  {
  }

  lemma LongNamesAreHarmless(h: Header)
    requires ':' !in h.0 && (|h.0| > 20 || |h.0| == 10)
    ensures Harmless(h)
  {
    PlainName(h);
  }

  lemma AddedAreHarmless(m: Message)
    ensures forall h | h in CloseHeaders(m.close) + CorsHeaders(m.cors, m.origin) :: Harmless(h)
  {
    CorsNames(m.cors, m.origin);
    hide CorsHeaders, Harmless;
    forall h | h in CloseHeaders(m.close) + CorsHeaders(m.cors, m.origin) ensures Harmless(h) {
      LongNamesAreHarmless(h);
    }
  }

  lemma KeptAreHarmless(m: Message)
    requires forall h | h in m.response.headers :: !Smuggles(h)
    ensures forall h | h in Kept(m.response.headers, m.close) :: Harmless(h)
  {
    KeptAreHeaders(m.response.headers, m.close);
    hide Kept, FieldName, SameText;
    forall h | h in Kept(m.response.headers, m.close) ensures Harmless(h) {
      if ':' !in h.0 {
        PlainName(h);
      }
    }
  }

  /** The length line says what it was printed from. */
  lemma LengthLine(n: nat, max: nat)
    requires n <= max
    ensures var line := HeaderText(("Content-Length", Print(n, 10)));
      !Malformed(line, max) && LengthIn(line, max) == [n] && CodingsIn(line) == []
  {
    hide *;
    var h := ("Content-Length", Print(n, 10));
    LengthName();
    PlainName(h);
    SplitHeader(h);
    LengthValue(n, max);
    LengthOnly(HeaderText(h), " " + Print(n, 10), n, max);
  }

  lemma LengthName()
    ensures ':' !in "Content-Length"
    ensures SameText("Content-Length", "content-length") && !SameText("Content-Length", "transfer-encoding")
  {
    assert |"Content-Length"| != |"transfer-encoding"|;
  }

  lemma LengthOnly(line: Bytes, value: Bytes, n: nat, max: nat)
    requires SplitOnce(line, ":") == Some(("Content-Length", value))
    requires ParseNat(Trim(value), 10, max) == Some(n)
    ensures !Malformed(line, max) && LengthIn(line, max) == [n] && CodingsIn(line) == []
  {
    LengthName();
    hide SplitOnce, SameText, ParseNat, Trim;
  }

  lemma LengthValue(n: nat, max: nat)
    requires n <= max
    ensures ParseNat(Trim(" " + Print(n, 10)), 10, max) == Some(n)
  {
    hide Print, ParseNat, Trim, SpaceFront, TrimStart, TrimEnd;
    var digits := Print(n, 10);
    PrintChars(n, 10);
    ParsePrint(n, 10, max);
    assert digits[0] in digits && digits[|digits| - 1] in digits;
    TrimSolid(digits);
    TrimSpaceThen(digits);
  }

  lemma SpaceThen(v: Bytes)
    ensures TrimStart(" " + v) == TrimStart(v)
  {
    assert SpaceFront(" " + v) == 1;
    assert (" " + v)[1..] == v;
  }

  lemma TrimSpaceThen(v: Bytes)
    ensures Trim(" " + v) == Trim(v)
  {
    SpaceThen(v);
    hide TrimStart, TrimEnd;
  }

  lemma TextsConcat(a: seq<Header>, b: seq<Header>)
    ensures HeaderTexts(a + b) == HeaderTexts(a) + HeaderTexts(b)
  {
    hide HeaderText;
  }

  lemma MalformedConcat(a: seq<Bytes>, b: seq<Bytes>, max: nat)
    ensures AnyMalformed(a + b, max) <==> AnyMalformed(a, max) || AnyMalformed(b, max)
  {
    hide Malformed;
    assert forall line :: line in a + b <==> line in a || line in b;
  }

  /** What framing reads in two runs of lines is what it reads in each, in turn. */
  lemma ReadInTurn(a: seq<Header>, b: seq<Header>, max: nat)
    ensures Lengths(HeaderTexts(a + b), max) == Lengths(HeaderTexts(a), max) + Lengths(HeaderTexts(b), max)
    ensures Codings(HeaderTexts(a + b)) == Codings(HeaderTexts(a)) + Codings(HeaderTexts(b))
    ensures AnyMalformed(HeaderTexts(a + b), max)
      <==> AnyMalformed(HeaderTexts(a), max) || AnyMalformed(HeaderTexts(b), max)
  {
    TextsConcat(a, b);
    hide HeaderTexts, CodingsIn;
    FlatMapConcat(HeaderTexts(a), HeaderTexts(b), LengthsWithin(max));
    FlatMapConcat(HeaderTexts(a), HeaderTexts(b), CodingsIn);
    MalformedConcat(HeaderTexts(a), HeaderTexts(b), max);
  }

  lemma LengthLines(m: Message, max: nat)
    requires |m.response.body| <= max
    ensures var lines := HeaderTexts(LengthHeaders(m));
      && Codings(lines) == [] && !AnyMalformed(lines, max)
      && Lengths(lines, max) == if HasContent(m.verb, m.response.status) then [|m.response.body|] else []
  {
    LengthLine(|m.response.body|, max);
    hide HasContent, HeaderText, Malformed, LengthIn, CodingsIn;
    var line := HeaderText(("Content-Length", Print(|m.response.body|, 10)));
    if HasContent(m.verb, m.response.status) {
      assert HeaderTexts(LengthHeaders(m)) == [line];
      FlatMapSnoc([], line, LengthsWithin(max));
      FlatMapSnoc([], line, CodingsIn);
      assert [] + [line] == [line];
    }
  }

  lemma PlainHeadFraming(m: Message, max: nat)
    requires forall h | h in m.response.headers :: !Smuggles(h)
    requires |m.response.body| <= max
    ensures FramingOf(HeaderTexts(SentHeaders(m)), max) == Ok(Expected(m))
  {
    hide *;
    var kept, length := Kept(m.response.headers, m.close), LengthHeaders(m);
    var added := CloseHeaders(m.close) + CorsHeaders(m.cors, m.origin);
    KeptAreHarmless(m);
    AddedAreHarmless(m);
    HarmlessLines(kept, max);
    HarmlessLines(added, max);
    LengthLines(m, max);
    ReadInTurn(kept, length, max);
    ReadInTurn(kept + length, added, max);
    SentInTurn(m);
    FramingFromParts(HeaderTexts(SentHeaders(m)), m, max);
  }

  lemma SentInTurn(m: Message)
    ensures SentHeaders(m)
      == Kept(m.response.headers, m.close) + LengthHeaders(m) + (CloseHeaders(m.close) + CorsHeaders(m.cors, m.origin))
  {
    hide Kept, LengthHeaders, CloseHeaders, CorsHeaders;
  }

  lemma FramingFromParts(lines: seq<Bytes>, m: Message, max: nat)
    requires !AnyMalformed(lines, max) && Codings(lines) == []
    requires Lengths(lines, max) == if HasContent(m.verb, m.response.status) then [|m.response.body|] else []
    ensures FramingOf(lines, max) == Ok(Expected(m))
  {
    hide HasContent, AnyMalformed, Lengths, Codings;
  }

  lemma {:induction false} FlatMapHas<T>(lines: seq<Bytes>, line: Bytes, f: Bytes -> seq<T>)
    requires line in lines && f(line) != []
    ensures FlatMap(lines, f) != []
  {
    if line != lines[0] {
      assert lines == [lines[0]] + lines[1..];
      FlatMapHas(lines[1..], line, f);
    }
  }

  lemma SmuggledHeadFraming(m: Message, h: Header, max: nat)
    requires h in m.response.headers && Smuggles(h)
    ensures FramingOf(HeaderTexts(SentHeaders(m)), max) != Ok(Expected(m))
  {
    hide Kept, Smuggles, Malformed, CodingsIn, HeaderText, HeaderTexts, SentHeaders, HasContent;
    var line, lines := HeaderText(h), HeaderTexts(SentHeaders(m));
    SmuggleSpoils(h, max);
    SmugglerIsSent(m, h);
    var i :| 0 <= i < |SentHeaders(m)| && SentHeaders(m)[i] == h;
    assert lines[i] == line;
    if CodingsIn(line) != [] {
      FlatMapHas(lines, line, CodingsIn);
    }
  }

  lemma SmugglerIsSent(m: Message, h: Header)
    requires h in m.response.headers && Smuggles(h)
    ensures h in SentHeaders(m)
  {
    SmugglersAreKept(h, m.close);
    KeptAreHeaders(m.response.headers, m.close);
    hide Kept, Smuggles, Replaced;
  }

  lemma SmugglersAreKept(h: Header, close: bool)
    requires Smuggles(h)
    ensures !Replaced(h.0, close)
  {
    if ':' in h.0 {
      NoColonInName(h.0);
    } else {
      PlainName(h);
    }
  }

  lemma NoColonInName(key: Bytes)
    requires ':' in key
    ensures !SameText(key, "content-length") && !SameText(key, "connection")
  {
    var i :| 0 <= i < |key| && key[i] == ':';
    assert Lower(key[i]) == ':';
    PlainText("content-length", i);
    PlainText("connection", i);
  }

  lemma PlainText(name: Bytes, i: nat)
    requires name == "content-length" || name == "connection"
    ensures i < |name| ==> Lower(name[i]) != ':'
  {
    assert forall c | c in name :: Lower(c) != ':';
    if i < |name| {
      assert name[i] in name;
    }
  }

  /**
   The repository's own header parser undoes its own printer: on a printed head
   it finds exactly the body that follows, unless, and only unless, some header
   name smuggles a Transfer-Encoding or a second Content-Length in.
  */
  lemma ParserUndoesPrinter(m: Message, max: nat)
    requires HeadOf(m).Some? && |m.response.body| <= max
    ensures var head := HeadOf(m).value;
      && |head| >= 4
      && (BodyFramingOf(head[..|head| - 4], max) == Ok(Expected(m))
          <==> forall h | h in m.response.headers :: !Smuggles(h))
  {
    var head := HeadOf(m).value;
    HeadLinesOfHead(m);
    hide HeadOf, Smuggles, FramingOf, SentHeaders, HeaderTexts;
    if h :| h in m.response.headers && Smuggles(h) {
      SmuggledHeadFraming(m, h, max);
    } else {
      PlainHeadFraming(m, max);
    }
  }

  lemma {:induction false} NoEmptyTexts(headers: seq<Header>)
    ensures "" !in HeaderTexts(headers)
  {
    if headers != [] {
      NoEmptyTexts(headers[1..]);
    }
  }

  /** The header lines of a printed head are the lines of the headers sent. */
  lemma HeadLinesOfHead(m: Message)
    requires HeadOf(m).Some?
    ensures |HeadOf(m).value| >= 4
    ensures HeaderLines(HeadOf(m).value[..|HeadOf(m).value| - 4]) == HeaderTexts(SentHeaders(m))
  {
    var lines := HeadLines(m);
    HeadLinesAreLines(m);
    hide StatusLine, SentHeaders, HeaderTexts, FreeOf, Printable;
    assert (Join(lines, CRLF) + BLANK)[..|Join(lines, CRLF)|] == Join(lines, CRLF);
    assert lines[1..] == HeaderTexts(SentHeaders(m));
    NoEmptyTexts(SentHeaders(m));
    HeaderLinesOfJoin(lines);
  }

  // ---------- headers, read back ----------

  /** A header a client reads as it was set: a name without a colon, a value without leading space. */
  predicate PlainHeader(h: Header) {
    ':' !in h.0 && TrimStart(h.1) == h.1
  }

  lemma {:induction false} PlainReadBack(headers: seq<Header>)
    requires forall h | h in headers :: PlainHeader(h)
    ensures ReadHeaders(HeaderTexts(headers)) == headers
  {
    hide PlainHeader, SplitOnce, HeaderText;
    if headers != [] {
      var h := headers[0];
      assert h in headers;
      OneReadBack(h);
      PlainReadBack(headers[1..]);
      assert HeaderTexts(headers) == [HeaderText(h)] + HeaderTexts(headers[1..]);
      assert HeaderTexts(headers)[1..] == HeaderTexts(headers[1..]);
      assert headers == [h] + headers[1..];
    }
  }

  lemma OneReadBack(h: Header)
    requires PlainHeader(h)
    ensures SplitOnce(HeaderText(h), ":") == Some((h.0, " " + h.1)) && TrimStart(" " + h.1) == h.1
  {
    SplitHeader(h);
    PlainName(h);
    SpaceThen(h.1);
    hide SplitOnce, TrimStart, FieldName, FieldRest;
  }

  // ---------- a name that misleads ----------

  /** An empty response whose handler set a transfer-encoding of its own. */
  function Coded(): Message {
    Message(Response(Other(200, "OK"), [("transfer-encoding", "chunked")], ""), Some(GET), false, None, None)
  }

  lemma CodedSmuggles()
    ensures Smuggles(("transfer-encoding", "chunked"))
  {
    assert ':' !in "transfer-encoding";
    PlainName(("transfer-encoding", "chunked"));
    hide FieldName;
  }

  lemma CodedPrints()
    ensures HeadOf(Coded()).Some?
  {
    assert OneLine("transfer-encoding") && OneLine("chunked");
    hide OneLine, HeadLines;
  }

  /** Its head does not announce the empty body that follows it. */
  lemma CodedHeadMisleads(max: nat)
    ensures HeadOf(Coded()).Some? && |HeadOf(Coded()).value| >= 4
    ensures BodyFramingOf(HeadOf(Coded()).value[..|HeadOf(Coded()).value| - 4], max) != Ok(Expected(Coded()))
  {
    hide HeadOf, Smuggles, BodyFramingOf;
    CodedSmuggles();
    CodedPrints();
    ParserUndoesPrinter(Coded(), max);
  }
}

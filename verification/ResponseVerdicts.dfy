/**
 What a head carries, stated without the printer's own decisions: when it is
 refused, its status line, each of its fields, and the cross-origin answer.
*/
module ResponseVerdicts {
  import opened Wrappers
  import opened ByteText
  import opened Http
  import opened Fields
  import opened ResponseHead
  import opened PrintedHead
  import opened ResponseStream
  import opened CloseNotice

  // ---------- when a head is refused ----------

  /** A text that would break out of its line. */
  predicate Breaks(s: Bytes) {
    '\r' in s || '\n' in s
  }

  /** A head is refused exactly when some header, the handler's or the policy's, would break its line. */
  lemma HeadIsRefused(m: Message)
    ensures HeadOf(m).None?
      <==> exists h | h in m.response.headers + CorsHeaders(m.cors, m.origin) :: Breaks(h.0) || Breaks(h.1)
  {
    hide HeadLines, Join, CorsHeaders;
    var all := m.response.headers + CorsHeaders(m.cors, m.origin);
    assert forall h :: h in all <==> h in m.response.headers || h in CorsHeaders(m.cors, m.origin);
  }

  // ---------- status lines ----------

  lemma SmallNumbers()
    ensures Print(1, 10) == "1" && Print(2, 10) == "2" && Print(4, 10) == "4" && Print(5, 10) == "5"
    ensures Print(10, 10) == "10" && Print(20, 10) == "20" && Print(40, 10) == "40" && Print(41, 10) == "41"
    ensures Print(43, 10) == "43" && Print(50, 10) == "50"
  {
  }

  lemma Codes()
    ensures Print(101, 10) == "101" && Print(204, 10) == "204" && Print(400, 10) == "400" && Print(404, 10) == "404"
    ensures Print(405, 10) == "405" && Print(408, 10) == "408" && Print(413, 10) == "413" && Print(414, 10) == "414"
  {
    SmallNumbers();
  }

  lemma MoreCodes()
    ensures Print(431, 10) == "431" && Print(500, 10) == "500" && Print(501, 10) == "501" && Print(505, 10) == "505"
  {
    SmallNumbers();
  }

  /** The status line of each status the server sends by itself. */
  lemma StatusLines()
    ensures StatusLine(SwitchingProtocols) == "HTTP/1.1 " + ("101" + (" " + "Switching Protocols"))
    ensures StatusLine(NoContent) == "HTTP/1.1 " + ("204" + (" " + "No Content"))
    ensures StatusLine(BadRequest) == "HTTP/1.1 " + ("400" + (" " + "Bad Request"))
    ensures StatusLine(NotFound) == "HTTP/1.1 " + ("404" + (" " + "Not Found"))
    ensures StatusLine(MethodNotAllowed) == "HTTP/1.1 " + ("405" + (" " + "Method Not Allowed"))
    ensures StatusLine(RequestTimeout) == "HTTP/1.1 " + ("408" + (" " + "Request Timeout"))
    ensures StatusLine(PayloadTooLarge) == "HTTP/1.1 " + ("413" + (" " + "Payload Too Large"))
    ensures StatusLine(UriTooLong) == "HTTP/1.1 " + ("414" + (" " + "URI Too Long"))
    ensures StatusLine(HeaderFieldsTooLarge)
      == "HTTP/1.1 " + ("431" + (" " + ("Request Header " + "Fields Too Large")))
    ensures StatusLine(InternalServerError) == "HTTP/1.1 " + ("500" + (" " + "Internal Server Error"))
    ensures StatusLine(NotImplemented) == "HTTP/1.1 " + ("501" + (" " + "Not Implemented"))
    ensures StatusLine(VersionNotSupported) == "HTTP/1.1 " + ("505" + (" " + ("HTTP Version " + "Not Supported")))
  {
    Codes();
    MoreCodes();
    hide Print;
  }

  // ---------- fields ----------

  lemma {:induction false} KeptInTurn(a: seq<Header>, b: seq<Header>, close: bool)
    ensures Kept(a + b, close) == Kept(a, close) + Kept(b, close)
  {
    hide Replaced;
    if a == [] {
      assert a + b == b;
    } else {
      assert (a + b)[1..] == a[1..] + b;
      KeptInTurn(a[1..], b, close);
    }
  }

  /** The handler's headers are kept one by one, in order, but for those the server writes itself. */
  lemma KeptInOrder(a: seq<Header>, h: Header, b: seq<Header>, close: bool)
    ensures Kept(a + [h] + b, close) == Kept(a, close)
      + (if SameText(h.0, "content-length") || (close && SameText(h.0, "connection")) then [] else [h])
      + Kept(b, close)
    ensures Kept([], close) == []
  {
    KeptInTurn(a + [h], b, close);
    KeptInTurn(a, [h], close);
    hide SameText;
    assert Kept([h], close) == (if Replaced(h.0, close) then [] else [h]) + Kept([], close);
  }

  function ValuesOf(headers: seq<Header>, name: Bytes): seq<Bytes> {
    if headers == [] then []
    else (if SameText(headers[0].0, name) then [headers[0].1] else []) + ValuesOf(headers[1..], name)
  }

  lemma {:induction false} ValuesConcat(a: seq<Header>, b: seq<Header>, name: Bytes)
    ensures ValuesOf(a + b, name) == ValuesOf(a, name) + ValuesOf(b, name)
  {
    hide SameText;
    if a == [] {
      assert a + b == b;
    } else {
      assert (a + b)[1..] == a[1..] + b;
      ValuesConcat(a[1..], b, name);
    }
  }

  lemma {:induction false} NoValues(headers: seq<Header>, name: Bytes)
    requires forall h | h in headers :: !SameText(h.0, name)
    ensures ValuesOf(headers, name) == []
  {
    if headers != [] {
      assert headers[0] in headers;
      NoValues(headers[1..], name);
    }
  }

  /** Fields of this name among those sent: the handler's that are kept, then the server's. */
  lemma ValuesInTurn(m: Message, name: Bytes)
    ensures ValuesOf(SentHeaders(m), name)
      == ValuesOf(Kept(m.response.headers, m.close), name) + ValuesOf(LengthHeaders(m), name)
        + ValuesOf(CloseHeaders(m.close), name) + ValuesOf(CorsHeaders(m.cors, m.origin), name)
  {
    hide Kept, LengthHeaders, CloseHeaders, CorsHeaders;
    var kept, length, close := Kept(m.response.headers, m.close), LengthHeaders(m), CloseHeaders(m.close);
    ValuesConcat(kept, length, name);
    ValuesConcat(kept + length, close, name);
    ValuesConcat(kept + length + close, CorsHeaders(m.cors, m.origin), name);
  }

  lemma OtherNames()
    ensures !SameText("Content-Length", "connection") && !SameText("Connection", "content-length")
    ensures SameText("Content-Length", "content-length") && SameText("Connection", "connection")
    ensures |"content-length"| == 14 && |"connection"| == 10
  {
    assert |"Content-Length"| == 14 && |"Connection"| == 10;
  }

  lemma PolicyNames(m: Message, name: Bytes)
    requires |name| <= 20
    ensures ValuesOf(CorsHeaders(m.cors, m.origin), name) == []
  {
    CorsNames(m.cors, m.origin);
    hide CorsHeaders;
    NoValues(CorsHeaders(m.cors, m.origin), name);
  }

  /** A head has one Content-Length, the length of the body it comes with, or none when it comes without. */
  lemma OneLength(m: Message)
    ensures ValuesOf(SentHeaders(m), "content-length")
      == if Bodiless(m.verb, Code(m.response.status)) then [] else [Print(|m.response.body|, 10)]
  {
    ValuesInTurn(m, "content-length");
    OtherNames();
    PolicyNames(m, "content-length");
    KeptAreHeaders(m.response.headers, m.close);
    hide SentHeaders, CorsHeaders, Kept, SameText, Print, Code;
    NoValues(Kept(m.response.headers, m.close), "content-length");
  }

  /** A head that closes has one Connection field, which says just that. */
  lemma OneConnection(m: Message)
    requires m.close
    ensures ValuesOf(SentHeaders(m), "connection") == ["close"]
  {
    ValuesInTurn(m, "connection");
    OtherNames();
    PolicyNames(m, "connection");
    KeptAreHeaders(m.response.headers, m.close);
    hide SentHeaders, CorsHeaders, Kept, SameText, HasContent, Print;
    NoValues(Kept(m.response.headers, m.close), "connection");
  }

  lemma NumberIsPlainValue(n: nat)
    ensures TrimStart(Print(n, 10)) == Print(n, 10)
  {
    PrintChars(n, 10);
    hide Print, WideSpace;
    var digits := Print(n, 10);
    assert digits[0] in digits;
    DigitIsNoSpace(digits);
  }

  lemma DigitIsNoSpace(s: Bytes)
    requires s != "" && ('0' <= s[0] <= '9' || 'a' <= s[0] <= 'f')
    ensures SpaceFront(s) == 0
  {
  }

  lemma OwnHeadersArePlain(m: Message)
    ensures forall h | h in LengthHeaders(m) + CloseHeaders(m.close) :: PlainHeader(h)
  {
    NumberIsPlainValue(|m.response.body|);
    CloseIsPlain();
    hide Print, HasContent, TrimStart;
  }

  lemma CloseIsPlain()
    ensures ':' !in "Content-Length" && PlainHeader(("Connection", "close"))
  {
    assert ':' !in "Connection";
    DigitIsNoSpaceClose();
  }

  lemma DigitIsNoSpaceClose()
    ensures SpaceFront("close") == 0
  {
    DigitIsNoSpace("close");
  }

  /** The client reads off the head exactly the headers that were sent, in order. */
  lemma HeadersArrive(m: Message)
    requires HeadOf(m).Some?
    requires forall h | h in m.response.headers + CorsHeaders(m.cors, m.origin) :: PlainHeader(h)
    ensures |HeadOf(m).value| >= 4
    ensures ReadHeaders(HeaderLines(HeadOf(m).value[..|HeadOf(m).value| - 4])) == SentHeaders(m)
  {
    HeadLinesOfHead(m);
    OwnHeadersArePlain(m);
    KeptAreHeaders(m.response.headers, m.close);
    hide HeadOf, PlainHeader, Kept, LengthHeaders, CloseHeaders, CorsHeaders, Replaced;
    forall h | h in SentHeaders(m) ensures PlainHeader(h) {
      SentMembers(m);
      assert h in LengthHeaders(m) + CloseHeaders(m.close) || h in m.response.headers + CorsHeaders(m.cors, m.origin);
    }
    PlainReadBack(SentHeaders(m));
  }

  // ---------- the cross-origin answer ----------

  /** The origin is one of the comma-separated ones that are allowed, in any letter case. */
  ghost predicate Allows(allowed: Bytes, origin: Bytes) {
    exists piece :: PieceOf(piece, allowed, ',') && Trim(piece) != "" && SameText(Trim(piece), origin)
  }

  const ALLOW: Bytes := "Access-Control-"

  /** What a policy answers about origins: any for `*`, the request's own when it is allowed, else none. */
  ghost predicate OriginAnswer(c: Cors, origin: Option<Bytes>, headers: seq<Header>) {
    if c.allowOrigin == "*" || (origin.Some? && Allows(c.allowOrigin, origin.value)) then
      headers == [
        (ALLOW + "Allow-Origin", if c.allowOrigin == "*" then "*" else origin.value),
        (ALLOW + "Allow-Methods", c.allowMethods),
        (ALLOW + "Allow-Headers", c.allowHeaders)]
    else headers == []
  }

  /** The rest of the answer does not depend on the origin. */
  ghost predicate OtherAnswer(c: Cors, headers: seq<Header>) {
    headers == (if c.allowCredentials then [(ALLOW + "Allow-Credentials", "true")] else [])
      + match c.maxAge { case None => [] case Some(age) => [(ALLOW + "Max-Age", Print(age, 10))] }
  }

  /** The headers of a policy, and none without one. */
  lemma PolicyAnswers(cors: Option<Cors>, origin: Option<Bytes>)
    ensures cors.None? ==> CorsHeaders(cors, origin) == []
    ensures cors.Some? ==> exists a, b ::
      CorsHeaders(cors, origin) == a + b && OriginAnswer(cors.value, origin, a) && OtherAnswer(cors.value, b)
  {
    if cors.Some? {
      var c := cors.value;
      if origin.Some? {
        ListsAllowed(c.allowOrigin, origin.value);
      }
      hide Lists, Allows, Print;
      var allowed := AllowedOrigin(c, origin);
      var a := if allowed.None? then [] else [
        (ALLOW + "Allow-Origin", allowed.value), (ALLOW + "Allow-Methods", c.allowMethods),
        (ALLOW + "Allow-Headers", c.allowHeaders)];
      var b := (if c.allowCredentials then [(ALLOW + "Allow-Credentials", "true")] else [])
        + (if c.maxAge.Some? then [(ALLOW + "Max-Age", Print(c.maxAge.value, 10))] else []);
      assert OriginAnswer(c, origin, a) && OtherAnswer(c, b);
      assert CorsHeaders(cors, origin) == a + b;
    }
  }

  lemma ListsAllowed(allowed: Bytes, origin: Bytes)
    ensures Lists(allowed, origin) <==> Allows(allowed, origin)
  {
    assert "," == [','];
    forall piece ensures piece in Split(allowed, ",") <==> PieceOf(piece, allowed, ',') {
      SplitExactly(allowed, ',', piece);
    }
    hide Split, PieceOf, Trim, SameText;
  }

  // ---------- asking for the end ----------

  /** Some comma-separated token of a Connection field is "close", in any letter case, white space aside. */
  ghost predicate SaysClose(h: Header) {
    && SameText(h.0, "connection")
    && exists piece :: PieceOf(piece, h.1, ',') && SameText(Trim(piece), "close")
  }

  lemma CloseIsAsked(headers: seq<Header>)
    ensures WantsClose(headers) <==> exists h | h in headers :: SaysClose(h)
  {
    forall h: Header ensures AsksClose(h) <==> SaysClose(h) {
      assert "," == [','];
      forall piece ensures piece in Split(h.1, ",") <==> PieceOf(piece, h.1, ',') {
        SplitExactly(h.1, ',', piece);
      }
      hide Split, PieceOf, Trim, SameText;
    }
    hide AsksClose, SaysClose;
  }
}

/**
 Printing a response head: `response_head` and the decisions beside it.

 Long texts are put together from short ones, here and where a head is read back:
 the verifier unfolds a literal octet by octet, and short ones keep proofs cheap.
*/
module ResponseHead {
  import opened Wrappers
  import opened ByteText
  import opened Http

  // ---------- statuses ----------

  function Code(status: Status): nat {
    match status
    case SwitchingProtocols => 101
    case NoContent => 204
    case BadRequest => 400
    case NotFound => 404
    case MethodNotAllowed => 405
    case RequestTimeout => 408
    case PayloadTooLarge => 413
    case UriTooLong => 414
    case HeaderFieldsTooLarge => 431
    case InternalServerError => 500
    case NotImplemented => 501
    case VersionNotSupported => 505
    case Other(code, _) => code
  }

  function Reason(status: Status): Bytes {
    match status
    case SwitchingProtocols => "Switching Protocols"
    case NoContent => "No Content"
    case BadRequest => "Bad Request"
    case NotFound => "Not Found"
    case MethodNotAllowed => "Method Not Allowed"
    case RequestTimeout => "Request Timeout"
    case PayloadTooLarge => "Payload Too Large"
    case UriTooLong => "URI Too Long"
    case HeaderFieldsTooLarge => "Request Header " + "Fields Too Large"
    case InternalServerError => "Internal Server Error"
    case NotImplemented => "Not Implemented"
    case VersionNotSupported => "HTTP Version " + "Not Supported"
    case Other(_, reason) => reason
  }

  function StatusLine(status: Status): Bytes {
    "HTTP/1.1 " + (Print(Code(status), 10) + (" " + Reason(status)))
  }

  /** `status_forbids_content`, on the code. */
  predicate ForbidsContent(code: nat) {
    100 <= code < 200 || code == 204 || code == 304
  }

  /** `response_has_content`. */
  predicate HasContent(verb: Option<Method>, status: Status) {
    verb != Some(HEAD) && !ForbidsContent(Code(status))
  }

  // ---------- cross-origin header lines ----------

  datatype Cors = Cors(
    allowOrigin: Bytes, allowMethods: Bytes, allowHeaders: Bytes, allowCredentials: bool, maxAge: Option<nat>)

  /** `allowed_origin`: the request's origin, when some listed origin is the same text. */
  function AllowedOrigin(cors: Cors, origin: Option<Bytes>): Option<Bytes> {
    if cors.allowOrigin == "*" then Some("*")
    else if origin.Some? && Lists(cors.allowOrigin, origin.value) then origin
    else None
  }

  predicate Lists(allowed: Bytes, origin: Bytes) {
    exists o | o in Split(allowed, ",") :: Trim(o) != "" && SameText(Trim(o), origin)
  }

  /** `header_lines`. */
  function CorsHeaders(cors: Option<Cors>, origin: Option<Bytes>): seq<Header> {
    if cors.None? then []
    else
      var c := cors.value;
      var allowed := AllowedOrigin(c, origin);
      (if allowed.None? then [] else [
        ("Access-Control-" + "Allow-Origin", allowed.value),
        ("Access-Control-" + "Allow-Methods", c.allowMethods),
        ("Access-Control-" + "Allow-Headers", c.allowHeaders)])
      + (if c.allowCredentials then [("Access-Control-" + "Allow-Credentials", "true")] else [])
      + (if c.maxAge.Some? then [("Access-Control-" + "Max-Age", Print(c.maxAge.value, 10))] else [])
  }

  // ---------- the head ----------

  /** One response on its way out: what `response_head` is called with. */
  datatype Message = Message(
    response: Response, verb: Option<Method>, close: bool, cors: Option<Cors>, origin: Option<Bytes>)

  /** Headers the server drops because it writes its own. */
  predicate Replaced(key: Bytes, close: bool) {
    SameText(key, "content-length") || (close && SameText(key, "connection"))
  }

  function Kept(headers: seq<Header>, close: bool): seq<Header> {
    if headers == [] then []
    else (if Replaced(headers[0].0, close) then [] else [headers[0]]) + Kept(headers[1..], close)
  }

  function LengthHeaders(m: Message): seq<Header> {
    if HasContent(m.verb, m.response.status) then [("Content-Length", Print(|m.response.body|, 10))] else []
  }

  function CloseHeaders(close: bool): seq<Header> {
    if close then [("Connection", "close")] else []
  }

  /** The handler's headers, then those the server adds. */
  function SentHeaders(m: Message): seq<Header> {
    Kept(m.response.headers, m.close) + LengthHeaders(m) + CloseHeaders(m.close) + CorsHeaders(m.cors, m.origin)
  }

  function HeaderText(h: Header): Bytes {
    h.0 + (": " + h.1)
  }

  function HeaderTexts(headers: seq<Header>): (lines: seq<Bytes>)
    ensures |lines| == |headers|
    ensures forall i | 0 <= i < |headers| :: lines[i] == HeaderText(headers[i])
  {
    if headers == [] then [] else [HeaderText(headers[0])] + HeaderTexts(headers[1..])
  }

  function HeadLines(m: Message): seq<Bytes> {
    [StatusLine(m.response.status)] + HeaderTexts(SentHeaders(m))
  }

  predicate OneLineEach(headers: seq<Header>) {
    forall h | h in headers :: OneLine(h.0) && OneLine(h.1)
  }

  /** The head is refused when any header could break out of its line. */
  predicate Printable(m: Message) {
    OneLineEach(m.response.headers) && OneLineEach(CorsHeaders(m.cors, m.origin))
  }

  /** The head a message is sent with, stated line by line. */
  function HeadOf(m: Message): Option<Bytes> {
    if Printable(m) then Some(Join(HeadLines(m), CRLF) + BLANK) else None
  }

  // ---------- the loops the server runs ----------

  /** Lines so far, each with its line break: the string the loops append to. */
  function Broken(lines: seq<Bytes>): Bytes
    requires |lines| > 0
  {
    Join(lines, CRLF) + CRLF
  }

  lemma {:induction false} BrokenSnoc(lines: seq<Bytes>, line: Bytes)
    requires |lines| > 0
    ensures Broken(lines + [line]) == Broken(lines) + line + CRLF
  {
    assert (lines + [line])[1..] == lines[1..] + [line];
    if |lines| == 1 {
      assert lines[1..] + [line] == [line];
    } else {
      BrokenSnoc(lines[1..], line);
      assert Broken(lines) == lines[0] + CRLF + Broken(lines[1..]);
      assert Broken(lines + [line]) == lines[0] + CRLF + Broken(lines[1..] + [line]);
    }
  }

  lemma HeaderTextsSnoc(headers: seq<Header>, h: Header)
    ensures HeaderTexts(headers + [h]) == HeaderTexts(headers) + [HeaderText(h)]
  {
    assert HeaderTexts(headers + [h]) == HeaderTexts(headers) + [HeaderText(h)];
  }

  lemma {:induction false} KeptSnoc(headers: seq<Header>, h: Header, close: bool)
    ensures Kept(headers + [h], close) == Kept(headers, close) + if Replaced(h.0, close) then [] else [h]
  {
    if headers != [] {
      KeptSnoc(headers[1..], h, close);
      assert (headers + [h])[1..] == headers[1..] + [h];
    }
  }

  /** `push_str(&format!("{}: {}\r\n", key, value))`. */
  method PushHeader(header: Bytes, h: Header, ghost status: Bytes, ghost pushed: seq<Header>) returns (longer: Bytes)
    requires header == Broken([status] + HeaderTexts(pushed))
    ensures longer == Broken([status] + HeaderTexts(pushed + [h]))
  {
    longer := header + h.0 + ": " + h.1 + CRLF;
    HeaderTextsSnoc(pushed, h);
    BrokenSnoc([status] + HeaderTexts(pushed), HeaderText(h));
    assert [status] + HeaderTexts(pushed + [h]) == [status] + HeaderTexts(pushed) + [HeaderText(h)];
  }

  method PushAll(header: Bytes, headers: seq<Header>, ghost status: Bytes, ghost pushed: seq<Header>)
    returns (longer: Option<Bytes>)
    requires header == Broken([status] + HeaderTexts(pushed))
    ensures longer.None? <==> !OneLineEach(headers)
    ensures longer.Some? ==> longer.value == Broken([status] + HeaderTexts(pushed + headers))
  {
    hide Broken, HeaderTexts, OneLine;
    var text := header;
    var i := 0;
    assert pushed + headers[..0] == pushed;
    while i < |headers|
      invariant 0 <= i <= |headers|
      invariant OneLineEach(headers[..i])
      invariant text == Broken([status] + HeaderTexts(pushed + headers[..i]))
    {
      if !OneLine(headers[i].0) || !OneLine(headers[i].1) {
        assert headers[i] in headers;
        return None;
      }
      text := PushHeader(text, headers[i], status, pushed + headers[..i]);
      assert headers[..i + 1] == headers[..i] + [headers[i]];
      assert pushed + headers[..i + 1] == pushed + headers[..i] + [headers[i]];
      i := i + 1;
    }
    assert headers[..i] == headers;
    longer := Some(text);
  }

  method PushKept(header: Bytes, headers: seq<Header>, close: bool, ghost status: Bytes)
    returns (longer: Option<Bytes>)
    requires header == Broken([status])
    ensures longer.None? <==> !OneLineEach(headers)
    ensures longer.Some? ==> longer.value == Broken([status] + HeaderTexts(Kept(headers, close)))
  {
    hide Broken, HeaderTexts, Replaced, OneLine;
    var text := header;
    var i := 0;
    assert [status] + HeaderTexts([]) == [status];
    while i < |headers|
      invariant 0 <= i <= |headers|
      invariant OneLineEach(headers[..i])
      invariant text == Broken([status] + HeaderTexts(Kept(headers[..i], close)))
    {
      var key := headers[i].0;
      if !OneLine(key) || !OneLine(headers[i].1) {
        assert headers[i] in headers;
        return None;
      }
      assert headers[..i + 1] == headers[..i] + [headers[i]];
      KeptSnoc(headers[..i], headers[i], close);
      if !Replaced(key, close) {
        text := PushHeader(text, headers[i], status, Kept(headers[..i], close));
      } else {
        assert Kept(headers[..i + 1], close) == Kept(headers[..i], close);
      }
      i := i + 1;
    }
    assert headers[..i] == headers;
    longer := Some(text);
  }

  /** The two headers that say where the response ends and whether another may follow. */
  method PushOwn(header: Bytes, m: Message, ghost status: Bytes, ghost pushed: seq<Header>) returns (longer: Bytes)
    requires header == Broken([status] + HeaderTexts(pushed))
    ensures longer == Broken([status] + HeaderTexts(pushed + LengthHeaders(m) + CloseHeaders(m.close)))
  {
    hide Broken, HeaderTexts, HasContent;
    longer := header;
    if HasContent(m.verb, m.response.status) {
      longer := PushHeader(longer, ("Content-Length", Print(|m.response.body|, 10)), status, pushed);
    } else {
      assert pushed + LengthHeaders(m) == pushed;
    }
    ghost var more := pushed + LengthHeaders(m);
    if m.close {
      longer := PushHeader(longer, ("Connection", "close"), status, more);
    } else {
      assert more + CloseHeaders(m.close) == more;
    }
  }

  lemma FirstLine(status: Status)
    ensures "HTTP/1.1 " + Print(Code(status), 10) + " " + Reason(status) + CRLF == Broken([StatusLine(status)])
  {
    hide Print, Code, Reason;
  }

  method ResponseHead(m: Message) returns (head: Option<Bytes>)
    ensures head == HeadOf(m)
  {
    hide Broken, StatusLine, Kept, CorsHeaders, LengthHeaders, CloseHeaders, Code, Reason, Print;
    ghost var status := StatusLine(m.response.status);
    var header := "HTTP/1.1 " + Print(Code(m.response.status), 10) + " " + Reason(m.response.status) + CRLF;
    FirstLine(m.response.status);
    var kept := PushKept(header, m.response.headers, m.close, status);
    if kept.None? {
      return None;
    }
    ghost var pushed := Kept(m.response.headers, m.close);
    header := PushOwn(kept.value, m, status, pushed);
    pushed := pushed + LengthHeaders(m) + CloseHeaders(m.close);
    var all := PushAll(header, CorsHeaders(m.cors, m.origin), status, pushed);
    if all.None? {
      return None;
    }
    BrokenBlank(HeadLines(m));
    head := Some(all.value + CRLF);
  }

  lemma BrokenBlank(lines: seq<Bytes>)
    requires |lines| > 0
    ensures Broken(lines) + CRLF == Join(lines, CRLF) + BLANK
  {
    hide Join;
    TwoBreaks(Join(lines, CRLF));
  }

  lemma TwoBreaks(text: Bytes)
    ensures text + CRLF + CRLF == text + BLANK
  {
  }
}

/** The values the server passes around: statuses, methods, requests, responses. */
module Http {
  import opened ByteText

  /** `valid_header_part`: the text cannot break out of its line. */
  predicate OneLine(s: Bytes) {
    '\r' !in s && '\n' !in s
  }

  /** The statuses the server itself sends, and those only handlers send. */
  datatype StatusCode =
    | SwitchingProtocols
    | NoContent
    | BadRequest
    | NotFound
    | MethodNotAllowed
    | RequestTimeout
    | PayloadTooLarge
    | UriTooLong
    | HeaderFieldsTooLarge
    | InternalServerError
    | NotImplemented
    | VersionNotSupported
    | Other(code: nat, reason: Bytes)

  /** Every status of the program is three digits and one line of text. */
  type Status = s: StatusCode | s.Other? ==> 100 <= s.code <= 599 && OneLine(s.reason) witness BadRequest

  datatype Method = GET | POST | PUT | DELETE | HEAD | OPTIONS | CONNECT | PATCH | TRACE | QUERY

  type Header = (Bytes, Bytes)

  datatype Request = Request(
    verb: Method,
    path: Bytes,
    version: Bytes,
    headers: seq<Header>,
    body: Bytes,
    params: map<Bytes, Bytes>)

  datatype Response = Response(status: Status, headers: seq<Header>, body: Bytes)

  /** The limits a server is configured with; `usizeMax` is the width of the target. */
  datatype Limits = Limits(
    headerBytes: nat,
    bodyBytes: nat,
    idleTimeout: nat,
    requestTimeout: nat,
    keepAliveTimeout: nat,
    maxRequests: nat,
    usizeMax: nat)

  const U64_MAX: nat := 0xFFFF_FFFF_FFFF_FFFF

  /** Every limit is a `usize`, and a `usize` is at most 64 bits wide. */
  predicate Fits(lim: Limits) {
    && lim.headerBytes <= lim.usizeMax
    && lim.bodyBytes <= lim.usizeMax
    && lim.maxRequests <= lim.usizeMax
    && lim.usizeMax <= U64_MAX
  }

  /** Some token of the list is `close`. */
  predicate HasClose(tokens: seq<Bytes>) {
    exists token | token in tokens :: SameText(Trim(token), "close")
  }

  /** Does a comma-separated Connection field ask for the connection to be closed? */
  predicate AsksClose(header: Header) {
    SameText(header.0, "connection") && HasClose(Split(header.1, ","))
  }

  /** `wants_close`, which the server applies to requests and responses alike. */
  predicate WantsClose(headers: seq<Header>) {
    exists h | h in headers :: AsksClose(h)
  }
}

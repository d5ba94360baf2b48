/**
 Section 7.1 of RFC 9112 as a grammar, independent of the decoder: a chunked
 body is a list of data chunks, a zero-size line and a trailer section.
*/
module ChunkGrammar {
  import opened Wrappers
  import opened ByteText
  import opened Http
  import opened Framing
  import opened SizeLines

  datatype Chunk = Chunk(line: Bytes, data: Bytes)

  datatype ChunkedBody = ChunkedBody(chunks: seq<Chunk>, last: Bytes, trailer: Option<Bytes>)

  function ChunkText(c: Chunk): (text: Bytes)
    ensures |text| == |c.line| + |c.data| + 4
  {
    c.line + CRLF + c.data + CRLF
  }

  function TrailerText(trailer: Option<Bytes>): Bytes {
    match trailer
    case None => CRLF
    case Some(t) => t + BLANK
  }

  function EndText(last: Bytes, trailer: Option<Bytes>): Bytes {
    last + CRLF + TrailerText(trailer)
  }

  function Text(chunks: seq<Chunk>, end: Bytes): Bytes {
    if chunks == [] then end else ChunkText(chunks[0]) + Text(chunks[1..], end)
  }

  function BodyText(body: ChunkedBody): Bytes {
    Text(body.chunks, EndText(body.last, body.trailer))
  }

  function Payload(chunks: seq<Chunk>): Bytes {
    if chunks == [] then "" else chunks[0].data + Payload(chunks[1..])
  }

  /** Octets of size lines, which share one header limit. */
  function LineOctets(chunks: seq<Chunk>): nat {
    if chunks == [] then 0 else |chunks[0].line| + 2 + LineOctets(chunks[1..])
  }

  ghost predicate ChunkOk(c: Chunk) {
    c.data != "" && Announces(c.line, |c.data|)
  }

  ghost predicate EndOk(body: ChunkedBody, lim: Limits) {
    Announces(body.last, 0) && (body.trailer.Some? ==> TrailerOk(body.trailer.value, lim))
  }

  /** A body within the limits that remain after `have` data and `spent` size-line octets. */
  ghost predicate Within(body: ChunkedBody, have: nat, spent: nat, lim: Limits) {
    && (forall i | 0 <= i < |body.chunks| :: ChunkOk(body.chunks[i]))
    && EndOk(body, lim)
    && have + |Payload(body.chunks)| <= lim.bodyBytes
    && spent + LineOctets(body.chunks) + |body.last| + 2 <= lim.headerBytes
  }

  function Tail(body: ChunkedBody): (tail: ChunkedBody)
    requires body.chunks != []
    ensures |tail.chunks| == |body.chunks| - 1
  {
    body.(chunks := body.chunks[1..])
  }

  // ---------- reading one piece of the grammar ----------

  /** A line followed by its break is the line the decoder reads. */
  lemma ReadsLine(line: Bytes, after: Bytes, size: nat, spent: nat, lim: Limits)
    requires Announces(line, size) && size <= lim.usizeMax
    requires spent + |line| + 2 <= lim.headerBytes
    ensures ReadSizeLine(line + CRLF + after, spent, lim) == Size(size, |line| + 2)
  {
    AnnouncesIsRead(line, size);
    hide Announces;
    FindAfter(line, CRLF, after);
    assert (line + CRLF + after)[..|line|] == line;
    hide Find, SizeText, Utf8;
  }

  lemma ReadsSized(c: Chunk, after: Bytes, at: nat, have: nat, lim: Limits)
    requires c.data != "" && at + |c.data| + 2 <= lim.usizeMax && have + |c.data| <= lim.bodyBytes
    ensures ReadSized(c.data + CRLF + after, |c.data|, |c.line| + 2, at, have, lim) == DataChunk(c.data, |c.line| + 2)
  {
    hide ReadTrailer;
    var tail := c.data + CRLF + after;
    assert tail[|c.data|..|c.data| + 2] == CRLF;
    assert tail[..|c.data|] == c.data;
  }

  lemma ReadsChunk(c: Chunk, after: Bytes, at: nat, have: nat, spent: nat, lim: Limits)
    requires ChunkOk(c)
    requires at + |ChunkText(c)| <= lim.usizeMax
    requires have + |c.data| <= lim.bodyBytes && spent + |c.line| + 2 <= lim.headerBytes
    ensures ReadChunk(ChunkText(c) + after, at, have, spent, lim) == DataChunk(c.data, |c.line| + 2)
  {
    hide ReadSizeLine, ReadSized, Announces;
    var tail := c.data + CRLF + after;
    assert ChunkText(c) + after == c.line + CRLF + tail;
    ReadsLine(c.line, tail, |c.data|, spent, lim);
    assert (c.line + CRLF + tail)[|c.line| + 2..] == tail;
    ReadsSized(c, after, at + |c.line| + 2, have, lim);
  }

  lemma TailWithin(body: ChunkedBody, have: nat, spent: nat, lim: Limits)
    requires Within(body, have, spent, lim) && body.chunks != []
    ensures ChunkOk(body.chunks[0])
    ensures Within(Tail(body), have + |body.chunks[0].data|, spent + |body.chunks[0].line| + 2, lim)
  {
    hide ChunkOk, Announces, TrailerOk;
  }

  /** A body and what follows it, with the first chunk set apart. */
  lemma FirstChunkApart(body: ChunkedBody, after: Bytes)
    requires body.chunks != []
    ensures BodyText(body) + after == ChunkText(body.chunks[0]) + (BodyText(Tail(body)) + after)
    ensures |BodyText(body)| == |ChunkText(body.chunks[0])| + |BodyText(Tail(body))|
  {
    hide EndText, ChunkText;
  }

  lemma ReadsData(body: ChunkedBody, after: Bytes, at: nat, have: nat, spent: nat, lim: Limits)
    requires Within(body, have, spent, lim) && body.chunks != []
    requires at + |BodyText(body)| <= lim.usizeMax
    ensures var c := body.chunks[0];
      ReadChunk(BodyText(body) + after, at, have, spent, lim) == DataChunk(c.data, |c.line| + 2)
  {
    hide ReadChunk, ChunkOk, EndOk, BodyText, ChunkText;
    FirstChunkApart(body, after);
    TailWithin(body, have, spent, lim);
    ReadsChunk(body.chunks[0], BodyText(Tail(body)) + after, at, have, spent, lim);
  }

  lemma ReadsTrailer(trailer: Option<Bytes>, after: Bytes, lim: Limits)
    requires trailer.Some? ==> TrailerOk(trailer.value, lim)
    ensures ReadTrailer(TrailerText(trailer) + after, lim) == TrailerEnd(|TrailerText(trailer)|)
  {
    if trailer.Some? {
      var t := trailer.value;
      TrailerIsRead(t, lim);
      hide TrailerOk;
      FindAppend(t + BLANK, after, BLANK);
      assert (t + BLANK + after)[..|t|] == t;
      assert (t + BLANK + after)[..2] == (t + BLANK)[..2];
      hide Find, Utf8, TrailerFields;
    }
  }

  lemma ReadsEnd(body: ChunkedBody, after: Bytes, at: nat, have: nat, spent: nat, lim: Limits)
    requires Within(body, have, spent, lim) && body.chunks == []
    ensures ReadChunk(BodyText(body) + after, at, have, spent, lim) == LastChunk(|BodyText(body)|)
  {
    hide ReadSizeLine, ReadTrailer, Announces, TrailerOk, TrailerText;
    var tail := TrailerText(body.trailer) + after;
    assert BodyText(body) + after == body.last + CRLF + tail;
    ReadsLine(body.last, tail, 0, spent, lim);
    assert (body.last + CRLF + tail)[|body.last| + 2..] == tail;
    ReadsTrailer(body.trailer, after, lim);
  }

  // ---------- the decoder accepts the grammar ----------

  /** Every chunked body within the limits is decoded, whatever follows it. */
  lemma {:induction false} DecodesGrammar(
      body: ChunkedBody, after: Bytes, at: nat, payload: Bytes, spent: nat, lim: Limits)
    requires Within(body, |payload|, spent, lim)
    requires at + |BodyText(body)| <= lim.usizeMax
    ensures DecodeChunks(BodyText(body) + after, at, payload, spent, lim)
         == Decoded(payload + Payload(body.chunks), at + |BodyText(body)|)
    decreases |body.chunks|
  {
    hide *;
    if body.chunks == [] {
      DecodeLast(body, after, at, payload, spent, lim);
    } else {
      var c, tail := body.chunks[0], BodyText(Tail(body)) + after;
      ReadsData(body, after, at, |payload|, spent, lim);
      TailWithin(body, |payload|, spent, lim);
      FirstChunkApart(body, after);
      PayloadApart(payload, body);
      DecodeStep(BodyText(body) + after, c, tail, at, payload, spent, lim);
      DecodesGrammar(Tail(body), after, at + |ChunkText(c)|, payload + c.data, spent + |c.line| + 2, lim);
    }
  }

  lemma DecodeLast(body: ChunkedBody, after: Bytes, at: nat, payload: Bytes, spent: nat, lim: Limits)
    requires Within(body, |payload|, spent, lim) && body.chunks == []
    ensures DecodeChunks(BodyText(body) + after, at, payload, spent, lim)
         == Decoded(payload + Payload(body.chunks), at + |BodyText(body)|)
  {
    hide ReadChunk, Within, BodyText;
    ReadsEnd(body, after, at, |payload|, spent, lim);
    assert payload + Payload(body.chunks) == payload;
  }

  lemma DecodeStep(rest: Bytes, c: Chunk, tail: Bytes, at: nat, payload: Bytes, spent: nat, lim: Limits)
    requires rest == ChunkText(c) + tail
    requires ReadChunk(rest, at, |payload|, spent, lim) == DataChunk(c.data, |c.line| + 2)
    ensures DecodeChunks(rest, at, payload, spent, lim)
         == DecodeChunks(tail, at + |ChunkText(c)|, payload + c.data, spent + |c.line| + 2, lim)
  {
    hide ReadChunk, ChunkText;
    assert rest[|ChunkText(c)|..] == tail;
  }

  lemma PayloadApart(payload: Bytes, body: ChunkedBody)
    requires body.chunks != []
    ensures payload + Payload(body.chunks) == payload + body.chunks[0].data + Payload(Tail(body).chunks)
  {
  }

  // ---------- chunks before what follows them ----------

  lemma {:induction false} TextLength(chunks: seq<Chunk>, end: Bytes)
    ensures |Text(chunks, end)| == LineOctets(chunks) + |Payload(chunks)| + 2 * |chunks| + |end|
  {
    if chunks != [] {
      TextLength(chunks[1..], end);
    }
  }

  /** Whole chunks are read off the front, whatever comes next. */
  lemma {:induction false} ChunksAreRead(
      chunks: seq<Chunk>, end: Bytes, at: nat, payload: Bytes, spent: nat, lim: Limits)
    requires forall c | c in chunks :: ChunkOk(c)
    requires |payload| + |Payload(chunks)| <= lim.bodyBytes && spent + LineOctets(chunks) <= lim.headerBytes
    requires at + |Text(chunks, end)| <= lim.usizeMax
    ensures DecodeChunks(Text(chunks, end), at, payload, spent, lim)
      == DecodeChunks(end, at + |Text(chunks, "")|, payload + Payload(chunks), spent + LineOctets(chunks), lim)
  {
    hide DecodeChunks, ReadChunk, ChunkOk, ChunkText;
    if chunks == [] {
      assert payload + "" == payload;
    } else {
      var c, tail := chunks[0], Text(chunks[1..], end);
      ReadsChunk(c, tail, at, |payload|, spent, lim);
      DecodeStep(Text(chunks, end), c, tail, at, payload, spent, lim);
      ChunksAreRead(chunks[1..], end, at + |ChunkText(c)|, payload + c.data, spent + |c.line| + 2, lim);
      assert payload + c.data + Payload(chunks[1..]) == payload + Payload(chunks);
    }
  }

  // ---------- the decoder accepts nothing else ----------

  lemma LineFound(rest: Bytes, spent: nat, lim: Limits) returns (line: Bytes, tail: Bytes)
    requires ReadSizeLine(rest, spent, lim).Size?
    ensures rest == line + CRLF + tail && FreeOf(line, CRLF) && Utf8(line)
    ensures ParseNat(SizeText(line), 16, U64_MAX) == Some(ReadSizeLine(rest, spent, lim).size)
    ensures |line| + 2 == ReadSizeLine(rest, spent, lim).width
    ensures spent + |line| + 2 <= lim.headerBytes
  {
    var n := Find(rest, CRLF).value;
    line, tail := rest[..n], rest[n + 2..];
    CutAtFirst(rest, CRLF);
    hide Utf8, ParseNat, SizeText, Find, FreeOf;
  }

  lemma LineRead(rest: Bytes, spent: nat, lim: Limits) returns (line: Bytes, tail: Bytes)
    requires ReadSizeLine(rest, spent, lim).Size?
    ensures rest == line + CRLF + tail && Announces(line, ReadSizeLine(rest, spent, lim).size)
    ensures |line| + 2 == ReadSizeLine(rest, spent, lim).width
    ensures spent + |line| + 2 <= lim.headerBytes
  {
    hide *;
    line, tail := LineFound(rest, spent, lim);
    AnnouncesIsRead(line, ReadSizeLine(rest, spent, lim).size);
  }

  lemma TrailerRead(rest: Bytes, lim: Limits) returns (trailer: Option<Bytes>, after: Bytes)
    requires ReadTrailer(rest, lim).TrailerEnd?
    ensures trailer.Some? ==> TrailerOk(trailer.value, lim)
    ensures rest == TrailerText(trailer) + after && ReadTrailer(rest, lim) == TrailerEnd(|TrailerText(trailer)|)
  {
    if rest[..2] == CRLF {
      trailer, after := None, rest[2..];
    } else {
      var n := Find(rest, BLANK).value;
      var t := rest[..n];
      trailer, after := Some(t), rest[n + 4..];
      assert rest[n..n + 4] == BLANK;
      assert rest == t + BLANK + after;
      assert (t + BLANK)[..2] == rest[..2];
      forall j: nat | j <= n ensures At(t + BLANK, BLANK, j) == At(rest, BLANK, j) {
        AtAppend(t + BLANK, after, BLANK, j);
      }
      FindIs(t + BLANK, BLANK, n);
      hide TrailerOk;
      TrailerIsRead(t, lim);
      hide Find, Utf8, TrailerFields;
    }
  }

  lemma DataRead(rest: Bytes, at: nat, have: nat, spent: nat, lim: Limits) returns (c: Chunk, after: Bytes)
    requires ReadChunk(rest, at, have, spent, lim).DataChunk?
    ensures ChunkOk(c) && rest == ChunkText(c) + after
    ensures ReadChunk(rest, at, have, spent, lim) == DataChunk(c.data, |c.line| + 2)
    ensures have + |c.data| <= lim.bodyBytes && spent + |c.line| + 2 <= lim.headerBytes
  {
    hide ReadSizeLine, ReadTrailer, Announces;
    var line, tail := LineRead(rest, spent, lim);
    assert rest[|line| + 2..] == tail;
    var size := ReadSizeLine(rest, spent, lim).size;
    c, after := Chunk(line, tail[..size]), tail[size + 2..];
    assert tail == c.data + CRLF + after;
  }

  lemma EndRead(rest: Bytes, at: nat, have: nat, spent: nat, lim: Limits)
    returns (body: ChunkedBody, after: Bytes)
    requires ReadChunk(rest, at, have, spent, lim).LastChunk? && have <= lim.bodyBytes
    ensures body.chunks == [] && Within(body, have, spent, lim) && rest == BodyText(body) + after
    ensures ReadChunk(rest, at, have, spent, lim) == LastChunk(|BodyText(body)|)
  {
    hide ReadSizeLine, ReadTrailer, Announces, TrailerOk, TrailerText;
    var line, tail := LineRead(rest, spent, lim);
    assert rest[|line| + 2..] == tail;
    var trailer;
    trailer, after := TrailerRead(tail, lim);
    body := ChunkedBody([], line, trailer);
  }

  lemma {:induction false} DecodedIsGrammar(rest: Bytes, at: nat, payload: Bytes, spent: nat, lim: Limits)
    returns (body: ChunkedBody, after: Bytes)
    requires DecodeChunks(rest, at, payload, spent, lim).Decoded? && |payload| <= lim.bodyBytes
    ensures Within(body, |payload|, spent, lim) && rest == BodyText(body) + after
    ensures DecodeChunks(rest, at, payload, spent, lim)
         == Decoded(payload + Payload(body.chunks), at + |BodyText(body)|)
    decreases |rest|
  {
    hide ReadChunk, Within, ChunkOk, BodyText;
    if ReadChunk(rest, at, |payload|, spent, lim).LastChunk? {
      body, after := EndRead(rest, at, |payload|, spent, lim);
      assert payload + "" == payload;
    } else {
      var c, tail := DataRead(rest, at, |payload|, spent, lim);
      assert rest[|ChunkText(c)|..] == tail;
      body, after := DecodedIsGrammar(tail, at + |ChunkText(c)|, payload + c.data, spent + |c.line| + 2, lim);
      PrependWithin(c, body, |payload|, spent, lim);
      assert payload + c.data + Payload(body.chunks) == payload + (c.data + Payload(body.chunks));
      assert ChunkText(c) + (BodyText(body) + after) == (ChunkText(c) + BodyText(body)) + after;
      body := Prepend(c, body);
    }
  }

  function Prepend(c: Chunk, tail: ChunkedBody): (body: ChunkedBody)
    ensures BodyText(body) == ChunkText(c) + BodyText(tail)
    ensures Payload(body.chunks) == c.data + Payload(tail.chunks)
    ensures LineOctets(body.chunks) == |c.line| + 2 + LineOctets(tail.chunks)
  {
    var chunks := [c] + tail.chunks;
    assert chunks[1..] == tail.chunks;
    tail.(chunks := chunks)
  }

  lemma PrependWithin(c: Chunk, tail: ChunkedBody, have: nat, spent: nat, lim: Limits)
    requires ChunkOk(c) && Within(tail, have + |c.data|, spent + |c.line| + 2, lim)
    ensures Within(Prepend(c, tail), have, spent, lim)
  {
    hide ChunkOk, Announces, TrailerOk;
  }

  /** `rest` starts with this chunked body, within the limits. */
  ghost predicate Starts(body: ChunkedBody, rest: Bytes, lim: Limits) {
    Within(body, 0, 0, lim) && BodyText(body) <= rest
  }

  /**
   The decoder answers with a payload and an end exactly when the octets start
   with a chunked body that has this payload and this length.
  */
  lemma DecoderRefinesGrammar(rest: Bytes, at: nat, payload: Bytes, end: nat, lim: Limits)
    requires at + |rest| <= lim.usizeMax
    ensures DecodeChunks(rest, at, "", 0, lim) == Decoded(payload, end)
       <==> exists body :: Starts(body, rest, lim) && payload == Payload(body.chunks) && end == at + |BodyText(body)|
  {
    hide Within, BodyText, Payload, DecodeChunks;
    if DecodeChunks(rest, at, "", 0, lim) == Decoded(payload, end) {
      var body, after := DecodedIsGrammar(rest, at, "", 0, lim);
      assert "" + Payload(body.chunks) == Payload(body.chunks);
      assert Starts(body, rest, lim);
    }
    if body :| Starts(body, rest, lim) && payload == Payload(body.chunks) && end == at + |BodyText(body)| {
      assert rest == BodyText(body) + rest[|BodyText(body)|..];
      DecodesGrammar(body, rest[|BodyText(body)|..], at, "", 0, lim);
      assert "" + Payload(body.chunks) == Payload(body.chunks);
    }
  }

  // ---------- the decomposition is unique ----------

  lemma SameLine(a: Bytes, x: Bytes, b: Bytes, y: Bytes)
    requires FreeOf(a, CRLF) && FreeOf(b, CRLF)
    requires a + CRLF + x == b + CRLF + y
    ensures a == b && x == y
  {
    FindAfter(a, CRLF, x);
    FindAfter(b, CRLF, y);
    assert (a + CRLF + x)[..|a|] == a && (b + CRLF + y)[..|b|] == b;
    assert (a + CRLF + x)[|a| + 2..] == x && (b + CRLF + y)[|b| + 2..] == y;
  }

  /** The first line of a chunked body, and the text after it. */
  function FirstLine(body: ChunkedBody): Bytes {
    if body.chunks == [] then body.last else body.chunks[0].line
  }

  function AfterFirstLine(body: ChunkedBody, after: Bytes): Bytes {
    if body.chunks == [] then TrailerText(body.trailer) + after
    else body.chunks[0].data + (CRLF + (BodyText(Tail(body)) + after))
  }

  function FirstSize(body: ChunkedBody): nat {
    if body.chunks == [] then 0 else |body.chunks[0].data|
  }

  lemma FirstLineApart(body: ChunkedBody, after: Bytes, have: nat, spent: nat, lim: Limits)
    requires Within(body, have, spent, lim)
    ensures BodyText(body) + after == FirstLine(body) + CRLF + AfterFirstLine(body, after)
    ensures Announces(FirstLine(body), FirstSize(body))
    ensures FirstSize(body) == 0 <==> body.chunks == []
  {
    hide Announces, TrailerOk, TrailerText;
    if body.chunks != [] {
      assert ChunkOk(body.chunks[0]);
      FirstChunkApart(body, after);
      hide BodyText;
    }
  }

  /** Two chunked bodies that spell the same octets are the same body. */
  lemma {:induction false} ParseIsUnique(
      a: ChunkedBody, x: Bytes, b: ChunkedBody, y: Bytes, have: nat, spent: nat, lim: Limits)
    requires Within(a, have, spent, lim) && Within(b, have, spent, lim)
    requires BodyText(a) + x == BodyText(b) + y
    ensures a == b && x == y
    decreases |a.chunks|
  {
    FirstLineApart(a, x, have, spent, lim);
    FirstLineApart(b, y, have, spent, lim);
    SameLine(FirstLine(a), AfterFirstLine(a, x), FirstLine(b), AfterFirstLine(b, y));
    OneSize(FirstLine(a), FirstSize(a), FirstSize(b));
    hide BodyText, Announces, TrailerText;
    if a.chunks == [] {
      SameTrailer(a.trailer, x, b.trailer, y, lim);
    } else {
      SameData(a.chunks[0].data, BodyText(Tail(a)) + x, b.chunks[0].data, BodyText(Tail(b)) + y);
      TailWithin(a, have, spent, lim);
      TailWithin(b, have, spent, lim);
      hide Within, ChunkOk;
      var c := a.chunks[0];
      ParseIsUnique(Tail(a), x, Tail(b), y, have + |c.data|, spent + |c.line| + 2, lim);
      SameTail(a, b);
    }
  }

  lemma OneSize(line: Bytes, m: nat, n: nat)
    requires Announces(line, m) && Announces(line, n)
    ensures m == n
  {
    AnnouncesIsRead(line, m);
    AnnouncesIsRead(line, n);
    hide Announces, ParseNat;
  }

  lemma SameTail(a: ChunkedBody, b: ChunkedBody)
    requires a.chunks != [] && b.chunks != []
    requires a.chunks[0] == b.chunks[0] && Tail(a) == Tail(b)
    ensures a == b
  {
    assert a.chunks == [a.chunks[0]] + Tail(a).chunks && b.chunks == [b.chunks[0]] + Tail(b).chunks;
  }

  lemma SameData(a: Bytes, x: Bytes, b: Bytes, y: Bytes)
    requires |a| == |b| && a + (CRLF + x) == b + (CRLF + y)
    ensures a == b && x == y
  {
    assert (a + (CRLF + x))[..|a|] == a && (b + (CRLF + y))[..|b|] == b;
    assert (a + (CRLF + x))[|a| + 2..] == x && (b + (CRLF + y))[|b| + 2..] == y;
  }

  lemma SameTrailer(a: Option<Bytes>, x: Bytes, b: Option<Bytes>, y: Bytes, lim: Limits)
    requires a.Some? ==> TrailerOk(a.value, lim)
    requires b.Some? ==> TrailerOk(b.value, lim)
    requires TrailerText(a) + x == TrailerText(b) + y
    ensures a == b && x == y
  {
    ReadsTrailer(a, x, lim);
    ReadsTrailer(b, y, lim);
    var n, text := |TrailerText(a)|, TrailerText(a) + x;
    assert text[..n] == TrailerText(a) && (TrailerText(b) + y)[..n] == TrailerText(b);
    assert text[n..] == x && (TrailerText(b) + y)[n..] == y;
    hide TrailerOk, ReadTrailer;
    TrailerTextInjective(a, b);
  }

  lemma TrailerTextInjective(a: Option<Bytes>, b: Option<Bytes>)
    requires TrailerText(a) == TrailerText(b)
    ensures a == b
  {
    if a.Some? && b.Some? {
      assert TrailerText(a)[..|a.value|] == a.value;
      assert TrailerText(b)[..|b.value|] == b.value;
    }
  }
}

/** A sender's side of chunked coding, and the round trip through the server. */
module ChunkEncoder {
  import opened Wrappers
  import opened ByteText
  import opened Http
  import opened Fields
  import opened Framing
  import opened Numerals
  import opened SizeLines
  import opened ChunkGrammar
  import opened Routing

  /** One piece of a body, the size its sender writes for it, and extension text. */
  datatype Piece = Piece(data: Bytes, size: Bytes, extension: Bytes)

  /** Hexadecimal digits of either letter case, leading zeros allowed, that are worth `n`. */
  ghost predicate HexSize(s: Bytes, n: nat) {
    exists gs :: Glyphs(gs, 16) && s == Spell(gs) && n == Worth(gs, 16)
  }

  /** Chunk extensions: empty, or `;` and text that stays on its line. */
  ghost predicate ExtensionOk(ext: Bytes) {
    (ext == "" || ext[0] == ';') && Utf8(ext) && FreeOf(ext, CRLF)
  }

  ghost predicate PieceOk(p: Piece) {
    p.data != "" && |p.data| <= U64_MAX && HexSize(p.size, |p.data|) && ExtensionOk(p.extension)
  }

  /** The last chunk has no data. */
  ghost predicate LastOk(p: Piece) {
    p.data == "" && HexSize(p.size, 0) && ExtensionOk(p.extension)
  }

  function SizeLineOf(p: Piece): Bytes {
    p.size + p.extension
  }

  function ToChunks(pieces: seq<Piece>): (chunks: seq<Chunk>)
    ensures |chunks| == |pieces|
    ensures forall i | 0 <= i < |pieces| :: chunks[i] == Chunk(SizeLineOf(pieces[i]), pieces[i].data)
  {
    if pieces == [] then [] else [Chunk(SizeLineOf(pieces[0]), pieces[0].data)] + ToChunks(pieces[1..])
  }

  /** The chunked body a sender writes for these pieces, last chunk and trailer lines. */
  function Encoded(pieces: seq<Piece>, last: Piece, trailers: seq<Bytes>): ChunkedBody {
    ChunkedBody(ToChunks(pieces), SizeLineOf(last), if trailers == [] then None else Some(Join(trailers, CRLF)))
  }

  /** What the sender meant: the data of the pieces, in order. */
  function Data(pieces: seq<Piece>): Bytes {
    if pieces == [] then "" else pieces[0].data + Data(pieces[1..])
  }

  // ---------- size lines ----------

  lemma SizeLineFree(number: Bytes, size: nat, ext: Bytes)
    requires Spells(number, 16, size) && ExtensionOk(ext)
    ensures FreeOf(number + ext, CRLF)
  {
    NumberIsPlain(number, size);
    hide Utf8, Spells;
    forall i: nat ensures !At(number + ext, CRLF, i) {
      AtOctet(number + ext, CRLF, i, 0);
      if i < |number| {
        assert NumberChar(number[i]);
      } else {
        AtPrepend(number, ext, CRLF, i - |number|);
      }
    }
  }

  lemma SizeLineAnnounces(p: Piece, size: nat)
    requires HexSize(p.size, size) && ExtensionOk(p.extension) && size <= U64_MAX
    ensures Announces(SizeLineOf(p), size)
  {
    HexSpells(p.size, size);
    SizeLineFree(p.size, size, p.extension);
    hide FreeOf, Utf8, Spells;
    var parts := SizeParts([], p.size, [], p.extension);
    assert "" + p.size + "" + p.extension == p.size + p.extension;
    assert PartsOk(parts, size) && SizeLineOf(p) == PartsText(parts);
  }

  lemma HexSpells(s: Bytes, n: nat)
    requires HexSize(s, n)
    ensures Spells(s, 16, n)
  {
    hide Worth, Spell;
    var gs :| Glyphs(gs, 16) && s == Spell(gs) && n == Worth(gs, 16);
    assert Sign(false) + Spell(gs) == Spell(gs);
  }

  lemma PrintIsHex(n: nat)
    ensures HexSize(Print(n, 16), n)
  {
    var gs := PrintIsSpelled(n, 16);
  }

  // ---------- the round trip ----------

  lemma {:induction false} DataIsPayload(pieces: seq<Piece>)
    ensures Payload(ToChunks(pieces)) == Data(pieces)
  {
    if pieces != [] {
      DataIsPayload(pieces[1..]);
      assert ToChunks(pieces)[1..] == ToChunks(pieces[1..]);
    }
  }

  lemma EncodedWithin(pieces: seq<Piece>, last: Piece, trailers: seq<Bytes>, lim: Limits)
    requires forall i | 0 <= i < |pieces| :: PieceOk(pieces[i])
    requires LastOk(last)
    requires forall i | 0 <= i < |trailers| :: TrailerLineOk(trailers[i])
    requires trailers != [] ==> |Join(trailers, CRLF)| + 4 <= lim.headerBytes
    requires |Data(pieces)| <= lim.bodyBytes
    requires LineOctets(ToChunks(pieces)) + |SizeLineOf(last)| + 2 <= lim.headerBytes
    ensures Within(Encoded(pieces, last, trailers), 0, 0, lim)
  {
    hide Announces, SizeLineOf, Join, ExtensionOk, HexSize, TrailerLineOk, LineOctets, Payload, ToChunks;
    DataIsPayload(pieces);
    SizeLineAnnounces(last, 0);
    assert forall line | line in trailers :: TrailerLineOk(line);
    var chunks := ToChunks(pieces);
    forall i | 0 <= i < |chunks| ensures ChunkOk(chunks[i]) {
      SizeLineAnnounces(pieces[i], |pieces[i].data|);
    }
  }

  /** The head of a message that announces a chunked body. */
  ghost predicate ChunkedHead(head: Bytes, lim: Limits) {
    && 4 <= |head| <= lim.headerBytes
    && Find(head, BLANK) == Some(|head| - 4)
    && Utf8(head[..|head| - 4])
    && BodyFramingOf(head[..|head| - 4], lim.usizeMax) == Ok(Chunked)
  }

  lemma FramesChunked(head: Bytes, text: Bytes, lim: Limits, idleEnd: bool)
    requires ChunkedHead(head, lim)
    ensures Frame(head + text, lim, idleEnd)
      == match DecodeChunks(text, |head|, "", 0, lim)
         case ScanNotYet => NotYet
         case ScanBad(status) => Reject(status)
         case Decoded(payload, end) => Take(head + payload, end)
  {
    hide Utf8, BodyFramingOf, DecodeChunks;
    FindAppend(head, text, BLANK);
    hide Find;
    assert (head + text)[..|head| - 4] == head[..|head| - 4];
    assert (head + text)[..|head|] == head;
    assert (head + text)[|head|..] == text;
  }

  /**
   A message with a chunked body is framed exactly when its head is followed by
   a body of the grammar within the limits, and then as its head and the data of
   its chunks.
  */
  lemma FramingRefinesGrammar(head: Bytes, text: Bytes, raw: Bytes, used: nat, lim: Limits, idleEnd: bool)
    requires ChunkedHead(head, lim) && |head| + |text| <= lim.usizeMax
    ensures Frame(head + text, lim, idleEnd) == Take(raw, used)
      <==> exists body ::
        Starts(body, text, lim) && raw == head + Payload(body.chunks) && used == |head| + |BodyText(body)|
  {
    hide *;
    FramesChunked(head, text, lim, idleEnd);
    if Frame(head + text, lim, idleEnd) == Take(raw, used) {
      var payload := DecodeChunks(text, |head|, "", 0, lim).payload;
      DecoderRefinesGrammar(text, |head|, payload, used, lim);
    }
    if body :| Starts(body, text, lim) && raw == head + Payload(body.chunks) && used == |head| + |BodyText(body)| {
      DecoderRefinesGrammar(text, |head|, Payload(body.chunks), used, lim);
    }
  }

  /**
   Whatever is sent in chunks comes out whole: any body, cut into any non-empty
   pieces, their sizes written in either letter case and with leading zeros, with
   any extensions and trailers within the limits, is framed as its head and its
   data, and every octet after it, `rest`, is left in the buffer.
   The data may contain line breaks and blank lines.
  */
  lemma ChunkedRoundTrip(
      head: Bytes, pieces: seq<Piece>, last: Piece, trailers: seq<Bytes>, rest: Bytes, lim: Limits)
    requires ChunkedHead(head, lim)
    requires forall i | 0 <= i < |pieces| :: PieceOk(pieces[i])
    requires LastOk(last)
    requires forall i | 0 <= i < |trailers| :: TrailerLineOk(trailers[i])
    requires trailers != [] ==> |Join(trailers, CRLF)| + 4 <= lim.headerBytes
    requires |Data(pieces)| <= lim.bodyBytes
    requires LineOctets(ToChunks(pieces)) + |SizeLineOf(last)| + 2 <= lim.headerBytes
    requires |head + BodyText(Encoded(pieces, last, trailers))| <= lim.usizeMax
    ensures var sent := head + BodyText(Encoded(pieces, last, trailers));
      && Frame(sent + rest, lim, false) == Take(head + Data(pieces), |sent|)
      && (sent + rest)[|sent|..] == rest
  {
    hide *;
    var body := Encoded(pieces, last, trailers);
    EncodedWithin(pieces, last, trailers, lim);
    DecodesGrammar(body, rest, |head|, "", 0, lim);
    DataIsPayload(pieces);
    FramesChunked(head, BodyText(body) + rest, lim, false);
    assert "" + Data(pieces) == Data(pieces);
    assert head + BodyText(body) + rest == head + (BodyText(body) + rest);
    EncodedChunks(pieces, last, trailers);
  }

  lemma EncodedChunks(pieces: seq<Piece>, last: Piece, trailers: seq<Bytes>)
    ensures Encoded(pieces, last, trailers).chunks == ToChunks(pieces)
  {
  }

  /** The request parsed from such a message has the data, and only the data, as its body. */
  lemma ChunkedBodyIsParsed(
      head: Bytes, pieces: seq<Piece>, last: Piece, trailers: seq<Bytes>, rest: Bytes, lim: Limits, routes: Routes)
    requires ChunkedHead(head, lim)
    requires forall i | 0 <= i < |pieces| :: PieceOk(pieces[i])
    requires LastOk(last)
    requires forall i | 0 <= i < |trailers| :: TrailerLineOk(trailers[i])
    requires trailers != [] ==> |Join(trailers, CRLF)| + 4 <= lim.headerBytes
    requires |Data(pieces)| <= lim.bodyBytes
    requires LineOctets(ToChunks(pieces)) + |SizeLineOf(last)| + 2 <= lim.headerBytes
    requires |head + BodyText(Encoded(pieces, last, trailers))| <= lim.usizeMax
    ensures var framed := Frame(head + BodyText(Encoded(pieces, last, trailers)) + rest, lim, false);
      && framed.Take?
      && (ParseRaw(framed.raw, routes).Ok? ==> ParseRaw(framed.raw, routes).value.body == Data(pieces))
  {
    hide *;
    var text := BodyText(Encoded(pieces, last, trailers));
    var b := head + text + rest;
    ChunkedRoundTrip(head, pieces, last, trailers, rest, lim);
    HeadIsFound(head, text + rest, lim);
    assert head + (text + rest) == b;
    assert b[..|head|] == head;
    FramedBodyIsParsed(b, lim, false, routes, Data(pieces));
  }

  lemma HeadIsFound(head: Bytes, after: Bytes, lim: Limits)
    requires ChunkedHead(head, lim)
    ensures |head| >= 4 && Find(head + after, BLANK) == Some(|head| - 4)
  {
    FindAppend(head, after, BLANK);
    hide Find, Utf8, BodyFramingOf;
  }
}

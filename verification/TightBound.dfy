/**
 The memory bound is not an estimate: a buffer of exactly that many octets can
 still be waiting for more.
*/
module TightBound {
  import opened Wrappers
  import opened ByteText
  import opened Http
  import opened Fields
  import opened Framing
  import opened SizeLines
  import opened ChunkGrammar
  import opened ChunkEncoder
  import opened ResponseHead
  import opened PrintedHead

  /** Filler that is neither white space nor a line break. */
  function Fill(n: nat): (s: Bytes)
    ensures |s| == n && forall c | c in s :: c == 'x'
  {
    if n == 0 then "" else Fill(n - 1) + ['x']
  }

  lemma FillIsPlain(n: nat)
    ensures OneLine(Fill(n)) && Utf8(Fill(n)) && FreeOf(Fill(n), CRLF)
  {
    forall i | 0 <= i < n ensures Fill(n)[i] < 0x80 as char {
      assert Fill(n)[i] in Fill(n);
    }
    AsciiIsUtf8(Fill(n));
    LineFree(Fill(n));
    hide Fill, Utf8, FreeOf;
  }

  // ---------- as many chunks as the size lines have room for ----------

  /** Extension text that pads a size line. */
  function Pad(n: nat): (ext: Bytes)
    ensures |ext| == n && forall c | c in ext :: c == ';'
  {
    if n == 0 then "" else Pad(n - 1) + [';']
  }

  lemma PadIsExtension(n: nat)
    ensures ExtensionOk(Pad(n))
  {
    var ext := Pad(n);
    forall i | 0 <= i < n ensures ext[i] < 0x80 as char && ext[i] == ';' {
      assert ext[i] in ext;
    }
    AsciiIsUtf8(ext);
    LineFree(ext);
    hide Pad, Utf8, FreeOf;
  }

  function Crumb(size: nat, last: bool, pad: nat): Piece {
    Piece(Fill(size), Print(size, 16), if last then Pad(pad) else "")
  }

  /** `n` chunks of one-digit sizes that carry `total` octets; the last size line is padded. */
  function Crumbs(n: nat, total: nat, pad: nat): (pieces: seq<Piece>)
    requires n <= total <= 15 * n
    ensures |pieces| == n
    ensures forall p | p in pieces ::
      1 <= |p.data| <= 15 && p.size == Print(|p.data|, 16) && (p.extension == "" || p.extension == Pad(pad))
  {
    if n == 0 then []
    else
      var size := if total - (n - 1) <= 15 then total - (n - 1) else 15;
      [Crumb(size, n == 1, pad)] + Crumbs(n - 1, total - size, pad)
  }

  lemma OneDigit(size: nat)
    requires size < 16
    ensures |Print(size, 16)| == 1
  {
  }

  lemma DataInTurn(p: Piece, rest: seq<Piece>)
    ensures Data([p] + rest) == p.data + Data(rest)
  {
    assert ([p] + rest)[1..] == rest;
  }

  lemma {:induction false} CrumbsCarry(n: nat, total: nat, pad: nat)
    requires n <= total <= 15 * n
    ensures |Data(Crumbs(n, total, pad))| == total
  {
    hide Fill, Pad, Data;
    if n == 0 {
      NoLines();
    } else {
      var size := if total - (n - 1) <= 15 then total - (n - 1) else 15;
      CrumbsCarry(n - 1, total - size, pad);
      DataInTurn(Crumb(size, n == 1, pad), Crumbs(n - 1, total - size, pad));
    }
  }

  /** Octets of the size lines of these pieces. */
  lemma LinesInTurn(p: Piece, rest: seq<Piece>)
    requires |p.data| < 16 && p.size == Print(|p.data|, 16)
    ensures LineOctets(ToChunks([p] + rest)) == 3 + |p.extension| + LineOctets(ToChunks(rest))
  {
    OneDigit(|p.data|);
    hide Print;
    var pieces := [p] + rest;
    assert pieces[1..] == rest;
    assert ToChunks(pieces)[1..] == ToChunks(rest);
  }

  lemma {:induction false} CrumbsMeasure(n: nat, total: nat, pad: nat)
    requires n <= total <= 15 * n
    ensures LineOctets(ToChunks(Crumbs(n, total, pad))) == 3 * n + if n == 0 then 0 else pad
  {
    hide Fill, Pad, LineOctets, ToChunks;
    if n == 0 {
      NoLines();
    } else {
      var size := if total - (n - 1) <= 15 then total - (n - 1) else 15;
      CrumbsMeasure(n - 1, total - size, pad);
      LinesInTurn(Crumb(size, n == 1, pad), Crumbs(n - 1, total - size, pad));
    }
  }

  lemma NoLines()
    ensures LineOctets(ToChunks([])) == 0 && Data([]) == ""
  {
  }

  lemma CrumbsAreChunks(n: nat, total: nat, pad: nat)
    requires n <= total <= 15 * n
    ensures forall c | c in ToChunks(Crumbs(n, total, pad)) :: ChunkOk(c)
  {
    PadIsExtension(pad);
    PadIsExtension(0);
    hide Crumbs, ExtensionOk, HexSize, Announces, SizeLineOf, ToChunks, Pad, Print;
    assert Pad(0) == "";
    var pieces := Crumbs(n, total, pad);
    forall c | c in ToChunks(pieces) ensures ChunkOk(c) {
      var i :| 0 <= i < |pieces| && ToChunks(pieces)[i] == c;
      assert pieces[i] in pieces;
      PrintIsHex(|pieces[i].data|);
      SizeLineAnnounces(pieces[i], |pieces[i].data|);
    }
  }

  lemma FillIsAwaited(n: nat, at: nat, payload: Bytes, spent: nat, lim: Limits)
    requires n <= lim.headerBytes
    ensures DecodeChunks(Fill(n), at, payload, spent, lim).ScanNotYet?
  {
    FillIsPlain(n);
    hide Fill, FreeOf;
    assert Find(Fill(n), CRLF).None?;
  }

  // ---------- a head of any length ----------

  const CODING: Header := ("transfer-encoding", "chunked")

  lemma CodingText()
    ensures ':' !in "transfer-encoding" && SameText("transfer-encoding", "transfer-encoding")
    ensures !SameText("transfer-encoding", "content-length")
    ensures ToLower("chunked") == "chunked" && ',' !in " " + "chunked"
    ensures !Blank("chunked"[0]) && !Blank("chunked"[6])
  {
    assert |"transfer-encoding"| != |"content-length"|;
  }

  lemma CodingParts()
    ensures SplitOnce(HeaderText(CODING), ":") == Some(("transfer-encoding", " " + "chunked"))
  {
    CodingText();
    PlainName(CODING);
    SplitHeader(CODING);
    hide *;
  }

  lemma CodingValue()
    ensures Normalized(Split(" " + "chunked", ",")) == ["chunked"]
  {
    CodingText();
    TrimSolid("chunked");
    TrimSpaceThen("chunked");
    OneOctet(" " + "chunked", ',');
    hide Trim, ToLower, Find;
    assert "," == [','];
    assert Split(" " + "chunked", ",") == [" " + "chunked"];
  }

  lemma CodingLine(max: nat)
    ensures var line := HeaderText(CODING);
      !Malformed(line, max) && LengthIn(line, max) == [] && CodingsIn(line) == ["chunked"]
  {
    CodingText();
    CodingParts();
    CodingValue();
    CodingIsText();
    hide HeaderText, SplitOnce, SameText, Normalized, Split, ToLower;
  }

  lemma CodingIsText()
    ensures "" !in ["chunked"]
  {
  }

  function PaddedHeaders(n: nat): seq<Header> {
    [CODING, ("x", Fill(n))]
  }

  function PaddedLines(n: nat): seq<Bytes> {
    ["POST / HTTP/1.1"] + HeaderTexts(PaddedHeaders(n))
  }

  /** A head that announces chunks, with `n` octets of filler in a header. */
  function PaddedHead(n: nat): Bytes {
    Join(PaddedLines(n), CRLF) + BLANK
  }

  /** Octets of such a head without its filler. */
  const BARE_HEAD: nat := 52

  lemma FillerIsHarmless(n: nat)
    ensures Harmless(("x", Fill(n)))
  {
    assert ':' !in "x";
    PlainName(("x", Fill(n)));
    hide Fill, FieldName, FieldRest;
    assert |"x"| == 1;
  }

  lemma PaddedFraming(n: nat, max: nat)
    ensures FramingOf(HeaderTexts(PaddedHeaders(n)), max) == Ok(Chunked)
  {
    var filler := [("x", Fill(n))];
    CodingLine(max);
    FillerIsHarmless(n);
    HarmlessLines(filler, max);
    ReadInTurn([CODING], filler, max);
    hide HeaderText, Malformed, LengthIn, CodingsIn, Fill, Harmless;
    var line := HeaderText(CODING);
    assert HeaderTexts([CODING]) == [line] && [CODING] + filler == PaddedHeaders(n);
    FlatMapSnoc([], line, LengthsWithin(max));
    FlatMapSnoc([], line, CodingsIn);
    assert [] + [line] == [line];
  }

  lemma FirstText()
    ensures OneLine("POST / HTTP/1.1") && Utf8("POST / HTTP/1.1")
  {
    hide Utf8;
    AsciiIsUtf8("POST / HTTP/1.1");
  }

  lemma CodingNameText()
    ensures OneLine("transfer-encoding: ") && Utf8("transfer-encoding: ")
  {
    hide Utf8;
    AsciiIsUtf8("transfer-encoding: ");
  }

  lemma ShortTexts()
    ensures OneLine("chunked") && OneLine("x: ") && Utf8("chunked") && Utf8("x: ")
  {
    hide Utf8;
    AsciiIsUtf8("chunked");
    AsciiIsUtf8("x: ");
  }

  lemma PaddedAreLines(n: nat)
    ensures |PaddedLines(n)| == 3
    ensures forall i | 0 <= i < 3 :: var line := PaddedLines(n)[i]; line != "" && FreeOf(line, CRLF) && Utf8(line)
    ensures "" !in PaddedLines(n)[1..]
    ensures |PaddedLines(n)[0]| == 15 && |PaddedLines(n)[1]| == 26 && |PaddedLines(n)[2]| == 3 + n
  {
    hide OneLine, Utf8, FreeOf, Fill;
    FirstText();
    CodingNameText();
    ShortTexts();
    FillIsPlain(n);
    var first, second := "transfer-encoding: ", "x: ";
    assert HeaderText(CODING) == first + "chunked" && HeaderText(("x", Fill(n))) == second + Fill(n);
    OneLineConcat(first, "chunked");
    OneLineConcat(second, Fill(n));
    Utf8Append(first, "chunked");
    Utf8Append(second, Fill(n));
    var lines := PaddedLines(n);
    assert lines == ["POST / HTTP/1.1", first + "chunked", second + Fill(n)];
    forall i | 0 <= i < 3 ensures FreeOf(lines[i], CRLF) {
      OneLineIsFree(lines[i]);
    }
  }

  lemma PaddedIsChunked(n: nat, lim: Limits)
    requires BARE_HEAD + n <= lim.headerBytes
    ensures |PaddedHead(n)| == BARE_HEAD + n && ChunkedHead(PaddedHead(n), lim)
  {
    PaddedAreLines(n);
    PaddedFraming(n, lim.usizeMax);
    hide Find, Utf8, FreeOf, HeaderTexts, FramingOf;
    var lines := PaddedLines(n);
    FindBlank(lines, "");
    JoinIsUtf8(lines);
    HeaderLinesOfJoin(lines);
    JoinOfThree(lines);
    hide Join;
    assert PaddedHead(n) + "" == PaddedHead(n);
    assert PaddedHead(n)[..|Join(lines, CRLF)|] == Join(lines, CRLF);
    assert lines[1..] == HeaderTexts(PaddedHeaders(n));
  }

  lemma JoinOfThree(lines: seq<Bytes>)
    requires |lines| == 3
    ensures |Join(lines, CRLF)| == |lines[0]| + |lines[1]| + |lines[2]| + 4
  {
    assert lines[1..] == [lines[1], lines[2]] && lines[1..][1..] == [lines[2]];
    assert Join([lines[2]], CRLF) == lines[2];
    assert Join(lines[1..], CRLF) == lines[1] + CRLF + lines[2];
  }

  // ---------- the bound is reached ----------

  /** A full head, all the size lines there is room for, all the data, and a size line that does not end. */
  function FullBuffer(lim: Limits): Bytes
    requires BARE_HEAD <= lim.headerBytes
    requires lim.headerBytes / 3 <= lim.bodyBytes <= 15 * (lim.headerBytes / 3)
  {
    var n := lim.headerBytes / 3;
    PaddedHead(lim.headerBytes - BARE_HEAD)
      + Text(ToChunks(Crumbs(n, lim.bodyBytes, lim.headerBytes % 3)), Fill(lim.headerBytes))
  }

  /**
   For every header limit with room for such a head, and every body limit that
   one-digit chunks can exhaust, some incomplete buffer is as long as the bound allows.
  */
  lemma BoundIsReached(lim: Limits, idleEnd: bool)
    requires BARE_HEAD <= lim.headerBytes && MemoryBound(lim) <= lim.usizeMax
    requires lim.headerBytes / 3 <= lim.bodyBytes <= 15 * (lim.headerBytes / 3)
    ensures |FullBuffer(lim)| == MemoryBound(lim) && Frame(FullBuffer(lim), lim, idleEnd).NotYet?
  {
    hide Frame, PaddedHead, Text, ToChunks, Crumbs, Fill, DecodeChunks, ChunkedHead, ChunkOk, LineOctets, Payload, Data;
    var n, pad := lim.headerBytes / 3, lim.headerBytes % 3;
    var head, end := PaddedHead(lim.headerBytes - BARE_HEAD), Fill(lim.headerBytes);
    var chunks := ToChunks(Crumbs(n, lim.bodyBytes, pad));
    PaddedIsChunked(lim.headerBytes - BARE_HEAD, lim);
    CrumbsCarry(n, lim.bodyBytes, pad);
    CrumbsMeasure(n, lim.bodyBytes, pad);
    CrumbsAreChunks(n, lim.bodyBytes, pad);
    DataIsPayload(Crumbs(n, lim.bodyBytes, pad));
    TextLength(chunks, end);
    TextLength(chunks, "");
    ChunksAreRead(chunks, end, |head|, "", 0, lim);
    FillIsAwaited(lim.headerBytes, |head| + |Text(chunks, "")|, "" + Payload(chunks), LineOctets(chunks), lim);
    FramesChunked(head, Text(chunks, end), lim, idleEnd);
  }
}

/**
 What the framing decision refuses, with which error, and what it waits for,
 stated on the message rather than on the scan.
*/
module FramingVerdicts {
  import opened Wrappers
  import opened ByteText
  import opened Http
  import opened Fields
  import opened Framing
  import opened SizeLines
  import opened ChunkGrammar
  import opened ChunkEncoder
  import C = Characters

  // ---------- faults of a chunked body ----------

  /** A trailer section that is too long, or that has a line that is no field. */
  ghost predicate FaultyTrailer(tail: Bytes, lim: Limits, status: Status) {
    && |tail| >= 2 && !(CRLF <= tail)
    && (|| (FreeOf(tail, BLANK) && |tail| > lim.headerBytes && status == HeaderFieldsTooLarge)
        || exists t, after :: tail == t + BLANK + after && Find(t + BLANK, BLANK) == Some(|t|)
             && if |t| + 4 > lim.headerBytes then status == HeaderFieldsTooLarge
                else !TrailerOk(t, lim) && status == BadRequest)
  }

  /** What is wrong after a line that announces `size`; `at` is where its data starts. */
  ghost predicate FaultyData(size: nat, tail: Bytes, at: nat, have: nat, lim: Limits, status: Status) {
    if size > lim.usizeMax then status == PayloadTooLarge
    else if size == 0 then FaultyTrailer(tail, lim, status)
    else if have + size > lim.bodyBytes || at + size + 2 > lim.usizeMax then status == PayloadTooLarge
    else |tail| >= size + 2 && tail[size..size + 2] != CRLF && status == BadRequest
  }

  /** What is wrong with a size line, or after it. */
  ghost predicate FaultyLine(
      line: Bytes, tail: Bytes, at: nat, have: nat, spent: nat, lim: Limits, status: Status)
  {
    if spent + |line| + 2 > lim.headerBytes then status == HeaderFieldsTooLarge
    else if forall size :: !Announces(line, size) then status == BadRequest
    else exists size :: Announces(line, size) && FaultyData(size, tail, at + |line| + 2, have, lim, status)
  }

  /** `rest`, where a chunk should start, starts with a fault instead. */
  ghost predicate Faulty(rest: Bytes, at: nat, have: nat, spent: nat, lim: Limits, status: Status) {
    || (FreeOf(rest, CRLF) && |rest| > lim.headerBytes && status == HeaderFieldsTooLarge)
    || exists line, tail :: rest == line + CRLF + tail && FreeOf(line, CRLF)
         && FaultyLine(line, tail, at, have, spent, lim, status)
  }

  lemma FirstBlank(tail: Bytes)
    ensures Find(tail, BLANK).Some? ==> var n := Find(tail, BLANK).value;
      && tail == tail[..n] + BLANK + tail[n + 4..] && Find(tail[..n] + BLANK, BLANK) == Some(n)
  {
    if Find(tail, BLANK).Some? {
      var n := Find(tail, BLANK).value;
      FindTake(tail, BLANK);
      CutAtFirst(tail, BLANK);
      hide Find, FreeOf;
      assert tail[..n + 4] == tail[..n] + BLANK;
    }
  }

  lemma TrailerFaults(tail: Bytes, lim: Limits, status: Status)
    ensures ReadTrailer(tail, lim) == TrailerBad(status) <==> FaultyTrailer(tail, lim, status)
  {
    hide Find, Utf8, TrailerFields, TrailerOk, FreeOf;
    FirstBlank(tail);
    match Find(tail, BLANK)
    case None =>
      NotInside(tail);
    case Some(n) =>
      BlankNotFree(tail);
      TrailerIsRead(tail[..n], lim);
      ShortStart(tail, n);
      forall t, after | tail == t + BLANK + after && Find(t + BLANK, BLANK) == Some(|t|) ensures t == tail[..n] {
        FindAppend(t + BLANK, after, BLANK);
      }
  }

  lemma NotInside(tail: Bytes)
    requires Find(tail, BLANK).None?
    ensures FreeOf(tail, BLANK)
    ensures forall t, after | tail == t + BLANK + after :: Find(t + BLANK, BLANK) != Some(|t|)
  {
    forall t, after | tail == t + BLANK + after ensures Find(t + BLANK, BLANK) != Some(|t|) {
      FindAppend(t + BLANK, after, BLANK);
    }
    hide Find;
  }

  lemma BlankNotFree(tail: Bytes)
    requires Find(tail, BLANK).Some?
    ensures !FreeOf(tail, BLANK)
  {
    hide Find;
    assert At(tail, BLANK, Find(tail, BLANK).value);
  }

  lemma ShortStart(tail: Bytes, n: nat)
    requires n + 4 <= |tail|
    requires tail == tail[..n] + BLANK + tail[n + 4..]
    ensures tail[..2] == CRLF <==> CRLF <= tail[..n] + BLANK
  {
    assert tail[..2] == (tail[..n] + BLANK)[..2];
  }

  lemma DataFaults(size: nat, width: nat, tail: Bytes, at: nat, have: nat, lim: Limits, status: Status)
    requires size <= lim.usizeMax
    ensures ReadSized(tail, size, width, at, have, lim) == StepBad(status)
      <==> FaultyData(size, tail, at, have, lim, status)
  {
    TrailerFaults(tail, lim, status);
    hide ReadTrailer, FaultyTrailer;
  }

  /** The size a line announces, if any. */
  lemma LineSize(line: Bytes)
    requires FreeOf(line, CRLF)
    ensures forall size: nat ::
      Announces(line, size) <==> (
        Utf8(line) && SizeText(line) != "" && ParseNat(SizeText(line), 16, U64_MAX) == Some(size))
  {
    hide Announces, Utf8, ParseNat, SizeText, FreeOf;
    NoSizeText(line);
    forall size: nat
      ensures Announces(line, size) <==> Utf8(line) && ParseNat(SizeText(line), 16, U64_MAX) == Some(size)
    {
      AnnouncesIsRead(line, size);
    }
  }

  lemma LineIsRead(line: Bytes, tail: Bytes, spent: nat, lim: Limits)
    requires FreeOf(line, CRLF)
    ensures ReadSizeLine(line + CRLF + tail, spent, lim)
      == if spent + |line| + 2 > lim.headerBytes then SizeBad(HeaderFieldsTooLarge)
         else if !Utf8(line) || SizeText(line) == "" then SizeBad(BadRequest)
         else match ParseNat(SizeText(line), 16, U64_MAX)
           case None => SizeBad(BadRequest)
           case Some(size) => if size > lim.usizeMax then SizeBad(PayloadTooLarge) else Size(size, |line| + 2)
    ensures (line + CRLF + tail)[|line| + 2..] == tail
  {
    FindAfter(line, CRLF, tail);
    hide Find, Utf8, ParseNat, SizeText, FreeOf;
    assert (line + CRLF + tail)[..|line|] == line;
  }

  lemma LineFaults(line: Bytes, tail: Bytes, at: nat, have: nat, spent: nat, lim: Limits, status: Status)
    requires FreeOf(line, CRLF)
    ensures ReadChunk(line + CRLF + tail, at, have, spent, lim) == StepBad(status)
      <==> FaultyLine(line, tail, at, have, spent, lim, status)
  {
    hide ReadSizeLine, Utf8, ParseNat, SizeText, FreeOf, Announces, FaultyData, ReadSized;
    LineIsRead(line, tail, spent, lim);
    LineSize(line);
    HugeSize(tail, at + |line| + 2, have, lim, status);
    var read := ReadSizeLine(line + CRLF + tail, spent, lim);
    if read.Size? {
      DataFaults(read.size, |line| + 2, tail, at + |line| + 2, have, lim, status);
    }
  }

  lemma NoSizeText(line: Bytes)
    ensures SizeText(line) == "" ==> ParseNat(SizeText(line), 16, U64_MAX).None?
  {
  }

  lemma HugeSize(tail: Bytes, at: nat, have: nat, lim: Limits, status: Status)
    ensures forall size | size > lim.usizeMax ::
      FaultyData(size, tail, at, have, lim, status) == (status == PayloadTooLarge)
  {
  }

  lemma StepFaults(rest: Bytes, at: nat, have: nat, spent: nat, lim: Limits, status: Status)
    ensures ReadChunk(rest, at, have, spent, lim) == StepBad(status) <==> Faulty(rest, at, have, spent, lim, status)
  {
    hide FaultyLine, FreeOf, ReadSized, Utf8, ParseNat, SizeText;
    FirstBreak(rest);
    match Find(rest, CRLF)
    case None =>
    case Some(n) =>
      LineFaults(rest[..n], rest[n + 2..], at, have, spent, lim, status);
      hide Find, ReadChunk;
      forall line, tail | rest == line + CRLF + tail && FreeOf(line, CRLF)
        ensures line == rest[..n] && tail == rest[n + 2..]
      {
        SameLine(line, tail, rest[..n], rest[n + 2..]);
      }
  }

  lemma FirstBreak(rest: Bytes)
    ensures Find(rest, CRLF).None? ==>
      FreeOf(rest, CRLF) && forall line, tail :: !(rest == line + CRLF + tail && FreeOf(line, CRLF))
    ensures Find(rest, CRLF).Some? ==> var n := Find(rest, CRLF).value;
      rest == rest[..n] + CRLF + rest[n + 2..] && FreeOf(rest[..n], CRLF) && !FreeOf(rest, CRLF)
  {
    match Find(rest, CRLF)
    case None =>
      forall line, tail ensures !(rest == line + CRLF + tail && FreeOf(line, CRLF)) {
        if rest == line + CRLF + tail && FreeOf(line, CRLF) {
          FindAfter(line, CRLF, tail);
        }
      }
    case Some(n) =>
      CutAtFirst(rest, CRLF);
      hide Find, FreeOf;
  }

  /** Chunks within the limits, and a fault where the next one should start. */
  ghost predicate FaultAfter(
      chunks: seq<Chunk>, tail: Bytes, at: nat, have: nat, spent: nat, lim: Limits, status: Status)
  {
    && (forall c | c in chunks :: ChunkOk(c))
    && have + |Payload(chunks)| <= lim.bodyBytes && spent + LineOctets(chunks) <= lim.headerBytes
    && Faulty(tail, at + |Text(chunks, "")|, have + |Payload(chunks)|, spent + LineOctets(chunks), lim, status)
  }

  lemma FaultIsFound(chunks: seq<Chunk>, tail: Bytes, at: nat, payload: Bytes, spent: nat, lim: Limits, status: Status)
    requires FaultAfter(chunks, tail, at, |payload|, spent, lim, status)
    requires at + |Text(chunks, tail)| <= lim.usizeMax
    ensures DecodeChunks(Text(chunks, tail), at, payload, spent, lim) == ScanBad(status)
  {
    hide ChunkOk, Faulty, ReadChunk;
    ChunksAreRead(chunks, tail, at, payload, spent, lim);
    StepFaults(tail, at + |Text(chunks, "")|, |payload + Payload(chunks)|, spent + LineOctets(chunks), lim, status);
    hide Text, Payload, LineOctets;
  }

  lemma {:induction false} FoundIsFault(rest: Bytes, at: nat, payload: Bytes, spent: nat, lim: Limits)
    returns (chunks: seq<Chunk>, tail: Bytes)
    requires DecodeChunks(rest, at, payload, spent, lim).ScanBad?
    requires |payload| <= lim.bodyBytes && spent <= lim.headerBytes
    ensures rest == Text(chunks, tail)
    ensures FaultAfter(chunks, tail, at, |payload|, spent, lim, DecodeChunks(rest, at, payload, spent, lim).status)
    decreases |rest|
  {
    hide ReadChunk, ChunkOk, Faulty, ChunkText;
    var status := DecodeChunks(rest, at, payload, spent, lim).status;
    if ReadChunk(rest, at, |payload|, spent, lim).StepBad? {
      StepFaults(rest, at, |payload|, spent, lim, status);
      chunks, tail := [], rest;
    } else {
      var c, after := DataRead(rest, at, |payload|, spent, lim);
      assert rest[|ChunkText(c)|..] == after;
      chunks, tail := FoundIsFault(after, at + |ChunkText(c)|, payload + c.data, spent + |c.line| + 2, lim);
      MoreFault(c, chunks, tail, at, |payload|, spent, lim, status);
      chunks := [c] + chunks;
    }
  }

  lemma MoreFault(
      c: Chunk, chunks: seq<Chunk>, tail: Bytes, at: nat, have: nat, spent: nat, lim: Limits, status: Status)
    requires ChunkOk(c)
    requires FaultAfter(chunks, tail, at + |ChunkText(c)|, have + |c.data|, spent + |c.line| + 2, lim, status)
    ensures FaultAfter([c] + chunks, tail, at, have, spent, lim, status)
    ensures Text([c] + chunks, tail) == ChunkText(c) + Text(chunks, tail)
  {
    hide ChunkOk, Faulty, ChunkText;
    assert ([c] + chunks)[1..] == chunks;
  }

  /**
   The decoder reports an error exactly when the octets start with chunks within
   the limits and then a fault of that kind: 431 for lines that are too long, 413
   for too much data, 400 for what is not of the grammar.
  */
  lemma DecoderRefusesFaults(rest: Bytes, at: nat, status: Status, lim: Limits)
    requires at + |rest| <= lim.usizeMax
    ensures DecodeChunks(rest, at, "", 0, lim) == ScanBad(status)
      <==> exists chunks, tail :: rest == Text(chunks, tail) && FaultAfter(chunks, tail, at, 0, 0, lim, status)
  {
    hide FaultAfter, DecodeChunks, Text;
    if DecodeChunks(rest, at, "", 0, lim) == ScanBad(status) {
      var chunks, tail := FoundIsFault(rest, at, "", 0, lim);
    }
    forall chunks, tail | rest == Text(chunks, tail) && FaultAfter(chunks, tail, at, 0, 0, lim, status)
      ensures DecodeChunks(rest, at, "", 0, lim) == ScanBad(status)
    {
      FaultIsFound(chunks, tail, at, "", 0, lim, status);
    }
  }

  // ---------- verdicts on a whole message ----------

  /** Without a blank line the head is awaited, until it is too long. */
  lemma HeadIsAwaited(b: Bytes, lim: Limits, idleEnd: bool)
    requires FreeOf(b, BLANK)
    ensures Frame(b, lim, idleEnd) == if |b| > lim.headerBytes then Reject(HeaderFieldsTooLarge) else NotYet
  {
    assert Find(b, BLANK).None?;
    hide Find;
  }

  /** `head` is all up to the first blank line. */
  ghost predicate IsHead(head: Bytes) {
    |head| >= 4 && Find(head, BLANK) == Some(|head| - 4)
  }

  lemma HeadApart(head: Bytes, rest: Bytes)
    requires IsHead(head)
    ensures Find(head + rest, BLANK) == Some(|head| - 4)
    ensures (head + rest)[..|head| - 4] == head[..|head| - 4]
    ensures (head + rest)[..|head|] == head && (head + rest)[|head|..] == rest
  {
    FindAppend(head, rest, BLANK);
    hide Find;
  }

  /** Too long a head is a 431; one that is not text a 400; and what its lines call for stands. */
  lemma HeadIsRefused(head: Bytes, rest: Bytes, lim: Limits, idleEnd: bool)
    requires IsHead(head)
    ensures |head| > lim.headerBytes ==> Frame(head + rest, lim, idleEnd) == Reject(HeaderFieldsTooLarge)
    ensures |head| <= lim.headerBytes && !Utf8(head[..|head| - 4]) ==>
      Frame(head + rest, lim, idleEnd) == Reject(BadRequest)
    ensures |head| <= lim.headerBytes && Utf8(head[..|head| - 4]) ==>
      match BodyFramingOf(head[..|head| - 4], lim.usizeMax) {
        case Err(status) => Frame(head + rest, lim, idleEnd) == Reject(status)
        case Ok(_) => true
      }
  {
    HeadApart(head, rest);
    hide Find, Utf8, BodyFramingOf, FrameBody;
  }

  /** A head that is read, and the framing it announces. */
  ghost predicate Announced(head: Bytes, framing: BodyFraming, lim: Limits) {
    && IsHead(head) && |head| <= lim.headerBytes && Utf8(head[..|head| - 4])
    && BodyFramingOf(head[..|head| - 4], lim.usizeMax) == Ok(framing)
  }

  /** A body of announced length: refused when too long, awaited, then taken. */
  lemma LengthVerdicts(head: Bytes, n: nat, rest: Bytes, lim: Limits, idleEnd: bool)
    requires Announced(head, Length(n), lim)
    ensures n > lim.bodyBytes || |head| + n > lim.usizeMax ==>
      Frame(head + rest, lim, idleEnd) == Reject(PayloadTooLarge)
    ensures n <= lim.bodyBytes && |head| + n <= lim.usizeMax ==>
      Frame(head + rest, lim, idleEnd) == if |rest| < n then NotYet else Take(head + rest[..n], |head| + n)
  {
    HeadApart(head, rest);
    hide Find, Utf8, BodyFramingOf;
    assert |rest| >= n ==> (head + rest)[..|head| + n] == head + rest[..n];
  }

  /** The methods that may send a body without announcing it. */
  const OPEN_METHODS: set<Bytes> := {"POST", "PUT", "DELETE", "PATCH", "QUERY"}

  /** The head starts with this word. */
  ghost predicate StartsWith(head: Bytes, word: Bytes) {
    |head| >= 4 && exists gap: seq<C.Scalar>, w: seq<C.Scalar>, more: Bytes ::
      && C.AllWhite(gap) && C.NoWhite(w) && word == C.Octets(w) && !C.GoesOn(more)
      && Split(head[..|head| - 4], CRLF)[0] == C.Octets(gap) + (word + more)
  }

  lemma FirstWordRead(head: Bytes, word: Bytes)
    requires StartsWith(head, word)
    ensures UnframedBody(head[..|head| - 4]) <==> word in OPEN_METHODS
  {
    hide C.Octets, C.AllWhite, C.NoWhite, C.GoesOn, SpaceFront, WordEnd, Split;
    var gap: seq<C.Scalar>, w: seq<C.Scalar>, more: Bytes :|
      && C.AllWhite(gap) && C.NoWhite(w) && word == C.Octets(w) && !C.GoesOn(more)
      && Split(head[..|head| - 4], CRLF)[0] == C.Octets(gap) + (word + more);
    C.WordsPastGap(gap, word + more);
    C.WordEndText(w, more);
    assert (word + more)[..|word|] == word;
  }

  /**
   A body that nothing announces. With one of the five methods it is all that comes
   until the client falls silent, within the limit; with any other there is none.
  */
  lemma OpenVerdicts(head: Bytes, word: Bytes, rest: Bytes, lim: Limits, idleEnd: bool)
    requires Announced(head, NoBody, lim) && StartsWith(head, word)
    ensures word !in OPEN_METHODS ==> Frame(head + rest, lim, idleEnd) == Take(head, |head|)
    ensures word in OPEN_METHODS ==>
      Frame(head + rest, lim, idleEnd)
        == if |rest| > lim.bodyBytes then Reject(PayloadTooLarge)
           else if idleEnd then Take(head + rest, |head + rest|) else NotYet
  {
    HeadApart(head, rest);
    FirstWordRead(head, word);
    hide Find, Utf8, BodyFramingOf, UnframedBody, StartsWith;
  }

  /** A chunked body: taken, refused or awaited as its decoder says. */
  lemma ChunkedVerdicts(head: Bytes, text: Bytes, status: Status, lim: Limits, idleEnd: bool)
    requires Announced(head, Chunked, lim) && |head| + |text| <= lim.usizeMax
    ensures Frame(head + text, lim, idleEnd) == Reject(status)
      <==> exists chunks, tail :: text == Text(chunks, tail) && FaultAfter(chunks, tail, |head|, 0, 0, lim, status)
  {
    DecoderRefusesFaults(text, |head|, status, lim);
    hide Text, FaultAfter, DecodeChunks, Utf8, BodyFramingOf, Find;
    FramesChunked(head, text, lim, idleEnd);
    hide Frame;
  }

  /** Whatever is framed whole is awaited while an octet of it is missing. */
  lemma PrefixesAreAwaited(sent: Bytes, raw: Bytes, k: nat, lim: Limits)
    requires Frame(sent, lim, false) == Take(raw, |sent|) && k < |sent|
    ensures Frame(sent[..k], lim, false).NotYet?
  {
    assert sent == sent[..k] + sent[k..];
    hide Frame;
    if !Frame(sent[..k], lim, false).NotYet? {
      FrameStable(sent[..k], sent[k..], lim);
    }
  }

  /** A head over the limit is refused as soon as it is, whether or not its end has arrived. */
  lemma LongHeadIsRefused(head: Bytes, rest: Bytes, k: nat, lim: Limits)
    requires IsHead(head) && |head| > lim.headerBytes && k <= |head + rest|
    ensures Frame((head + rest)[..k], lim, false)
      == if k > lim.headerBytes then Reject(HeaderFieldsTooLarge) else NotYet
  {
    HeadApart(head, rest);
    var b := head + rest;
    if k >= |head| {
      assert b[..k] == head + rest[..k - |head|];
      HeadIsRefused(head, rest[..k - |head|], lim, false);
    } else {
      assert b == b[..k] + b[k..];
      forall i: nat ensures !At(b[..k], BLANK, i) {
        AtAppend(b[..k], b[k..], BLANK, i);
      }
      hide Find;
      HeadIsAwaited(b[..k], lim, false);
    }
  }
}

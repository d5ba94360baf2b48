/**
 Deciding, on a buffer that grows with every read, whether it holds one whole
 request: `take_framed_request`.

 The functions work on unbounded numbers; `Session.Stream.TakeFramedRequest` runs
 the loop with the target's saturating and checked arithmetic and agrees with them.
*/
module Framing {
  import opened Wrappers
  import opened ByteText
  import opened Http
  import opened Fields

  /** `Take(raw, used)`: `raw` is a whole request and the first `used` octets are spent on it. */
  datatype Framed = NotYet | Reject(status: Status) | Take(raw: Bytes, used: nat)

  // ---------- chunked bodies ----------

  datatype SizeLine = SizeNotYet | SizeBad(status: Status) | Size(size: nat, width: nat)

  /** The size text of a chunk line: what precedes the extensions. */
  function SizeText(line: Bytes): Bytes {
    Trim(Split(line, ";")[0])
  }

  /** Reads a chunk-size line; `spent` is what earlier size lines used of the header limit. */
  function ReadSizeLine(rest: Bytes, spent: nat, lim: Limits): (line: SizeLine)
    ensures line.Size? ==> 2 <= line.width <= |rest|
  {
    match Find(rest, CRLF)
    case None => if |rest| > lim.headerBytes then SizeBad(HeaderFieldsTooLarge) else SizeNotYet
    case Some(n) =>
      if spent + n + 2 > lim.headerBytes then SizeBad(HeaderFieldsTooLarge)
      else if !Utf8(rest[..n]) || SizeText(rest[..n]) == "" then SizeBad(BadRequest)
      else
        match ParseNat(SizeText(rest[..n]), 16, U64_MAX)
        case None => SizeBad(BadRequest)
        case Some(size) => if size > lim.usizeMax then SizeBad(PayloadTooLarge) else Size(size, n + 2)
  }

  datatype Trailer = TrailerNotYet | TrailerBad(status: Status) | TrailerEnd(width: nat)

  /** Every trailer line is a field. */
  predicate TrailerFields(trailer: Bytes) {
    forall line | line in Split(trailer, CRLF) :: line == "" || ':' in line
  }

  function ReadTrailer(rest: Bytes, lim: Limits): (trailer: Trailer)
    ensures trailer.TrailerEnd? ==> 2 <= trailer.width <= |rest|
  {
    if |rest| < 2 then TrailerNotYet
    else if rest[..2] == CRLF then TrailerEnd(2)
    else
      match Find(rest, BLANK)
      case None => if |rest| > lim.headerBytes then TrailerBad(HeaderFieldsTooLarge) else TrailerNotYet
      case Some(n) =>
        if n + 4 > lim.headerBytes then TrailerBad(HeaderFieldsTooLarge)
        else if !Utf8(rest[..n]) || !TrailerFields(rest[..n]) then TrailerBad(BadRequest)
        else TrailerEnd(n + 4)
  }

  datatype ChunkStep =
    | StepNotYet
    | StepBad(status: Status)
    | DataChunk(data: Bytes, sizeWidth: nat)
    | LastChunk(width: nat)

  /** Octets of a data chunk: size line, data, line break. */
  function StepWidth(step: ChunkStep): nat
    requires step.DataChunk?
  {
    step.sizeWidth + |step.data| + 2
  }

  /** What follows a size line: data and its line break, or the trailer section. */
  function ReadSized(tail: Bytes, size: nat, width: nat, at: nat, have: nat, lim: Limits): (step: ChunkStep)
    ensures step.DataChunk? ==> step.data != "" && step.sizeWidth == width && |step.data| + 2 <= |tail|
    ensures step.LastChunk? ==> width + 2 <= step.width <= width + |tail|
  {
    if size == 0 then
      match ReadTrailer(tail, lim)
      case TrailerNotYet => StepNotYet
      case TrailerBad(status) => StepBad(status)
      case TrailerEnd(end) => LastChunk(width + end)
    else if have + size > lim.bodyBytes then StepBad(PayloadTooLarge)
    else if at + size + 2 > lim.usizeMax then StepBad(PayloadTooLarge)
    else if |tail| < size + 2 then StepNotYet
    else if tail[size..size + 2] != CRLF then StepBad(BadRequest)
    else DataChunk(tail[..size], width)
  }

  /** One chunk at octet `at` of the buffer, after chunks that carried `have` octets. */
  function ReadChunk(rest: Bytes, at: nat, have: nat, spent: nat, lim: Limits): (step: ChunkStep)
    ensures step.DataChunk? ==> step.data != "" && 2 <= step.sizeWidth && StepWidth(step) <= |rest|
    ensures step.LastChunk? ==> 4 <= step.width <= |rest|
  {
    match ReadSizeLine(rest, spent, lim)
    case SizeNotYet => StepNotYet
    case SizeBad(status) => StepBad(status)
    case Size(size, width) => ReadSized(rest[width..], size, width, at + width, have, lim)
  }

  datatype Scan = ScanNotYet | ScanBad(status: Status) | Decoded(payload: Bytes, end: nat)

  /**
   Decodes the chunks in `rest`, which starts at octet `at` of the buffer, after
   chunks that carried `payload` and spent `spent` octets of size lines.
  */
  function DecodeChunks(rest: Bytes, at: nat, payload: Bytes, spent: nat, lim: Limits): (scan: Scan)
    ensures scan.Decoded? ==> at < scan.end <= at + |rest|
    decreases |rest|
  {
    hide ReadChunk;
    var step := ReadChunk(rest, at, |payload|, spent, lim);
    match step
    case StepNotYet => ScanNotYet
    case StepBad(status) => ScanBad(status)
    case LastChunk(width) => Decoded(payload, at + width)
    case DataChunk(data, sizeWidth) =>
      DecodeChunks(rest[StepWidth(step)..], at + StepWidth(step), payload + data, spent + sizeWidth, lim)
  }

  // ---------- whole requests ----------

  /** Methods whose requests may carry a body that no header announces. */
  predicate UnframedBody(head: Bytes) {
    var words := Words(Split(head, CRLF)[0]);
    words != [] && words[0] in {"POST", "PUT", "DELETE", "PATCH", "QUERY"}
  }

  function FrameBody(b: Bytes, sep: nat, framing: BodyFraming, lim: Limits, idleEnd: bool): (framed: Framed)
    requires sep + 4 <= |b|
    ensures framed.Take? ==> 4 <= framed.used <= |b|
  {
    hide DecodeChunks, UnframedBody;
    var headEnd := sep + 4;
    match framing
    case NoBody =>
      if UnframedBody(b[..sep]) then
        if |b| - headEnd > lim.bodyBytes then Reject(PayloadTooLarge)
        else if idleEnd then Take(b, |b|)
        else NotYet
      else Take(b[..headEnd], headEnd)
    case Length(n) =>
      if n > lim.bodyBytes || headEnd + n > lim.usizeMax then Reject(PayloadTooLarge)
      else if |b| < headEnd + n then NotYet
      else Take(b[..headEnd + n], headEnd + n)
    case Chunked =>
      match DecodeChunks(b[headEnd..], headEnd, "", 0, lim)
      case ScanNotYet => NotYet
      case ScanBad(status) => Reject(status)
      case Decoded(payload, end) => Take(b[..headEnd] + payload, end)
  }

  /** The decision on buffer `b`; `idleEnd` says that no more octets will come. */
  function Frame(b: Bytes, lim: Limits, idleEnd: bool): (framed: Framed)
    ensures framed.Take? ==> 4 <= framed.used <= |b|
  {
    hide Utf8, BodyFramingOf, FrameBody;
    match Find(b, BLANK)
    case None => if |b| > lim.headerBytes then Reject(HeaderFieldsTooLarge) else NotYet
    case Some(sep) =>
      if sep + 4 > lim.headerBytes then Reject(HeaderFieldsTooLarge)
      else if !Utf8(b[..sep]) then Reject(BadRequest)
      else
        match BodyFramingOf(b[..sep], lim.usizeMax)
        case Err(status) => Reject(status)
        case Ok(framing) => FrameBody(b, sep, framing, lim, idleEnd)
  }

  // ---------- decisions are stable ----------

  lemma SizeLineStable(rest: Bytes, e: Bytes, spent: nat, lim: Limits)
    requires !ReadSizeLine(rest, spent, lim).SizeNotYet?
    ensures ReadSizeLine(rest + e, spent, lim) == ReadSizeLine(rest, spent, lim)
  {
    FindAppend(rest, e, CRLF);
    if Find(rest, CRLF).Some? {
      var n := Find(rest, CRLF).value;
      assert (rest + e)[..n] == rest[..n];
    }
  }

  lemma TrailerStable(rest: Bytes, e: Bytes, lim: Limits)
    requires !ReadTrailer(rest, lim).TrailerNotYet?
    ensures ReadTrailer(rest + e, lim) == ReadTrailer(rest, lim)
  {
    assert (rest + e)[..2] == rest[..2];
    FindAppend(rest, e, BLANK);
    if Find(rest, BLANK).Some? {
      var n := Find(rest, BLANK).value;
      assert (rest + e)[..n] == rest[..n];
    }
  }

  lemma SizedStable(tail: Bytes, e: Bytes, size: nat, width: nat, at: nat, have: nat, lim: Limits)
    requires !ReadSized(tail, size, width, at, have, lim).StepNotYet?
    ensures ReadSized(tail + e, size, width, at, have, lim) == ReadSized(tail, size, width, at, have, lim)
  {
    if size == 0 {
      TrailerStable(tail, e, lim);
    } else if |tail| >= size + 2 {
      assert (tail + e)[size..size + 2] == tail[size..size + 2];
      assert (tail + e)[..size] == tail[..size];
    }
    hide ReadTrailer;
  }

  lemma StepStable(rest: Bytes, e: Bytes, at: nat, have: nat, spent: nat, lim: Limits)
    requires !ReadChunk(rest, at, have, spent, lim).StepNotYet?
    ensures ReadChunk(rest + e, at, have, spent, lim) == ReadChunk(rest, at, have, spent, lim)
  {
    hide ReadSizeLine, ReadSized;
    SizeLineStable(rest, e, spent, lim);
    var line := ReadSizeLine(rest, spent, lim);
    if line.Size? {
      assert (rest + e)[line.width..] == rest[line.width..] + e;
      SizedStable(rest[line.width..], e, line.size, line.width, at + line.width, have, lim);
    }
  }

  lemma {:induction false} ChunksStable(rest: Bytes, e: Bytes, at: nat, payload: Bytes, spent: nat, lim: Limits)
    requires !DecodeChunks(rest, at, payload, spent, lim).ScanNotYet?
    ensures DecodeChunks(rest + e, at, payload, spent, lim) == DecodeChunks(rest, at, payload, spent, lim)
    decreases |rest|
  {
    hide ReadChunk;
    StepStable(rest, e, at, |payload|, spent, lim);
    var step := ReadChunk(rest, at, |payload|, spent, lim);
    if step.DataChunk? {
      var n := StepWidth(step);
      assert (rest + e)[n..] == rest[n..] + e;
      ChunksStable(rest[n..], e, at + n, payload + step.data, spent + step.sizeWidth, lim);
    }
  }

  /**
   A request once framed, and an error once reported, stay so however the
   buffer grows: the octets that follow are left over, untouched.
  */
  lemma FrameStable(b: Bytes, e: Bytes, lim: Limits)
    requires !Frame(b, lim, false).NotYet?
    ensures Frame(b + e, lim, false) == Frame(b, lim, false)
    ensures Frame(b, lim, false).Take? ==>
      (b + e)[Frame(b, lim, false).used..] == b[Frame(b, lim, false).used..] + e
  {
    FindAppend(b, e, BLANK);
    hide Find, Utf8, BodyFramingOf, FrameBody;
    if Find(b, BLANK).Some? {
      var sep := Find(b, BLANK).value;
      assert (b + e)[..sep] == b[..sep];
      var framing := BodyFramingOf(b[..sep], lim.usizeMax);
      if sep + 4 <= lim.headerBytes && Utf8(b[..sep]) && framing.Ok? {
        FrameBodyStable(b, e, sep, framing.value, lim);
      }
    }
  }

  lemma FrameBodyStable(b: Bytes, e: Bytes, sep: nat, framing: BodyFraming, lim: Limits)
    requires sep + 4 <= |b|
    requires !FrameBody(b, sep, framing, lim, false).NotYet?
    ensures FrameBody(b + e, sep, framing, lim, false) == FrameBody(b, sep, framing, lim, false)
  {
    hide DecodeChunks, UnframedBody;
    assert (b + e)[..sep] == b[..sep];
    assert (b + e)[..sep + 4] == b[..sep + 4];
    assert (b + e)[sep + 4..] == b[sep + 4..] + e;
    match framing
    case NoBody =>
    case Length(n) =>
      if sep + 4 + n <= |b| {
        assert (b + e)[..sep + 4 + n] == b[..sep + 4 + n];
      }
    case Chunked =>
      ChunksStable(b[sep + 4..], e, sep + 4, "", 0, lim);
  }

  // ---------- the request is split again where it was framed ----------

  lemma RawStartsWithHead(b: Bytes, lim: Limits, idleEnd: bool)
    requires Frame(b, lim, idleEnd).Take?
    ensures Find(b, BLANK).Some?
    ensures var head := b[..Find(b, BLANK).value + 4]; head <= Frame(b, lim, idleEnd).raw
  {
    hide Find, BodyFramingOf, Utf8, UnframedBody, DecodeChunks;
  }

  /** The head of a framed request ends where the parser will look for it. */
  lemma FramedHeadIsKept(b: Bytes, lim: Limits, idleEnd: bool)
    requires Frame(b, lim, idleEnd).Take?
    ensures Find(b, BLANK).Some?
    ensures Find(Frame(b, lim, idleEnd).raw, BLANK) == Find(b, BLANK)
    ensures var head := b[..Find(b, BLANK).value + 4]; head <= Frame(b, lim, idleEnd).raw
  {
    hide Frame, Find;
    RawStartsWithHead(b, lim, idleEnd);
    var raw := Frame(b, lim, idleEnd).raw;
    var head := b[..Find(b, BLANK).value + 4];
    FindTake(b, BLANK);
    assert raw == head + raw[|head|..];
    FindAppend(head, raw[|head|..], BLANK);
  }

  // ---------- the memory bound ----------

  /** The most octets a buffer can hold while its request is still incomplete. */
  function MemoryBound(lim: Limits): nat {
    3 * lim.headerBytes + 2 * (lim.headerBytes / 3) + lim.bodyBytes
  }

  /** A chunk-size line is at least one digit and a line break. */
  lemma SizeLineWidth(rest: Bytes, spent: nat, lim: Limits)
    ensures var line := ReadSizeLine(rest, spent, lim);
      line.Size? ==> 3 <= line.width <= |rest| && spent + line.width <= lim.headerBytes
  {
    if Find(rest, CRLF) == Some(0) {
      assert rest[..0] == "";
      assert Split("", ";") == [""];
    }
  }

  /** What one chunk may add, or lack, in terms of the two limits. */
  lemma StepBudget(rest: Bytes, at: nat, have: nat, spent: nat, lim: Limits)
    requires have <= lim.bodyBytes && spent <= lim.headerBytes && 4 <= lim.headerBytes
    ensures var step := ReadChunk(rest, at, have, spent, lim);
      && (step.StepNotYet? ==> spent + have + |rest| <= 2 * lim.headerBytes + lim.bodyBytes + 2)
      && (step.StepNotYet? && |rest| > lim.headerBytes ==> 3 <= lim.headerBytes - spent)
      && (step.DataChunk? ==>
            && 3 <= step.sizeWidth
            && spent + step.sizeWidth <= lim.headerBytes
            && have + |step.data| <= lim.bodyBytes)
  {
    SizeLineWidth(rest, spent, lim);
    hide ParseNat, Utf8, SizeText, TrailerFields;
  }

  lemma {:induction false} ChunksBounded(
      rest: Bytes, at: nat, payload: Bytes, spent: nat, lim: Limits, headEnd: nat, chunks: nat)
    requires 4 <= headEnd <= lim.headerBytes && |payload| <= lim.bodyBytes
    requires 3 * chunks <= spent <= lim.headerBytes
    requires at == headEnd + spent + |payload| + 2 * chunks
    requires DecodeChunks(rest, at, payload, spent, lim).ScanNotYet?
    ensures at + |rest| <= MemoryBound(lim)
    decreases |rest|
  {
    hide ReadChunk;
    StepBudget(rest, at, |payload|, spent, lim);
    var step := ReadChunk(rest, at, |payload|, spent, lim);
    if step.DataChunk? {
      var n := StepWidth(step);
      ChunksBounded(rest[n..], at + n, payload + step.data, spent + step.sizeWidth, lim, headEnd, chunks + 1);
    }
  }

  /** While the answer is "not yet", the buffer is bounded by the limits alone. */
  lemma NotYetIsBounded(b: Bytes, lim: Limits, idleEnd: bool)
    requires Frame(b, lim, idleEnd).NotYet?
    ensures |b| <= MemoryBound(lim)
  {
    hide Find, BodyFramingOf, Utf8, UnframedBody, DecodeChunks;
    if Find(b, BLANK).Some? {
      var sep := Find(b, BLANK).value;
      if BodyFramingOf(b[..sep], lim.usizeMax) == Ok(Chunked) {
        ChunksBounded(b[sep + 4..], sep + 4, "", 0, lim, sep + 4, 0);
      }
    }
  }
}

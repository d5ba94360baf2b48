/** How a message head announces its body: `extract_body_headers`. */
module Fields {
  import opened Wrappers
  import opened ByteText
  import opened Http

  datatype BodyFraming = NoBody | Length(n: nat) | Chunked

  // ---------- what one header line contributes ----------

  /** The line is a field of this name, whatever its letter case. */
  predicate IsField(line: Bytes, name: Bytes) {
    var field := SplitOnce(line, ":");
    field.Some? && SameText(field.value.0, name)
  }

  function FieldValue(line: Bytes): Bytes
    requires SplitOnce(line, ":").Some?
  {
    SplitOnce(line, ":").value.1
  }

  /** The length a Content-Length line states, if it states one. */
  function LengthIn(line: Bytes, max: nat): seq<nat> {
    if !IsField(line, "content-length") then []
    else match ParseNat(Trim(FieldValue(line)), 10, max)
      case None => []
      case Some(n) => [n]
  }

  function ToLower(s: Bytes): (t: Bytes)
    ensures |t| == |s|
  {
    seq(|s|, i requires 0 <= i < |s| => Lower(s[i]))
  }

  function Normalized(pieces: seq<Bytes>): (codings: seq<Bytes>)
    ensures |codings| == |pieces|
  {
    seq(|pieces|, i requires 0 <= i < |pieces| => ToLower(Trim(pieces[i])))
  }

  /** The codings a Transfer-Encoding line lists, in lower case. */
  function CodingsIn(line: Bytes): seq<Bytes> {
    if IsField(line, "transfer-encoding") then Normalized(Split(FieldValue(line), ",")) else []
  }

  /** Lines that spoil the head on their own. */
  predicate Malformed(line: Bytes, max: nat) {
    || SplitOnce(line, ":").None?
    || (IsField(line, "content-length") && LengthIn(line, max) == [])
    || "" in CodingsIn(line)
  }

  // ---------- what a head means ----------

  function FlatMap<T>(lines: seq<Bytes>, f: Bytes -> seq<T>): seq<T> {
    if lines == [] then [] else f(lines[0]) + FlatMap(lines[1..], f)
  }

  function LengthsWithin(max: nat): Bytes -> seq<nat> {
    line => LengthIn(line, max)
  }

  function Lengths(lines: seq<Bytes>, max: nat): seq<nat> {
    FlatMap(lines, LengthsWithin(max))
  }

  function Codings(lines: seq<Bytes>): seq<Bytes> {
    FlatMap(lines, CodingsIn)
  }

  predicate AnyMalformed(lines: seq<Bytes>, max: nat) {
    exists line | line in lines :: Malformed(line, max)
  }

  /**
   The framing a set of header lines calls for, stated without reading them in
   order: which lines are malformed, which lengths and which codings appear.
  */
  function FramingOf(lines: seq<Bytes>, max: nat): Result<BodyFraming, Status> {
    var lengths, codings := Lengths(lines, max), Codings(lines);
    if AnyMalformed(lines, max) || |lengths| > 1 then Err(BadRequest)
    else if lengths != [] && codings != [] then Err(BadRequest)
    else if codings == ["chunked"] then Ok(Chunked)
    else if codings != [] then Err(NotImplemented)
    else if lengths != [] then Ok(Length(lengths[0]))
    else Ok(NoBody)
  }

  function UntilEmpty(lines: seq<Bytes>): seq<Bytes> {
    if lines == [] || lines[0] == "" then [] else [lines[0]] + UntilEmpty(lines[1..])
  }

  /** The header lines of a head: all after the first, up to an empty one. */
  function HeaderLines(raw: Bytes): seq<Bytes> {
    UntilEmpty(Split(raw, CRLF)[1..])
  }

  function BodyFramingOf(raw: Bytes, max: nat): Result<BodyFraming, Status> {
    FramingOf(HeaderLines(raw), max)
  }

  /** The headers a parser reads off header lines: name, and value without leading space. */
  function ReadHeaders(lines: seq<Bytes>): seq<Header> {
    if lines == [] then []
    else
      (match SplitOnce(lines[0], ":")
       case None => []
       case Some((name, value)) => [(name, TrimStart(value))])
      + ReadHeaders(lines[1..])
  }

  // ---------- the order of header lines does not matter ----------

  lemma {:induction false} FlatMapConcat<T>(a: seq<Bytes>, b: seq<Bytes>, f: Bytes -> seq<T>)
    ensures FlatMap(a + b, f) == FlatMap(a, f) + FlatMap(b, f)
  {
    if a == [] {
      assert a + b == b;
    } else {
      assert (a + b)[1..] == a[1..] + b;
      FlatMapConcat(a[1..], b, f);
    }
  }

  lemma {:induction false} FlatMapPermuted<T>(a: seq<Bytes>, b: seq<Bytes>, f: Bytes -> seq<T>)
    requires multiset(a) == multiset(b)
    ensures multiset(FlatMap(a, f)) == multiset(FlatMap(b, f))
    decreases |a|
  {
    assert |a| == |multiset(a)| == |multiset(b)| == |b|;
    if a != [] {
      var x := a[0];
      assert x in multiset(a);
      var i :| 0 <= i < |b| && b[i] == x;
      var without := b[..i] + b[i + 1..];
      assert b == b[..i] + ([x] + b[i + 1..]);
      assert a == [x] + a[1..];
      assert multiset(a[1..]) == multiset(a) - multiset{x};
      assert multiset(without) == multiset(b[..i]) + multiset(b[i + 1..]);
      assert multiset(b) == multiset(b[..i]) + multiset([x] + b[i + 1..]);
      assert multiset(without) == multiset(b) - multiset{x};
      FlatMapPermuted(a[1..], without, f);
      FlatMapConcat(b[..i], [x] + b[i + 1..], f);
      FlatMapConcat(b[..i], b[i + 1..], f);
    }
  }

  lemma FramingPermuted(a: seq<Bytes>, b: seq<Bytes>, max: nat)
    requires multiset(a) == multiset(b)
    ensures FramingOf(a, max) == FramingOf(b, max)
  {
    FlatMapPermuted(a, b, LengthsWithin(max));
    FlatMapPermuted(a, b, CodingsIn);
    SameWhenShort(Lengths(a, max), Lengths(b, max));
    SameWhenShort(Codings(a), Codings(b));
    assert AnyMalformed(a, max) == AnyMalformed(b, max) by {
      SameMembers(a, b);
    }
  }

  lemma SameMembers<T>(a: seq<T>, b: seq<T>)
    requires multiset(a) == multiset(b)
    ensures forall x :: x in a <==> x in b
  {
    forall x ensures x in a <==> x in b {
      assert x in a <==> x in multiset(a);
      assert x in b <==> x in multiset(b);
    }
  }

  /** Permutations of at most one element are equal. */
  lemma SameWhenShort<T>(a: seq<T>, b: seq<T>)
    requires multiset(a) == multiset(b)
    ensures |a| == |b|
    ensures |a| <= 1 ==> a == b
  {
    assert |a| == |multiset(a)| == |multiset(b)| == |b|;
    if |a| == 1 {
      assert a[0] in multiset(a);
      assert a[0] in multiset(b);
    }
  }

  lemma {:induction false} UntilEmptyAll(lines: seq<Bytes>)
    requires "" !in lines
    ensures UntilEmpty(lines) == lines
  {
    if lines != [] {
      UntilEmptyAll(lines[1..]);
    }
  }

  /** The header lines of a head put together from non-empty lines are those lines. */
  lemma HeaderLinesOfJoin(lines: seq<Bytes>)
    requires |lines| > 0
    requires forall i | 0 <= i < |lines| :: FreeOf(lines[i], CRLF)
    requires "" !in lines[1..]
    ensures HeaderLines(Join(lines, CRLF)) == lines[1..]
  {
    SplitJoin(lines, CRLF);
    UntilEmptyAll(lines[1..]);
  }

  /**
   Section 5.3 of RFC 9110: reordering the header lines of a head changes
   neither the framing the server chooses nor the error it reports.
  */
  lemma FramingIgnoresFieldOrder(first: Bytes, a: seq<Bytes>, b: seq<Bytes>, max: nat)
    requires multiset(a) == multiset(b)
    requires FreeOf(first, CRLF)
    requires forall line | line in a :: line != "" && FreeOf(line, CRLF)
    ensures BodyFramingOf(Join([first] + a, CRLF), max) == BodyFramingOf(Join([first] + b, CRLF), max)
  {
    SameMembers(a, b);
    assert ([first] + a)[1..] == a && ([first] + b)[1..] == b;
    HeaderLinesOfJoin([first] + a);
    HeaderLinesOfJoin([first] + b);
    FramingPermuted(a, b, max);
  }

  // ---------- the loop the server runs ----------

  lemma FlatMapSnoc<T>(lines: seq<Bytes>, line: Bytes, f: Bytes -> seq<T>)
    ensures FlatMap(lines + [line], f) == FlatMap(lines, f) + f(line)
  {
    FlatMapConcat(lines, [line], f);
    assert FlatMap([line], f) == f(line) + FlatMap([], f);
  }

  /** A malformed line, or a second length, spoils the head whatever follows. */
  lemma EarlyReject(done: seq<Bytes>, line: Bytes, rest: seq<Bytes>, max: nat)
    requires Malformed(line, max) || (Lengths(done, max) != [] && IsField(line, "content-length"))
    ensures FramingOf(done + [line] + rest, max) == Err(BadRequest)
  {
    assert line in done + [line] + rest;
    FlatMapSnoc(done, line, LengthsWithin(max));
    FlatMapConcat(done + [line], rest, LengthsWithin(max));
  }

  method ExtractBodyHeaders(raw: Bytes, max: nat) returns (r: Result<BodyFraming, Status>)
    ensures r == BodyFramingOf(raw, max)
  {
    var contentLength: Option<nat> := None;
    var codings: seq<Bytes> := [];
    var lines := Split(raw, CRLF)[1..];
    ghost var done: seq<Bytes> := [];
    while lines != [] && lines[0] != ""
      invariant HeaderLines(raw) == done + UntilEmpty(lines)
      invariant Scanned(done, contentLength, codings, max)
      decreases |lines|
    {
      var bad;
      ghost var line, rest := lines[0], UntilEmpty(lines[1..]);
      assert done + UntilEmpty(lines) == done + [line] + rest;
      contentLength, codings, bad := ReadField(lines[0], contentLength, codings, max, done);
      if bad {
        EarlyReject(done, line, rest, max);
        return Err(BadRequest);
      }
      done, lines := done + [line], lines[1..];
    }
    assert done + UntilEmpty(lines) == done;
    r := ChooseFraming(contentLength, codings, max, done);
  }

  /** The verdict once every line has been read. */
  method ChooseFraming(contentLength: Option<nat>, codings: seq<Bytes>, max: nat, ghost done: seq<Bytes>)
    returns (r: Result<BodyFraming, Status>)
    requires Scanned(done, contentLength, codings, max)
    ensures r == FramingOf(done, max)
  {
    if contentLength.Some? && codings != [] {
      return Err(BadRequest);
    }
    if codings != [] {
      if |codings| != 1 || codings[0] != "chunked" {
        return Err(NotImplemented);
      }
      return Ok(Chunked);
    }
    r := if contentLength.Some? then Ok(Length(contentLength.value)) else Ok(NoBody);
  }

  /** What the loop knows of the lines it has read. */
  ghost predicate Scanned(done: seq<Bytes>, contentLength: Option<nat>, codings: seq<Bytes>, max: nat) {
    && !AnyMalformed(done, max)
    && Lengths(done, max) == (if contentLength.Some? then [contentLength.value] else [])
    && Codings(done) == codings
  }

  /** One turn of the loop; `bad` asks for an early 400. */
  method ReadField(line: Bytes, contentLength: Option<nat>, codings: seq<Bytes>, max: nat, ghost done: seq<Bytes>)
    returns (newLength: Option<nat>, newCodings: seq<Bytes>, bad: bool)
    requires Scanned(done, contentLength, codings, max)
    ensures bad <==> Malformed(line, max) || (Lengths(done, max) != [] && IsField(line, "content-length"))
    ensures !bad ==> Scanned(done + [line], newLength, newCodings, max)
  {
    newLength, newCodings, bad := contentLength, codings, false;
    FlatMapSnoc(done, line, LengthsWithin(max));
    FlatMapSnoc(done, line, CodingsIn);
    var field := SplitOnce(line, ":");
    if field.None? {
      bad := true;
      return;
    }
    var (name, value) := field.value;
    if SameText(name, "content-length") {
      NotBoth(name);
      if contentLength.Some? {
        bad := true;
        return;
      }
      newLength := ParseNat(Trim(value), 10, max);
      bad := newLength.None?;
    } else if SameText(name, "transfer-encoding") {
      newCodings, bad := PushCodings(codings, value);
    }
  }

  lemma NotBoth(name: Bytes)
    requires SameText(name, "content-length")
    ensures !SameText(name, "transfer-encoding")
  {
    assert |name| == |"content-length"|;
  }

  /** The inner loop over one Transfer-Encoding value. */
  method PushCodings(codings: seq<Bytes>, value: Bytes) returns (listed: seq<Bytes>, bad: bool)
    ensures bad <==> "" in Normalized(Split(value, ","))
    ensures !bad ==> listed == codings + Normalized(Split(value, ","))
  {
    hide Split, Trim;
    listed := codings;
    var pieces := Split(value, ",");
    ghost var all := Normalized(pieces);
    var j := 0;
    while j < |pieces|
      invariant 0 <= j <= |pieces|
      invariant listed == codings + all[..j]
      invariant "" !in all[..j]
    {
      var coding := Trim(pieces[j]);
      assert all[j] == ToLower(coding);
      if coding == "" {
        return listed, true;
      }
      listed := listed + [ToLower(coding)];
      j := j + 1;
    }
    bad := false;
  }
}

/**
 Which body a head announces, stated on its lines: what makes a line a length or a
 coding, and which lines together call for which framing or which error.
*/
module HeadVerdicts {
  import opened Wrappers
  import opened ByteText
  import opened Http
  import opened Fields
  import opened Numerals

  // ---------- lines ----------

  /** The line is a field: a name, the first colon, a value. */
  predicate FieldOf(line: Bytes, name: Bytes, value: Bytes) {
    ':' !in name && line == name + ":" + value
  }

  /** The line is a field of this name, in any letter case. */
  ghost predicate Named(line: Bytes, wanted: Bytes) {
    exists name, value :: FieldOf(line, name, value) && SameText(name, wanted)
  }

  ghost predicate LengthLine(line: Bytes) {
    Named(line, "content-length")
  }

  ghost predicate CodingLine(line: Bytes) {
    Named(line, "transfer-encoding")
  }

  /** The line is a length field whose trimmed value is the number `n`. */
  ghost predicate States(line: Bytes, n: nat, max: nat) {
    exists name, value ::
      FieldOf(line, name, value) && SameText(name, "content-length") && Spells(Trim(value), 10, n) && n <= max
  }

  /** The line is a coding field, and `element` one of its comma-separated elements, trimmed. */
  ghost predicate Lists(line: Bytes, element: Bytes) {
    exists name, value, piece ::
      && FieldOf(line, name, value) && SameText(name, "transfer-encoding")
      && PieceOf(piece, value, ',') && element == Trim(piece)
  }

  /** The line is a coding field whose one element is "chunked". */
  ghost predicate SaysChunked(line: Bytes) {
    exists name, value ::
      && FieldOf(line, name, value) && SameText(name, "transfer-encoding")
      && ',' !in value && SameText(Trim(value), "chunked")
  }

  // ---------- sets of lines ----------

  /** Lines that a server must not make sense of. */
  ghost predicate Bad(lines: seq<Bytes>, max: nat) {
    || (exists line | line in lines :: ':' !in line)
    || (exists line | line in lines :: LengthLine(line) && forall n: nat :: !States(line, n, max))
    || (exists line | line in lines :: Lists(line, ""))
    || (exists i, j | 0 <= i < j < |lines| :: LengthLine(lines[i]) && LengthLine(lines[j]))
    || (exists a, b | a in lines && b in lines :: LengthLine(a) && CodingLine(b))
  }

  ghost predicate OnlyChunked(lines: seq<Bytes>) {
    exists i | 0 <= i < |lines| ::
      SaysChunked(lines[i]) && forall j | 0 <= j < |lines| && CodingLine(lines[j]) :: j == i
  }

  // ---------- what the functions read in a line ----------

  lemma ColonSplit(line: Bytes)
    ensures SplitOnce(line, ":").None? <==> ':' !in line
    ensures SplitOnce(line, ":").Some? ==> FieldOf(line, SplitOnce(line, ":").value.0, SplitOnce(line, ":").value.1)
    ensures forall name, value | FieldOf(line, name, value) :: SplitOnce(line, ":") == Some((name, value))
  {
    FirstOctet(line, ':');
    assert ":" == [':'];
    forall name, value | FieldOf(line, name, value) ensures SplitOnce(line, ":") == Some((name, value)) {
      OneOctet(name, ':');
      FindAfter(name, ":", value);
      assert line[..|name|] == name && line[|name| + 1..] == value;
    }
    hide Find;
    if Find(line, ":").Some? {
      var i := Find(line, ":").value;
      assert line == line[..i] + ":" + line[i + 1..];
    }
  }

  lemma NamedIsField(line: Bytes, name: Bytes)
    ensures Named(line, name) <==> IsField(line, name)
  {
    ColonSplit(line);
    hide SplitOnce, SameText, FieldOf;
  }

  lemma LengthIsStated(line: Bytes, max: nat)
    ensures forall n: nat :: States(line, n, max) <==> LengthIn(line, max) == [n]
    ensures LengthIn(line, max) != [] ==> exists n :: LengthIn(line, max) == [n]
  {
    ColonSplit(line);
    hide SplitOnce, SameText, FieldOf, Trim, ParseNat, Spells;
    forall n: nat ensures States(line, n, max) <==> LengthIn(line, max) == [n] {
      if IsField(line, "content-length") {
        NumberExactly(Trim(FieldValue(line)), 10, max, n);
      }
    }
  }

  lemma ElementIsListed(line: Bytes)
    ensures Lists(line, "") <==> "" in CodingsIn(line)
    ensures CodingsIn(line) != [] <==> CodingLine(line)
  {
    ColonSplit(line);
    NamedIsField(line, "transfer-encoding");
    hide SplitOnce, SameText, FieldOf, Trim, Split, PieceOf;
    if IsField(line, "transfer-encoding") {
      var value := FieldValue(line);
      assert "," == [','];
      forall piece ensures piece in Split(value, ",") <==> PieceOf(piece, value, ',') {
        SplitExactly(value, ',', piece);
      }
      EmptyIsNormalized(Split(value, ","));
    }
  }

  lemma EmptyIsNormalized(pieces: seq<Bytes>)
    ensures "" in Normalized(pieces) <==> exists piece | piece in pieces :: Trim(piece) == ""
  {
    hide Trim, Lower;
    var all := Normalized(pieces);
    assert forall i | 0 <= i < |pieces| :: all[i] == ToLower(Trim(pieces[i]));
    if piece :| piece in pieces && Trim(piece) == "" {
      var i :| 0 <= i < |pieces| && pieces[i] == piece;
      assert all[i] == "";
    }
  }

  lemma ChunkedText()
    ensures forall i | 0 <= i < |"chunked"| :: Lower("chunked"[i]) == "chunked"[i]
  {
  }

  lemma LowerIsChunked(s: Bytes)
    ensures ToLower(s) == "chunked" <==> SameText(s, "chunked")
  {
    hide Lower;
    ChunkedText();
    var low := ToLower(s);
    assert forall i | 0 <= i < |s| :: low[i] == Lower(s[i]);
  }

  lemma OnePiece(value: Bytes)
    ensures ',' !in value ==> Split(value, ",") == [value]
    ensures |Split(value, ",")| == 1 ==> ',' !in value
  {
    FirstOctet(value, ',');
    assert "," == [','];
    hide Find;
  }

  lemma ChunkedIsSaid(line: Bytes)
    ensures SaysChunked(line) <==> CodingsIn(line) == ["chunked"]
  {
    ColonSplit(line);
    hide SplitOnce, SameText, FieldOf, Trim, Split, ToLower;
    if IsField(line, "transfer-encoding") {
      var value := FieldValue(line);
      OnePiece(value);
      LowerIsChunked(Trim(value));
      var all := Normalized(Split(value, ","));
      assert |all| == |Split(value, ",")|;
      if |all| == 1 {
        assert all[0] == ToLower(Trim(Split(value, ",")[0]));
      }
      assert "chunked" == ["chunked"][0];
    }
  }

  // ---------- what they gather from all lines ----------

  lemma {:induction false} GatheredNone<T>(lines: seq<Bytes>, f: Bytes -> seq<T>)
    ensures FlatMap(lines, f) == [] <==> forall line | line in lines :: f(line) == []
  {
    if lines != [] {
      GatheredNone(lines[1..], f);
      assert lines == [lines[0]] + lines[1..];
    }
  }

  /** Just `x` is gathered when one line gives it and the others give nothing. */
  ghost predicate OneGives<T>(lines: seq<Bytes>, f: Bytes -> seq<T>, x: T, i: nat) {
    i < |lines| && f(lines[i]) == [x] && forall j | 0 <= j < |lines| && j != i :: f(lines[j]) == []
  }

  lemma GatheredFromOne<T>(lines: seq<Bytes>, f: Bytes -> seq<T>, x: T, i: nat)
    requires OneGives(lines, f, x, i)
    ensures FlatMap(lines, f) == [x]
  {
    assert lines == lines[..i] + ([lines[i]] + lines[i + 1..]);
    FlatMapConcat(lines[..i], [lines[i]] + lines[i + 1..], f);
    FlatMapConcat([lines[i]], lines[i + 1..], f);
    GatheredNone(lines[..i], f);
    GatheredNone(lines[i + 1..], f);
    assert [lines[i]][1..] == [];
  }

  lemma {:induction false} GatheredOne<T>(lines: seq<Bytes>, f: Bytes -> seq<T>, x: T) returns (i: nat)
    requires FlatMap(lines, f) == [x]
    ensures OneGives(lines, f, x, i)
  {
    if f(lines[0]) == [] {
      i := GatheredOne(lines[1..], f, x);
      assert forall j | 1 <= j < |lines| :: lines[j] == lines[1..][j - 1];
      i := i + 1;
    } else {
      i := 0;
      assert f(lines[0]) == FlatMap(lines, f)[..|f(lines[0])|];
      assert FlatMap(lines[1..], f) == FlatMap(lines, f)[|f(lines[0])|..];
      GatheredNone(lines[1..], f);
      assert forall j | 1 <= j < |lines| :: lines[j] == lines[1..][j - 1];
    }
  }

  lemma {:induction false} GatheredTwo<T>(lines: seq<Bytes>, f: Bytes -> seq<T>)
    requires forall line :: |f(line)| <= 1
    ensures |FlatMap(lines, f)| > 1
      <==> exists i, j | 0 <= i < j < |lines| :: f(lines[i]) != [] && f(lines[j]) != []
  {
    if lines != [] {
      var rest := lines[1..];
      GatheredTwo(rest, f);
      GatheredNone(rest, f);
      assert forall j | 1 <= j < |lines| :: lines[j] == rest[j - 1];
      if i, j :| 0 <= i < j < |rest| && f(rest[i]) != [] && f(rest[j]) != [] {
        assert lines[i + 1] == rest[i] && lines[j + 1] == rest[j];
      }
      if f(lines[0]) != [] && FlatMap(rest, f) != [] {
        var j :| 0 <= j < |rest| && f(rest[j]) != [];
        assert lines[j + 1] == rest[j];
      }
    }
  }

  // ---------- the verdicts ----------

  /** What a line is, in the words of the functions. */
  ghost predicate ReadRight(line: Bytes, max: nat) {
    && (Malformed(line, max) <==> ':' !in line || (LengthLine(line) && LengthIn(line, max) == []) || Lists(line, ""))
    && (forall n: nat :: States(line, n, max) <==> LengthIn(line, max) == [n])
    && (LengthIn(line, max) != [] ==> LengthLine(line) && |LengthIn(line, max)| == 1)
    && (LengthIn(line, max) == [] <==> forall n: nat :: !States(line, n, max))
    && (CodingsIn(line) != [] <==> CodingLine(line))
    && (SaysChunked(line) <==> CodingsIn(line) == ["chunked"])
  }

  lemma LineIsRead(line: Bytes, max: nat)
    ensures ReadRight(line, max)
  {
    ColonSplit(line);
    NamedIsField(line, "content-length");
    LengthIsStated(line, max);
    ElementIsListed(line);
    ChunkedIsSaid(line);
    hide SplitOnce, SameText, FieldOf, Trim, ParseNat, States, Lists, CodingLine, CodingsIn, SaysChunked, Named;
  }

  lemma LinesAreRead(lines: seq<Bytes>, max: nat)
    ensures forall line | line in lines :: ReadRight(line, max)
  {
    hide ReadRight;
    forall line | line in lines ensures ReadRight(line, max) {
      LineIsRead(line, max);
    }
  }

  lemma AtMostOneLength(line: Bytes, max: nat)
    ensures |LengthIn(line, max)| <= 1
  {
    hide ParseNat, Trim, IsField;
  }

  /** Two lines that state lengths, or a line that states one and a line that lists codings. */
  lemma LengthsClash(lines: seq<Bytes>, max: nat)
    requires !AnyMalformed(lines, max) && forall line | line in lines :: ReadRight(line, max)
    ensures |Lengths(lines, max)| > 1
      <==> exists i, j | 0 <= i < j < |lines| :: LengthLine(lines[i]) && LengthLine(lines[j])
    ensures Lengths(lines, max) != [] <==> exists line | line in lines :: LengthLine(line)
    ensures Codings(lines) != [] <==> exists line | line in lines :: CodingLine(line)
  {
    hide LengthIn, CodingsIn, LengthLine, CodingLine, States, Lists, SaysChunked;
    forall line ensures |LengthsWithin(max)(line)| <= 1 {
      AtMostOneLength(line, max);
    }
    GatheredTwo(lines, LengthsWithin(max));
    GatheredNone(lines, LengthsWithin(max));
    GatheredNone(lines, CodingsIn);
    forall line | line in lines ensures LengthLine(line) <==> LengthsWithin(max)(line) != [] {
      assert ReadRight(line, max) && !Malformed(line, max);
    }
    hide Malformed;
    assert forall i | 0 <= i < |lines| :: lines[i] in lines;
  }

  lemma BadIsRefused(lines: seq<Bytes>, max: nat)
    ensures Bad(lines, max)
      <==> AnyMalformed(lines, max) || |Lengths(lines, max)| > 1 || (Lengths(lines, max) != [] && Codings(lines) != [])
  {
    hide LengthIn, CodingsIn, LengthLine, CodingLine, States, Lists, SaysChunked, Lengths, Codings;
    LinesAreRead(lines, max);
    forall line | line in lines
      ensures Malformed(line, max)
        <==> ':' !in line || (LengthLine(line) && forall n: nat :: !States(line, n, max)) || Lists(line, "")
    {
      assert ReadRight(line, max);
    }
    if !AnyMalformed(lines, max) {
      LengthsClash(lines, max);
    }
    hide ReadRight, Malformed;
  }

  lemma StatedLength(lines: seq<Bytes>, max: nat, n: nat)
    requires |Lengths(lines, max)| <= 1
    ensures Lengths(lines, max) == [n] <==> exists line | line in lines :: States(line, n, max)
  {
    LinesAreRead(lines, max);
    GatheredNone(lines, LengthsWithin(max));
    hide LengthIn, States, CodingsIn, Malformed, LengthLine, CodingLine, Lists, SaysChunked;
    if |Lengths(lines, max)| == 1 {
      var m := Lengths(lines, max)[0];
      var i := GatheredOne(lines, LengthsWithin(max), m);
      assert lines[i] in lines;
      if line :| line in lines && States(line, n, max) {
        var k :| 0 <= k < |lines| && lines[k] == line;
        assert LengthsWithin(max)(line) == [n];
        assert k == i;
      }
    }
  }

  lemma ChunkedOnly(lines: seq<Bytes>, max: nat)
    ensures Codings(lines) == ["chunked"] <==> OnlyChunked(lines)
  {
    LinesAreRead(lines, max);
    hide LengthIn, States, CodingsIn, Malformed, LengthLine, CodingLine, Lists, SaysChunked;
    assert forall i | 0 <= i < |lines| :: lines[i] in lines;
    if Codings(lines) == ["chunked"] {
      var i := GatheredOne(lines, CodingsIn, "chunked");
      assert ReadRight(lines[i], max);
      forall j | 0 <= j < |lines| && CodingLine(lines[j]) ensures j == i {
        assert ReadRight(lines[j], max);
      }
    }
    if OnlyChunked(lines) {
      var i :|
        0 <= i < |lines| && SaysChunked(lines[i]) && forall j | 0 <= j < |lines| && CodingLine(lines[j]) :: j == i;
      forall j | 0 <= j < |lines| && j != i ensures CodingsIn(lines[j]) == [] {
        assert ReadRight(lines[j], max);
      }
      assert ReadRight(lines[i], max);
      GatheredFromOne(lines, CodingsIn, "chunked", i);
    }
  }

  /**
   The body a head announces, verdict by verdict: 400 for lines that contradict one
   another or themselves, a length when one is stated, chunks when that is the one
   coding, 501 for any other coding, and no body without either.
  */
  lemma VerdictOnLines(lines: seq<Bytes>, max: nat)
    ensures FramingOf(lines, max) == Err(BadRequest) <==> Bad(lines, max)
    ensures forall n: nat ::
      FramingOf(lines, max) == Ok(Length(n)) <==> (
        !Bad(lines, max) && exists line | line in lines :: States(line, n, max))
    ensures FramingOf(lines, max) == Ok(NoBody)
      <==> !Bad(lines, max) && forall line | line in lines :: !LengthLine(line) && !CodingLine(line)
    ensures FramingOf(lines, max) == Ok(Chunked) <==> !Bad(lines, max) && OnlyChunked(lines)
    ensures FramingOf(lines, max) == Err(NotImplemented)
      <==> !Bad(lines, max) && !OnlyChunked(lines) && exists line | line in lines :: CodingLine(line)
  {
    hide Bad, OnlyChunked, LengthLine, CodingLine, States, Lengths, Codings, AnyMalformed;
    BadIsRefused(lines, max);
    ChunkedOnly(lines, max);
    if !Bad(lines, max) {
      LinesAreRead(lines, max);
      LengthsClash(lines, max);
      forall n: nat ensures Lengths(lines, max) == [n] <==> exists line | line in lines :: States(line, n, max) {
        StatedLength(lines, max, n);
      }
    }
    hide ReadRight;
  }

  // ---------- the lines of a head ----------

  lemma {:induction false} UntilEmptyStops(lines: seq<Bytes>, more: seq<Bytes>)
    requires "" !in lines
    ensures UntilEmpty(lines + [""] + more) == lines
  {
    if lines == [] {
      assert lines + [""] + more == [""] + more;
    } else {
      assert (lines + [""] + more)[1..] == lines[1..] + [""] + more;
      UntilEmptyStops(lines[1..], more);
    }
  }

  /** The header lines are those after the first, up to an empty one. */
  lemma HeaderLinesStop(first: Bytes, lines: seq<Bytes>, more: seq<Bytes>)
    requires "" !in lines && forall line | line in [first] + lines + more :: FreeOf(line, CRLF)
    ensures HeaderLines(Join([first] + lines + [""] + more, CRLF)) == lines
  {
    hide FreeOf, Join, Split, UntilEmpty;
    var all := [first] + lines + [""] + more;
    NothingIsFree();
    assert forall line | line in all :: line in [first] + lines + more || line == "";
    SplitJoin(all, CRLF);
    assert all[1..] == lines + [""] + more;
    UntilEmptyStops(lines, more);
  }

  lemma NothingIsFree()
    ensures FreeOf("", CRLF)
  {
    LineFree("");
  }
}

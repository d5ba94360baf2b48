/**
 The lines of a chunked body in the terms of the standard, and that the server's
 scanning functions read just these: section 7.1 of RFC 9112, with the white space
 and the plus sign that the server also accepts.
*/
module SizeLines {
  import opened Wrappers
  import opened ByteText
  import opened Http
  import opened Framing
  import C = Characters
  import opened Numerals

  // ---------- size lines ----------

  /** White space, a hexadecimal number, white space, extensions. */
  datatype SizeParts = SizeParts(lead: seq<C.Scalar>, number: Bytes, trail: seq<C.Scalar>, ext: Bytes)

  ghost predicate PartsOk(p: SizeParts, size: nat) {
    && C.AllWhite(p.lead) && C.AllWhite(p.trail) && Spells(p.number, 16, size)
    && (p.ext == "" || p.ext[0] == ';') && Utf8(p.ext)
  }

  function PartsText(p: SizeParts): Bytes {
    C.Octets(p.lead) + p.number + C.Octets(p.trail) + p.ext
  }

  /** The line announces a chunk of this size. */
  ghost predicate Announces(line: Bytes, size: nat) {
    FreeOf(line, CRLF) && size <= U64_MAX && exists p :: PartsOk(p, size) && line == PartsText(p)
  }

  lemma {:induction false} AsciiScalars(s: Bytes) returns (cs: seq<C.Scalar>)
    requires Ascii(s)
    ensures |cs| == |s| && (forall i | 0 <= i < |s| :: cs[i] == s[i] as int) && C.Octets(cs) == s
  {
    if s == "" {
      cs := [];
    } else {
      assert s[0] < 0x80 as char;
      var rest := AsciiScalars(s[1..]);
      cs := [s[0] as int] + rest;
      assert cs[1..] == rest;
      assert C.Encode(s[0] as int) == [s[0]];
      assert s == [s[0]] + s[1..];
    }
  }

  /** The characters of a number: no white space, no semicolon, all ASCII. */
  predicate NumberChar(c: char) {
    c == '+' || '0' <= c <= '9' || 'A' <= c <= 'F' || 'a' <= c <= 'f'
  }

  lemma WrittenIsPlain(g: Glyph)
    requires g.digit < 16
    ensures NumberChar(Written(g))
  {
    WrittenAt(g.digit);
  }

  lemma NumberIsPlain(number: Bytes, size: nat)
    requires Spells(number, 16, size)
    ensures number != "" && forall i | 0 <= i < |number| :: NumberChar(number[i])
  {
    hide Written, NumberChar, Worth;
    var plus, gs :| Glyphs(gs, 16) && number == Sign(plus) + Spell(gs) && size == Worth(gs, 16);
    forall i | 0 <= i < |number| ensures NumberChar(number[i]) {
      var k := i - |Sign(plus)|;
      if k >= 0 {
        assert number[i] == Spell(gs)[k] && gs[k] in gs;
        WrittenIsPlain(gs[k]);
      } else {
        PlusIsPlain();
      }
    }
  }

  lemma PlusIsPlain()
    ensures NumberChar('+')
  {
  }

  lemma NumberScalars(number: Bytes, size: nat) returns (cs: seq<C.Scalar>)
    requires Spells(number, 16, size)
    ensures C.Octets(cs) == number && C.Solid(cs) && ';' !in number && Utf8(number)
  {
    NumberIsPlain(number, size);
    PlainIsAscii(number);
    hide Spells, Utf8, C.Octets, NumberChar;
    cs := AsciiScalars(number);
    AsciiIsUtf8(number);
    PlainIsSolid(number, cs);
  }

  lemma PlainIsAscii(number: Bytes)
    requires forall i | 0 <= i < |number| :: NumberChar(number[i])
    ensures Ascii(number) && ';' !in number
  {
    forall i | 0 <= i < |number| ensures number[i] < 0x80 as char && number[i] != ';' {
      assert NumberChar(number[i]);
    }
  }

  lemma PlainIsSolid(number: Bytes, cs: seq<C.Scalar>)
    requires number != "" && |cs| == |number| && forall i | 0 <= i < |number| :: cs[i] == number[i] as int
    requires forall i | 0 <= i < |number| :: NumberChar(number[i])
    ensures C.Solid(cs)
  {
    assert NumberChar(number[0]) && NumberChar(number[|number| - 1]);
  }

  lemma {:induction false} WhiteIsPlain(cs: seq<C.Scalar>)
    requires C.AllWhite(cs)
    ensures ';' !in C.Octets(cs)
  {
    if cs != [] {
      assert C.White(cs[0]);
      OneWhite(cs[0]);
      hide C.Encode, C.White;
      WhiteIsPlain(cs[1..]);
    }
  }

  lemma OneWhite(c: C.Scalar)
    requires C.White(c)
    ensures ';' !in C.Encode(c)
  {
  }

  /** What precedes the first semicolon. */
  lemma FirstPart(front: Bytes, ext: Bytes)
    requires ';' !in front && (ext == "" || ext[0] == ';')
    ensures Split(front + ext, ";")[0] == front
  {
    assert ";" == [';'];
    OneOctet(front, ';');
    if ext == "" {
      assert front + ext == front;
    } else {
      assert front + ext == front + ";" + ext[1..];
      FindAfter(front, ";", ext[1..]);
      assert (front + ext)[..|front|] == front;
    }
    hide Find;
  }

  lemma AnnouncedIsRead(line: Bytes, size: nat)
    requires Announces(line, size)
    ensures FreeOf(line, CRLF) && Utf8(line) && ParseNat(SizeText(line), 16, U64_MAX) == Some(size)
  {
    var p :| PartsOk(p, size) && line == PartsText(p);
    var number := NumberScalars(p.number, size);
    WhiteIsPlain(p.lead);
    WhiteIsPlain(p.trail);
    var front := C.Octets(p.lead) + p.number + C.Octets(p.trail);
    FirstPart(front, p.ext);
    C.TrimText(p.lead, number, p.trail);
    NumberExactly(p.number, 16, U64_MAX, size);
    C.TextIsUtf8(p.lead);
    C.TextIsUtf8(p.trail);
    hide Utf8, ParseNat, Spells, C.Octets, FreeOf, Split, Trim;
    Utf8Append(C.Octets(p.lead), p.number);
    Utf8Append(C.Octets(p.lead) + p.number, C.Octets(p.trail));
    Utf8Append(front, p.ext);
  }

  /** Text splits into text where an ASCII character stands. */
  lemma {:induction false} CutAtAscii(cs: seq<C.Scalar>, i: nat) returns (k: nat)
    requires i < |C.Octets(cs)| && C.Octets(cs)[i] < 0x80 as char
    ensures k <= |cs| && C.Octets(cs)[..i] == C.Octets(cs[..k]) && C.Octets(cs)[i..] == C.Octets(cs[k..])
  {
    var n := |C.Encode(cs[0])|;
    if i == 0 {
      k := 0;
      assert cs[0..] == cs;
    } else {
      FirstOctets(cs);
      hide C.Encode;
      k := CutAtAscii(cs[1..], i - n);
      k := k + 1;
      CutLater(cs, k, C.Encode(cs[0]), C.Octets(cs[1..]), i);
    }
  }

  lemma CutLater(cs: seq<C.Scalar>, k: nat, first: Bytes, more: Bytes, i: nat)
    requires 0 < k <= |cs| && first == C.Encode(cs[0]) && more == C.Octets(cs[1..]) && |first| <= i <= |first| + |more|
    requires more[..i - |first|] == C.Octets(cs[1..][..k - 1]) && more[i - |first|..] == C.Octets(cs[1..][k - 1..])
    ensures (first + more)[..i] == C.Octets(cs[..k]) && (first + more)[i..] == C.Octets(cs[k..])
  {
    hide C.Encode;
    assert cs[..k] == [cs[0]] + cs[1..][..k - 1];
    assert cs[..k][1..] == cs[1..][..k - 1];
    assert cs[k..] == cs[1..][k - 1..];
  }

  lemma FirstOctets(cs: seq<C.Scalar>)
    requires cs != []
    ensures C.Octets(cs) == C.Encode(cs[0]) + C.Octets(cs[1..])
    ensures forall j | 0 < j < |C.Encode(cs[0])| :: C.Octets(cs)[j] >= 0x80 as char
  {
    EncodedOctets(cs[0]);
    hide C.Encode;
    assert forall j | 0 < j < |C.Encode(cs[0])| :: C.Octets(cs)[j] == C.Encode(cs[0])[j];
  }

  lemma EncodedOctets(c: C.Scalar)
    ensures forall j | 0 < j < |C.Encode(c)| :: C.Encode(c)[j] >= 0x80 as char
  {
    forall j | 0 < j < |C.Encode(c)| ensures C.Encode(c)[j] >= 0x80 as char {
      C.LaterOctets(c, j);
    }
  }

  lemma CutUtf8(s: Bytes, i: nat)
    requires Utf8(s) && i < |s| && s[i] < 0x80 as char
    ensures Utf8(s[..i]) && Utf8(s[i..])
  {
    var cs := C.Utf8IsText(s);
    var k := CutAtAscii(cs, i);
    C.TextIsUtf8(cs[..k]);
    C.TextIsUtf8(cs[k..]);
  }

  lemma FrontAndExtension(line: Bytes) returns (front: Bytes, ext: Bytes)
    requires Utf8(line)
    ensures line == front + ext && front == Split(line, ";")[0] && (ext == "" || ext[0] == ';')
    ensures Utf8(front) && Utf8(ext)
  {
    FirstOctet(line, ';');
    assert ";" == [';'];
    hide Find, Utf8;
    match Find(line, ";")
    case None =>
      front, ext := line, "";
      NothingIsUtf8();
    case Some(i) =>
      front, ext := line[..i], line[i..];
      CutUtf8(line, i);
  }

  lemma NothingIsUtf8()
    ensures Utf8("")
  {
  }

  lemma ReadIsAnnounced(line: Bytes, size: nat)
    requires FreeOf(line, CRLF) && Utf8(line) && ParseNat(SizeText(line), 16, U64_MAX) == Some(size)
    ensures Announces(line, size)
  {
    hide Utf8, Split, Trim, FreeOf, ParseNat, C.Octets, C.AllWhite, C.Solid;
    var front, ext := FrontAndExtension(line);
    var cs := C.Utf8IsText(front);
    var lead, core, trail := C.TrimParts(cs);
    C.TextConcat(lead + core, trail);
    C.TextConcat(lead, core);
    C.TrimText(lead, core, trail);
    NumberExactly(C.Octets(core), 16, U64_MAX, size);
    hide Spells;
    var p := SizeParts(lead, C.Octets(core), trail, ext);
    assert PartsOk(p, size) && line == PartsText(p);
  }

  /** The server reads a size off a line exactly when the line announces it. */
  lemma AnnouncesIsRead(line: Bytes, size: nat)
    ensures Announces(line, size)
      <==> FreeOf(line, CRLF) && Utf8(line) && ParseNat(SizeText(line), 16, U64_MAX) == Some(size)
  {
    hide Announces, FreeOf, Utf8, ParseNat, SizeText;
    if Announces(line, size) {
      AnnouncedIsRead(line, size);
    }
    if FreeOf(line, CRLF) && Utf8(line) && ParseNat(SizeText(line), 16, U64_MAX) == Some(size) {
      ReadIsAnnounced(line, size);
    }
  }

  // ---------- trailer sections ----------

  /** A trailer line is a field that stays on its line. */
  ghost predicate TrailerLineOk(line: Bytes) {
    ':' in line && FreeOf(line, CRLF) && Utf8(line)
  }

  /** A trailer section within the limit: lines that are all fields. */
  ghost predicate TrailerOk(t: Bytes, lim: Limits) {
    && |t| + 4 <= lim.headerBytes
    && exists lines: seq<Bytes> ::
         |lines| > 0 && t == Join(lines, CRLF) && forall line | line in lines :: TrailerLineOk(line)
  }

  lemma FieldsAreTrailer(lines: seq<Bytes>)
    requires |lines| > 0 && forall line | line in lines :: TrailerLineOk(line)
    ensures var t := Join(lines, CRLF);
      !(CRLF <= t + BLANK) && Find(t + BLANK, BLANK) == Some(|t|) && Utf8(t) && TrailerFields(t)
  {
    hide Utf8, Find, Join, Split;
    var t := Join(lines, CRLF);
    forall i | 0 <= i < |lines| ensures lines[i] != "" && FreeOf(lines[i], CRLF) && Utf8(lines[i]) && ':' in lines[i] {
      assert TrailerLineOk(lines[i]);
    }
    JoinIsUtf8(lines);
    FindBlank(lines, "");
    LineFirst(lines, "");
    assert t + BLANK + "" == t + BLANK;
    PrefixAt(t + BLANK, CRLF);
    SplitJoin(lines, CRLF);
    assert forall line | line in lines :: ':' in line;
  }

  lemma PrefixAt(s: Bytes, pat: Bytes)
    ensures pat <= s <==> At(s, pat, 0)
  {
  }

  /** No break ends, begins or doubles in a trailer section, so no line of it is empty. */
  lemma {:induction false} SplitHasNoEmpty(t: Bytes)
    requires t != "" && !(CRLF <= t) && FreeOf(t, BLANK) && (|t| >= 2 ==> t[|t| - 2..] != CRLF)
    ensures "" !in Split(t, CRLF)
    decreases |t|
  {
    match Find(t, CRLF)
    case None =>
    case Some(n) =>
      var rest := t[n + 2..];
      assert t[n..n + 2] == CRLF;
      PrefixAt(t, CRLF);
      RestIsFree(t, n);
      hide Find, FreeOf;
      SplitHasNoEmpty(rest);
      assert t[..n] != "";
  }

  lemma BlankIsBreaks(s: Bytes, n: nat)
    ensures At(s, BLANK, n) <==> n + 4 <= |s| && s[n..n + 2] == CRLF && s[n + 2..n + 4] == CRLF
  {
    if n + 4 <= |s| {
      assert s[n..n + 4] == s[n..n + 2] + s[n + 2..n + 4];
      assert s[n..n + 4][..2] == s[n..n + 2] && s[n..n + 4][2..] == s[n + 2..n + 4];
    }
  }

  lemma RestIsFree(t: Bytes, n: nat)
    requires n + 2 <= |t| && t[n..n + 2] == CRLF && FreeOf(t, BLANK) && (|t| >= 2 ==> t[|t| - 2..] != CRLF)
    ensures var rest := t[n + 2..];
      && rest != "" && !(CRLF <= rest) && FreeOf(rest, BLANK) && (|rest| >= 2 ==> rest[|rest| - 2..] != CRLF)
  {
    var rest := t[n + 2..];
    assert t == t[..n + 2] + rest;
    BlankIsBreaks(t, n);
    assert |rest| >= 2 ==> rest[..2] == t[n + 2..n + 4];
    forall i: nat ensures !At(rest, BLANK, i) {
      AtPrepend(t[..n + 2], rest, BLANK, i);
    }
    assert |rest| >= 2 ==> rest[|rest| - 2..] == t[|t| - 2..];
  }

  lemma OneField(t: Bytes, line: Bytes)
    requires line in Split(t, CRLF) && "" !in Split(t, CRLF) && Utf8(t) && TrailerFields(t)
    requires forall i | 0 <= i < |Split(t, CRLF)| :: FreeOf(Split(t, CRLF)[i], CRLF)
    ensures TrailerLineOk(line)
  {
    hide Split, Utf8, FreeOf;
    LinesAreUtf8(t, line);
  }

  lemma TrailerIsFields(t: Bytes)
    requires !(CRLF <= t + BLANK) && Find(t + BLANK, BLANK) == Some(|t|) && Utf8(t) && TrailerFields(t)
    ensures forall line | line in Split(t, CRLF) :: TrailerLineOk(line)
  {
    hide *;
    TrailerShape(t);
    SplitHasNoEmpty(t);
    SplitParts(t, CRLF);
    forall line | line in Split(t, CRLF) ensures TrailerLineOk(line) {
      OneField(t, line);
    }
  }

  lemma TrailerIsFree(t: Bytes)
    requires Find(t + BLANK, BLANK) == Some(|t|)
    ensures FreeOf(t, BLANK) && (|t| >= 2 ==> !At(t + BLANK, BLANK, |t| - 2))
  {
    hide Find, At;
    forall i: nat ensures !At(t, BLANK, i) {
      AtAppend(t, BLANK, BLANK, i);
      TooFar(t, BLANK, i);
    }
  }

  lemma TooFar(s: Bytes, pat: Bytes, i: nat)
    ensures At(s, pat, i) ==> i + |pat| <= |s|
  {
  }

  lemma NoBreakEnds(t: Bytes)
    requires |t| >= 2 && !At(t + BLANK, BLANK, |t| - 2)
    ensures t[|t| - 2..] != CRLF
  {
    var s := t + BLANK;
    BlankIsBreaks(s, |t| - 2);
    hide At;
    assert s[|t| - 2..|t|] == t[|t| - 2..] && s[|t|..|t| + 2] == CRLF;
  }

  lemma TrailerShape(t: Bytes)
    requires !(CRLF <= t + BLANK) && Find(t + BLANK, BLANK) == Some(|t|)
    ensures t != "" && !(CRLF <= t) && FreeOf(t, BLANK) && (|t| >= 2 ==> t[|t| - 2..] != CRLF)
  {
    hide *;
    TrailerIsFree(t);
    StartIsKept(t);
    if |t| >= 2 {
      NoBreakEnds(t);
    }
  }

  lemma BlankStarts()
    ensures CRLF <= BLANK && |CRLF| == 2
  {
    assert BLANK == CRLF + CRLF;
  }

  lemma StartIsKept(t: Bytes)
    requires !(CRLF <= t + BLANK)
    ensures t != "" && !(CRLF <= t)
  {
    BlankStarts();
    assert "" + BLANK == BLANK;
    assert |t| >= 2 ==> (t + BLANK)[..2] == t[..2];
  }

  lemma {:induction false} LinesAreUtf8(t: Bytes, line: Bytes)
    requires Utf8(t) && line in Split(t, CRLF)
    ensures Utf8(line)
    decreases |t|
  {
    hide Utf8;
    match Find(t, CRLF)
    case None =>
    case Some(n) =>
      assert t[n..n + 2] == CRLF;
      AtOctet(t, CRLF, n, 0);
      AtOctet(t, CRLF, n, 1);
      CutUtf8(t, n);
      assert t[n..] == CRLF + t[n + 2..];
      DropBreak(t[n..]);
      assert t[n..][2..] == t[n + 2..];
      hide Find;
      if line != t[..n] {
        LinesAreUtf8(t[n + 2..], line);
      }
  }

  lemma DropBreak(s: Bytes)
    requires |s| >= 2 && s[0] == '\r' && s[1] == '\n' && Utf8(s)
    ensures Utf8(s[2..])
  {
    assert Utf8Width(s) == 1 && Utf8Width(s[1..]) == 1;
    assert s[1..][1..] == s[2..];
  }

  /** The server takes a trailer section exactly when it is one. */
  lemma TrailerIsRead(t: Bytes, lim: Limits)
    ensures TrailerOk(t, lim)
      <==> (&& !(CRLF <= t + BLANK) && Find(t + BLANK, BLANK) == Some(|t|)
            && Utf8(t) && TrailerFields(t) && |t| + 4 <= lim.headerBytes)
  {
    hide Utf8, Find, TrailerFields, Join, Split, TrailerLineOk;
    if TrailerOk(t, lim) {
      var lines: seq<Bytes> :|
        |lines| > 0 && t == Join(lines, CRLF) && forall line | line in lines :: TrailerLineOk(line);
      FieldsAreTrailer(lines);
    } else if !(CRLF <= t + BLANK) && Find(t + BLANK, BLANK) == Some(|t|) && Utf8(t) && TrailerFields(t) {
      TrailerIsFields(t);
      JoinSplit(t, CRLF);
    }
  }
}

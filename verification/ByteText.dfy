/**
 Searching, splitting, trimming and number parsing over octet strings: the
 parts of the standard library the server's parser leans on.

 An octet is a `char`; the octets of a stream are the characters below 256.
 No lemma below needs that bound, so each one holds of every octet string.
*/
module ByteText {
  import opened Wrappers

  type Bytes = string

  const CRLF: Bytes := "\r\n"
  const BLANK: Bytes := "\r\n\r\n"

  // ---------- searching ----------

  /** `pat` occurs in `s` at index `i`. */
  predicate At(s: Bytes, pat: Bytes, i: nat) {
    i + |pat| <= |s| && s[i..i + |pat|] == pat
  }

  ghost predicate FreeOf(s: Bytes, pat: Bytes) {
    forall i: nat :: !At(s, pat, i)
  }

  /** The index of the first occurrence of `pat`. */
  function Find(s: Bytes, pat: Bytes): (r: Option<nat>)
    ensures r.Some? ==> At(s, pat, r.value) && forall j: nat | j < r.value :: !At(s, pat, j)
    ensures r.None? ==> FreeOf(s, pat)
    decreases |s|
  {
    if |s| < |pat| then None
    else if s[..|pat|] == pat then Some(0)
    else
      var r := Find(s[1..], pat);
      assert forall j: nat | 0 < j :: At(s, pat, j) <==> At(s[1..], pat, j - 1) by {
        AtTail(s, pat);
      }
      match r
      case None => None
      case Some(i) => Some(i + 1)
  }

  lemma AtTail(s: Bytes, pat: Bytes)
    requires s != []
    ensures forall j: nat | 0 < j :: At(s, pat, j) <==> At(s[1..], pat, j - 1)
  {
    assert s == [s[0]] + s[1..];
    forall j: nat | 0 < j ensures At(s, pat, j) <==> At(s[1..], pat, j - 1) {
      AtPrepend([s[0]], s[1..], pat, j - 1);
    }
  }

  /** Only one index can be the first occurrence. */
  lemma FindIs(s: Bytes, pat: Bytes, i: nat)
    requires At(s, pat, i)
    requires forall j: nat | j < i :: !At(s, pat, j)
    ensures Find(s, pat) == Some(i)
  {
    assert Find(s, pat).Some?;
  }

  /** Appending octets can only reveal occurrences that end beyond the old text. */
  lemma AtAppend(s: Bytes, e: Bytes, pat: Bytes, i: nat)
    ensures i + |pat| <= |s| ==> At(s + e, pat, i) == At(s, pat, i)
  {
    if i + |pat| <= |s| {
      assert (s + e)[i..i + |pat|] == s[i..i + |pat|];
    }
  }

  lemma AtPrepend(p: Bytes, s: Bytes, pat: Bytes, i: nat)
    ensures At(p + s, pat, |p| + i) == At(s, pat, i)
  {
    if i + |pat| <= |s| {
      assert (p + s)[|p| + i..|p| + i + |pat|] == s[i..i + |pat|];
    }
  }

  lemma AtOctet(s: Bytes, pat: Bytes, i: nat, k: nat)
    ensures At(s, pat, i) && k < |pat| ==> s[i + k] == pat[k]
  {
    if At(s, pat, i) && k < |pat| {
      assert s[i..i + |pat|][k] == s[i + k];
    }
  }

  lemma FindAppend(s: Bytes, e: Bytes, pat: Bytes)
    ensures Find(s, pat).Some? ==> Find(s + e, pat) == Find(s, pat)
    ensures Find(s, pat).None? && Find(s + e, pat).Some? ==> Find(s + e, pat).value + |pat| > |s|
  {
    if Find(s, pat).Some? {
      var i := Find(s, pat).value;
      forall j: nat | j <= i ensures At(s + e, pat, j) == At(s, pat, j) {
        AtAppend(s, e, pat, j);
      }
      FindIs(s + e, pat, i);
    } else if Find(s + e, pat).Some? {
      AtAppend(s, e, pat, Find(s + e, pat).value);
    }
  }

  /** The text up to the end of the first occurrence has the same first occurrence. */
  lemma FindTake(s: Bytes, pat: Bytes)
    requires Find(s, pat).Some?
    ensures var i := Find(s, pat).value; Find(s[..i + |pat|], pat) == Some(i)
  {
    var i := Find(s, pat).value;
    var head := s[..i + |pat|];
    assert s == head + s[i + |pat|..];
    forall j: nat | j <= i ensures At(head, pat, j) == At(s, pat, j) {
      AtAppend(head, s[i + |pat|..], pat, j);
    }
    FindIs(head, pat, i);
  }

  /** What precedes the first occurrence is free of the pattern. */
  lemma CutAtFirst(s: Bytes, pat: Bytes)
    requires pat != "" && Find(s, pat).Some?
    ensures var n := Find(s, pat).value;
      n + |pat| <= |s| && s == s[..n] + pat + s[n + |pat|..] && FreeOf(s[..n], pat) && !FreeOf(s, pat)
  {
    var n := Find(s, pat).value;
    assert At(s, pat, n);
    assert s == s[..n] + s[n..];
    forall j: nat ensures !At(s[..n], pat, j) {
      AtAppend(s[..n], s[n..], pat, j);
    }
    hide Find;
    assert pat == s[n..n + |pat|];
  }

  /** The first octet of the pattern never reappears inside it. */
  predicate Unbordered(pat: Bytes) {
    |pat| > 0 && forall k | 1 <= k < |pat| :: pat[k] != pat[0]
  }

  /** After text that is free of it, an unbordered separator is found where it was put. */
  lemma FindAfter(p: Bytes, sep: Bytes, rest: Bytes)
    requires Unbordered(sep) && FreeOf(p, sep)
    ensures Find(p + sep + rest, sep) == Some(|p|)
  {
    var s := p + sep + rest;
    assert s == p + (sep + rest);
    assert s[|p|..|p| + |sep|] == sep;
    forall j: nat | j < |p| ensures !At(s, sep, j) {
      AtAppend(p, sep + rest, sep, j);
      AtOctet(s, sep, j, |p| - j);
    }
    FindIs(s, sep, |p|);
  }

  // ---------- splitting ----------

  function Split(s: Bytes, sep: Bytes): (parts: seq<Bytes>)
    requires |sep| > 0
    ensures |parts| > 0
    decreases |s|
  {
    match Find(s, sep)
    case None => [s]
    case Some(i) => [s[..i]] + Split(s[i + |sep|..], sep)
  }

  function Join(parts: seq<Bytes>, sep: Bytes): Bytes
    requires |parts| > 0
  {
    if |parts| == 1 then parts[0] else parts[0] + sep + Join(parts[1..], sep)
  }

  lemma NotFound(s: Bytes, sep: Bytes)
    requires FreeOf(s, sep)
    ensures Find(s, sep).None?
  {
  }

  /** Splitting undoes joining when no part holds the separator. */
  lemma {:induction false} SplitJoin(parts: seq<Bytes>, sep: Bytes)
    requires |parts| > 0 && Unbordered(sep)
    requires forall i | 0 <= i < |parts| :: FreeOf(parts[i], sep)
    ensures Split(Join(parts, sep), sep) == parts
  {
    hide Find, FreeOf;
    if |parts| == 1 {
      NotFound(parts[0], sep);
    } else {
      var tail := Join(parts[1..], sep);
      FindAfter(parts[0], sep, tail);
      var s := parts[0] + sep + tail;
      assert s[..|parts[0]|] == parts[0];
      assert s[|parts[0]| + |sep|..] == tail;
      SplitJoin(parts[1..], sep);
    }
  }

  /** No part of a split text holds the separator. */
  lemma {:induction false} SplitParts(s: Bytes, sep: Bytes)
    requires |sep| > 0
    ensures forall i | 0 <= i < |Split(s, sep)| :: FreeOf(Split(s, sep)[i], sep)
    decreases |s|
  {
    match Find(s, sep)
    case None =>
    case Some(n) =>
      CutAtFirst(s, sep);
      hide Find, FreeOf;
      SplitParts(s[n + |sep|..], sep);
  }

  /** Joining undoes splitting. */
  lemma {:induction false} JoinSplit(s: Bytes, sep: Bytes)
    requires |sep| > 0
    ensures Join(Split(s, sep), sep) == s
    decreases |s|
  {
    match Find(s, sep)
    case None =>
    case Some(n) =>
      var rest := s[n + |sep|..];
      CutAtFirst(s, sep);
      hide Find, FreeOf;
      JoinSplit(rest, sep);
      assert Split(s, sep)[1..] == Split(rest, sep);
  }

  /** `p` stands in `s` between two separators `c`, or a separator and an end. */
  ghost predicate PieceOf(p: Bytes, s: Bytes, c: char) {
    exists before: Bytes, after: Bytes :: Bounds(before, p, after, c) && s == before + p + after
  }

  predicate Bounds(before: Bytes, p: Bytes, after: Bytes, c: char) {
    && c !in p
    && (before != "" ==> before[|before| - 1] == c)
    && (after != "" ==> after[0] == c)
  }

  lemma FirstOctet(s: Bytes, c: char)
    ensures match Find(s, [c]) {
      case None => c !in s
      case Some(i) => i < |s| && s[i] == c && c !in s[..i]
    }
  {
    OneOctet(s, c);
    if Find(s, [c]).Some? {
      var i := Find(s, [c]).value;
      assert s[i..i + 1][0] == s[i];
      forall j | 0 <= j < i ensures s[j] != c {
        assert !At(s, [c], j);
        assert s[j..j + 1] == [s[j]];
      }
    }
    hide Find;
  }

  lemma BoundsStand(before: Bytes, p: Bytes, after: Bytes, c: char)
    requires Bounds(before, p, after, c)
    ensures var s := before + p + after;
      && (before != "" ==> s[|before| - 1] == c) && (after != "" ==> s[|before| + |p|] == c)
      && (forall k | |before| <= k < |before| + |p| :: s[k] != c)
      && (before == "" ==> c !in s[..|p|])
  {
    var s := before + p + after;
    forall k | |before| <= k < |before| + |p| ensures s[k] != c {
      assert s[k] == p[k - |before|];
    }
  }

  lemma {:induction false} PieceIsFound(before: Bytes, p: Bytes, after: Bytes, c: char)
    requires Bounds(before, p, after, c)
    ensures p in Split(before + p + after, [c])
    decreases |before|
  {
    var s := before + p + after;
    FirstOctet(s, c);
    BoundsStand(before, p, after, c);
    hide Find;
    match Find(s, [c])
    case None =>
      assert before + p + after == p;
    case Some(i) =>
      if before == "" {
        FirstIs(s, c, i, |p|);
        assert s[..|p|] == p;
      } else {
        FirstIsBefore(s, c, i, |before| - 1);
        assert s[i + 1..] == before[i + 1..] + p + after;
        PieceIsFound(before[i + 1..], p, after, c);
      }
  }

  lemma FirstIs(s: Bytes, c: char, i: nat, n: nat)
    requires i < |s| && s[i] == c && c !in s[..i]
    requires n <= |s| && (forall k | 0 <= k < n :: s[k] != c) && (n < |s| ==> s[n] == c)
    ensures i == n
  {
    assert forall j | 0 <= j < i :: s[..i][j] == s[j];
  }

  lemma FirstIsBefore(s: Bytes, c: char, i: nat, k: nat)
    requires i < |s| && s[i] == c && c !in s[..i] && k < |s| && s[k] == c
    ensures i <= k
  {
    assert forall j | 0 <= j < i :: s[..i][j] == s[j];
  }

  lemma {:induction false} FoundIsPiece(s: Bytes, c: char, p: Bytes) returns (before: Bytes, after: Bytes)
    requires p in Split(s, [c])
    ensures Bounds(before, p, after, c) && s == before + p + after
    decreases |s|
  {
    FirstOctet(s, c);
    hide Find, Bounds;
    match Find(s, [c])
    case None =>
      before, after := "", "";
      Whole(s, c);
    case Some(i) =>
      if p == s[..i] {
        before, after := "", s[i..];
        FirstBounds(s, c, i);
      } else {
        before, after := FoundIsPiece(s[i + 1..], c, p);
        LaterBounds(s, c, i, before, p, after);
        before := s[..i + 1] + before;
      }
  }

  lemma Whole(s: Bytes, c: char)
    requires c !in s
    ensures Bounds("", s, "", c) && s == "" + s + ""
  {
  }

  lemma FirstBounds(s: Bytes, c: char, i: nat)
    requires i < |s| && s[i] == c && c !in s[..i]
    ensures Bounds("", s[..i], s[i..], c) && s == "" + s[..i] + s[i..]
  {
  }

  lemma LaterBounds(s: Bytes, c: char, i: nat, before: Bytes, p: Bytes, after: Bytes)
    requires i < |s| && s[i] == c && Bounds(before, p, after, c) && s[i + 1..] == before + p + after
    ensures Bounds(s[..i + 1] + before, p, after, c) && s == s[..i + 1] + before + p + after
  {
    assert s == s[..i + 1] + s[i + 1..];
  }

  /** Splitting at an octet gives exactly the pieces that lie between its occurrences. */
  lemma SplitExactly(s: Bytes, c: char, p: Bytes)
    ensures p in Split(s, [c]) <==> PieceOf(p, s, c)
  {
    if p in Split(s, [c]) {
      var before, after := FoundIsPiece(s, c, p);
    }
    if PieceOf(p, s, c) {
      var before: Bytes, after: Bytes :| Bounds(before, p, after, c) && s == before + p + after;
      PieceIsFound(before, p, after, c);
    }
  }

  /** What follows the first line of a head, after that line's CRLF. */
  function AfterLine(lines: seq<Bytes>, rest: Bytes): (after: Bytes)
    requires |lines| > 0
    ensures Join(lines, CRLF) + BLANK + rest == lines[0] + CRLF + after
  {
    assert BLANK == CRLF + CRLF;
    if |lines| == 1 then CRLF + rest else Join(lines[1..], CRLF) + BLANK + rest
  }

  lemma BlankIsTwoBreaks(s: Bytes, j: nat)
    ensures At(s, BLANK, j) ==> At(s, CRLF, j) && At(s, CRLF, j + 2)
  {
    if At(s, BLANK, j) {
      assert s[j..j + 2] == s[j..j + 4][..2];
      assert s[j + 2..j + 4] == s[j..j + 4][2..];
    }
  }

  /** No line break stands where a non-empty line begins. */
  lemma LineFirst(lines: seq<Bytes>, rest: Bytes)
    requires |lines| > 0
    requires lines[0] != "" && FreeOf(lines[0], CRLF)
    ensures forall j: nat | j < |lines[0]| :: !At(Join(lines, CRLF) + BLANK + rest, CRLF, j)
  {
    FindAfter(lines[0], CRLF, AfterLine(lines, rest));
  }

  /** Non-empty lines end at the blank line that follows them, and nowhere earlier. */
  lemma {:induction false} FindBlank(lines: seq<Bytes>, rest: Bytes)
    requires |lines| > 0
    requires forall i | 0 <= i < |lines| :: lines[i] != "" && FreeOf(lines[i], CRLF)
    ensures Find(Join(lines, CRLF) + BLANK + rest, BLANK) == Some(|Join(lines, CRLF)|)
  {
    hide FreeOf, Find;
    var text := Join(lines, CRLF);
    var s := text + BLANK + rest;
    var n := |lines[0]| + 2;
    var after := AfterLine(lines, rest);
    LineFirst(lines, rest);
    assert s == (lines[0] + CRLF) + after;
    if |lines| > 1 {
      FindBlank(lines[1..], rest);
      LineFirst(lines[1..], rest);
      AtPrepend(lines[0] + CRLF, after, CRLF, 0);
    }
    forall j: nat | j < |text| ensures !At(s, BLANK, j) {
      BlankIsTwoBreaks(s, j);
      AtOctet(s, BLANK, j, 0);
      if j >= n {
        AtPrepend(lines[0] + CRLF, after, BLANK, j - n);
      }
    }
    assert s[|text|..|text| + 4] == BLANK;
    FindIs(s, BLANK, |text|);
  }

  /** `str::split_once`: the text around the first separator. */
  function SplitOnce(s: Bytes, sep: Bytes): Option<(Bytes, Bytes)> {
    match Find(s, sep)
    case None => None
    case Some(i) => Some((s[..i], s[i + |sep|..]))
  }

  lemma OneOctet(s: Bytes, c: char)
    ensures FreeOf(s, [c]) <==> c !in s
  {
    forall i: nat ensures At(s, [c], i) <==> i < |s| && s[i] == c {
      if i < |s| {
        assert s[i..i + 1] == [s[i]];
      }
    }
    if c in s {
      var i :| 0 <= i < |s| && s[i] == c;
      assert At(s, [c], i);
    }
  }

  lemma LineFree(s: Bytes)
    requires '\r' !in s || '\n' !in s
    ensures FreeOf(s, CRLF)
  {
    forall i: nat ensures !At(s, CRLF, i) {
      AtOctet(s, CRLF, i, 0);
      AtOctet(s, CRLF, i, 1);
    }
  }

  // ---------- UTF-8 ----------

  predicate Between(s: Bytes, i: nat, lo: int, hi: int) {
    i < |s| && lo <= s[i] as int <= hi
  }

  /** Octets of the well-formed sequence at the front of `s`, or 0 when there is none. */
  function Utf8Width(s: Bytes): (n: nat)
    ensures n <= |s|
  {
    if Between(s, 0, 0, 0x7F) then 1
    else if Between(s, 0, 0xC2, 0xDF) && Between(s, 1, 0x80, 0xBF) then 2
    else if
      && (|| (Between(s, 0, 0xE0, 0xE0) && Between(s, 1, 0xA0, 0xBF))
          || (Between(s, 0, 0xE1, 0xEC) && Between(s, 1, 0x80, 0xBF))
          || (Between(s, 0, 0xED, 0xED) && Between(s, 1, 0x80, 0x9F))
          || (Between(s, 0, 0xEE, 0xEF) && Between(s, 1, 0x80, 0xBF)))
      && Between(s, 2, 0x80, 0xBF)
    then 3
    else if
      && (|| (Between(s, 0, 0xF0, 0xF0) && Between(s, 1, 0x90, 0xBF))
          || (Between(s, 0, 0xF1, 0xF3) && Between(s, 1, 0x80, 0xBF))
          || (Between(s, 0, 0xF4, 0xF4) && Between(s, 1, 0x80, 0x8F)))
      && Between(s, 2, 0x80, 0xBF) && Between(s, 3, 0x80, 0xBF)
    then 4
    else 0
  }

  predicate Utf8(s: Bytes)
    decreases |s|
  {
    s == "" || (Utf8Width(s) > 0 && Utf8(s[Utf8Width(s)..]))
  }

  lemma {:induction false} Utf8Append(s: Bytes, t: Bytes)
    requires Utf8(s) && Utf8(t)
    ensures Utf8(s + t)
    decreases |s|
  {
    if s == "" {
      assert s + t == t;
    } else {
      var n := Utf8Width(s);
      assert Utf8Width(s + t) == n;
      assert (s + t)[n..] == s[n..] + t;
      Utf8Append(s[n..], t);
    }
  }

  predicate Ascii(s: Bytes) {
    forall i | 0 <= i < |s| :: s[i] < 0x80 as char
  }

  lemma {:induction false} AsciiIsUtf8(s: Bytes)
    requires Ascii(s)
    ensures Utf8(s)
  {
    if s != "" {
      assert s[0] < 0x80 as char;
      AsciiIsUtf8(s[1..]);
    }
  }

  lemma {:induction false} JoinIsUtf8(lines: seq<Bytes>)
    requires |lines| > 0 && forall i | 0 <= i < |lines| :: Utf8(lines[i])
    ensures Utf8(Join(lines, CRLF))
  {
    if |lines| > 1 {
      JoinIsUtf8(lines[1..]);
      AsciiIsUtf8(CRLF);
      Utf8Append(lines[0], CRLF);
      Utf8Append(lines[0] + CRLF, Join(lines[1..], CRLF));
    }
  }

  // ---------- white space and case ----------

  /** ASCII white space as `char::is_whitespace` sees it. */
  predicate Blank(c: char) {
    c == ' ' || 9 <= c as int <= 13
  }

  /** Octets of the white-space character at the front of `s`, or 0. */
  function SpaceFront(s: Bytes): (n: nat)
    ensures n <= |s|
  {
    if s != "" && Blank(s[0]) then 1
    else if |s| >= 2 && WideSpace(s[..2]) then 2
    else if |s| >= 3 && WideSpace(s[..3]) then 3
    else 0
  }

  function SpaceBack(s: Bytes): (n: nat)
    ensures n <= |s|
  {
    if s != "" && Blank(s[|s| - 1]) then 1
    else if |s| >= 2 && WideSpace(s[|s| - 2..]) then 2
    else if |s| >= 3 && WideSpace(s[|s| - 3..]) then 3
    else 0
  }

  /** UTF-8 encodings of the non-ASCII characters with the White_Space property. */
  predicate WideSpace(s: Bytes) {
    || (|s| == 2 && s[0] as int == 0xC2 && (s[1] as int == 0x85 || s[1] as int == 0xA0))
    || (|s| == 3 && s[0] as int == 0xE1 && s[1] as int == 0x9A && s[2] as int == 0x80)
    || (|s| == 3 && s[0] as int == 0xE2 && s[1] as int == 0x80
        && (0x80 <= s[2] as int <= 0x8A || s[2] as int == 0xA8 || s[2] as int == 0xA9 || s[2] as int == 0xAF))
    || (|s| == 3 && s[0] as int == 0xE2 && s[1] as int == 0x81 && s[2] as int == 0x9F)
    || (|s| == 3 && s[0] as int == 0xE3 && s[1] as int == 0x80 && s[2] as int == 0x80)
  }

  function TrimStart(s: Bytes): (t: Bytes)
    ensures |t| <= |s|
    decreases |s|
  {
    if SpaceFront(s) == 0 then s else TrimStart(s[SpaceFront(s)..])
  }

  function TrimEnd(s: Bytes): (t: Bytes)
    ensures |t| <= |s|
    decreases |s|
  {
    if SpaceBack(s) == 0 then s else TrimEnd(s[..|s| - SpaceBack(s)])
  }

  function Trim(s: Bytes): (t: Bytes)
    ensures |t| <= |s|
  {
    TrimEnd(TrimStart(s))
  }

  /** `str::split_whitespace`. */
  function Words(s: Bytes): seq<Bytes>
    decreases |s|
  {
    if s == "" then []
    else if SpaceFront(s) > 0 then Words(s[SpaceFront(s)..])
    else
      var n := WordEnd(s);
      [s[..n]] + Words(s[n..])
  }

  function WordEnd(s: Bytes): (n: nat)
    requires s != "" && SpaceFront(s) == 0
    ensures 0 < n <= |s|
    decreases |s|
  {
    if |s| == 1 || SpaceFront(s[1..]) > 0 then 1 else 1 + WordEnd(s[1..])
  }

  function Lower(c: char): char {
    if 'A' <= c <= 'Z' then (c as int + 32) as char else c
  }

  /** `eq_ignore_ascii_case`. */
  predicate SameText(a: Bytes, b: Bytes) {
    |a| == |b| && forall i | 0 <= i < |a| :: Lower(a[i]) == Lower(b[i])
  }

  // ---------- numbers ----------

  type Base = b: int | b == 10 || b == 16 witness 10

  function Digit(c: char, base: Base): Option<nat> {
    if '0' <= c <= '9' then Some(c as int - '0' as int)
    else if base == 16 && 'a' <= Lower(c) <= 'f' then Some(Lower(c) as int - 'a' as int + 10)
    else None
  }

  predicate Digits(s: Bytes, base: Base) {
    s != "" && forall i | 0 <= i < |s| :: Digit(s[i], base).Some?
  }

  function Value(s: Bytes, base: Base): nat
    requires forall i | 0 <= i < |s| :: Digit(s[i], base).Some?
  {
    if s == "" then 0 else Value(s[..|s| - 1], base) * base + Digit(s[|s| - 1], base).value
  }

  /** `from_str_radix` on an unsigned type: one optional `+`, digits, no value above `max`. */
  function ParseNat(s: Bytes, base: Base, max: nat): Option<nat> {
    var digits := if s != "" && s[0] == '+' then s[1..] else s;
    if Digits(digits, base) && Value(digits, base) <= max then Some(Value(digits, base)) else None
  }

  function DigitChar(d: nat): char
    requires d < 16
  {
    if d < 10 then ('0' as int + d) as char else ('a' as int + d - 10) as char
  }

  function Print(n: nat, base: Base): (s: Bytes)
    ensures s != ""
  {
    if n < base then [DigitChar(n)] else Print(n / base, base) + [DigitChar(n % base)]
  }

  lemma {:induction false} PrintDigits(n: nat, base: Base)
    ensures Digits(Print(n, base), base)
    ensures Value(Print(n, base), base) == n
  {
    var s := Print(n, base);
    if n < base {
      assert s[..0] == "";
    } else {
      PrintDigits(n / base, base);
      assert s[..|s| - 1] == Print(n / base, base);
      assert n == (n / base) * base + n % base;
    }
  }

  lemma {:induction false} PrintChars(n: nat, base: Base)
    ensures forall c | c in Print(n, base) :: '0' <= c <= '9' || 'a' <= c <= 'f'
  {
    if n >= base {
      PrintChars(n / base, base);
    }
  }

  /** Parsing undoes printing, in both bases, for every number the target can hold. */
  lemma ParsePrint(n: nat, base: Base, max: nat)
    requires n <= max
    ensures ParseNat(Print(n, base), base, max) == Some(n)
  {
    PrintDigits(n, base);
  }

  /** Text that neither starts nor ends with white space is its own trimming. */
  lemma TrimSolid(s: Bytes)
    requires s != "" ==> !Blank(s[0]) && s[0] < 0x80 as char
    requires s != "" ==> !Blank(s[|s| - 1]) && s[|s| - 1] < 0x80 as char
    ensures Trim(s) == s
  {
    SolidFront(s);
    SolidBack(s);
    hide SpaceFront, SpaceBack;
  }

  lemma SolidFront(s: Bytes)
    requires s != "" ==> !Blank(s[0]) && s[0] < 0x80 as char
    ensures SpaceFront(s) == 0
  {
    hide WideSpace;
    if |s| >= 2 {
      WideOctets(s[..2]);
    }
    if |s| >= 3 {
      WideOctets(s[..3]);
    }
  }

  lemma SolidBack(s: Bytes)
    requires s != "" ==> !Blank(s[|s| - 1]) && s[|s| - 1] < 0x80 as char
    ensures SpaceBack(s) == 0
  {
    hide WideSpace, Blank;
    if |s| >= 2 {
      SolidEnd(s, 2);
    }
    if |s| >= 3 {
      SolidEnd(s, 3);
    }
  }

  lemma SolidEnd(s: Bytes, k: nat)
    requires 1 <= k <= |s| && s[|s| - 1] < 0x80 as char
    ensures !WideSpace(s[|s| - k..])
  {
    var w := s[|s| - k..];
    assert w[|w| - 1] == s[|s| - 1];
    WideOctets(w);
    hide WideSpace;
  }

  lemma WideOctets(w: Bytes)
    ensures WideSpace(w) ==> |w| >= 2 && w[0] >= 0x80 as char && w[|w| - 1] >= 0x80 as char
  {
  }
}

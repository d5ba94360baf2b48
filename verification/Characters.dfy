/**
 What the octet strings stand for: Unicode text, its white space, its words and
 its letters, stated without the scanning functions of the server.
*/
module Characters {
  import opened ByteText

  // ---------- section 3 of RFC 3629 ----------

  /** A Unicode scalar value. */
  type Scalar = c: int | 0 <= c < 0xD800 || 0xE000 <= c <= 0x10FFFF witness 0

  function Encode(c: Scalar): (s: Bytes)
    ensures 1 <= |s| <= 4
  {
    if c < 0x80 then [c as char]
    else if c < 0x800 then [(0xC0 + c / 64) as char, (0x80 + c % 64) as char]
    else if c < 0x1_0000 then
      [(0xE0 + c / 4096) as char, (0x80 + c / 64 % 64) as char, (0x80 + c % 64) as char]
    else
      [(0xF0 + c / 0x4_0000) as char, (0x80 + c / 4096 % 64) as char,
       (0x80 + c / 64 % 64) as char, (0x80 + c % 64) as char]
  }

  function Octets(cs: seq<Scalar>): Bytes {
    if cs == [] then "" else Encode(cs[0]) + Octets(cs[1..])
  }

  lemma {:induction false} TextConcat(a: seq<Scalar>, b: seq<Scalar>)
    ensures Octets(a + b) == Octets(a) + Octets(b)
  {
    hide Encode;
    if a == [] {
      assert a + b == b;
    } else {
      assert (a + b)[1..] == a[1..] + b;
      TextConcat(a[1..], b);
    }
  }

  lemma EncodedWidth(c: Scalar, rest: Bytes)
    ensures Utf8Width(Encode(c) + rest) == |Encode(c)|
  {
    var s, e := Encode(c) + rest, Encode(c);
    assert s[0] == e[0] && (|e| > 1 ==> s[1] == e[1]) && (|e| > 2 ==> s[2] == e[2]) && (|e| > 3 ==> s[3] == e[3]);
  }

  lemma TwoAreEncoded(s: Bytes) returns (c: Scalar)
    requires Utf8Width(s) == 2
    ensures s[..2] == Encode(c)
  {
    c := (s[0] as int - 0xC0) * 64 + (s[1] as int - 0x80);
    assert s[..2] == [s[0], s[1]];
  }

  lemma ThreeAreEncoded(s: Bytes) returns (c: Scalar)
    requires Utf8Width(s) == 3
    ensures s[..3] == Encode(c)
  {
    var x, y, z := s[0] as int - 0xE0, s[1] as int - 0x80, s[2] as int - 0x80;
    c := x * 4096 + y * 64 + z;
    assert c / 4096 == x && c / 64 == x * 64 + y && c % 64 == z;
    assert s[..3] == [s[0], s[1], s[2]];
  }

  lemma FourAreEncoded(s: Bytes) returns (c: Scalar)
    requires Utf8Width(s) == 4
    ensures s[..4] == Encode(c)
  {
    var w, x, y, z := s[0] as int - 0xF0, s[1] as int - 0x80, s[2] as int - 0x80, s[3] as int - 0x80;
    c := w * 0x4_0000 + x * 4096 + y * 64 + z;
    assert c / 0x4_0000 == w && c / 4096 == w * 64 + x && c / 64 == (w * 64 + x) * 64 + y && c % 64 == z;
    assert s[..4] == [s[0], s[1], s[2], s[3]];
  }

  lemma WidthIsEncoded(s: Bytes) returns (c: Scalar)
    requires Utf8Width(s) > 0
    ensures s[..Utf8Width(s)] == Encode(c)
  {
    WidthAtMostFour(s);
    if Utf8Width(s) == 1 {
      c := s[0] as int;
      assert s[..1] == [s[0]];
    } else {
      hide Encode, Utf8Width;
      if Utf8Width(s) == 2 {
        c := TwoAreEncoded(s);
      } else if Utf8Width(s) == 3 {
        c := ThreeAreEncoded(s);
      } else {
        c := FourAreEncoded(s);
      }
    }
  }

  lemma WidthAtMostFour(s: Bytes)
    ensures Utf8Width(s) <= 4
    ensures Utf8Width(s) == 1 ==> s[0] < 0x80 as char
  {
  }

  lemma {:induction false} TextIsUtf8(cs: seq<Scalar>)
    ensures Utf8(Octets(cs))
  {
    if cs != [] {
      EncodedWidth(cs[0], Octets(cs[1..]));
      TextIsUtf8(cs[1..]);
      hide Encode, Utf8Width;
      assert (Encode(cs[0]) + Octets(cs[1..]))[|Encode(cs[0])|..] == Octets(cs[1..]);
    }
  }

  lemma {:induction false} Utf8IsText(s: Bytes) returns (cs: seq<Scalar>)
    requires Utf8(s)
    ensures s == Octets(cs)
    decreases |s|
  {
    if s == "" {
      cs := [];
    } else {
      var c := WidthIsEncoded(s);
      var rest := Utf8IsText(s[Utf8Width(s)..]);
      hide Encode, Utf8Width;
      cs := [c] + rest;
      assert cs[1..] == rest;
      assert s == s[..Utf8Width(s)] + s[Utf8Width(s)..];
    }
  }

  /** `from_utf8` accepts exactly the encodings of text. */
  lemma Utf8Exactly(s: Bytes)
    ensures Utf8(s) <==> exists cs: seq<Scalar> :: s == Octets(cs)
  {
    hide Utf8, Octets;
    if Utf8(s) {
      var cs := Utf8IsText(s);
    }
    forall cs: seq<Scalar> | s == Octets(cs) ensures Utf8(s) {
      TextIsUtf8(cs);
    }
  }

  // ---------- white space ----------

  /** The characters with the White_Space property. */
  predicate White(c: Scalar) {
    || 0x9 <= c <= 0xD || c == 0x20 || c == 0x85 || c == 0xA0 || c == 0x1680 || 0x2000 <= c <= 0x200A
    || c == 0x2028 || c == 0x2029 || c == 0x202F || c == 0x205F || c == 0x3000
  }

  predicate AllWhite(cs: seq<Scalar>) {
    forall c | c in cs :: White(c)
  }

  lemma WhiteFront(c: Scalar, rest: Bytes)
    ensures SpaceFront(Encode(c) + rest) == if White(c) then |Encode(c)| else 0
  {
    var s := Encode(c) + rest;
    assert |s| >= 2 ==> s[..2] == [s[0], s[1]];
    assert |s| >= 3 ==> s[..3] == [s[0], s[1], s[2]];
  }

  lemma WhiteBack(front: Bytes, c: Scalar)
    ensures SpaceBack(front + Encode(c)) == if White(c) then |Encode(c)| else 0
  {
    if c < 0x80 {
      OneBack(front, c);
    } else if c < 0x800 {
      TwoBack(front, c);
    } else {
      MoreBack(front, c);
    }
  }

  lemma OneBack(front: Bytes, c: Scalar)
    requires c < 0x80
    ensures SpaceBack(front + Encode(c)) == if White(c) then 1 else 0
  {
    var s := front + Encode(c);
    var n := |s|;
    assert n >= 2 ==> s[n - 2..] == [s[n - 2], s[n - 1]];
    assert n >= 3 ==> s[n - 3..] == [s[n - 3], s[n - 2], s[n - 1]];
  }

  lemma TwoBack(front: Bytes, c: Scalar)
    requires 0x80 <= c < 0x800
    ensures SpaceBack(front + Encode(c)) == if White(c) then 2 else 0
  {
    var s := front + Encode(c);
    var n := |s|;
    assert s[n - 2..] == [s[n - 2], s[n - 1]];
    assert n >= 3 ==> s[n - 3..] == [s[n - 3], s[n - 2], s[n - 1]];
  }

  lemma MoreBack(front: Bytes, c: Scalar)
    requires 0x800 <= c
    ensures SpaceBack(front + Encode(c)) == if White(c) then |Encode(c)| else 0
  {
    var s := front + Encode(c);
    var n := |s|;
    assert s[n - 2..] == [s[n - 2], s[n - 1]];
    assert s[n - 3..] == [s[n - 3], s[n - 2], s[n - 1]];
  }

  lemma {:induction false} TrimStartText(lead: seq<Scalar>, rest: Bytes)
    requires AllWhite(lead) && SpaceFront(rest) == 0
    ensures TrimStart(Octets(lead) + rest) == rest
  {
    hide Encode, SpaceFront, White;
    if lead == [] {
      assert Octets(lead) + rest == rest;
    } else {
      var more := Octets(lead[1..]) + rest;
      WhiteFront(lead[0], more);
      assert White(lead[0]);
      assert Octets(lead) + rest == Encode(lead[0]) + more;
      assert (Encode(lead[0]) + more)[|Encode(lead[0])|..] == more;
      TrimStartText(lead[1..], rest);
    }
  }

  lemma {:induction false} TrimEndText(rest: Bytes, trail: seq<Scalar>)
    requires AllWhite(trail) && SpaceBack(rest) == 0
    ensures TrimEnd(rest + Octets(trail)) == rest
  {
    hide Encode, SpaceBack, White;
    if trail == [] {
      assert rest + Octets(trail) == rest;
    } else {
      var k := |trail| - 1;
      var more := rest + Octets(trail[..k]);
      assert trail == trail[..k] + [trail[k]];
      TextConcat(trail[..k], [trail[k]]);
      assert Octets([trail[k]]) == Encode(trail[k]) + Octets([]);
      assert rest + Octets(trail) == more + Encode(trail[k]);
      WhiteBack(more, trail[k]);
      assert White(trail[k]);
      assert (more + Encode(trail[k]))[..|more|] == more;
      TrimEndText(rest, trail[..k]);
    }
  }

  /** Text that neither starts nor ends with white space. */
  predicate Solid(cs: seq<Scalar>) {
    cs != [] ==> !White(cs[0]) && !White(cs[|cs| - 1])
  }

  lemma SolidEdges(cs: seq<Scalar>)
    requires cs != [] && Solid(cs)
    ensures forall rest: Bytes :: SpaceFront(Octets(cs) + rest) == 0
    ensures SpaceBack(Octets(cs)) == 0
  {
    hide Encode, SpaceFront, SpaceBack, White;
    var k := |cs| - 1;
    forall rest: Bytes ensures SpaceFront(Octets(cs) + rest) == 0 {
      WhiteFront(cs[0], Octets(cs[1..]) + rest);
      assert Octets(cs) + rest == Encode(cs[0]) + (Octets(cs[1..]) + rest);
    }
    assert cs == cs[..k] + [cs[k]];
    TextConcat(cs[..k], [cs[k]]);
    assert Octets([cs[k]]) == Encode(cs[k]) + Octets([]) == Encode(cs[k]);
    WhiteBack(Octets(cs[..k]), cs[k]);
  }

  /** Trimming takes the white space off both ends, and nothing else. */
  lemma TrimText(lead: seq<Scalar>, core: seq<Scalar>, trail: seq<Scalar>)
    requires AllWhite(lead) && Solid(core) && AllWhite(trail)
    ensures Trim(Octets(lead) + Octets(core) + Octets(trail)) == Octets(core)
    ensures core != [] ==> TrimStart(Octets(lead) + Octets(core) + Octets(trail)) == Octets(core) + Octets(trail)
  {
    hide SpaceFront, SpaceBack, TrimStart, TrimEnd, White, Encode;
    if core == [] {
      TextConcat(lead, trail);
      assert Octets(lead) + Octets(core) + Octets(trail) == Octets(lead + trail) + "";
      NoSpaceInNothing();
      TrimStartText(lead + trail, "");
      TrimEndText("", []);
      assert "" + Octets([]) == "";
    } else {
      SolidEdges(core);
      TrimStartText(lead, Octets(core) + Octets(trail));
      TrimEndText(Octets(core), trail);
      assert Octets(lead) + Octets(core) + Octets(trail) == Octets(lead) + (Octets(core) + Octets(trail));
    }
  }

  lemma NoSpaceInNothing()
    ensures SpaceFront("") == 0 && SpaceBack("") == 0
  {
  }

  /** Every text is its trimming, with white space around it. */
  lemma {:induction false} TrimParts(cs: seq<Scalar>)
    returns (lead: seq<Scalar>, core: seq<Scalar>, trail: seq<Scalar>)
    ensures cs == lead + core + trail && AllWhite(lead) && Solid(core) && AllWhite(trail)
    decreases |cs|
  {
    if cs == [] {
      lead, core, trail := [], [], [];
    } else if White(cs[0]) {
      lead, core, trail := TrimParts(cs[1..]);
      lead := [cs[0]] + lead;
    } else if White(cs[|cs| - 1]) {
      lead, core, trail := TrimParts(cs[..|cs| - 1]);
      trail := trail + [cs[|cs| - 1]];
    } else {
      lead, core, trail := [], cs, [];
    }
  }

  // ---------- words ----------

  /** Words, each after a gap, and a last gap: `gaps[i]` stands before `words[i]`. */
  function Spaced(words: seq<seq<Scalar>>, gaps: seq<seq<Scalar>>): Bytes
    requires |gaps| == |words| + 1
  {
    if words == [] then Octets(gaps[0]) else Octets(gaps[0]) + (Octets(words[0]) + Spaced(words[1..], gaps[1..]))
  }

  predicate NoWhite(cs: seq<Scalar>) {
    cs != [] && forall c | c in cs :: !White(c)
  }

  /** White gaps around words; none but the first and the last may be missing. */
  predicate SpacedOk(words: seq<seq<Scalar>>, gaps: seq<seq<Scalar>>) {
    && |gaps| == |words| + 1
    && (forall w | w in words :: NoWhite(w)) && (forall g | g in gaps :: AllWhite(g))
    && forall i | 0 < i < |words| :: gaps[i] != []
  }

  function OctetsEach(words: seq<seq<Scalar>>): seq<Bytes> {
    if words == [] then [] else [Octets(words[0])] + OctetsEach(words[1..])
  }

  lemma {:induction false} WordsPastGap(gap: seq<Scalar>, rest: Bytes)
    requires AllWhite(gap)
    ensures Words(Octets(gap) + rest) == Words(rest)
  {
    hide Encode, SpaceFront, White, WordEnd;
    if gap == [] {
      assert Octets(gap) + rest == rest;
    } else {
      var more := Octets(gap[1..]) + rest;
      WhiteFront(gap[0], more);
      assert White(gap[0]);
      assert Octets(gap) + rest == Encode(gap[0]) + more;
      assert (Encode(gap[0]) + more)[|Encode(gap[0])|..] == more;
      WordsPastGap(gap[1..], rest);
    }
  }

  lemma NoSpaceInside(s: Bytes)
    requires s != "" && 0x80 <= s[0] as int <= 0xBF
    ensures SpaceFront(s) == 0
  {
    assert |s| >= 2 ==> s[..2][0] == s[0];
    assert |s| >= 3 ==> s[..3][0] == s[0];
  }

  lemma LaterOctets(c: Scalar, k: nat)
    requires 0 < k < |Encode(c)|
    ensures 0x80 <= Encode(c)[k] as int <= 0xBF
  {
  }

  /** Does a word that has reached `rest` go on there? */
  predicate GoesOn(rest: Bytes) {
    rest != "" && SpaceFront(rest) == 0
  }

  lemma {:induction false} WordEndWithin(tail: Bytes, rest: Bytes)
    requires tail != "" && SpaceFront(tail + rest) == 0
    requires forall k | 0 < k < |tail| :: 0x80 <= tail[k] as int <= 0xBF
    ensures WordEnd(tail + rest) == |tail| + if GoesOn(rest) then WordEnd(rest) else 0
    decreases |tail|
  {
    hide SpaceFront;
    var s := tail + rest;
    assert s[1..] == tail[1..] + rest;
    if |tail| == 1 {
      assert s[1..] == rest;
    } else {
      NoSpaceInside(tail[1..] + rest);
      WordEndWithin(tail[1..], rest);
    }
  }

  lemma {:induction false} WordEndText(w: seq<Scalar>, rest: Bytes)
    requires NoWhite(w) && !GoesOn(rest)
    ensures SpaceFront(Octets(w) + rest) == 0 && Octets(w) != "" && WordEnd(Octets(w) + rest) == |Octets(w)|
  {
    hide SpaceFront, White, WordEnd;
    var c, more := w[0], Octets(w[1..]) + rest;
    assert c in w;
    WhiteFront(c, more);
    forall k | 0 < k < |Encode(c)| ensures 0x80 <= Encode(c)[k] as int <= 0xBF {
      LaterOctets(c, k);
    }
    hide Encode;
    assert Octets(w) + rest == Encode(c) + more;
    WordEndWithin(Encode(c), more);
    if |w| == 1 {
      assert more == rest;
    } else {
      assert forall d | d in w[1..] :: d in w;
      WordEndText(w[1..], rest);
    }
  }

  lemma GapStops(gap: seq<Scalar>, rest: Bytes)
    requires AllWhite(gap) && gap != []
    ensures !GoesOn(Octets(gap) + rest)
  {
    hide Encode, SpaceFront, White;
    WhiteFront(gap[0], Octets(gap[1..]) + rest);
    assert White(gap[0]);
    assert Octets(gap) + rest == Encode(gap[0]) + (Octets(gap[1..]) + rest);
  }

  lemma SpacedTail(words: seq<seq<Scalar>>, gaps: seq<seq<Scalar>>)
    requires SpacedOk(words, gaps) && words != []
    ensures SpacedOk(words[1..], gaps[1..]) && !GoesOn(Spaced(words[1..], gaps[1..]))
  {
    hide Octets, AllWhite, NoWhite, GoesOn;
    assert forall i | 0 < i < |words[1..]| :: gaps[1..][i] == gaps[i + 1];
    if |words| == 1 {
      LastGap(gaps[1]);
    } else {
      var rest := Octets(words[1]) + Spaced(words[1..][1..], gaps[1..][1..]);
      GapStops(gaps[1], rest);
    }
  }

  lemma LastGap(gap: seq<Scalar>)
    requires AllWhite(gap)
    ensures !GoesOn(Octets(gap))
  {
    if gap != [] {
      GapStops(gap, "");
      hide Octets;
      assert Octets(gap) + "" == Octets(gap);
    }
  }

  /** `split_whitespace` finds the words between white space, and no others. */
  lemma {:induction false} WordsText(words: seq<seq<Scalar>>, gaps: seq<seq<Scalar>>)
    requires SpacedOk(words, gaps)
    ensures Words(Spaced(words, gaps)) == OctetsEach(words)
  {
    hide Octets, AllWhite, NoWhite, GoesOn, WordEnd, SpaceFront, SpacedOk;
    GapsAreWhite(words, gaps);
    if words == [] {
      WordsPastGap(gaps[0], "");
      assert Octets(gaps[0]) + "" == Octets(gaps[0]);
    } else {
      SpacedTail(words, gaps);
      var rest := Spaced(words[1..], gaps[1..]);
      WordsPastGap(gaps[0], Octets(words[0]) + rest);
      WordEndText(words[0], rest);
      WordsText(words[1..], gaps[1..]);
      var s := Octets(words[0]) + rest;
      assert s[..|Octets(words[0])|] == Octets(words[0]) && s[|Octets(words[0])|..] == rest;
    }
  }

  lemma GapsAreWhite(words: seq<seq<Scalar>>, gaps: seq<seq<Scalar>>)
    requires SpacedOk(words, gaps)
    ensures |gaps| == |words| + 1 && AllWhite(gaps[0]) && (words != [] ==> NoWhite(words[0]))
  {
    hide AllWhite, NoWhite;
  }

  // ---------- letters ----------

  const UPPER: Bytes := "ABCDEFGHIJKLMNOPQRSTUVWXYZ"
  const LOWER: Bytes := "abcdefghijklmnopqrstuvwxyz"

  /** The two are one octet, or the two cases of one letter. */
  predicate SameLetter(a: char, b: char) {
    a == b || exists k | 0 <= k < 26 :: (a == UPPER[k] && b == LOWER[k]) || (a == LOWER[k] && b == UPPER[k])
  }

  lemma Alphabet(k: nat)
    requires k < 26
    ensures UPPER[k] as int == 'A' as int + k && LOWER[k] as int == 'a' as int + k
  {
  }

  lemma LowerIsSameLetter(a: char, b: char)
    ensures Lower(a) == Lower(b) <==> SameLetter(a, b)
  {
    forall k | 0 <= k < 26 ensures Lower(UPPER[k]) == LOWER[k] && Lower(LOWER[k]) == LOWER[k] {
      Alphabet(k);
    }
    if Lower(a) == Lower(b) && a != b {
      var k := Lower(a) as int - 'a' as int;
      Alphabet(k);
    }
  }

  /** `eq_ignore_ascii_case`: the same octets, up to the case of ASCII letters. */
  lemma SameTextExactly(a: Bytes, b: Bytes)
    ensures SameText(a, b) <==> |a| == |b| && forall i | 0 <= i < |a| :: SameLetter(a[i], b[i])
  {
    hide Lower, SameLetter;
    forall i | 0 <= i < |a| && |a| == |b| ensures Lower(a[i]) == Lower(b[i]) <==> SameLetter(a[i], b[i]) {
      LowerIsSameLetter(a[i], b[i]);
    }
  }
}

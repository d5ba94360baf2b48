/**
 What a head tells the client about the end of the connection.
*/
module CloseNotice {
  import opened Wrappers
  import opened ByteText
  import opened Http
  import opened Fields
  import opened ResponseHead
  import opened PrintedHead
  import opened ResponseStream

  // ---------- announcing the end of the connection ----------

  /** Does the head tell the client that the connection will be closed? */
  predicate AnnouncesClose(head: Bytes)
    requires |head| >= 4
  {
    WantsClose(ReadHeaders(HeaderLines(head[..|head| - 4])))
  }

  function AsRead(h: Header): Header {
    (FieldName(h.0), TrimStart(FieldRest(h)))
  }

  lemma {:induction false} ReadBackHeaders(headers: seq<Header>)
    ensures WantsClose(ReadHeaders(HeaderTexts(headers))) <==> exists h | h in headers :: AsksClose(AsRead(h))
  {
    hide AsksClose, AsRead, FieldName, FieldRest, HeaderText;
    if headers != [] {
      var first, more := headers[0], ReadHeaders(HeaderTexts(headers[1..]));
      assert HeaderTexts(headers) == [HeaderText(first)] + HeaderTexts(headers[1..]);
      assert HeaderTexts(headers)[1..] == HeaderTexts(headers[1..]);
      ReadOne(first);
      hide SplitOnce;
      ReadBackHeaders(headers[1..]);
      assert ReadHeaders(HeaderTexts(headers)) == [AsRead(first)] + more;
      assert forall h :: h in headers <==> h == first || h in headers[1..];
      assert forall h :: h in [AsRead(first)] + more <==> h == AsRead(first) || h in more;
    }
  }

  lemma ReadOne(h: Header)
    ensures SplitOnce(HeaderText(h), ":").Some?
    ensures (SplitOnce(HeaderText(h), ":").value.0, TrimStart(SplitOnce(HeaderText(h), ":").value.1)) == AsRead(h)
  {
    SplitHeader(h);
    hide SplitOnce;
  }

  /** Leading white space in a Connection value does not change what it asks. */
  lemma {:induction false} LeadingSpace(v: Bytes)
    ensures HasClose(Split(TrimStart(v), ",")) <==> HasClose(Split(v, ","))
    decreases |v|
  {
    var n := SpaceFront(v);
    if n > 0 {
      LeadingSpace(v[n..]);
      SpaceBeforeComma(v);
    }
    hide Split, Trim, SpaceFront;
  }

  /** The text before the first comma, and the tokens after it. */
  function FirstToken(v: Bytes): Bytes {
    match Find(v, ",")
    case None => v
    case Some(i) => v[..i]
  }

  function OtherTokens(v: Bytes): seq<Bytes> {
    match Find(v, ",")
    case None => []
    case Some(i) => Split(v[i + 1..], ",")
  }

  lemma TokensApart(v: Bytes)
    ensures HasClose(Split(v, ",")) <==> SameText(Trim(FirstToken(v)), "close") || HasClose(OtherTokens(v))
  {
    hide Trim, SameText;
    assert Split(v, ",") == [FirstToken(v)] + OtherTokens(v);
    assert forall t :: t in Split(v, ",") <==> t == FirstToken(v) || t in OtherTokens(v);
  }

  lemma PastSpace(space: Bytes, w: Bytes)
    requires ',' !in space
    ensures FirstToken(space + w) == space + FirstToken(w) && OtherTokens(space + w) == OtherTokens(w)
  {
    hide Find, Split;
    FindPastSpace(space, w);
    if Find(w, ",").Some? {
      var i := Find(w, ",").value;
      assert (space + w)[..|space| + i] == space + w[..i];
      assert (space + w)[|space| + i + 1..] == w[i + 1..];
    }
  }

  lemma SpaceBeforeComma(v: Bytes)
    requires SpaceFront(v) > 0
    ensures HasClose(Split(v[SpaceFront(v)..], ",")) <==> HasClose(Split(v, ","))
  {
    var n := SpaceFront(v);
    assert ',' !in v[..n];
    assert v == v[..n] + v[n..];
    hide Split, FirstToken, OtherTokens, HasClose, Trim;
    PastSpace(v[..n], v[n..]);
    TokensApart(v);
    TokensApart(v[n..]);
    TrimPastSpace(v, FirstToken(v[n..]));
  }

  lemma FindPastSpace(space: Bytes, w: Bytes)
    requires ',' !in space
    ensures Find(space + w, ",") == match Find(w, ",") { case None => None case Some(i) => Some(|space| + i) }
  {
    var s := space + w;
    assert "," == [','];
    OneOctet(space, ',');
    forall j: nat | |space| <= j ensures At(s, ",", j) == At(w, ",", j - |space|) {
      AtPrepend(space, w, ",", j - |space|);
    }
    forall j: nat | j < |space| ensures !At(s, ",", j) {
      AtAppend(space, w, ",", j);
    }
    if Find(w, ",").Some? {
      FindIs(s, ",", |space| + Find(w, ",").value);
    }
  }

  lemma TrimPastSpace(v: Bytes, head: Bytes)
    requires SpaceFront(v) > 0
    ensures Trim(v[..SpaceFront(v)] + head) == Trim(head)
  {
    var n := SpaceFront(v);
    var s := v[..n] + head;
    assert SpaceFront(s) == n;
    assert s[n..] == head;
    assert TrimStart(s) == TrimStart(head);
  }

  lemma PlainAsksAsRead(h: Header)
    requires ':' !in h.0
    ensures AsksClose(AsRead(h)) <==> AsksClose(h)
  {
    PlainName(h);
    LeadingSpace(" " + h.1);
    LeadingSpace(h.1);
    SpaceThen(h.1);
    hide HasClose, Split, FieldName, FieldRest, TrimStart;
  }

  /** What a header of this name and value tells a client about the connection. */
  predicate Promises(h: Header) {
    if ':' in h.0 then AsksClose(AsRead(h)) else AsksClose(h)
  }

  lemma AsReadPromises(h: Header)
    ensures AsksClose(AsRead(h)) <==> Promises(h)
  {
    hide AsksClose, AsRead;
    if ':' !in h.0 {
      PlainAsksAsRead(h);
    }
  }

  lemma OtherNamesPromiseNothing(h: Header)
    requires ':' !in h.0 && |h.0| != 10
    ensures !Promises(h)
  {
  }

  lemma ClosePromises()
    ensures Promises(("Connection", "close"))
  {
    assert ':' !in "Connection";
    assert SameText("Connection", "connection") && SameText("close", "close");
    OneOctet("close", ',');
    assert "," == [','];
    assert Split("close", ",") == ["close"];
    TrimSolid("close");
    hide Split, Trim, SameText;
    assert "close" in ["close"];
  }

  lemma PromisingAreKept(h: Header)
    requires Promises(h)
    ensures !Replaced(h.0, false)
  {
    hide AsRead, HasClose;
    if ':' in h.0 {
      NoColonInName(h.0);
    }
  }

  lemma AddedPromises(m: Message)
    ensures (exists h | h in LengthHeaders(m) + CloseHeaders(m.close) + CorsHeaders(m.cors, m.origin) :: Promises(h))
      <==> m.close
  {
    CorsNames(m.cors, m.origin);
    LengthName();
    ClosePromises();
    hide CorsHeaders, Promises, HasContent, Print;
    var added := LengthHeaders(m) + CloseHeaders(m.close) + CorsHeaders(m.cors, m.origin);
    forall h | h in added && h != ("Connection", "close") ensures !Promises(h) {
      OtherNamesPromiseNothing(h);
    }
    if m.close {
      assert ("Connection", "close") in CloseHeaders(true);
    }
  }

  /**
   A printed head announces the end of the connection exactly when the server
   means to end it, or when some header of the response promises it.
  */
  lemma HeadAnnounces(m: Message)
    requires HeadOf(m).Some?
    ensures |HeadOf(m).value| >= 4
    ensures AnnouncesClose(HeadOf(m).value) <==> m.close || exists h | h in m.response.headers :: Promises(h)
  {
    HeadLinesOfHead(m);
    ReadBackHeaders(SentHeaders(m));
    AddedPromises(m);
    KeptAreHeaders(m.response.headers, m.close);
    hide HeadOf, HeaderTexts, Kept, LengthHeaders, CloseHeaders, CorsHeaders, Promises, AsksClose, AsRead, Replaced;
    forall h ensures AsksClose(AsRead(h)) <==> Promises(h) {
      AsReadPromises(h);
    }
    forall h | Promises(h) ensures !Replaced(h.0, false) {
      PromisingAreKept(h);
    }
    SentMembers(m);
  }

  lemma SentMembers(m: Message)
    ensures var added := LengthHeaders(m) + CloseHeaders(m.close) + CorsHeaders(m.cors, m.origin);
      forall h :: h in SentHeaders(m) <==> h in Kept(m.response.headers, m.close) || h in added
  {
    hide Kept, LengthHeaders, CloseHeaders, CorsHeaders;
  }

  /** What is sent announces the end when it is the fallback, too. */
  lemma SentAnnounces(m: Message)
    ensures |SentParts(m).0| >= 4
    ensures AnnouncesClose(SentParts(m).0)
      <==> HeadOf(m).None? || m.close || exists h | h in m.response.headers :: Promises(h)
  {
    hide HeadOf, AnnouncesClose, Promises;
    if HeadOf(m).None? {
      FallbackIsAHead();
      FallbackIsHonest(0);
      HeadAnnounces(FallbackMessage());
    } else {
      HeadAnnounces(m);
    }
  }

  // ---------- a name that misleads ----------

  lemma ColonNameReads()
    ensures ':' in "connection: close,"
    ensures FieldName("connection: close,") == "connection"
    ensures FieldRest(("connection: close,", "")) == " " + "close,: "
  {
    hide *;
    ColonNameText();
    ColonAt("connection", " close,");
  }

  lemma ColonNameText()
    ensures ':' !in "connection"
    ensures "connection" + ":" + " close," == "connection: close,"
    ensures " close," + ": " == " " + "close,: "
  {
  }

  lemma ColonAt(name: Bytes, rest: Bytes)
    requires ':' !in name
    ensures var key := name + ":" + rest;
      ':' in key && FieldName(key) == name && FieldRest((key, "")) == rest + ": "
  {
    assert ":" == [':'];
    OneOctet(name, ':');
    FindAfter(name, ":", rest);
    hide Find, FreeOf;
    var key := name + ":" + rest;
    assert key[|name|] == ':';
    assert key[..|name|] == name && key[|name| + 1..] == rest;
  }

  lemma CloseIsFirst()
    ensures HasClose(Split("close,: ", ","))
  {
    assert ',' !in "close" && "," == [','];
    OneOctet("close", ',');
    FindAfter("close", ",", ": ");
    TrimSolid("close");
    hide Find, FreeOf, Trim;
    assert "close" + "," + ": " == "close,: ";
    assert "close,: "[..5] == "close";
    assert SameText("close", "close");
  }

  lemma ValueReads()
    ensures TrimStart(" " + "close,: ") == "close,: "
  {
    SpaceThen("close,: ");
    assert SpaceFront("close,: ") == 0;
  }

  /** A header name that spells out a Connection field asks for an end the server does not make. */
  lemma ColonNamePromises()
    ensures Promises(("connection: close,", "")) && !AsksClose(("connection: close,", ""))
  {
    hide HasClose, FieldName, FieldRest, TrimStart, Split;
    ColonNameReads();
    ValueReads();
    CloseIsFirst();
    NoColonInName("connection: close,");
  }
}

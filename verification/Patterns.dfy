/** Path patterns: matching them, extracting their slots, and filling them. */
module Patterns {
  import opened Wrappers
  import opened ByteText

  // ---------- path patterns ----------

  predicate IsSlot(part: Bytes) {
    part != "" && part[0] == '{' && part[|part| - 1] == '}'
  }

  predicate Brace(c: char) {
    c == '{' || c == '}'
  }

  function BracesOff(s: Bytes): (t: Bytes)
    ensures |t| <= |s|
    decreases |s|
  {
    if s == "" then s
    else if Brace(s[0]) then BracesOff(s[1..])
    else if Brace(s[|s| - 1]) then BracesOff(s[..|s| - 1])
    else s
  }

  /** A part is a slot exactly when it stands in braces. */
  lemma SlotExactly(part: Bytes)
    ensures IsSlot(part) <==> exists name :: part == "{" + name + "}"
  {
    if IsSlot(part) {
      assert part == "{" + part[1..|part| - 1] + "}";
    }
  }

  predicate AllBraces(s: Bytes) {
    forall c | c in s :: Brace(c)
  }

  /** The name of a slot: all braces off both ends, and nothing else. */
  lemma {:induction false} BracesOffText(lead: Bytes, core: Bytes, trail: Bytes)
    requires AllBraces(lead) && AllBraces(trail)
    requires core != "" ==> !Brace(core[0]) && !Brace(core[|core| - 1])
    ensures BracesOff(lead + core + trail) == core
    decreases |lead| + |trail|
  {
    var s := lead + core + trail;
    if lead != "" {
      assert lead[0] in lead && s[1..] == lead[1..] + core + trail;
      BracesOffText(lead[1..], core, trail);
    } else if trail != "" {
      assert trail[|trail| - 1] in trail && trail[0] in trail;
      if core == "" {
        assert s[1..] == "" + core + trail[1..];
        BracesOffText("", core, trail[1..]);
      } else {
        assert s[..|s| - 1] == "" + core + trail[..|trail| - 1];
        BracesOffText("", core, trail[..|trail| - 1]);
      }
    } else {
      assert s == core;
    }
  }

  lemma {:induction false} BracesParts(s: Bytes) returns (lead: Bytes, trail: Bytes)
    ensures AllBraces(lead) && AllBraces(trail) && s == lead + BracesOff(s) + trail
    ensures var core := BracesOff(s); core != "" ==> !Brace(core[0]) && !Brace(core[|core| - 1])
    decreases |s|
  {
    if s == "" {
      lead, trail := "", "";
    } else if Brace(s[0]) {
      lead, trail := BracesParts(s[1..]);
      lead := [s[0]] + lead;
      assert s == [s[0]] + s[1..];
    } else if Brace(s[|s| - 1]) {
      lead, trail := BracesParts(s[..|s| - 1]);
      trail := trail + [s[|s| - 1]];
      assert s == s[..|s| - 1] + [s[|s| - 1]];
    } else {
      lead, trail := "", "";
      assert s == "" + s + "";
    }
  }

  /** Matches pattern parts against path parts, collecting slots; a later slot of the same name wins. */
  function MatchParts(route: seq<Bytes>, path: seq<Bytes>, found: map<Bytes, Bytes>): Option<map<Bytes, Bytes>>
    requires |route| == |path|
  {
    if route == [] then Some(found)
    else if IsSlot(route[0]) then MatchParts(route[1..], path[1..], found[BracesOff(route[0]) := path[0]])
    else if route[0] == path[0] then MatchParts(route[1..], path[1..], found)
    else None
  }

  /** `extract_params`: empty when the pattern does not match, or has no slots. */
  function Params(route: Bytes, path: Bytes): map<Bytes, Bytes> {
    var routeParts, pathParts := Split(route, "/"), Split(path, "/");
    if |routeParts| != |pathParts| then map[]
    else match MatchParts(routeParts, pathParts, map[])
      case None => map[]
      case Some(found) => found
  }

  method ExtractParams(route: Bytes, path: Bytes) returns (params: map<Bytes, Bytes>)
    ensures params == Params(route, path)
  {
    var routeParts, pathParts := Split(route, "/"), Split(path, "/");
    if |routeParts| != |pathParts| {
      return map[];
    }
    var sorted: map<Bytes, Bytes> := map[];
    var i := 0;
    while i < |routeParts|
      invariant 0 <= i <= |routeParts| == |pathParts|
      invariant MatchParts(routeParts, pathParts, map[]) == MatchParts(routeParts[i..], pathParts[i..], sorted)
    {
      var part := routeParts[i];
      if IsSlot(part) {
        sorted := sorted[BracesOff(part) := pathParts[i]];
      } else if part != pathParts[i] {
        return map[];
      }
      i := i + 1;
    }
    params := sorted;
  }

  // ---------- filling a pattern's slots ----------

  /** A segment of a pattern: fixed text, or a named slot and the value put in it. */
  datatype Segment = Fixed(text: Bytes) | Slot(name: Bytes, value: Bytes)

  function PatternPart(s: Segment): Bytes {
    if s.Fixed? then s.text else "{" + s.name + "}"
  }

  function PathPart(s: Segment): Bytes {
    if s.Fixed? then s.text else s.value
  }

  function PatternParts(segments: seq<Segment>): (parts: seq<Bytes>)
    ensures |parts| == |segments| && forall i | 0 <= i < |parts| :: parts[i] == PatternPart(segments[i])
  {
    if segments == [] then [] else [PatternPart(segments[0])] + PatternParts(segments[1..])
  }

  function PathParts(segments: seq<Segment>): (parts: seq<Bytes>)
    ensures |parts| == |segments| && forall i | 0 <= i < |parts| :: parts[i] == PathPart(segments[i])
  {
    if segments == [] then [] else [PathPart(segments[0])] + PathParts(segments[1..])
  }

  function Values(segments: seq<Segment>, found: map<Bytes, Bytes>): map<Bytes, Bytes> {
    if segments == [] then found
    else Values(segments[1..], if segments[0].Slot? then found[segments[0].name := segments[0].value] else found)
  }

  /** Text within one segment; a name that braces do not run into. */
  predicate SegmentOk(s: Segment) {
    && '/' !in PatternPart(s) && '/' !in PathPart(s)
    && (s.Fixed? ==> !IsSlot(s.text))
    && (s.Slot? && s.name != "" ==> !Brace(s.name[0]) && !Brace(s.name[|s.name| - 1]))
  }

  lemma SlotName(name: Bytes)
    requires name != "" ==> !Brace(name[0]) && !Brace(name[|name| - 1])
    ensures IsSlot("{" + name + "}") && BracesOff("{" + name + "}") == name
  {
    var part := "{" + name + "}";
    assert part[1..] == name + "}";
    assert (name + "}")[..|name|] == name;
    assert BracesOff("") == "" && BracesOff("}") == BracesOff("}"[1..]);
    if name == "" {
      assert name + "}" == "}";
    } else {
      assert BracesOff(name) == name;
      assert BracesOff(name + "}") == BracesOff(name);
    }
  }

  /** The segment is a reading of this part of a pattern, filled with text of one segment. */
  predicate ReadsAs(part: Bytes, s: Segment) {
    && (if IsSlot(part) then s.Slot? && s.name == BracesOff(part) else s == Fixed(part))
    && '/' !in PathPart(s)
  }

  lemma OkReads(s: Segment)
    requires SegmentOk(s)
    ensures ReadsAs(PatternPart(s), s)
  {
    if s.Slot? {
      SlotName(s.name);
    }
  }

  lemma {:induction false} MatchSegments(parts: seq<Bytes>, segments: seq<Segment>, found: map<Bytes, Bytes>)
    requires |parts| == |segments| && forall i | 0 <= i < |parts| :: ReadsAs(parts[i], segments[i])
    ensures MatchParts(parts, PathParts(segments), found) == Some(Values(segments, found))
  {
    hide IsSlot, BracesOff;
    if segments != [] {
      var s, rest := segments[0], segments[1..];
      assert PathParts(segments)[1..] == PathParts(rest);
      assert ReadsAs(parts[0], s);
      MatchSegments(parts[1..], rest, if s.Slot? then found[s.name := s.value] else found);
    }
  }

  lemma {:induction false} ValuesKept(segments: seq<Segment>, found: map<Bytes, Bytes>, name: Bytes)
    requires forall s | s in segments && s.Slot? :: s.name != name
    ensures name in Values(segments, found) <==> name in found
    ensures name in found ==> Values(segments, found)[name] == found[name]
  {
    if segments != [] {
      var s := segments[0];
      ValuesKept(segments[1..], if s.Slot? then found[s.name := s.value] else found, name);
    }
  }

  /** No two slots share a name. */
  predicate DistinctNames(segments: seq<Segment>) {
    forall i, j | 0 <= i < j < |segments| ::
      segments[i].Slot? && segments[j].Slot? ==> segments[i].name != segments[j].name
  }

  lemma SplitsBack(parts: seq<Bytes>)
    requires |parts| > 0 && forall p | p in parts :: '/' !in p
    ensures Split(Join(parts, "/"), "/") == parts
  {
    assert "/" == ['/'];
    forall i | 0 <= i < |parts| ensures FreeOf(parts[i], "/") {
      OneOctet(parts[i], '/');
    }
    SplitJoin(parts, "/");
  }

  lemma PartsSplitBack(segments: seq<Segment>)
    requires |segments| > 0 && forall s | s in segments :: SegmentOk(s)
    ensures Split(Join(PatternParts(segments), "/"), "/") == PatternParts(segments)
    ensures Split(Join(PathParts(segments), "/"), "/") == PathParts(segments)
  {
    hide IsSlot, Split, Join;
    var patterns, paths := PatternParts(segments), PathParts(segments);
    forall i | 0 <= i < |segments| ensures '/' !in patterns[i] && '/' !in paths[i] {
      assert SegmentOk(segments[i]);
    }
    hide PatternPart, PathPart, SegmentOk;
    SplitsBack(PatternParts(segments));
    SplitsBack(PathParts(segments));
  }

  // ---------- a match is a filling ----------

  /** `segments` reads the pattern `route` part by part, with a value in every slot. */
  ghost predicate Fills(segments: seq<Segment>, route: Bytes) {
    && |segments| == |Split(route, "/")|
    && forall i | 0 <= i < |segments| :: ReadsAs(Split(route, "/")[i], segments[i])
  }

  /** The i-th segment is the last slot of its name. */
  predicate LastOfName(segments: seq<Segment>, i: nat) {
    && i < |segments| && segments[i].Slot?
    && forall j | i < j < |segments| && segments[j].Slot? :: segments[j].name != segments[i].name
  }

  lemma {:induction false} LastValueFound(segments: seq<Segment>, found: map<Bytes, Bytes>, i: nat)
    requires LastOfName(segments, i)
    ensures segments[i].name in Values(segments, found)
    ensures Values(segments, found)[segments[i].name] == segments[i].value
  {
    var s, rest := segments[0], segments[1..];
    var next := if s.Slot? then found[s.name := s.value] else found;
    if i == 0 {
      ValuesKept(rest, next, s.name);
    } else {
      assert rest[i - 1] == segments[i];
      LastValueFound(rest, next, i - 1);
    }
  }

  lemma LastIsSlot(segments: seq<Segment>, i: nat)
    requires LastOfName(segments, i)
    ensures i < |segments| && segments[i].Slot?
  {
  }

  /** The names of the slots, each with the value of the last slot of that name. */
  ghost predicate TakesValues(params: map<Bytes, Bytes>, segments: seq<Segment>) {
    && (forall i: nat | LastOfName(segments, i) ::
          segments[i].name in params && params[segments[i].name] == segments[i].value)
    && (forall name | name in params :: exists s | s in segments :: s.Slot? && s.name == name)
  }

  lemma ValuesTaken(segments: seq<Segment>)
    ensures TakesValues(Values(segments, map[]), segments)
  {
    hide Values, LastOfName;
    forall i: nat | LastOfName(segments, i)
      ensures i < |segments| && segments[i].Slot? && segments[i].name in Values(segments, map[])
      ensures Values(segments, map[])[segments[i].name] == segments[i].value
    {
      LastIsSlot(segments, i);
      LastValueFound(segments, map[], i);
    }
    forall name | name in Values(segments, map[]) ensures exists s | s in segments :: s.Slot? && s.name == name {
      if forall s | s in segments && s.Slot? :: s.name != name {
        ValuesKept(segments, map[], name);
      }
    }
  }

  /** Filling the slots of any pattern: the values are extracted, the last one of each name. */
  lemma FillingIsExtracted(segments: seq<Segment>, route: Bytes)
    requires Fills(segments, route)
    ensures TakesValues(Params(route, Join(PathParts(segments), "/")), segments)
  {
    hide TakesValues, IsSlot, BracesOff, Join, Split, MatchParts;
    var paths := PathParts(segments);
    forall i | 0 <= i < |paths| ensures '/' !in paths[i] {
      assert ReadsAs(Split(route, "/")[i], segments[i]);
    }
    hide ReadsAs;
    SplitsBack(paths);
    MatchSegments(Split(route, "/"), segments, map[]);
    ValuesTaken(segments);
  }

  /**
   Filling the distinctly named slots of a pattern with slash-free values gives
   a path from which exactly those values are extracted, under those names.
  */
  lemma SlotsRoundTrip(segments: seq<Segment>)
    requires |segments| > 0 && DistinctNames(segments)
    requires forall s | s in segments :: SegmentOk(s)
    ensures var params := Params(Join(PatternParts(segments), "/"), Join(PathParts(segments), "/"));
      && (forall i | 0 <= i < |segments| && segments[i].Slot? ::
            segments[i].name in params && params[segments[i].name] == segments[i].value)
      && (forall name | name in params :: exists s | s in segments :: s.Slot? && s.name == name)
  {
    hide *;
    var route := Join(PatternParts(segments), "/");
    OwnPattern(segments);
    FillingIsExtracted(segments, route);
    DistinctAreLast(Params(route, Join(PathParts(segments), "/")), segments);
  }

  lemma OwnPattern(segments: seq<Segment>)
    requires |segments| > 0 && forall s | s in segments :: SegmentOk(s)
    ensures Fills(segments, Join(PatternParts(segments), "/"))
  {
    hide SegmentOk, Join, Split, ReadsAs;
    PartsSplitBack(segments);
    forall s | s in segments ensures ReadsAs(PatternPart(s), s) {
      OkReads(s);
    }
  }

  lemma DistinctAreLast(params: map<Bytes, Bytes>, segments: seq<Segment>)
    requires DistinctNames(segments) && TakesValues(params, segments)
    ensures forall i | 0 <= i < |segments| && segments[i].Slot? ::
      segments[i].name in params && params[segments[i].name] == segments[i].value
    ensures forall name | name in params :: exists s | s in segments :: s.Slot? && s.name == name
  {
    assert forall i | 0 <= i < |segments| && segments[i].Slot? :: LastOfName(segments, i);
  }

  lemma {:induction false} MatchIsFilling(route: seq<Bytes>, path: seq<Bytes>, found: map<Bytes, Bytes>)
    returns (segments: seq<Segment>)
    requires |route| == |path| && MatchParts(route, path, found).Some?
    requires forall p | p in path :: '/' !in p
    ensures |segments| == |route| && forall i | 0 <= i < |route| :: ReadsAs(route[i], segments[i])
    ensures PathParts(segments) == path
  {
    hide IsSlot, BracesOff;
    if route == [] {
      segments := [];
    } else {
      var rest;
      if IsSlot(route[0]) {
        rest := MatchIsFilling(route[1..], path[1..], found[BracesOff(route[0]) := path[0]]);
        segments := [Slot(BracesOff(route[0]), path[0])] + rest;
      } else {
        rest := MatchIsFilling(route[1..], path[1..], found);
        segments := [Fixed(route[0])] + rest;
      }
      assert segments[1..] == rest;
    }
  }

  lemma SplitIsFree(s: Bytes)
    ensures forall p | p in Split(s, "/") :: '/' !in p
  {
    hide Split, FreeOf;
    SplitParts(s, "/");
    assert "/" == ['/'];
    forall p | p in Split(s, "/") ensures '/' !in p {
      OneOctet(p, '/');
    }
  }

  /** Whatever is extracted from a path, the path is the pattern with just these values in its slots. */
  lemma ExtractedIsFilling(route: Bytes, path: Bytes) returns (segments: seq<Segment>)
    requires Params(route, path) != map[]
    ensures Fills(segments, route) && path == Join(PathParts(segments), "/")
    ensures TakesValues(Params(route, path), segments)
  {
    hide Split, Join, MatchParts, ReadsAs, TakesValues;
    SplitIsFree(path);
    segments := MatchIsFilling(Split(route, "/"), Split(path, "/"), map[]);
    JoinSplit(path, "/");
    FillingIsExtracted(segments, route);
  }

  /** A pattern matches a path exactly when the path is the pattern with its slots, one at least, filled. */
  lemma MatchesAreFillings(route: Bytes, path: Bytes)
    ensures Params(route, path) != map[]
      <==> exists segments: seq<Segment> ::
             Fills(segments, route) && path == Join(PathParts(segments), "/") && exists s | s in segments :: s.Slot?
  {
    hide Params, ReadsAs, Split, Join, TakesValues;
    if Params(route, path) != map[] {
      var segments := ExtractedIsFilling(route, path);
      SlotsAreNamed(Params(route, path), segments);
    }
    forall segments: seq<Segment> |
      Fills(segments, route) && path == Join(PathParts(segments), "/") && exists s | s in segments :: s.Slot?
      ensures Params(route, path) != map[]
    {
      FillingIsExtracted(segments, route);
      SlotsAreNamed(Params(route, path), segments);
    }
  }

  lemma SlotsAreNamed(params: map<Bytes, Bytes>, segments: seq<Segment>)
    requires TakesValues(params, segments)
    ensures params != map[] <==> exists s | s in segments :: s.Slot?
  {
    if s :| s in segments && s.Slot? {
      var i: nat :| i < |segments| && segments[i] == s;
      var last := LastSlot(segments, i);
      assert segments[last].name in params;
    }
  }

  lemma {:induction false} LastSlot(segments: seq<Segment>, i: nat) returns (last: nat)
    requires i < |segments| && segments[i].Slot?
    ensures LastOfName(segments, last)
    decreases |segments| - i
  {
    if j: nat :| i < j < |segments| && segments[j].Slot? && segments[j].name == segments[i].name {
      last := LastSlot(segments, j);
    } else {
      last := i;
    }
  }
}

/**
 A route table is a hash map: what the arbitrary order in which it is iterated
 over can change, and exactly when it does.
*/
module RouteOrder {
  import opened Wrappers
  import opened ByteText
  import opened Http
  import opened Fields
  import opened Patterns
  import opened Routing

  /** At most one pattern of the method matches the path. */
  ghost predicate Unambiguous(routes: Routes, verb: Method, path: Bytes) {
    forall j, k | j in routes.table && k in routes.table && Matches(j, verb, path) && Matches(k, verb, path) :: j == k
  }

  lemma Without<T>(s: seq<T>, i: nat)
    requires i < |s| && Distinct(s)
    ensures Distinct(s[..i] + s[i + 1..])
    ensures forall x :: x in s[..i] + s[i + 1..] <==> x in s && x != s[i]
  {
    var rest := s[..i] + s[i + 1..];
    forall x ensures x in rest <==> x in s && x != s[i] {
      if x in s && x != s[i] {
        var j :| 0 <= j < |s| && s[j] == x;
        assert rest[if j < i then j else j - 1] == x;
      }
    }
  }

  /** The same keys, with one moved to the front. */
  lemma MovedToFront(routes: Routes, k: RouteKey) returns (moved: Routes)
    requires Enumerates(routes) && k in routes.table
    ensures Enumerates(moved) && moved.table == routes.table && moved.order != [] && moved.order[0] == k
  {
    var i :| 0 <= i < |routes.order| && routes.order[i] == k;
    Without(routes.order, i);
    var rest := routes.order[..i] + routes.order[i + 1..];
    moved := Routes(routes.table, [k] + rest);
    assert Distinct([k] + rest);
  }

  /** The same table, iterated over in some order. */
  ghost predicate Reordered(routes: Routes, other: Routes) {
    Enumerates(other) && other.table == routes.table
  }

  /** A key of the table whose pattern matches. */
  predicate Candidate(routes: Routes, k: RouteKey, verb: Method, path: Bytes) {
    k in routes.table && Matches(k, verb, path)
  }

  /**
   Whatever is made of the key that the search finds is the same for every order
   of iteration exactly when it is the same for all keys that match.
  */
  lemma MatchIgnoresOrder<T>(routes: Routes, verb: Method, path: Bytes, made: Option<RouteKey> -> T)
    requires Enumerates(routes)
    ensures (forall other | Reordered(routes, other) ::
               made(FirstMatch(other.order, verb, path)) == made(FirstMatch(routes.order, verb, path)))
      <==> forall j, k | Candidate(routes, j, verb, path) && Candidate(routes, k, verb, path) ::
             made(Some(j)) == made(Some(k))
  {
    hide Matches;
    var found := FirstMatch(routes.order, verb, path);
    if j, k :| Candidate(routes, j, verb, path) && Candidate(routes, k, verb, path) && made(Some(j)) != made(Some(k)) {
      var first := MovedToFront(routes, j);
      var second := MovedToFront(routes, k);
      assert FirstMatch(first.order, verb, path) == Some(j) && FirstMatch(second.order, verb, path) == Some(k);
      assert Reordered(routes, first) && Reordered(routes, second);
    } else {
      forall other | Reordered(routes, other) ensures made(FirstMatch(other.order, verb, path)) == made(found) {
        if found.Some? {
          assert Candidate(routes, found.value, verb, path);
          assert Candidate(routes, FirstMatch(other.order, verb, path).value, verb, path);
        }
      }
    }
  }

  /** Path parameters depend on the order of iteration exactly when two matching patterns extract different ones. */
  lemma PathParamsIgnoreOrder(routes: Routes, verb: Method, path: Bytes)
    requires Enumerates(routes)
    ensures (forall other | Reordered(routes, other) :: PathParams(other, verb, path) == PathParams(routes, verb, path))
      <==> forall j, k | Candidate(routes, j, verb, path) && Candidate(routes, k, verb, path) ::
             Params(j.1, path) == Params(k.1, path)
  {
    hide Params, FirstMatch, Enumerates, Matches;
    MatchIgnoresOrder(routes, verb, path, (k: Option<RouteKey>) => if k.None? then map[] else Params(k.value.1, path));
  }

  /** What is dispatched to, once the search has found `k`. */
  function DispatchTo(request: Request, routes: Routes, k: Option<RouteKey>): Option<(Entry, Request)> {
    var exact := (request.verb, request.path);
    if exact in routes.table then Some((routes.table[exact], request))
    else if k.None? || k.value !in routes.table then None
    else Some((routes.table[k.value], request.(params := Params(k.value.1, request.path) + request.params)))
  }

  /**
   The handler and what it is given are the same for every order of iteration
   exactly when a route is exact, or all matching patterns lead to one entry and
   one set of parameters under the request's own.
  */
  lemma DispatchIgnoresOrder(request: Request, routes: Routes)
    requires Enumerates(routes)
    ensures (forall other | Reordered(routes, other) :: Dispatch(request, other) == Dispatch(request, routes))
      <==> ((request.verb, request.path) in routes.table
            || forall j, k |
                 Candidate(routes, j, request.verb, request.path) && Candidate(routes, k, request.verb, request.path) ::
                 && routes.table[j] == routes.table[k]
                 && Params(j.1, request.path) + request.params == Params(k.1, request.path) + request.params)
  {
    hide Params, FirstMatch, Matches;
    MatchIgnoresOrder(routes, request.verb, request.path, k => DispatchTo(request, routes, k));
  }

  /** What takes the connection over, once the search has found `k`. */
  function UpgradeTo(request: Request, routes: Routes, k: Option<RouteKey>): Option<nat> {
    var exact := (request.verb, request.path);
    if exact in routes.table then routes.table[exact].upgrade
    else if k.None? || k.value !in routes.table then None
    else routes.table[k.value].upgrade
  }

  /** The upgrade hook, likewise. */
  lemma UpgradeIgnoresOrder(request: Request, routes: Routes)
    requires Enumerates(routes)
    ensures (forall other | Reordered(routes, other) :: UpgradeFor(request, other) == UpgradeFor(request, routes))
      <==> ((request.verb, request.path) in routes.table
            || forall j, k |
                 Candidate(routes, j, request.verb, request.path) && Candidate(routes, k, request.verb, request.path) ::
                 routes.table[j].upgrade == routes.table[k].upgrade)
  {
    hide Params, FirstMatch, Matches;
    MatchIgnoresOrder(routes, request.verb, request.path, k => UpgradeTo(request, routes, k));
  }

  /** All that the routes decide about a request: its parameters, the handler and what it is given, the upgrade hook. */
  datatype Handling = Handling(params: map<Bytes, Bytes>, route: Option<(Entry, Request)>, upgrade: Option<nat>)

  function HandlingOf(raw: Bytes, routes: Routes): Result<Handling, Status>
    requires Enumerates(routes)
  {
    match ParseRaw(raw, routes)
    case Err(status) => Err(status)
    case Ok(request) => Ok(Handling(request.params, Dispatch(request, routes), UpgradeFor(request, routes)))
  }

  /** The parameters of a target, once the search has found `k`. */
  function ParamsTo(target: Target, k: Option<RouteKey>): map<Bytes, Bytes> {
    var params := if k.None? then map[] else Params(k.value.1, target.path);
    match target.query
    case None => params
    case Some(query) => QueryParams(Split(query, "&"), params)
  }

  function HandlingTo(request: Request, target: Target, routes: Routes, k: Option<RouteKey>): Handling {
    var seen := request.(params := ParamsTo(target, k));
    Handling(seen.params, DispatchTo(seen, routes, k), UpgradeTo(seen, routes, k))
  }

  lemma {:induction false} QueryKeepsNames(pairs: seq<Bytes>, params: map<Bytes, Bytes>)
    ensures params.Keys <= QueryParams(pairs, params).Keys
  {
    hide SplitOnce;
    if pairs != [] {
      match SplitOnce(pairs[0], "=")
      case None => QueryKeepsNames(pairs[1..], params);
      case Some((key, value)) => QueryKeepsNames(pairs[1..], params[key := value]);
    }
  }

  /** Path parameters that went into a request's own are found there again. */
  lemma PathIsInParams(target: Target, k: RouteKey)
    ensures Params(k.1, target.path) + ParamsTo(target, Some(k)) == ParamsTo(target, Some(k))
  {
    hide Params, QueryParams, Split;
    if target.query.Some? {
      QueryKeepsNames(Split(target.query.value, "&"), Params(k.1, target.path));
    }
  }

  lemma HandlingIsMade(raw: Bytes, request: Request, target: Target, routes: Routes, other: Routes)
    requires Enumerates(routes) && Reordered(routes, other)
    requires TargetOf(raw) == Some(target)
    requires ParseRaw(raw, routes).Ok? && request == ParseRaw(raw, routes).value
    ensures HandlingOf(raw, other)
      == Ok(HandlingTo(request, target, routes, FirstMatch(other.order, target.verb, target.path)))
  {
    hide Find, Utf8, ParseRequestLine, ReadHeaders, Split, Params, QueryParams, FirstMatch, Matches;
  }

  /** Two keys lead to the same handling when they give the same parameters, and the same entry if it counts. */
  lemma SameHandling(request: Request, target: Target, routes: Routes, j: RouteKey, k: RouteKey)
    requires j in routes.table && k in routes.table
    requires request.verb == target.verb && request.path == target.path
    ensures HandlingTo(request, target, routes, Some(j)) == HandlingTo(request, target, routes, Some(k))
      <==> (ParamsTo(target, Some(j)) == ParamsTo(target, Some(k))
            && ((target.verb, target.path) in routes.table || routes.table[j] == routes.table[k]))
  {
    hide Params, ParamsTo;
    PathIsInParams(target, j);
    PathIsInParams(target, k);
  }

  /** Every request that has a target is parsed, whatever the routes. */
  lemma TargetIsParsed(raw: Bytes, routes: Routes)
    ensures ParseRaw(raw, routes).Ok? <==> TargetOf(raw).Some?
    ensures TargetOf(raw).Some? ==>
      && ParseRaw(raw, routes).value.verb == TargetOf(raw).value.verb
      && ParseRaw(raw, routes).value.path == TargetOf(raw).value.path
    ensures TargetOf(raw).None? ==> forall other: Routes :: ParseRaw(raw, other) == ParseRaw(raw, routes)
  {
    hide Find, Utf8, ParseRequestLine, ReadHeaders, Split, TargetParams;
  }

  /** All patterns that match give the request the same parameters and, unless a route is exact, lead to one entry. */
  ghost predicate OrderFree(raw: Bytes, routes: Routes) {
    match TargetOf(raw)
    case None => true
    case Some(t) =>
      forall j, k | Candidate(routes, j, t.verb, t.path) && Candidate(routes, k, t.verb, t.path) ::
        && ParamsTo(t, Some(j)) == ParamsTo(t, Some(k))
        && ((t.verb, t.path) in routes.table || routes.table[j] == routes.table[k])
  }

  /**
   Two servers with the same routes handle a request alike, however each iterates
   over them, exactly when all patterns that match give it the same parameters
   and, unless a route is exact, lead to the same entry.
  */
  lemma HandlingIgnoresOrder(raw: Bytes, routes: Routes)
    requires Enumerates(routes)
    ensures (forall other | Reordered(routes, other) :: HandlingOf(raw, other) == HandlingOf(raw, routes))
      <==> OrderFree(raw, routes)
  {
    hide TargetOf, ParseRaw, FirstMatch, Matches, Enumerates, ParamsTo, HandlingTo, Dispatch, UpgradeFor;
    TargetIsParsed(raw, routes);
    if TargetOf(raw).Some? {
      var t, request := TargetOf(raw).value, ParseRaw(raw, routes).value;
      var made := k => HandlingTo(request, t, routes, k);
      hide HandlingOf;
      forall other | Reordered(routes, other)
        ensures HandlingOf(raw, other) == Ok(made(FirstMatch(other.order, t.verb, t.path)))
      {
        HandlingIsMade(raw, request, t, routes, other);
      }
      assert Reordered(routes, routes);
      MatchIgnoresOrder(routes, t.verb, t.path, made);
      forall j, k | Candidate(routes, j, t.verb, t.path) && Candidate(routes, k, t.verb, t.path)
        ensures made(Some(j)) == made(Some(k))
          <==> (ParamsTo(t, Some(j)) == ParamsTo(t, Some(k))
                && ((t.verb, t.path) in routes.table || routes.table[j] == routes.table[k]))
      {
        SameHandling(request, t, routes, j, k);
      }
    }
  }

  /** In particular, one matching pattern at most makes the order show nowhere. */
  lemma OneMatchIgnoresOrder(raw: Bytes, routes: Routes, other: Routes)
    requires Enumerates(routes) && Reordered(routes, other)
    requires TargetOf(raw).Some? ==> Unambiguous(routes, TargetOf(raw).value.verb, TargetOf(raw).value.path)
    ensures HandlingOf(raw, other) == HandlingOf(raw, routes)
  {
    hide TargetOf, HandlingOf, Matches, ParamsTo, Enumerates;
    HandlingIgnoresOrder(raw, routes);
  }

  /** What a pattern of one slot, after the leading slash, extracts. */
  lemma OneSlot(name: Bytes, value: Bytes)
    requires SegmentOk(Slot(name, value))
    ensures Params("/" + ("{" + name + "}"), "/" + value) == map[name := value]
  {
    hide *;
    var segments := [Fixed(""), Slot(name, value)];
    SlotSegments(name, value);
    SlotsRoundTrip(segments);
    OnlyName(Params("/" + ("{" + name + "}"), "/" + value), segments, name, value);
  }

  lemma SlotSegments(name: Bytes, value: Bytes)
    requires SegmentOk(Slot(name, value))
    ensures var segments := [Fixed(""), Slot(name, value)];
      && DistinctNames(segments) && (forall s | s in segments :: SegmentOk(s))
      && Join(PatternParts(segments), "/") == "/" + ("{" + name + "}")
      && Join(PathParts(segments), "/") == "/" + value
  {
    var segments := [Fixed(""), Slot(name, value)];
    var part := "{" + name + "}";
    assert PatternParts(segments) == ["", part] && PathParts(segments) == ["", value];
    JoinTwo(part);
    JoinTwo(value);
    assert SegmentOk(Fixed(""));
    hide SegmentOk;
  }

  lemma JoinTwo(part: Bytes)
    ensures Join(["", part], "/") == "/" + part
  {
    assert ["", part][1..] == [part];
    assert "" + "/" + part == "/" + part;
  }

  lemma OnlyName(params: map<Bytes, Bytes>, segments: seq<Segment>, name: Bytes, value: Bytes)
    requires segments == [Fixed(""), Slot(name, value)]
    requires forall i | 0 <= i < |segments| && segments[i].Slot? ::
      segments[i].name in params && params[segments[i].name] == segments[i].value
    requires forall n | n in params :: exists s | s in segments :: s.Slot? && s.name == n
    ensures params == map[name := value]
  {
    assert segments[1].Slot?;
  }

  lemma PairEnumerates(j: RouteKey, k: RouteKey, entry: Entry)
    requires j != k
    ensures Enumerates(Routes(map[j := entry, k := entry], [j, k]))
    ensures Reordered(Routes(map[j := entry, k := entry], [j, k]), Routes(map[k := entry, j := entry], [k, j]))
  {
    assert map[j := entry, k := entry] == map[k := entry, j := entry];
  }

  /** How the first of two routes handles a request without a query, when it matches. */
  lemma FirstOfPair(j: RouteKey, k: RouteKey, entry: Entry, raw: Bytes, target: Target, params: map<Bytes, Bytes>)
    requires j != k && j.0 == target.verb && Params(j.1, target.path) == params && params != map[]
    requires TargetOf(raw) == Some(target) && target.query.None?
    requires j != (target.verb, target.path) && k != (target.verb, target.path)
    ensures var routes := Routes(map[j := entry, k := entry], [j, k]);
      && Enumerates(routes) && HandlingOf(raw, routes).Ok?
      && HandlingOf(raw, routes).value.params == params
      && HandlingOf(raw, routes).value.route.Some?
      && HandlingOf(raw, routes).value.route.value.1.params == params
  {
    hide Params, Enumerates, TargetOf, HandlingOf, ParseRaw;
    PairEnumerates(j, k, entry);
    var routes := Routes(map[j := entry, k := entry], [j, k]);
    assert Matches(j, target.verb, target.path);
    assert FirstMatch(routes.order, target.verb, target.path) == Some(j);
    TargetIsParsed(raw, routes);
    HandlingIsMade(raw, ParseRaw(raw, routes).value, target, routes, routes);
    assert params + params == params;
  }

  lemma PatternsApart(a: Bytes, b: Bytes)
    requires a != b
    ensures "/" + ("{" + a + "}") != "/" + ("{" + b + "}")
  {
    assert ("/" + ("{" + a + "}"))[2..|a| + 2] == a && ("/" + ("{" + b + "}"))[2..|b| + 2] == b;
  }

  /** The routes of a server with two patterns, and the same iterated over the other way round. */
  function TwoSlots(a: Bytes, b: Bytes, entry: Entry): Routes {
    var j, k := (GET, "/" + ("{" + a + "}")), (GET, "/" + ("{" + b + "}"));
    Routes(map[j := entry, k := entry], [j, k])
  }

  /**
   Two patterns of one slot each, of different names: every request for a path of
   one segment matches both, and the two orders give it, and its handler,
   different parameters.
  */
  lemma AmbiguousPatternsDepend(a: Bytes, b: Bytes, value: Bytes, entry: Entry, raw: Bytes)
    requires SegmentOk(Slot(a, value)) && SegmentOk(Slot(b, value)) && a != b
    requires value != "{" + a + "}" && value != "{" + b + "}"
    requires TargetOf(raw) == Some(Target(GET, "/" + value, None))
    ensures var first, second := TwoSlots(a, b, entry), TwoSlots(b, a, entry);
      && Enumerates(first) && Reordered(first, second)
      && HandlingOf(raw, first).Ok? && HandlingOf(raw, second).Ok?
      && HandlingOf(raw, first).value.params == map[a := value]
      && HandlingOf(raw, second).value.params == map[b := value]
      && HandlingOf(raw, first).value.route.Some? && HandlingOf(raw, second).value.route.Some?
      && HandlingOf(raw, first).value.route.value.1.params == map[a := value]
      && HandlingOf(raw, second).value.route.value.1.params == map[b := value]
  {
    hide *;
    OneSlot(a, value);
    OneSlot(b, value);
    PatternsApart(a, b);
    NotThePattern(a, value);
    NotThePattern(b, value);
    var j, k := (GET, "/" + ("{" + a + "}")), (GET, "/" + ("{" + b + "}"));
    PairEnumerates(j, k, entry);
    IsTwoSlots(a, b, entry);
    IsTwoSlots(b, a, entry);
    assert a in map[a := value] && b in map[b := value];
    FirstOfPair(j, k, entry, raw, Target(GET, "/" + value, None), map[a := value]);
    FirstOfPair(k, j, entry, raw, Target(GET, "/" + value, None), map[b := value]);
  }

  lemma IsTwoSlots(a: Bytes, b: Bytes, entry: Entry)
    ensures var j, k := (GET, "/" + ("{" + a + "}")), (GET, "/" + ("{" + b + "}"));
      TwoSlots(a, b, entry) == Routes(map[j := entry, k := entry], [j, k])
  {
  }

  lemma NotThePattern(name: Bytes, value: Bytes)
    requires value != "{" + name + "}"
    ensures "/" + value != "/" + ("{" + name + "}")
  {
    assert ("/" + value)[1..] == value && ("/" + ("{" + name + "}"))[1..] == "{" + name + "}";
  }
}

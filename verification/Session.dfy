/**
 The same connection as the server runs it: a buffer drained in place, loops over
 mutable state, saturating and checked arithmetic. Each method is proved to do
 what the functions of the other modules say.
*/
module Session {
  import opened Wrappers
  import opened ByteText
  import opened Http
  import opened Fields
  import opened Framing
  import opened Receiver
  import opened ResponseHead
  import opened ResponseStream
  import opened Routing
  import opened Connection

  function SaturatingAdd(a: nat, b: nat, max: nat): nat {
    Min(a + b, max)
  }

  function CheckedAdd(a: nat, b: nat, max: nat): Option<nat> {
    if a + b <= max then Some(a + b) else None
  }

  /** A buffer a target can hold, or a header limit that leaves saturation unnoticed. */
  predicate Addressable(buffer: Bytes, lim: Limits) {
    Fits(lim) && (|buffer| <= lim.usizeMax || lim.headerBytes < lim.usizeMax)
  }

  class Stream {
    const net: Network
    var buffer: Bytes
    var polls: nat
    var now: nat
    var output: Bytes
    var shut: bool
    var upgraded: Option<nat>
    ghost var received: Bytes
    ghost var taken: Bytes

    constructor (net: Network)
      ensures this.net == net && At(None) == FRESH
      ensures output == "" && !shut && upgraded.None?
    {
      this.net := net;
      buffer, polls, now, output, shut, upgraded := "", 0, 0, "", false, None;
      received, taken := "", "";
    }

    /** This stream as the read loop sees it. */
    ghost function At(started: Option<nat>): Reader
      reads this
    {
      Reader(buffer, polls, now, started, received, taken)
    }

    method Drain(used: nat) returns (drained: Bytes)
      requires used <= |buffer|
      modifies this`buffer, this`taken
      ensures drained == old(buffer)[..used]
      ensures buffer == old(buffer)[used..] && taken == old(taken) + drained
    {
      drained := buffer[..used];
      buffer := buffer[used..];
      taken := taken + drained;
    }

    /** What `take_framed_request` returns, and what it leaves in the buffer. */
    ghost predicate Took(framed: Framed, r: Result<Option<Bytes>, Status>, before: Bytes, takenBefore: Bytes)
      reads this
    {
      match framed
      case NotYet => r == Ok(None) && buffer == before && taken == takenBefore
      case Reject(status) => r == Err(status) && buffer == before && taken == takenBefore
      case Take(raw, used) =>
        && used <= |before|
        && r == Ok(Some(raw)) && buffer == before[used..] && taken == takenBefore + before[..used]
    }

    method TakeFramedRequest(lim: Limits, idleEnd: bool) returns (r: Result<Option<Bytes>, Status>)
      requires Addressable(buffer, lim)
      modifies this`buffer, this`taken
      ensures Took(Frame(old(buffer), lim, idleEnd), r, old(buffer), old(taken))
    {
      var separator := Find(buffer, BLANK);
      if separator.None? {
        if |buffer| > lim.headerBytes {
          return Err(HeaderFieldsTooLarge);
        }
        return Ok(None);
      }
      var headEnd := separator.value + 4;
      if headEnd > lim.headerBytes {
        return Err(HeaderFieldsTooLarge);
      }
      var head := buffer[..separator.value];
      if !Utf8(head) {
        return Err(BadRequest);
      }
      var framing := ExtractBodyHeaders(head, lim.usizeMax);
      if framing.Err? {
        return Err(framing.error);
      }
      r := TakeBody(separator.value, framing.value, lim, idleEnd);
    }

    method TakeBody(sep: nat, framing: BodyFraming, lim: Limits, idleEnd: bool)
      returns (r: Result<Option<Bytes>, Status>)
      requires Addressable(buffer, lim) && sep + 4 <= |buffer|
      modifies this`buffer, this`taken
      ensures Took(FrameBody(old(buffer), sep, framing, lim, idleEnd), r, old(buffer), old(taken))
    {
      hide DecodeChunks, UnframedBody;
      var headEnd := sep + 4;
      match framing
      case NoBody =>
        if UnframedBody(buffer[..sep]) {
          if |buffer| - headEnd > lim.bodyBytes {
            return Err(PayloadTooLarge);
          }
          if !idleEnd {
            return Ok(None);
          }
          var all := Drain(|buffer|);
          assert all == old(buffer);
          return Ok(Some(all));
        }
        var raw := Drain(headEnd);
        return Ok(Some(raw));
      case Length(length) =>
        if length > lim.bodyBytes {
          return Err(PayloadTooLarge);
        }
        var end := CheckedAdd(headEnd, length, lim.usizeMax);
        if end.None? {
          return Err(PayloadTooLarge);
        }
        if |buffer| < end.value {
          return Ok(None);
        }
        var raw := Drain(end.value);
        return Ok(Some(raw));
      case Chunked =>
        var scan := ScanChunks(headEnd, lim);
        if scan.ScanNotYet? {
          return Ok(None);
        }
        if scan.ScanBad? {
          return Err(scan.status);
        }
        var raw := buffer[..headEnd] + scan.payload;
        var _ := Drain(scan.end);
        return Ok(Some(raw));
    }

    /** The loop over chunks: cursor, decoded octets, octets of size lines. */
    method ScanChunks(headEnd: nat, lim: Limits) returns (scan: Scan)
      requires Addressable(buffer, lim) && headEnd <= |buffer|
      ensures scan == DecodeChunks(buffer[headEnd..], headEnd, "", 0, lim)
    {
      hide ReadChunk, Fits;
      var cursor, decoded, metadata := headEnd, "", 0;
      while true
        invariant headEnd <= cursor <= |buffer| && metadata + |decoded| <= cursor
        invariant DecodeChunks(buffer[headEnd..], headEnd, "", 0, lim)
               == DecodeChunks(buffer[cursor..], cursor, decoded, metadata, lim)
        decreases |buffer| - cursor
      {
        var step := ChunkAt(cursor, |decoded|, metadata, lim);
        match step
        case StepNotYet => return ScanNotYet;
        case StepBad(status) => return ScanBad(status);
        case LastChunk(width) => return Decoded(decoded, cursor + width);
        case DataChunk(data, sizeWidth) =>
          assert buffer[cursor..][StepWidth(step)..] == buffer[cursor + StepWidth(step)..];
          decoded, metadata := decoded + data, metadata + sizeWidth;
          cursor := cursor + StepWidth(step);
      }
    }

    /** One turn of that loop, in the target's arithmetic. */
    method ChunkAt(cursor: nat, have: nat, metadata: nat, lim: Limits) returns (step: ChunkStep)
      requires Addressable(buffer, lim) && metadata + have <= cursor <= |buffer|
      ensures step == ReadChunk(buffer[cursor..], cursor, have, metadata, lim)
    {
      hide Find, Utf8, SizeText, ParseNat, ReadTrailer;
      var rest := buffer[cursor..];
      var found := Find(rest, CRLF);
      if found.None? {
        return if |rest| > lim.headerBytes then StepBad(HeaderFieldsTooLarge) else StepNotYet;
      }
      var lineLen := found.value;
      if SaturatingAdd(metadata, lineLen + 2, lim.usizeMax) > lim.headerBytes {
        return StepBad(HeaderFieldsTooLarge);
      }
      var line := rest[..lineLen];
      if !Utf8(line) || SizeText(line) == "" {
        return StepBad(BadRequest);
      }
      var parsed := ParseNat(SizeText(line), 16, U64_MAX);
      if parsed.None? {
        return StepBad(BadRequest);
      }
      var size := parsed.value;
      if size > lim.usizeMax {
        return StepBad(PayloadTooLarge);
      }
      assert rest[lineLen + 2..] == buffer[cursor + lineLen + 2..];
      step := SizedAt(size, lineLen + 2, cursor + lineLen + 2, have, lim);
    }

    /** What follows a size line of `width` octets that ends at `at`. */
    method SizedAt(size: nat, width: nat, at: nat, have: nat, lim: Limits) returns (step: ChunkStep)
      requires Fits(lim) && have <= at <= |buffer|
      ensures step == ReadSized(buffer[at..], size, width, at, have, lim)
    {
      hide ReadTrailer;
      if size == 0 {
        var trailer := ReadTrailer(buffer[at..], lim);
        match trailer
        case TrailerNotYet => return StepNotYet;
        case TrailerBad(status) => return StepBad(status);
        case TrailerEnd(end) => return LastChunk(width + end);
      }
      if SaturatingAdd(have, size, lim.usizeMax) > lim.bodyBytes {
        return StepBad(PayloadTooLarge);
      }
      var dataEnd := CheckedAdd(at, size, lim.usizeMax);
      if dataEnd.None? {
        return StepBad(PayloadTooLarge);
      }
      var chunkEnd := CheckedAdd(dataEnd.value, 2, lim.usizeMax);
      if chunkEnd.None? {
        return StepBad(PayloadTooLarge);
      }
      if |buffer| < chunkEnd.value {
        return StepNotYet;
      }
      assert buffer[at..][size..size + 2] == buffer[dataEnd.value..chunkEnd.value];
      if buffer[dataEnd.value..chunkEnd.value] != CRLF {
        return StepBad(BadRequest);
      }
      assert buffer[at..][..size] == buffer[at..dataEnd.value];
      step := DataChunk(buffer[at..dataEnd.value], width);
    }

    // ---------- reading one request ----------

    method ReadRequest(keepAlive: bool, lim: Limits) returns (read: StreamRead, ghost started: Option<nat>)
      requires Fits(lim) && lim.headerBytes < lim.usizeMax
      modifies this`buffer, this`polls, this`now, this`received, this`taken
      ensures (read, At(started)) == Receive(old(At(None)), keepAlive, lim, net)
    {
      hide Frame, WaitFor, Fits, Loop, MemoryBound;
      var since := if buffer == "" then None else Some(now);
      ghost var first := At(since);
      assert first == Begin(old(At(None)));
      while true
        invariant Loop(first, keepAlive, lim, net) == Loop(At(since), keepAlive, lim, net)
        decreases Room(At(since), lim)
      {
        ghost var st := At(since);
        LoopTurn(st, keepAlive, lim, net);
        var turn := RunTurn(since, keepAlive, lim);
        if turn.Some? {
          return turn.value, since;
        }
        TurnUsesRoom(st, keepAlive, lim, net);
        since := if since.None? then Some(now) else since;
      }
    }

    /** One turn of the read loop; nothing when the loop goes on. */
    method RunTurn(since: Option<nat>, keepAlive: bool, lim: Limits) returns (result: Option<StreamRead>)
      requires Fits(lim) && lim.headerBytes < lim.usizeMax
      modifies this`buffer, this`polls, this`now, this`received, this`taken
      ensures match TakeTurn(old(At(since)), keepAlive, lim, net)
        case Done(read, st) => result == Some(read) && At(since) == st
        case Again(st) => result == None && At(if since.None? then Some(now) else since) == st
    {
      hide Frame, WaitFor, Fits, AfterRead, Poll;
      var framed := TakeFramedRequest(lim, false);
      match framed
      case Ok(Some(raw)) => return Some(Ready(raw));
      case Err(status) => return Some(Error(status));
      case Ok(None) =>
        var wait := WaitFor(since, now, keepAlive, lim);
        if wait.None? {
          return Some(Error(RequestTimeout));
        }
        if wait.value == 0 {
          return Some(if since.Some? then Error(RequestTimeout) else Idle);
        }
        var arrival := Poll(net, polls, wait.value);
        polls, now := polls + 1, now + arrival.delay;
        result := TakeIn(since, arrival.outcome, lim);
    }

    /** The arms of the match on what a read returned. */
    method TakeIn(since: Option<nat>, outcome: Outcome, lim: Limits) returns (result: Option<StreamRead>)
      requires Fits(lim) && lim.headerBytes < lim.usizeMax
      modifies this`buffer, this`received, this`taken
      ensures match AfterRead(old(At(since)), outcome, lim)
        case Done(read, st) => result == Some(read) && At(since) == st
        case Again(st) => result == None && At(if since.None? then Some(now) else since) == st
    {
      hide Frame, Fits;
      match outcome
      case Failed => return Some(Error(BadRequest));
      case TimedOut =>
        if since.None? {
          return Some(Idle);
        }
        var last := FrameLast(RequestTimeout, lim, since);
        return Some(last);
      case Got(data) =>
        if data == "" {
          if buffer == "" {
            return Some(Closed);
          }
          var last := FrameLast(BadRequest, lim, since);
          return Some(last);
        }
        buffer, received := buffer + data, received + data;
        return None;
    }

    /** `take_framed_request` once more, with `idle_end` set. */
    method FrameLast(status: Status, lim: Limits, ghost since: Option<nat>) returns (read: StreamRead)
      requires Fits(lim) && lim.headerBytes < lim.usizeMax
      modifies this`buffer, this`taken
      ensures LastChance(old(At(since)), lim, status) == Done(read, At(since))
    {
      hide Frame, Fits;
      var framed := TakeFramedRequest(lim, true);
      match framed
      case Ok(Some(raw)) => return Ready(raw);
      case Ok(None) => return Error(status);
      case Err(s) => return Error(s);
    }

    // ---------- answering ----------

    method SendResponse(m: Message) returns (ok: bool)
      modifies this`output, this`shut
      ensures ok <==> HeadOf(m).Some?
      ensures output == old(output) + Wire(m)
      ensures shut <==> old(shut) || m.close || !ok
    {
      hide HeadOf, HasContent;
      var head := ResponseHead.ResponseHead(m);
      if head.None? {
        output := output + FALLBACK;
        shut := true;
        return false;
      }
      output := output + head.value;
      if HasContent(m.verb, m.response.status) {
        output := output + m.response.body;
      }
      if m.close {
        shut := true;
      }
      ok := true;
    }

    /** `parse_raw_sync`: parses a framed request and lets a route answer it. */
    method ParseRawSync(raw: Bytes, app: App) returns (request: Request, early: Option<Response>)
      requires AppOk(app)
      ensures (request, early) == ParseAndRoute(raw, app)
    {
      hide ParseRaw, Dispatch;
      var parsed := ParseRawOnly(raw, app.routes);
      if parsed.Err? {
        return DEFAULT_REQUEST, Some(Bare(parsed.error));
      }
      request := parsed.value;
      var route := FindRoute(request, app.routes);
      if route.Some? {
        request := route.value.1;
        early := Some(route.value.0.handler(request));
      } else {
        early := if request.verb == GET then Some(app.files(request)) else None;
      }
    }

    /** Answers one framed request; `ends` stops the loop. */
    method Respond(raw: Bytes, handled: nat, lim: Limits, app: App) returns (ends: bool)
      requires AppOk(app)
      modifies this`output, this`shut, this`upgraded
      ensures var x := Answer(raw, handled, lim, app);
        && ends == x.ends
        && output == old(output) + Wire(x.message)
        && upgraded == (if x.upgrade.Some? then x.upgrade else old(upgraded))
        && (shut <==> old(shut) || (ends && x.upgrade.None?))
    {
      hide ParseAndRoute, Reply, UpgradeFor, HeadOf, WantsClose, Origin, Wire;
      var request, early := ParseRawSync(raw, app);
      var origin := Origin(request.headers);
      var upgrade := UpgradeFor(request, app.routes);
      var requestClose := WantsClose(request.headers);
      var response := Reply(request, early, app);
      if Code(response.status) == 101 && upgrade.Some? {
        var sent := SendResponse(Message(response, Some(request.verb), false, app.cors, origin));
        if sent {
          upgraded := upgrade;
        }
        return true;
      }
      var responseClose := WantsClose(response.headers);
      var close := requestClose || responseClose || handled >= lim.maxRequests;
      var sent := SendResponse(Message(response, Some(request.verb), close, app.cors, origin));
      ends := !sent || close;
    }

    /** The connection loop of `handle_stream`. */
    method HandleStream(lim: Limits, app: App)
      returns (ghost exchanges: seq<Exchange>, ghost started: Option<nat>)
      requires AppOk(app) && Fits(lim) && lim.headerBytes < lim.usizeMax
      requires At(None) == FRESH && output == "" && !shut && upgraded.None?
      modifies this
      ensures exchanges == Serve(FRESH, 0, lim, app, net).0
      ensures output == Written(exchanges)
      ensures At(started) == Serve(FRESH, 0, lim, app, net).1
      ensures upgraded == if exchanges == [] then None else exchanges[|exchanges| - 1].upgrade
      ensures shut <==> exchanges != [] && exchanges[|exchanges| - 1].ends && upgraded.None?
    {
      hide Answer, Receive, Fits, Wire, Written, Serve, WillServe, Left;
      var handled := 0;
      exchanges := [];
      ServeBegins(lim, app, net);
      started := None;
      while true
        invariant WillServe(exchanges, At(started), handled, lim, app, net)
        invariant output == Written(exchanges)
        invariant !shut && upgraded.None?
        invariant exchanges != [] ==> var x := exchanges[|exchanges| - 1]; x.upgrade.None? && !x.ends
        decreases Left(handled, lim)
      {
        var read;
        ReceiveForgetsStart(At(started), handled > 0, lim, net);
        ServeStops(exchanges, At(started), handled, lim, app, net);
        ghost var st := At(started);
        read, started := ReadRequest(handled > 0, lim);
        match read
        case Idle => return;
        case Closed => return;
        case Error(status) =>
          ghost var x := Refusal(status, app);
          var _ := SendResponse(Message(Bare(status), None, true, app.cors, None));
          WrittenSnoc(exchanges, x);
          exchanges := exchanges + [x];
          return;
        case Ready(raw) =>
          ghost var x := Answer(raw, handled + 1, lim, app);
          if !x.ends {
            ServeGoesOn(exchanges, st, handled, lim, app, net);
          }
          handled := handled + 1;
          AnswerGoesOn(raw, handled, lim, app);
          LeftDrops(handled - 1, lim);
          AnswerShape(raw, handled, lim, app);
          var ends := Respond(raw, handled, lim, app);
          WrittenSnoc(exchanges, x);
          exchanges := exchanges + [x];
          if ends {
            return;
          }
      }
    }
  }

  /** What is done and what is still to do make up the whole connection. */
  ghost predicate WillServe(done: seq<Exchange>, st: Reader, handled: nat, lim: Limits, app: App, net: Network)
    requires AppOk(app)
  {
    && Serve(FRESH, 0, lim, app, net).0 == done + Serve(st, handled, lim, app, net).0
    && Serve(FRESH, 0, lim, app, net).1 == Serve(st, handled, lim, app, net).1
  }

  lemma ServeBegins(lim: Limits, app: App, net: Network)
    requires AppOk(app)
    ensures WillServe([], FRESH, 0, lim, app, net) && Written([]) == ""
  {
    hide Serve;
  }

  lemma LeftDrops(handled: nat, lim: Limits)
    ensures handled + 1 < lim.maxRequests ==> Left(handled + 1, lim) < Left(handled, lim)
  {
  }

  lemma ServeGoesOn(done: seq<Exchange>, st: Reader, handled: nat, lim: Limits, app: App, net: Network)
    requires AppOk(app) && WillServe(done, st, handled, lim, app, net)
    requires var read := Receive(st, handled > 0, lim, net).0;
      read.Ready? && !Answer(read.raw, handled + 1, lim, app).ends
    ensures var (read, st') := Receive(st, handled > 0, lim, net);
      WillServe(done + [Answer(read.raw, handled + 1, lim, app)], st', handled + 1, lim, app, net)
  {
    hide Receive, Answer;
  }

  lemma ServeStops(done: seq<Exchange>, st: Reader, handled: nat, lim: Limits, app: App, net: Network)
    requires AppOk(app) && WillServe(done, st, handled, lim, app, net)
    ensures var (read, st') := Receive(st, handled > 0, lim, net);
      match read
      case Idle => Serve(FRESH, 0, lim, app, net) == (done, st')
      case Closed => Serve(FRESH, 0, lim, app, net) == (done, st')
      case Error(status) => Serve(FRESH, 0, lim, app, net) == (done + [Refusal(status, app)], st')
      case Ready(raw) =>
        var x := Answer(raw, handled + 1, lim, app);
        x.ends ==> Serve(FRESH, 0, lim, app, net) == (done + [x], st')
  {
    hide Receive, Answer, Refusal;
    assert done + [] == done;
  }

  lemma LoopTurn(st: Reader, keepAlive: bool, lim: Limits, net: Network)
    ensures Loop(st, keepAlive, lim, net)
      == match TakeTurn(st, keepAlive, lim, net)
         case Done(read, st') => (read, st')
         case Again(st') => Loop(st', keepAlive, lim, net)
  {
    hide TakeTurn;
  }

  /** A call starts its own clock. */
  lemma ReceiveForgetsStart(st: Reader, keepAlive: bool, lim: Limits, net: Network)
    ensures Receive(st, keepAlive, lim, net) == Receive(st.(started := None), keepAlive, lim, net)
  {
    hide Loop;
  }

  lemma {:induction false} WrittenSnoc(exchanges: seq<Exchange>, x: Exchange)
    ensures Written(exchanges + [x]) == Written(exchanges) + Wire(x.message)
  {
    hide Wire;
    if exchanges == [] {
      assert [] + [x] == [x];
      assert Messages([x]) == [x.message];
      assert Wire(x.message) + "" == Wire(x.message);
    } else {
      WrittenSnoc(exchanges[1..], x);
      assert (exchanges + [x])[1..] == exchanges[1..] + [x];
    }
  }
}

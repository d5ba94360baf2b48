/**
 What the server does with a byte stream does not depend on how the network cuts
 it into reads.
*/
module Segmentation {
  import opened Wrappers
  import opened ByteText
  import opened Http
  import opened Framing
  import opened Receiver
  import opened Connection

  // ---------- a stream, delivered in blocks ----------

  /** The octets of the blocks from the n-th on. */
  function Stream(blocks: seq<Block>, n: nat): Bytes
    decreases |blocks| - n
  {
    if n >= |blocks| then "" else blocks[n] + Stream(blocks, n + 1)
  }

  /** The network delivers these non-empty blocks and then the end of the stream, forever. */
  ghost predicate Delivers(net: Network, blocks: seq<Block>) {
    && (forall i | 0 <= i < |blocks| :: blocks[i] != "" && net(i).outcome == Got(blocks[i]))
    && (forall i: nat | |blocks| <= i :: net(i).outcome == Got(""))
  }

  /** If the loop reads now, the read is allowed to wait, and ends in time. */
  ghost predicate PromptTurn(st: Reader, keepAlive: bool, lim: Limits, net: Network) {
    Frame(st.buffer, lim, false).NotYet? ==>
      var wait := WaitFor(st.started, st.now, keepAlive, lim);
      wait.Some? && 0 < wait.value && net(st.polls).delay <= wait.value
  }

  /** No read of this call times out. */
  ghost predicate PromptLoop(st: Reader, keepAlive: bool, lim: Limits, net: Network)
    decreases Room(st, lim)
  {
    PromptTurn(st, keepAlive, lim, net) &&
    (TakeTurn(st, keepAlive, lim, net).Again? ==>
       (TurnUsesRoom(st, keepAlive, lim, net);
        PromptLoop(TakeTurn(st, keepAlive, lim, net).st, keepAlive, lim, net)))
  }

  /** No read of the connection times out. */
  ghost predicate PromptServe(st: Reader, handled: nat, lim: Limits, app: App, net: Network)
    requires AppOk(app)
    decreases Left(handled, lim)
  {
    PromptLoop(Begin(st), handled > 0, lim, net) &&
    var (read, st') := Receive(st, handled > 0, lim, net);
    read.Ready? && !Answer(read.raw, handled + 1, lim, app).ends ==>
      (AnswerGoesOn(read.raw, handled + 1, lim, app);
       PromptServe(st', handled + 1, lim, app, net))
  }

  // ---------- the stream on its own ----------

  /** What can be read off the front of a finished stream, and what is left of it. */
  function NextRead(input: Bytes, lim: Limits): (StreamRead, Bytes) {
    var last := Frame(input, lim, true);
    match Frame(input, lim, false)
    case Take(raw, used) => (Ready(raw), input[used..])
    case Reject(status) => (Error(status), input)
    case NotYet =>
      if input == "" then (Closed, "")
      else
        match last
        case Take(raw, used) => (Ready(raw), input[used..])
        case Reject(status) => (Error(status), input)
        case NotYet => (Error(BadRequest), input)
  }

  /** The responses to a finished stream: no network, no reads, no clock. */
  function Responses(input: Bytes, handled: nat, lim: Limits, app: App): seq<Exchange>
    requires AppOk(app)
    decreases Left(handled, lim)
  {
    hide NextRead, Answer;
    var (read, rest) := NextRead(input, lim);
    match read
    case Ready(raw) =>
      var x := Answer(raw, handled + 1, lim, app);
      if x.ends then [x]
      else
        AnswerGoesOn(raw, handled + 1, lim, app);
        [x] + Responses(rest, handled + 1, lim, app)
    case Error(status) => [Refusal(status, app)]
    case _ => []
  }

  /** What is left of the stream when they have been sent. */
  function Unread(input: Bytes, handled: nat, lim: Limits, app: App): Bytes
    requires AppOk(app)
    decreases Left(handled, lim)
  {
    hide NextRead, Answer;
    var (read, rest) := NextRead(input, lim);
    if read.Ready? && !Answer(read.raw, handled + 1, lim, app).ends then
      AnswerGoesOn(read.raw, handled + 1, lim, app);
      Unread(rest, handled + 1, lim, app)
    else rest
  }

  /** The requests that stand in a finished stream, whatever is answered to them. */
  function Requests(input: Bytes, lim: Limits): seq<Bytes>
    decreases |input|
  {
    hide Frame;
    var (read, rest) := NextRead(input, lim);
    if read.Ready? then [read.raw] + Requests(rest, lim) else []
  }

  function Raws(exchanges: seq<Exchange>): seq<Bytes> {
    if exchanges == [] then []
    else (if exchanges[0].raw.Some? then [exchanges[0].raw.value] else []) + Raws(exchanges[1..])
  }

  lemma RefusalAnswersNothing(status: Status, app: App)
    ensures Refusal(status, app).raw.None?
  {
  }

  /** The requests answered are the first of these, and all of them unless the last answer ended the connection. */
  predicate AnswersAll(xs: seq<Exchange>, requests: seq<Bytes>) {
    && Raws(xs) <= requests
    && (Raws(xs) == requests || (Ended(xs) && xs[|xs| - 1].raw.Some?))
  }

  lemma AnswersOneMore(x: Exchange, more: seq<Exchange>, raw: Bytes, requests: seq<Bytes>)
    requires x.raw == Some(raw) && AnswersAll(more, requests)
    ensures AnswersAll([x] + more, [raw] + requests)
  {
    assert ([x] + more)[1..] == more;
    assert Raws([x] + more) == [raw] + Raws(more);
    if Ended(more) {
      assert ([x] + more)[|more|] == more[|more| - 1];
    }
  }

  lemma AnswersLast(x: Exchange, raw: Bytes, requests: seq<Bytes>)
    requires x.raw == Some(raw) && x.ends
    ensures AnswersAll([x], [raw] + requests)
  {
    assert Raws([x]) == [raw] + Raws([]);
  }

  lemma RefusalAnswersAll(status: Status, app: App)
    ensures AnswersAll([Refusal(status, app)], []) && AnswersAll([], [])
  {
    RefusalAnswersNothing(status, app);
    hide Refusal;
    assert Raws([Refusal(status, app)]) == [] + Raws([]);
  }

  /**
   Of the requests in a stream none is skipped, repeated or reordered, and none
   goes unanswered unless the answer to an earlier one ended the connection.
  */
  lemma {:induction false} RequestsAnsweredInOrder(input: Bytes, handled: nat, lim: Limits, app: App)
    requires AppOk(app)
    ensures AnswersAll(Responses(input, handled, lim, app), Requests(input, lim))
    decreases Left(handled, lim)
  {
    hide NextRead, Answer, Refusal, AnswersAll;
    var (read, rest) := NextRead(input, lim);
    RefusalAnswersAll(if read.Error? then read.status else BadRequest, app);
    if read.Ready? {
      AnswerShape(read.raw, handled + 1, lim, app);
      var x := Answer(read.raw, handled + 1, lim, app);
      if x.ends {
        AnswersLast(x, read.raw, Requests(rest, lim));
      } else {
        AnswerGoesOn(read.raw, handled + 1, lim, app);
        RequestsAnsweredInOrder(rest, handled + 1, lim, app);
        AnswersOneMore(x, Responses(rest, handled + 1, lim, app), read.raw, Requests(rest, lim));
      }
    }
  }

  // ---------- the loop reads off the stream ----------

  /** `st` holds the front of `input`; the network still has the rest. */
  ghost predicate Holds(st: Reader, blocks: seq<Block>, input: Bytes) {
    st.buffer + Stream(blocks, st.polls) == input
  }

  lemma DecidedTurn(st: Reader, keepAlive: bool, lim: Limits, net: Network, blocks: seq<Block>, input: Bytes)
    requires Holds(st, blocks, input) && !Frame(st.buffer, lim, false).NotYet?
    ensures var turn := TakeTurn(st, keepAlive, lim, net);
      && turn.Done? && turn.result == NextRead(input, lim).0
      && Holds(turn.st, blocks, NextRead(input, lim).1)
  {
    FrameStable(st.buffer, Stream(blocks, st.polls), lim);
    hide Frame, Stream;
  }

  lemma BlockTurn(st: Reader, keepAlive: bool, lim: Limits, net: Network, blocks: seq<Block>, input: Bytes)
    requires Delivers(net, blocks) && Holds(st, blocks, input) && st.polls < |blocks|
    requires PromptTurn(st, keepAlive, lim, net) && Frame(st.buffer, lim, false).NotYet?
    ensures var turn := TakeTurn(st, keepAlive, lim, net);
      turn.Again? && Holds(turn.st, blocks, input)
  {
    hide Frame, WaitFor;
    var block := blocks[st.polls];
    assert net(st.polls).outcome == Got(block);
    assert st.buffer + (block + Stream(blocks, st.polls + 1)) == st.buffer + block + Stream(blocks, st.polls + 1);
  }

  lemma EndTurn(st: Reader, keepAlive: bool, lim: Limits, net: Network, blocks: seq<Block>, input: Bytes)
    requires Delivers(net, blocks) && Holds(st, blocks, input) && |blocks| <= st.polls
    requires PromptTurn(st, keepAlive, lim, net) && Frame(st.buffer, lim, false).NotYet?
    ensures var turn := TakeTurn(st, keepAlive, lim, net);
      && turn.Done? && turn.result == NextRead(input, lim).0
      && Holds(turn.st, blocks, NextRead(input, lim).1)
  {
    hide Frame, WaitFor;
    assert net(st.polls).outcome == Got("");
    assert st.buffer + "" == st.buffer == input;
    forall s: Bytes ensures s + "" == s {
    }
  }

  /** One call of the read loop reads off the stream what stands at its front. */
  lemma {:induction false} LoopReadsStream(
      st: Reader, keepAlive: bool, lim: Limits, net: Network, blocks: seq<Block>, input: Bytes)
    requires Delivers(net, blocks) && Holds(st, blocks, input) && PromptLoop(st, keepAlive, lim, net)
    ensures var (read, st') := Loop(st, keepAlive, lim, net);
      && read == NextRead(input, lim).0
      && Holds(st', blocks, NextRead(input, lim).1)
    decreases Room(st, lim)
  {
    hide TakeTurn, NextRead, Frame, Delivers, Holds;
    if !Frame(st.buffer, lim, false).NotYet? {
      DecidedTurn(st, keepAlive, lim, net, blocks, input);
    } else if st.polls >= |blocks| {
      EndTurn(st, keepAlive, lim, net, blocks, input);
    } else {
      BlockTurn(st, keepAlive, lim, net, blocks, input);
      TurnUsesRoom(st, keepAlive, lim, net);
      LoopReadsStream(TakeTurn(st, keepAlive, lim, net).st, keepAlive, lim, net, blocks, input);
    }
  }

  /**
   A connection's responses are a function of its input alone, and so is what
   remains of it: octets in the buffer, and octets the network still has.
  */
  lemma {:induction false} ServeReadsStream(
      st: Reader, handled: nat, lim: Limits, app: App, net: Network, blocks: seq<Block>, input: Bytes)
    requires AppOk(app)
    requires Delivers(net, blocks) && Holds(st, blocks, input) && PromptServe(st, handled, lim, app, net)
    ensures Serve(st, handled, lim, app, net).0 == Responses(input, handled, lim, app)
    ensures Holds(Serve(st, handled, lim, app, net).1, blocks, Unread(input, handled, lim, app))
    decreases Left(handled, lim)
  {
    var (read, st') := Receive(st, handled > 0, lim, net);
    assert Holds(Begin(st), blocks, input);
    LoopReadsStream(Begin(st), handled > 0, lim, net, blocks, input);
    if read.Ready? && !Answer(read.raw, handled + 1, lim, app).ends {
      AnswerGoesOn(read.raw, handled + 1, lim, app);
      ServeReadsStream(st', handled + 1, lim, app, net, blocks, NextRead(input, lim).1);
    }
    hide Answer, Loop, NextRead, Delivers, Holds, PromptLoop;
  }

  /** So every request in the stream is answered, in order, up to the one whose answer ends the connection. */
  lemma ServeAnswersStream(
      st: Reader, handled: nat, lim: Limits, app: App, net: Network, blocks: seq<Block>, input: Bytes)
    requires AppOk(app)
    requires Delivers(net, blocks) && Holds(st, blocks, input) && PromptServe(st, handled, lim, app, net)
    ensures AnswersAll(Serve(st, handled, lim, app, net).0, Requests(input, lim))
  {
    hide *;
    ServeReadsStream(st, handled, lim, app, net, blocks, input);
    RequestsAnsweredInOrder(input, handled, lim, app);
  }

  /**
   However the network cuts a finished byte stream into reads, as long as no read
   times out or fails, the server answers the same requests with the same
   responses and writes the same octets, over all requests of the connection, and
   the same octets remain.
  */
  lemma SegmentationIndependence(
      lim: Limits, app: App, a: Network, blocksA: seq<Block>, b: Network, blocksB: seq<Block>)
    requires AppOk(app)
    requires Delivers(a, blocksA) && Delivers(b, blocksB) && Stream(blocksA, 0) == Stream(blocksB, 0)
    requires PromptServe(FRESH, 0, lim, app, a) && PromptServe(FRESH, 0, lim, app, b)
    ensures Serve(FRESH, 0, lim, app, a).0 == Serve(FRESH, 0, lim, app, b).0
    ensures Written(Serve(FRESH, 0, lim, app, a).0) == Written(Serve(FRESH, 0, lim, app, b).0)
    ensures Remainder(Serve(FRESH, 0, lim, app, a).1, blocksA) == Remainder(Serve(FRESH, 0, lim, app, b).1, blocksB)
  {
    hide *;
    FreshHolds(blocksA);
    FreshHolds(blocksB);
    ServeReadsStream(FRESH, 0, lim, app, a, blocksA, Stream(blocksA, 0));
    ServeReadsStream(FRESH, 0, lim, app, b, blocksB, Stream(blocksB, 0));
    RemainderHeld(Serve(FRESH, 0, lim, app, a).1, blocksA, Unread(Stream(blocksA, 0), 0, lim, app));
    RemainderHeld(Serve(FRESH, 0, lim, app, b).1, blocksB, Unread(Stream(blocksB, 0), 0, lim, app));
  }

  /** What the client sent and the server has not taken. */
  function Remainder(st: Reader, blocks: seq<Block>): Bytes {
    st.buffer + Stream(blocks, st.polls)
  }

  lemma RemainderHeld(st: Reader, blocks: seq<Block>, rest: Bytes)
    requires Holds(st, blocks, rest)
    ensures Remainder(st, blocks) == rest
  {
  }

  /**
   A handler that takes the connection over reads on from the network, not from
   the buffer: it gets all that remains exactly when the buffer is empty.
  */
  lemma UpgradeReadsRemainder(
      st: Reader, handled: nat, lim: Limits, app: App, net: Network, blocks: seq<Block>, input: Bytes)
    requires AppOk(app)
    requires Delivers(net, blocks) && Holds(st, blocks, input) && PromptServe(st, handled, lim, app, net)
    ensures var last := Serve(st, handled, lim, app, net).1;
      Stream(blocks, last.polls) == Unread(input, handled, lim, app) <==> last.buffer == ""
  {
    ServeReadsStream(st, handled, lim, app, net, blocks, input);
    hide Serve, Unread, Stream, Delivers, PromptServe;
    var last := Serve(st, handled, lim, app, net).1;
    assert last.buffer == "" ==> "" + Stream(blocks, last.polls) == Stream(blocks, last.polls);
  }

  lemma FreshHolds(blocks: seq<Block>)
    ensures Holds(FRESH, blocks, Stream(blocks, 0))
  {
    assert "" + Stream(blocks, 0) == Stream(blocks, 0);
  }

  // ---------- networks that are prompt ----------

  /** When the n-th read is reached, if no read is cut short. */
  function Clock(net: Network, n: nat): nat {
    if n == 0 then 0 else Clock(net, n - 1) + net(n - 1).delay
  }

  lemma {:induction false} ClockRuns(net: Network, m: nat, n: nat)
    requires m <= n
    ensures Clock(net, m) <= Clock(net, n)
  {
    if m < n {
      ClockRuns(net, m, n - 1);
    }
  }

  /**
   The buffer when it is decided or the stream is over, and the number of the
   next read by then. It is a matter of octets, not of time.
  */
  function Gathered(buffer: Bytes, n: nat, blocks: seq<Block>, lim: Limits): (r: (Bytes, nat))
    ensures n <= r.1
    decreases |blocks| - n
  {
    hide Frame;
    if !Frame(buffer, lim, false).NotYet? then (buffer, n)
    else if n >= |blocks| then (buffer, n + 1)
    else Gathered(buffer + blocks[n], n + 1, blocks, lim)
  }

  /** How that buffer is framed: at once, or with the last chance of a stream that is over. */
  function Concluded(buffer: Bytes, lim: Limits): (framed: Framed)
    ensures framed.Take? ==> framed.used <= |buffer|
  {
    if Frame(buffer, lim, false).NotYet? then Frame(buffer, lim, true) else Frame(buffer, lim, false)
  }

  /**
   Reads `n` to `end` fit into the timeouts of a request whose clock started
   before read `first`: none is idle for too long, the last one starts within the
   request's time, and all of them together do not exceed it.
  */
  ghost predicate ReadInTime(first: nat, n: nat, end: nat, lim: Limits, net: Network) {
    n < end ==>
      && 0 < lim.idleTimeout && (forall i | n <= i < end :: net(i).delay <= lim.idleTimeout)
      && Clock(net, end - 1) - Clock(net, first) < lim.requestTimeout
      && Clock(net, end) - Clock(net, first) <= lim.requestTimeout
  }

  /**
   The next request arrives in time: its first octets within the idle or
   keep-alive timeout, unless they are already here, and the rest within the
   timeouts of the request.
  */
  ghost predicate ArrivesInTime(
      buffer: Bytes, n: nat, keepAlive: bool, lim: Limits, net: Network, blocks: seq<Block>)
  {
    var end := Gathered(buffer, n, blocks, lim).1;
    if buffer == "" then
      && 0 < FirstWait(keepAlive, lim) && net(n).delay <= FirstWait(keepAlive, lim)
      && ReadInTime(n + 1, n + 1, end, lim, net)
    else ReadInTime(n, n, end, lim, net)
  }

  /** One read of a request whose clock started before read `first`. */
  ghost predicate TurnInTime(first: nat, n: nat, lim: Limits, net: Network) {
    && 0 < lim.idleTimeout && net(n).delay <= lim.idleTimeout
    && Clock(net, n) - Clock(net, first) < lim.requestTimeout
    && Clock(net, n + 1) - Clock(net, first) <= lim.requestTimeout
  }

  lemma InTimeInTurn(first: nat, n: nat, end: nat, lim: Limits, net: Network)
    requires first <= n < end
    ensures ReadInTime(first, n, end, lim, net)
      <==> TurnInTime(first, n, lim, net) && ReadInTime(first, n + 1, end, lim, net)
  {
    ClockRuns(net, n, end - 1);
    ClockRuns(net, n + 1, end);
    hide Clock;
  }

  /** A reader that holds octets of a request, with the clock of the network. */
  ghost predicate OnClock(st: Reader, first: nat, net: Network) {
    first <= st.polls && st.now == Clock(net, st.polls) && st.started == Some(Clock(net, first))
  }

  lemma PromptInTime(st: Reader, first: nat, keepAlive: bool, lim: Limits, net: Network)
    requires OnClock(st, first, net) && Frame(st.buffer, lim, false).NotYet?
    ensures PromptTurn(st, keepAlive, lim, net) <==> TurnInTime(first, st.polls, lim, net)
  {
    ClockRuns(net, first, st.polls);
    assert Clock(net, st.polls + 1) == Clock(net, st.polls) + net(st.polls).delay;
    hide Frame, Clock;
  }

  /** What a call that is not cut short returns, and where it leaves the reader. */
  ghost predicate Concludes(r: (StreamRead, Reader), gathered: (Bytes, nat), lim: Limits, net: Network) {
    var framed := Concluded(gathered.0, lim);
    && r.1.polls == gathered.1 && r.1.now == Clock(net, gathered.1)
    && (r.0.Ready? <==> framed.Take?)
    && (framed.Take? ==> r.0.raw == framed.raw && r.1.buffer == gathered.0[framed.used..])
  }

  lemma DecidedConcludes(st: Reader, keepAlive: bool, lim: Limits, net: Network)
    requires st.now == Clock(net, st.polls) && !Frame(st.buffer, lim, false).NotYet?
    ensures var turn := TakeTurn(st, keepAlive, lim, net);
      turn.Done? && Concludes((turn.result, turn.st), (st.buffer, st.polls), lim, net)
  {
    hide Frame, Clock;
  }

  lemma EndConcludes(st: Reader, keepAlive: bool, lim: Limits, net: Network, blocks: seq<Block>)
    requires Delivers(net, blocks) && |blocks| <= st.polls && st.now == Clock(net, st.polls)
    requires PromptTurn(st, keepAlive, lim, net) && Frame(st.buffer, lim, false).NotYet?
    ensures var turn := TakeTurn(st, keepAlive, lim, net);
      turn.Done? && Concludes((turn.result, turn.st), (st.buffer, st.polls + 1), lim, net)
  {
    EmptyEnds(lim);
    hide Frame, WaitFor;
    assert net(st.polls).outcome == Got("");
    assert Clock(net, st.polls + 1) == Clock(net, st.polls) + net(st.polls).delay;
  }

  lemma EmptyEnds(lim: Limits)
    ensures Frame("", lim, true).NotYet? && Frame("", lim, false).NotYet?
  {
    assert Find("", BLANK).None?;
  }

  /** A read that delivers a block starts the clock, or leaves it running. */
  lemma BlockGoesOn(st: Reader, keepAlive: bool, lim: Limits, net: Network, block: Block)
    requires net(st.polls).outcome == Got(block) && block != "" && st.now == Clock(net, st.polls)
    requires PromptTurn(st, keepAlive, lim, net) && Frame(st.buffer, lim, false).NotYet?
    ensures var turn := TakeTurn(st, keepAlive, lim, net);
      && turn.Again? && turn.st.buffer == st.buffer + block && turn.st.received == st.received + block
      && turn.st.taken == st.taken
      && turn.st.polls == st.polls + 1 && turn.st.now == Clock(net, st.polls + 1)
      && turn.st.started == if st.started.Some? then st.started else Some(turn.st.now)
  {
    hide Frame, WaitFor;
    assert Clock(net, st.polls + 1) == Clock(net, st.polls) + net(st.polls).delay;
  }

  lemma BlockArrives(net: Network, blocks: seq<Block>, n: nat)
    requires Delivers(net, blocks) && n < |blocks|
    ensures net(n).outcome == Got(blocks[n]) && blocks[n] != ""
  {
  }

  /** While a request is read, no read of it times out exactly when its reads fit into its timeouts. */
  lemma {:induction false} LoopInTime(
      st: Reader, first: nat, keepAlive: bool, lim: Limits, net: Network, blocks: seq<Block>)
    requires Delivers(net, blocks) && OnClock(st, first, net)
    ensures var gathered := Gathered(st.buffer, st.polls, blocks, lim);
      && (PromptLoop(st, keepAlive, lim, net) <==> ReadInTime(first, st.polls, gathered.1, lim, net))
      && (PromptLoop(st, keepAlive, lim, net) ==> Concludes(Loop(st, keepAlive, lim, net), gathered, lim, net))
    decreases Room(st, lim)
  {
    hide Frame, TakeTurn, PromptTurn, Delivers, Concludes, ReadInTime, TurnInTime, Clock;
    if !Frame(st.buffer, lim, false).NotYet? {
      DecidedConcludes(st, keepAlive, lim, net);
      DecidedIsPrompt(st, first, keepAlive, lim, net);
    } else {
      PromptInTime(st, first, keepAlive, lim, net);
      InTimeInTurn(first, st.polls, Gathered(st.buffer, st.polls, blocks, lim).1, lim, net);
      if PromptTurn(st, keepAlive, lim, net) {
        if st.polls >= |blocks| {
          EndConcludes(st, keepAlive, lim, net, blocks);
          NothingIsInTime(first, st.polls + 1, lim, net);
        } else {
          BlockArrives(net, blocks, st.polls);
          BlockGoesOn(st, keepAlive, lim, net, blocks[st.polls]);
          TurnUsesRoom(st, keepAlive, lim, net);
          LoopInTime(TakeTurn(st, keepAlive, lim, net).st, first, keepAlive, lim, net, blocks);
        }
      }
    }
  }

  lemma DecidedIsPrompt(st: Reader, first: nat, keepAlive: bool, lim: Limits, net: Network)
    requires !Frame(st.buffer, lim, false).NotYet?
    ensures PromptTurn(st, keepAlive, lim, net) && ReadInTime(first, st.polls, st.polls, lim, net)
  {
    hide Frame;
  }

  lemma NothingIsInTime(first: nat, n: nat, lim: Limits, net: Network)
    ensures ReadInTime(first, n, n, lim, net)
  {
  }

  /** No read of a call times out exactly when the next request arrives in time. */
  lemma CallInTime(st: Reader, keepAlive: bool, lim: Limits, net: Network, blocks: seq<Block>)
    requires Delivers(net, blocks) && st.now == Clock(net, st.polls)
    ensures PromptLoop(Begin(st), keepAlive, lim, net)
      <==> ArrivesInTime(st.buffer, st.polls, keepAlive, lim, net, blocks)
    ensures PromptLoop(Begin(st), keepAlive, lim, net) ==>
      Concludes(Receive(st, keepAlive, lim, net), Gathered(st.buffer, st.polls, blocks, lim), lim, net)
  {
    hide Frame, TakeTurn, PromptTurn, Delivers, Concludes, ReadInTime, Clock;
    var first := Begin(st);
    if st.buffer != "" {
      LoopInTime(first, st.polls, keepAlive, lim, net, blocks);
    } else {
      EmptyEnds(lim);
      FirstInTime(first, keepAlive, lim, net);
      if PromptTurn(first, keepAlive, lim, net) {
        if st.polls >= |blocks| {
          EndConcludes(first, keepAlive, lim, net, blocks);
          NothingIsInTime(st.polls + 1, st.polls + 1, lim, net);
        } else {
          BlockArrives(net, blocks, st.polls);
          BlockGoesOn(first, keepAlive, lim, net, blocks[st.polls]);
          TurnUsesRoom(first, keepAlive, lim, net);
          LoopInTime(TakeTurn(first, keepAlive, lim, net).st, st.polls + 1, keepAlive, lim, net, blocks);
        }
      }
    }
  }

  lemma FirstInTime(st: Reader, keepAlive: bool, lim: Limits, net: Network)
    requires st.started.None? && Frame(st.buffer, lim, false).NotYet?
    ensures PromptTurn(st, keepAlive, lim, net)
      <==> 0 < FirstWait(keepAlive, lim) && net(st.polls).delay <= FirstWait(keepAlive, lim)
  {
    hide Frame;
  }

  /** Every request that the connection reads, up to the one whose answer ends it, arrives in time. */
  ghost predicate Punctual(
      buffer: Bytes, n: nat, handled: nat, lim: Limits, app: App, net: Network, blocks: seq<Block>)
    requires AppOk(app)
    decreases Left(handled, lim)
  {
    hide Concluded, Gathered, Answer, ArrivesInTime;
    ArrivesInTime(buffer, n, handled > 0, lim, net, blocks) &&
    var (gathered, end) := Gathered(buffer, n, blocks, lim);
    var framed := Concluded(gathered, lim);
    framed.Take? && !Answer(framed.raw, handled + 1, lim, app).ends ==>
      (AnswerGoesOn(framed.raw, handled + 1, lim, app);
       Punctual(gathered[framed.used..], end, handled + 1, lim, app, net, blocks))
  }

  /** No read of a connection, however long it lasts, times out exactly when every request arrives in time. */
  lemma {:induction false} PunctualServe(
      st: Reader, handled: nat, lim: Limits, app: App, net: Network, blocks: seq<Block>)
    requires AppOk(app) && Delivers(net, blocks) && st.now == Clock(net, st.polls)
    ensures PromptServe(st, handled, lim, app, net)
      <==> Punctual(st.buffer, st.polls, handled, lim, app, net, blocks)
    decreases Left(handled, lim)
  {
    hide Answer, Receive, PromptLoop, ArrivesInTime, Concluded, Gathered, Delivers, Clock;
    CallInTime(st, handled > 0, lim, net, blocks);
    if PromptLoop(Begin(st), handled > 0, lim, net) {
      var (read, st') := Receive(st, handled > 0, lim, net);
      if read.Ready? && !Answer(read.raw, handled + 1, lim, app).ends {
        AnswerGoesOn(read.raw, handled + 1, lim, app);
        PunctualServe(st', handled + 1, lim, app, net, blocks);
      }
    }
  }
}

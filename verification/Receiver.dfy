/**
 Receiving one request from a connection: the read loop of `parse_stream_sync`.
 The asynchronous readers run the same loop.

 A network is an adversary: it decides how long each read would block and what
 it would deliver. The deadline set on the socket cuts a read short. Time passes
 only inside reads.
*/
module Receiver {
  import opened Wrappers
  import opened ByteText
  import opened Http
  import opened Framing

  const READ_SIZE: nat := 4096

  /** What one read can deliver; an empty block is the end of the stream. */
  type Block = data: Bytes | |data| <= READ_SIZE witness ""

  datatype Outcome = Got(data: Block) | TimedOut | Failed

  datatype Arrival = Arrival(delay: nat, outcome: Outcome)

  /** What read number n of a connection would meet, were it allowed to wait. */
  type Network = nat -> Arrival

  /**
   One connection as the read loop sees it. `started` is when the first octet of
   the request at hand was held; `received` and `taken` record all octets read
   and all octets spent on framed requests.
  */
  datatype Reader = Reader(
    buffer: Bytes, polls: nat, now: nat, started: Option<nat>, received: Bytes, taken: Bytes)

  datatype StreamRead = Ready(raw: Bytes) | Idle | Closed | Error(status: Status)

  function Min(a: nat, b: nat): nat {
    if a <= b then a else b
  }

  function Elapsed(since: nat, now: nat): nat {
    if since <= now then now - since else 0
  }

  /** How long the next read may block; nothing when the request's time is over. */
  function WaitFor(started: Option<nat>, now: nat, keepAlive: bool, lim: Limits): Option<nat> {
    match started
    case None => Some(if keepAlive then lim.keepAliveTimeout else lim.idleTimeout)
    case Some(since) =>
      var elapsed := Elapsed(since, now);
      if elapsed > lim.requestTimeout then None
      else Some(Min(lim.idleTimeout, lim.requestTimeout - elapsed))
  }

  /** A read that would block longer than `wait` times out then. */
  function Poll(net: Network, read: nat, wait: nat): (a: Arrival)
    ensures a.delay <= wait
  {
    var a := net(read);
    if a.delay > wait then Arrival(wait, TimedOut) else a
  }

  datatype Turn = Done(result: StreamRead, st: Reader) | Again(st: Reader)

  /** `buffer.drain(..used)`. */
  function Drained(st: Reader, used: nat): Reader
    requires used <= |st.buffer|
  {
    st.(buffer := st.buffer[used..], taken := st.taken + st.buffer[..used])
  }

  /** No more octets will come: frame what is there, or report `status`. */
  function LastChance(st: Reader, lim: Limits, status: Status): Turn {
    match Frame(st.buffer, lim, true)
    case Take(raw, used) => Done(Ready(raw), Drained(st, used))
    case Reject(s) => Done(Error(s), st)
    case NotYet => Done(Error(status), st)
  }

  /** What a read does to the loop, once the clock has moved. */
  function AfterRead(st: Reader, outcome: Outcome, lim: Limits): Turn {
    match outcome
    case Failed => Done(Error(BadRequest), st)
    case TimedOut => if st.started.None? then Done(Idle, st) else LastChance(st, lim, RequestTimeout)
    case Got(data) =>
      if data != "" then
        Again(st.(
          buffer := st.buffer + data,
          received := st.received + data,
          started := if st.started.None? then Some(st.now) else st.started))
      else if st.buffer == "" then Done(Closed, st)
      else LastChance(st, lim, BadRequest)
  }

  /** One turn of the loop. */
  function TakeTurn(st: Reader, keepAlive: bool, lim: Limits, net: Network): Turn {
    match Frame(st.buffer, lim, false)
    case Take(raw, used) => Done(Ready(raw), Drained(st, used))
    case Reject(status) => Done(Error(status), st)
    case NotYet =>
      match WaitFor(st.started, st.now, keepAlive, lim)
      case None => Done(Error(RequestTimeout), st)
      case Some(wait) =>
        if wait == 0 then Done(if st.started.Some? then Error(RequestTimeout) else Idle, st)
        else
          var a := Poll(net, st.polls, wait);
          AfterRead(st.(polls := st.polls + 1, now := st.now + a.delay), a.outcome, lim)
  }

  /** Room left before "not yet" stops being a possible answer. */
  function Room(st: Reader, lim: Limits): nat {
    if |st.buffer| <= MemoryBound(lim) then MemoryBound(lim) + 1 - |st.buffer| else 0
  }

  /** A loop that goes on has read at least one octet into a buffer that had room. */
  lemma TurnUsesRoom(st: Reader, keepAlive: bool, lim: Limits, net: Network)
    requires TakeTurn(st, keepAlive, lim, net).Again?
    ensures var st' := TakeTurn(st, keepAlive, lim, net).st;
      && Room(st', lim) < Room(st, lim)
      && st'.polls == st.polls + 1
      && |st.buffer| < |st'.buffer| <= MemoryBound(lim) + READ_SIZE
  {
    NotYetIsBounded(st.buffer, lim, false);
    hide Frame;
  }

  /** The loop, from any state. It ends however the network behaves. */
  function Loop(st: Reader, keepAlive: bool, lim: Limits, net: Network): (StreamRead, Reader)
    decreases Room(st, lim)
  {
    hide TakeTurn;
    match TakeTurn(st, keepAlive, lim, net)
    case Done(result, st') => (result, st')
    case Again(st') =>
      TurnUsesRoom(st, keepAlive, lim, net);
      Loop(st', keepAlive, lim, net)
  }

  /** The clock of a request starts when the call finds octets left over from the last one. */
  function Begin(st: Reader): Reader {
    st.(started := if st.buffer == "" then None else Some(st.now))
  }

  /** One call of `parse_stream_sync`. */
  function Receive(st: Reader, keepAlive: bool, lim: Limits, net: Network): (StreamRead, Reader) {
    Loop(Begin(st), keepAlive, lim, net)
  }

  // ---------- what every turn keeps ----------

  /** Octets are neither lost nor made up. */
  predicate Conserved(st: Reader) {
    st.received == st.taken + st.buffer
  }

  /** The clock runs exactly while octets are held, and never past the request's time. */
  predicate OnTime(st: Reader, lim: Limits) {
    match st.started
    case None => true
    case Some(since) => since <= st.now <= since + lim.requestTimeout
  }

  predicate Sound(st: Reader, lim: Limits) {
    && Conserved(st)
    && OnTime(st, lim)
    && (st.started.Some? <==> st.buffer != "")
    && |st.buffer| <= MemoryBound(lim) + READ_SIZE
  }

  lemma LastChanceKeeps(st: Reader, lim: Limits, status: Status)
    requires Conserved(st)
    ensures var turn := LastChance(st, lim, status);
      && turn.Done? && Conserved(turn.st) && |turn.st.buffer| <= |st.buffer|
      && turn.st.now == st.now && turn.st.started == st.started && turn.st.received == st.received
      && (turn.result.Ready? || (turn.result.Error? && turn.st == st))
  {
    hide Frame;
  }

  /** What the loop promises about a turn taken from `st`. */
  predicate Keeps(st: Reader, turn: Turn, lim: Limits) {
    && Conserved(turn.st) && OnTime(turn.st, lim) && |turn.st.buffer| <= MemoryBound(lim) + READ_SIZE
    && (turn.Again? ==> Sound(turn.st, lim) && turn.st.taken == st.taken)
    && (turn.Done? && (turn.result.Idle? || turn.result.Closed?) ==> turn.st.buffer == "")
    && (turn.Done? && turn.result.Error? ==> turn.st.buffer == st.buffer && turn.st.taken == st.taken)
  }

  lemma AfterReadKeeps(st: Reader, outcome: Outcome, lim: Limits)
    requires Sound(st, lim) && |st.buffer| <= MemoryBound(lim)
    ensures Keeps(st, AfterRead(st, outcome, lim), lim)
  {
    hide LastChance;
    LastChanceKeeps(st, lim, RequestTimeout);
    LastChanceKeeps(st, lim, BadRequest);
  }

  /** A read that respects its deadline cannot carry the clock past the request's time. */
  lemma PollKeepsTime(st: Reader, keepAlive: bool, lim: Limits, delay: nat)
    requires Sound(st, lim)
    requires var wait := WaitFor(st.started, st.now, keepAlive, lim); wait.Some? && delay <= wait.value
    ensures Sound(st.(polls := st.polls + 1, now := st.now + delay), lim)
  {
  }

  /**
   In every state the loop can reach the clock runs exactly while octets are
   held, no octet is lost and the buffer stays under a bound set by the limits;
   and the loop never stops later than the request's time allows. It reports a
   quiet or closed connection only when it holds nothing, and an error leaves
   the buffer as it was.
  */
  lemma TurnKeepsSound(st: Reader, keepAlive: bool, lim: Limits, net: Network)
    requires Sound(st, lim)
    ensures Keeps(st, TakeTurn(st, keepAlive, lim, net), lim)
  {
    hide Frame, Sound, AfterRead, WaitFor, Poll;
    if Frame(st.buffer, lim, false).NotYet? {
      NotYetIsBounded(st.buffer, lim, false);
      StillKeeps(st, keepAlive, lim);
      var wait := WaitFor(st.started, st.now, keepAlive, lim);
      if wait.Some? && wait.value > 0 {
        var a := Poll(net, st.polls, wait.value);
        var st' := st.(polls := st.polls + 1, now := st.now + a.delay);
        PollKeepsTime(st, keepAlive, lim, a.delay);
        AfterReadKeeps(st', a.outcome, lim);
      }
    } else {
      FramedKeeps(st, lim);
    }
  }

  lemma StillKeeps(st: Reader, keepAlive: bool, lim: Limits)
    requires Sound(st, lim)
    ensures Keeps(st, Done(Error(RequestTimeout), st), lim)
    ensures st.started.None? ==> Keeps(st, Done(Idle, st), lim)
  {
  }

  lemma FramedKeeps(st: Reader, lim: Limits)
    requires Sound(st, lim)
    ensures var framed := Frame(st.buffer, lim, false);
      && (framed.Take? ==> Keeps(st, Done(Ready(framed.raw), Drained(st, framed.used)), lim))
      && (framed.Reject? ==> Keeps(st, Done(Error(framed.status), st), lim))
  {
    hide Frame;
  }

  lemma {:induction false} LoopKeepsSound(st: Reader, keepAlive: bool, lim: Limits, net: Network)
    requires Sound(st, lim)
    ensures var (result, st') := Loop(st, keepAlive, lim, net);
      && Conserved(st') && OnTime(st', lim) && |st'.buffer| <= MemoryBound(lim) + READ_SIZE
      && (result.Idle? || result.Closed? ==> st'.buffer == "")
      && (result.Error? ==> st'.taken == st.taken)
    decreases Room(st, lim)
  {
    hide TakeTurn;
    TurnKeepsSound(st, keepAlive, lim, net);
    if TakeTurn(st, keepAlive, lim, net).Again? {
      TurnUsesRoom(st, keepAlive, lim, net);
      LoopKeepsSound(TakeTurn(st, keepAlive, lim, net).st, keepAlive, lim, net);
    }
  }

  /** The reads that delivered octets and let the loop go on. */
  function ContinuingReads(st: Reader, keepAlive: bool, lim: Limits, net: Network): nat
    decreases Room(st, lim)
  {
    hide TakeTurn;
    match TakeTurn(st, keepAlive, lim, net)
    case Done(_, _) => 0
    case Again(st') =>
      TurnUsesRoom(st, keepAlive, lim, net);
      1 + ContinuingReads(st', keepAlive, lim, net)
  }

  /**
   Without relying on clocks, one call makes at most `MemoryBound + 1` reads that
   deliver octets, and at most one more that ends it.
  */
  lemma {:induction false} ReadsAreBounded(st: Reader, keepAlive: bool, lim: Limits, net: Network)
    ensures ContinuingReads(st, keepAlive, lim, net) <= Room(st, lim) <= MemoryBound(lim) + 1
    ensures var polls := Loop(st, keepAlive, lim, net).1.polls - st.polls;
      0 <= polls - ContinuingReads(st, keepAlive, lim, net) <= 1
    decreases Room(st, lim)
  {
    hide Frame;
    if TakeTurn(st, keepAlive, lim, net).Again? {
      TurnUsesRoom(st, keepAlive, lim, net);
      ReadsAreBounded(TakeTurn(st, keepAlive, lim, net).st, keepAlive, lim, net);
    }
  }

  // ---------- a call returns in time ----------

  /** How long a call may wait for the first octet of a request. */
  function FirstWait(keepAlive: bool, lim: Limits): nat {
    if keepAlive then lim.keepAliveTimeout else lim.idleTimeout
  }

  /** A turn leaves a running clock alone, and starts a stopped one no later than the first wait allows. */
  lemma TurnClock(st: Reader, keepAlive: bool, lim: Limits, net: Network)
    ensures var turn := TakeTurn(st, keepAlive, lim, net);
      && (st.started.Some? ==> turn.st.started == st.started)
      && (st.started.None? ==> turn.st.now <= st.now + FirstWait(keepAlive, lim))
      && (turn.Again? && st.started.None? ==> turn.st.started == Some(turn.st.now))
  {
    hide Frame;
  }

  lemma {:induction false} LoopClock(st: Reader, keepAlive: bool, lim: Limits, net: Network)
    requires st.started.Some?
    ensures Loop(st, keepAlive, lim, net).1.started == st.started
    decreases Room(st, lim)
  {
    hide TakeTurn;
    TurnClock(st, keepAlive, lim, net);
    if TakeTurn(st, keepAlive, lim, net).Again? {
      TurnUsesRoom(st, keepAlive, lim, net);
      LoopClock(TakeTurn(st, keepAlive, lim, net).st, keepAlive, lim, net);
    }
  }

  /**
   No interleaving of slow reads makes a call outlast the request timeout once
   it holds an octet, or the first wait and the request timeout otherwise.
  */
  lemma ReceiveReturnsInTime(st: Reader, keepAlive: bool, lim: Limits, net: Network)
    requires Conserved(st) && |st.buffer| <= MemoryBound(lim) + READ_SIZE
    ensures Receive(st, keepAlive, lim, net).1.now
      <= st.now + lim.requestTimeout + if st.buffer == "" then FirstWait(keepAlive, lim) else 0
  {
    hide TakeTurn;
    var first := Begin(st);
    LoopKeepsSound(first, keepAlive, lim, net);
    TurnClock(first, keepAlive, lim, net);
    var turn := TakeTurn(first, keepAlive, lim, net);
    if st.buffer != "" {
      LoopClock(first, keepAlive, lim, net);
    } else if turn.Again? {
      LoopClock(turn.st, keepAlive, lim, net);
    }
  }
}

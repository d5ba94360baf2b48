/**
 How a call of the read loop ends when no whole request arrives: the client falls
 silent, closes, fails, or runs out of time.
*/
module Endings {
  import opened Wrappers
  import opened ByteText
  import opened Http
  import opened Fields
  import opened Framing
  import opened Receiver
  import opened Segmentation
  import opened FramingVerdicts

  /** The network delivers these non-empty blocks; what comes then is open. */
  ghost predicate DeliversFirst(net: Network, blocks: seq<Block>) {
    forall i | 0 <= i < |blocks| :: blocks[i] != "" && net(i).outcome == Got(blocks[i])
  }

  /** What has arrived when a call has read all blocks. */
  function Arrived(st: Reader, blocks: seq<Block>): Bytes {
    st.buffer + Stream(blocks, st.polls)
  }

  /** The reader then; `since` is when the clock of its request started. */
  ghost predicate HasRead(last: Reader, st: Reader, since: nat, net: Network, blocks: seq<Block>) {
    && last.buffer == Arrived(st, blocks) && last.polls == |blocks| && last.taken == st.taken
    && last.now == Clock(net, |blocks|) && last.started == Some(Clock(net, since))
  }

  lemma StillUndecided(buffer: Bytes, more: Bytes, lim: Limits)
    requires Frame(buffer + more, lim, false).NotYet?
    ensures Frame(buffer, lim, false).NotYet?
  {
    hide Frame;
    if !Frame(buffer, lim, false).NotYet? {
      FrameStable(buffer, more, lim);
    }
  }

  lemma {:induction false} LoopReaches(
      st: Reader, since: nat, keepAlive: bool, lim: Limits, net: Network, blocks: seq<Block>) returns (last: Reader)
    requires DeliversFirst(net, blocks) && OnClock(st, since, net) && st.polls <= |blocks|
    requires ReadInTime(since, st.polls, |blocks|, lim, net) && Frame(Arrived(st, blocks), lim, false).NotYet?
    ensures HasRead(last, st, since, net, blocks) && Loop(st, keepAlive, lim, net) == Loop(last, keepAlive, lim, net)
    decreases |blocks| - st.polls
  {
    hide Frame, TakeTurn, PromptTurn, ReadInTime, Clock;
    if st.polls == |blocks| {
      last := st;
      assert st.buffer + "" == st.buffer;
    } else {
      var block := blocks[st.polls];
      StillUndecided(st.buffer, Stream(blocks, st.polls), lim);
      InTimeInTurn(since, st.polls, |blocks|, lim, net);
      PromptInTime(st, since, keepAlive, lim, net);
      BlockGoesOn(st, keepAlive, lim, net, block);
      TurnUsesRoom(st, keepAlive, lim, net);
      var next := TakeTurn(st, keepAlive, lim, net).st;
      assert st.buffer + (block + Stream(blocks, st.polls + 1)) == st.buffer + block + Stream(blocks, st.polls + 1);
      last := LoopReaches(next, since, keepAlive, lim, net, blocks);
    }
  }

  /** The read in which the clock of the call's request starts, or the call itself. */
  function ClockStart(st: Reader): nat {
    if st.buffer == "" then st.polls + 1 else st.polls
  }

  /** Whatever is read arrives in time, but it is no whole request. */
  ghost predicate Incomplete(st: Reader, keepAlive: bool, lim: Limits, net: Network, blocks: seq<Block>) {
    && DeliversFirst(net, blocks) && st.now == Clock(net, st.polls) && ClockStart(st) <= |blocks|
    && Frame(Arrived(st, blocks), lim, false).NotYet?
    && (st.buffer == "" ==> 0 < FirstWait(keepAlive, lim) && net(st.polls).delay <= FirstWait(keepAlive, lim))
    && ReadInTime(ClockStart(st), ClockStart(st), |blocks|, lim, net)
  }

  lemma CallReaches(st: Reader, keepAlive: bool, lim: Limits, net: Network, blocks: seq<Block>) returns (last: Reader)
    requires Incomplete(st, keepAlive, lim, net, blocks)
    ensures HasRead(last, st, ClockStart(st), net, blocks)
    ensures Receive(st, keepAlive, lim, net) == Loop(last, keepAlive, lim, net)
  {
    hide Frame, TakeTurn, PromptTurn, ReadInTime, Clock;
    var first := Begin(st);
    if st.buffer != "" {
      last := LoopReaches(first, st.polls, keepAlive, lim, net, blocks);
    } else {
      var block := blocks[st.polls];
      StillUndecided(st.buffer, Stream(blocks, st.polls), lim);
      FirstInTime(first, keepAlive, lim, net);
      BlockGoesOn(first, keepAlive, lim, net, block);
      TurnUsesRoom(first, keepAlive, lim, net);
      var next := TakeTurn(first, keepAlive, lim, net).st;
      assert "" + (block + Stream(blocks, st.polls + 1)) == "" + block + Stream(blocks, st.polls + 1);
      last := LoopReaches(next, st.polls + 1, keepAlive, lim, net, blocks);
    }
  }

  /** What the request's clock leaves for the next read. */
  function TimeLeft(since: nat, n: nat, lim: Limits, net: Network): int {
    lim.requestTimeout - (Clock(net, n) - Clock(net, since))
  }

  /** No read may wait any more. */
  ghost predicate Overdue(since: nat, n: nat, lim: Limits, net: Network) {
    lim.idleTimeout == 0 || TimeLeft(since, n, lim, net) <= 0
  }

  /** The next read times out: it would last longer than it may, or the network says so. */
  ghost predicate Silent(since: nat, n: nat, lim: Limits, net: Network) {
    && !Overdue(since, n, lim, net)
    && (net(n).delay > lim.idleTimeout || net(n).delay > TimeLeft(since, n, lim, net) || net(n).outcome.TimedOut?)
  }

  /** The next read comes back in time with this. */
  ghost predicate Returns(since: nat, n: nat, outcome: Outcome, lim: Limits, net: Network) {
    !Overdue(since, n, lim, net) && !Silent(since, n, lim, net) && net(n).outcome == outcome
  }

  /** What is made of octets after which no more will come: the request they are, or an error. */
  ghost predicate Concluding(r: (StreamRead, Reader), text: Bytes, lim: Limits, otherwise: Status) {
    match Frame(text, lim, true)
    case Take(raw, used) => r.0 == Ready(raw) && r.1.buffer == text[used..]
    case Reject(status) => r.0 == Error(status) && r.1.buffer == text
    case NotYet => r.0 == Error(otherwise) && r.1.buffer == text
  }

  lemma LastTurn(last: Reader, st: Reader, since: nat, keepAlive: bool, lim: Limits, net: Network, blocks: seq<Block>)
    requires HasRead(last, st, since, net, blocks) && since <= |blocks|
    requires Frame(last.buffer, lim, false).NotYet? && last.buffer != ""
    ensures var r, text, n := Loop(last, keepAlive, lim, net), Arrived(st, blocks), |blocks|;
      && (Overdue(since, n, lim, net) ==> r == (Error(RequestTimeout), last))
      && (Silent(since, n, lim, net) ==> Concluding(r, text, lim, RequestTimeout))
      && (Returns(since, n, Got(""), lim, net) ==> Concluding(r, text, lim, BadRequest))
      && (Returns(since, n, Failed, lim, net) ==> r.0 == Error(BadRequest) && r.1.buffer == text)
  {
    ClockRuns(net, since, |blocks|);
    hide Frame, Clock;
  }

  /**
   A request that never becomes whole. If the client is silent until a read times
   out, what arrived is framed once more, as all there will be: a body that nothing
   announced is complete, and anything else a 408. If the client closes, it is a 400
   instead. A failed read is a 400, and a request out of time a 408, at once.
  */
  lemma IncompleteEnds(st: Reader, keepAlive: bool, lim: Limits, net: Network, blocks: seq<Block>)
    requires Incomplete(st, keepAlive, lim, net, blocks)
    ensures var r, text, n := Receive(st, keepAlive, lim, net), Arrived(st, blocks), |blocks|;
      && (Overdue(ClockStart(st), n, lim, net) ==> r.0 == Error(RequestTimeout) && r.1.buffer == text)
      && (Silent(ClockStart(st), n, lim, net) ==> Concluding(r, text, lim, RequestTimeout))
      && (Returns(ClockStart(st), n, Got(""), lim, net) ==> Concluding(r, text, lim, BadRequest))
      && (Returns(ClockStart(st), n, Failed, lim, net) ==> r.0 == Error(BadRequest) && r.1.buffer == text)
  {
    var last := CallReaches(st, keepAlive, lim, net, blocks);
    SomethingArrived(st, blocks, net);
    hide Frame, Clock, Loop, Overdue, Silent, Returns, Concluding, ReadInTime, Arrived;
    LastTurn(last, st, ClockStart(st), keepAlive, lim, net, blocks);
  }

  lemma SomethingArrived(st: Reader, blocks: seq<Block>, net: Network)
    requires DeliversFirst(net, blocks) && ClockStart(st) <= |blocks|
    ensures Arrived(st, blocks) != ""
  {
    if st.buffer == "" {
      assert Stream(blocks, st.polls) == blocks[st.polls] + Stream(blocks, st.polls + 1);
    }
  }

  /** Without an octet, silence ends the connection quietly, as a close does; a failed read is a 400. */
  lemma QuietEnds(st: Reader, keepAlive: bool, lim: Limits, net: Network)
    requires st.buffer == ""
    ensures var r, a, wait := Receive(st, keepAlive, lim, net), net(st.polls), FirstWait(keepAlive, lim);
      && (wait == 0 || a.delay > wait || a.outcome.TimedOut? ==> r.0 == Idle && r.1.buffer == "")
      && (wait > 0 && a.delay <= wait ==>
            && (a.outcome == Got("") ==> r.0 == Closed && r.1.buffer == "")
            && (a.outcome == Failed ==> r.0 == Error(BadRequest) && r.1.buffer == ""))
  {
    EmptyEnds(lim);
    hide Frame;
  }

  /**
   A body that nothing announces, from a client that keeps its connection open: once
   it has been silent for the idle timeout, it has its answer to all it sent.
  */
  lemma OpenBodyIsServed(
      head: Bytes, word: Bytes, body: Bytes, st: Reader, keepAlive: bool, lim: Limits, net: Network, blocks: seq<Block>)
    requires Announced(head, NoBody, lim) && StartsWith(head, word) && word in OPEN_METHODS && |body| <= lim.bodyBytes
    requires Incomplete(st, keepAlive, lim, net, blocks) && Arrived(st, blocks) == head + body
    requires Silent(ClockStart(st), |blocks|, lim, net)
    ensures var (read, last) := Receive(st, keepAlive, lim, net); read == Ready(head + body) && last.buffer == ""
  {
    IncompleteEnds(st, keepAlive, lim, net, blocks);
    OpenVerdicts(head, word, body, lim, true);
    hide Frame, Receive, Incomplete, Silent, Arrived, Announced, StartsWith, Returns, Overdue;
    assert (head + body)[|head + body|..] == "";
  }
}

/**
 The worker pool as a concurrent protocol: workers share one FIFO channel behind a
 mutex, and stopping sends one Terminate per worker and joins them in order. A
 step is one atomic action of some thread; an execution is any interleaving.
*/
module ThreadPool {

  type Job = nat

  datatype Message = NewJob(job: Job) | Terminate

  /** Where a worker's loop stands. `Receiving` holds the mutex; a panic in a job ends the thread. */
  datatype Worker = AtLock | Receiving | Running(job: Job) | Exited | Panicked

  /** Where `stop` stands: Terminates sent so far, then workers joined so far. */
  datatype Phase = Open | Sending(sent: nat) | Joining(joined: nat) | Stopped

  /**
   The pool, and what has become of its jobs: those submitted before it was
   stopped and after, those dequeued, finished and crashed, each in order.
  */
  datatype Pool = Pool(
    queue: seq<Message>, workers: seq<Worker>, phase: Phase,
    accepted: seq<Job>, late: seq<Job>, dequeued: seq<Job>, finished: seq<Job>, crashed: seq<Job>)

  datatype Step =
    | Submit(job: Job)
    | Acquire(w: nat)
    | Receive(w: nat)
    | Finish(w: nat)
    | Panic(w: nat)
    | BeginStop
    | SendTerminate
    | AllSent
    | Join
    | Return

  predicate Live(w: Worker) {
    w.AtLock? || w.Receiving? || w.Running?
  }

  predicate AnyLive(ws: seq<Worker>) {
    exists w | w in ws :: Live(w)
  }

  /** A channel without receivers drops what it holds and refuses what is sent. */
  function Settle(p: Pool): Pool {
    if AnyLive(p.workers) then p else p.(queue := [])
  }

  function Sent(p: Pool, m: Message): Pool {
    if AnyLive(p.workers) then p.(queue := p.queue + [m]) else p
  }

  function Moved(p: Pool, w: nat, to: Worker): Pool
    requires w < |p.workers|
  {
    p.(workers := p.workers[w := to])
  }

  predicate IsAt(p: Pool, w: nat, at: Worker) {
    w < |p.workers| && p.workers[w] == at
  }

  predicate Runs(p: Pool, w: nat, panics: Job -> bool, crash: bool) {
    w < |p.workers| && p.workers[w].Running? && panics(p.workers[w].job) == crash
  }

  /** May this step be taken? `run` and `stop` exclude each other, as their callers hold the pool's lock. */
  predicate Enabled(p: Pool, step: Step, panics: Job -> bool) {
    match step
    case Submit(_) => p.phase.Open? || p.phase.Stopped?
    case Acquire(w) => IsAt(p, w, AtLock) && Receiving !in p.workers
    case Receive(w) => IsAt(p, w, Receiving) && p.queue != []
    case Finish(w) => Runs(p, w, panics, false)
    case Panic(w) => Runs(p, w, panics, true)
    case BeginStop => p.phase.Open? || p.phase.Stopped?
    case SendTerminate => p.phase.Sending? && p.phase.sent < |p.workers|
    case AllSent => p.phase == Sending(|p.workers|)
    case Join => p.phase.Joining? && p.phase.joined < |p.workers| && !Live(p.workers[p.phase.joined])
    case Return => p.phase == Joining(|p.workers|)
  }

  function Take(p: Pool, step: Step, panics: Job -> bool): Pool
    requires Enabled(p, step, panics)
  {
    match step
    case Submit(job) =>
      if p.phase.Open? then Sent(p.(accepted := p.accepted + [job]), NewJob(job))
      else Sent(p.(late := p.late + [job]), NewJob(job))
    case Acquire(w) => Moved(p, w, Receiving)
    case Receive(w) =>
      var rest := p.(queue := p.queue[1..]);
      (match p.queue[0]
       case NewJob(job) => Moved(rest, w, Running(job)).(dequeued := p.dequeued + [job])
       case Terminate => Settle(Moved(rest, w, Exited)))
    case Finish(w) => Moved(p, w, AtLock).(finished := p.finished + [p.workers[w].job])
    case Panic(w) => Settle(Moved(p, w, Panicked).(crashed := p.crashed + [p.workers[w].job]))
    case BeginStop => p.(phase := Sending(0))
    case SendTerminate => Sent(p, Terminate).(phase := Sending(p.phase.sent + 1))
    case AllSent => p.(phase := Joining(0))
    case Join => p.(phase := Joining(p.phase.joined + 1))
    case Return => p.(phase := Stopped)
  }

  function Idle(n: nat): (ws: seq<Worker>)
    ensures |ws| == n && forall w | w in ws :: w == AtLock
  {
    seq(n, i => AtLock)
  }

  function Fresh(n: nat): Pool {
    Pool([], Idle(n), Open, [], [], [], [], [])
  }

  // ---------- counting ----------

  function Sum(ws: seq<Worker>, f: Worker -> nat): nat {
    if ws == [] then 0 else f(ws[0]) + Sum(ws[1..], f)
  }

  lemma {:induction false} SumUpdate(ws: seq<Worker>, i: nat, w: Worker, f: Worker -> nat)
    requires i < |ws|
    ensures Sum(ws[i := w], f) + f(ws[i]) == Sum(ws, f) + f(w)
  {
    if i == 0 {
      assert ws[0 := w][1..] == ws[1..];
    } else {
      assert ws[i := w][1..] == ws[1..][i - 1 := w];
      SumUpdate(ws[1..], i - 1, w, f);
    }
  }

  lemma {:induction false} SumZero(ws: seq<Worker>, f: Worker -> nat)
    ensures Sum(ws, f) == 0 <==> forall w | w in ws :: f(w) == 0
  {
    if ws != [] {
      SumZero(ws[1..], f);
      assert ws == [ws[0]] + ws[1..];
    }
  }

  function One(b: bool): nat {
    if b then 1 else 0
  }

  function LiveOnes(): Worker -> nat { (w: Worker) => One(Live(w)) }
  function ExitedOnes(): Worker -> nat { (w: Worker) => One(w.Exited?) }
  function PanickedOnes(): Worker -> nat { (w: Worker) => One(w.Panicked?) }
  function LockOnes(): Worker -> nat { (w: Worker) => One(w.Receiving?) }

  function RunnersOf(job: Job): Worker -> nat { (w: Worker) => One(w == Running(job)) }

  /** Workers running a job that will panic. */
  function DoomedOnes(panics: Job -> bool): Worker -> nat {
    (w: Worker) => One(w.Running? && panics(w.job))
  }

  lemma {:induction false} EachIsOneKind(ws: seq<Worker>)
    ensures Sum(ws, LiveOnes()) + Sum(ws, ExitedOnes()) + Sum(ws, PanickedOnes()) == |ws|
  {
    if ws != [] {
      EachIsOneKind(ws[1..]);
    }
  }

  lemma LiveIsCounted(ws: seq<Worker>)
    ensures AnyLive(ws) <==> Sum(ws, LiveOnes()) > 0
  {
    SumZero(ws, LiveOnes());
  }

  function JobsIn(queue: seq<Message>): seq<Job> {
    if queue == [] then []
    else (if queue[0].NewJob? then [queue[0].job] else []) + JobsIn(queue[1..])
  }

  function Terminates(queue: seq<Message>): nat {
    if queue == [] then 0 else One(queue[0].Terminate?) + Terminates(queue[1..])
  }

  lemma {:induction false} QueueSnoc(queue: seq<Message>, m: Message)
    ensures JobsIn(queue + [m]) == JobsIn(queue) + if m.NewJob? then [m.job] else []
    ensures Terminates(queue + [m]) == Terminates(queue) + One(m.Terminate?)
  {
    if queue == [] {
      assert [] + [m] == [m];
    } else {
      assert (queue + [m])[1..] == queue[1..] + [m];
      QueueSnoc(queue[1..], m);
    }
  }

  /** No job waits behind a Terminate. */
  predicate JobsFirst(queue: seq<Message>) {
    forall i, j | 0 <= i < j < |queue| :: queue[i].Terminate? ==> queue[j].Terminate?
  }

  lemma {:induction false} NoJobs(queue: seq<Message>)
    requires forall m | m in queue :: m.Terminate?
    ensures JobsIn(queue) == []
  {
    if queue != [] {
      assert queue[0] in queue;
      NoJobs(queue[1..]);
    }
  }

  function Panics(jobs: seq<Job>, panics: Job -> bool): nat {
    if jobs == [] then 0 else One(panics(jobs[0])) + Panics(jobs[1..], panics)
  }

  lemma {:induction false} PanicsSnoc(jobs: seq<Job>, job: Job, panics: Job -> bool)
    ensures Panics(jobs + [job], panics) == Panics(jobs, panics) + One(panics(job))
  {
    if jobs == [] {
      assert [] + [job] == [job];
    } else {
      assert (jobs + [job])[1..] == jobs[1..] + [job];
      PanicsSnoc(jobs[1..], job, panics);
    }
  }

  // ---------- what every interleaving keeps ----------

  /** Each message is where it should be: jobs in submission order, Terminates behind them. */
  predicate QueueOk(queue: seq<Message>, ws: seq<Worker>, accepted: seq<Job>, dequeued: seq<Job>) {
    && JobsFirst(queue)
    && dequeued <= accepted
    && (AnyLive(ws) ==> accepted == dequeued + JobsIn(queue))
    && (!AnyLive(ws) ==> queue == [])
    && (Sum(ws, ExitedOnes()) > 0 ==> dequeued == accepted)
  }

  /** Every Terminate sent is waiting or has ended one worker. */
  predicate TerminatesOk(queue: seq<Message>, ws: seq<Worker>, phase: Phase) {
    var gone := Sum(ws, ExitedOnes());
    match phase
    case Open => gone == 0 && Terminates(queue) == 0
    case Sending(k) => k <= |ws| && (AnyLive(ws) ==> Terminates(queue) + gone == k)
    case Joining(k) =>
      && k <= |ws|
      && (AnyLive(ws) ==> Terminates(queue) + gone == |ws|)
      && (forall i | 0 <= i < k :: !Live(ws[i]))
    case Stopped => !AnyLive(ws)
  }

  /** Every dequeued job is running, finished or crashed, and only once. */
  ghost predicate Accounted(ws: seq<Worker>, dequeued: seq<Job>, finished: seq<Job>, crashed: seq<Job>) {
    forall job :: multiset(dequeued)[job]
      == multiset(finished)[job] + multiset(crashed)[job] + Sum(ws, RunnersOf(job))
  }

  /** Jobs end as they must, and each panic has cost one worker. */
  predicate EndingsOk(ws: seq<Worker>, dequeued: seq<Job>, finished: seq<Job>, crashed: seq<Job>, panics: Job -> bool) {
    && (forall job | job in finished :: !panics(job))
    && (forall job | job in crashed :: panics(job))
    && Panics(dequeued, panics) == Sum(ws, PanickedOnes()) + Sum(ws, DoomedOnes(panics))
    && (dequeued != [] ==> Panics(dequeued[..|dequeued| - 1], panics) < |ws|)
  }

  ghost predicate Inv(p: Pool, panics: Job -> bool) {
    && |p.workers| > 0
    && QueueOk(p.queue, p.workers, p.accepted, p.dequeued)
    && TerminatesOk(p.queue, p.workers, p.phase)
    && Accounted(p.workers, p.dequeued, p.finished, p.crashed)
    && EndingsOk(p.workers, p.dequeued, p.finished, p.crashed, panics)
    && Sum(p.workers, LockOnes()) <= 1
  }

  // ---------- one step keeps it ----------

  lemma {:induction false} NoTerminates(queue: seq<Message>)
    requires Terminates(queue) == 0
    ensures forall m | m in queue :: m.NewJob?
  {
    if queue != [] {
      NoTerminates(queue[1..]);
      assert queue == [queue[0]] + queue[1..];
    }
  }

  lemma HeadTerminate(queue: seq<Message>)
    requires JobsFirst(queue) && queue != [] && queue[0].Terminate?
    ensures JobsIn(queue) == []
  {
    forall m | m in queue ensures m.Terminate? {
      var i :| 0 <= i < |queue| && queue[i] == m;
      if i > 0 {
        assert queue[0].Terminate?;
      }
    }
    NoJobs(queue);
  }

  lemma SnocFirst(queue: seq<Message>, m: Message)
    requires JobsFirst(queue) && (m.Terminate? || Terminates(queue) == 0)
    ensures JobsFirst(queue + [m])
  {
    if !m.Terminate? {
      NoTerminates(queue);
      assert forall i | 0 <= i < |queue| :: queue[i] in queue;
    }
  }

  lemma SentJob(p: Pool, job: Job)
    requires QueueOk(p.queue, p.workers, p.accepted, p.dequeued) && Terminates(p.queue) == 0
    requires Sum(p.workers, ExitedOnes()) == 0
    ensures var q := Sent(p.(accepted := p.accepted + [job]), NewJob(job));
      && QueueOk(q.queue, p.workers, q.accepted, p.dequeued) && Terminates(q.queue) == 0
      && q == p.(queue := q.queue, accepted := q.accepted)
  {
    hide JobsFirst, Sum, AnyLive;
    QueueSnoc(p.queue, NewJob(job));
    SnocFirst(p.queue, NewJob(job));
    assert p.dequeued + JobsIn(p.queue) + [job] == p.dequeued + (JobsIn(p.queue) + [job]);
  }

  lemma SentTerminate(p: Pool)
    requires QueueOk(p.queue, p.workers, p.accepted, p.dequeued)
    ensures var q := Sent(p, Terminate);
      && QueueOk(q.queue, p.workers, p.accepted, p.dequeued)
      && q == p.(queue := q.queue)
      && (AnyLive(p.workers) ==> Terminates(q.queue) == Terminates(p.queue) + 1)
  {
    hide JobsFirst, Sum, AnyLive;
    QueueSnoc(p.queue, Terminate);
    SnocFirst(p.queue, Terminate);
    assert JobsIn(p.queue) + [] == JobsIn(p.queue);
  }

  lemma SubmitKeeps(p: Pool, job: Job, panics: Job -> bool)
    requires Inv(p, panics) && Enabled(p, Submit(job), panics)
    ensures Inv(Take(p, Submit(job), panics), panics)
  {
    hide QueueOk, Accounted, EndingsOk, Sum;
    if p.phase.Open? {
      SentJob(p, job);
    }
  }

  lemma StopperKeeps(p: Pool, step: Step, panics: Job -> bool)
    requires Inv(p, panics) && Enabled(p, step, panics)
    requires step.BeginStop? || step.SendTerminate? || step.AllSent? || step.Join? || step.Return?
    ensures Inv(Take(p, step, panics), panics)
  {
    hide QueueOk, Accounted, EndingsOk, Sum, AnyLive, Live, JobsIn;
    SentTerminate(p);
    if step.Return? {
      AllJoined(p.workers);
    }
  }

  lemma AllJoined(ws: seq<Worker>)
    requires forall i | 0 <= i < |ws| :: !Live(ws[i])
    ensures !AnyLive(ws)
  {
  }

  /** How the counts change when worker `i` moves. */
  lemma Counts(ws: seq<Worker>, i: nat, to: Worker, panics: Job -> bool)
    requires i < |ws|
    ensures var moved := ws[i := to];
      && Sum(moved, ExitedOnes()) + One(ws[i].Exited?) == Sum(ws, ExitedOnes()) + One(to.Exited?)
      && Sum(moved, PanickedOnes()) + One(ws[i].Panicked?) == Sum(ws, PanickedOnes()) + One(to.Panicked?)
      && Sum(moved, LockOnes()) + One(ws[i].Receiving?) == Sum(ws, LockOnes()) + One(to.Receiving?)
      && Sum(moved, DoomedOnes(panics)) + One(ws[i].Running? && panics(ws[i].job))
         == Sum(ws, DoomedOnes(panics)) + One(to.Running? && panics(to.job))
  {
    SumUpdate(ws, i, to, ExitedOnes());
    SumUpdate(ws, i, to, PanickedOnes());
    SumUpdate(ws, i, to, LockOnes());
    SumUpdate(ws, i, to, DoomedOnes(panics));
    hide Sum;
  }

  lemma StillLive(ws: seq<Worker>, i: nat, to: Worker)
    requires i < |ws| && Live(ws[i])
    ensures AnyLive(ws)
    ensures Live(to) ==> AnyLive(ws[i := to])
  {
    assert ws[i] in ws;
    if Live(to) {
      assert ws[i := to][i] in ws[i := to];
    }
  }

  /** A worker that moves but lives leaves the channel and the stopper as they were. */
  lemma LiveMove(p: Pool, i: nat, to: Worker, panics: Job -> bool)
    requires Inv(p, panics) && i < |p.workers| && Live(p.workers[i]) && Live(to)
    ensures QueueOk(p.queue, p.workers[i := to], p.accepted, p.dequeued)
    ensures TerminatesOk(p.queue, p.workers[i := to], p.phase)
  {
    Counts(p.workers, i, to, panics);
    StillLive(p.workers, i, to);
    hide JobsFirst, Accounted, EndingsOk, Sum, AnyLive, JobsIn, Terminates;
  }

  /** The record of jobs when worker `i` moves. */
  lemma AccountMove(ws: seq<Worker>, i: nat, to: Worker, dequeued: seq<Job>, finished: seq<Job>, crashed: seq<Job>,
      more: seq<Job>, moreFinished: seq<Job>, moreCrashed: seq<Job>)
    requires i < |ws| && Accounted(ws, dequeued, finished, crashed)
    requires multiset(more) + multiset(JobOf(ws[i]))
      == multiset(moreFinished) + multiset(moreCrashed) + multiset(JobOf(to))
    ensures Accounted(ws[i := to], dequeued + more, finished + moreFinished, crashed + moreCrashed)
  {
    hide Sum;
    forall job ensures multiset(dequeued + more)[job] == multiset(finished + moreFinished)[job]
      + multiset(crashed + moreCrashed)[job] + Sum(ws[i := to], RunnersOf(job))
    {
      SumUpdate(ws, i, to, RunnersOf(job));
      var left := multiset(more) + multiset(JobOf(ws[i]));
      var right := multiset(moreFinished) + multiset(moreCrashed) + multiset(JobOf(to));
      assert left[job] == right[job];
      assert multiset(dequeued)[job]
        == multiset(finished)[job] + multiset(crashed)[job] + Sum(ws, RunnersOf(job));
    }
  }

  function JobOf(w: Worker): seq<Job> {
    if w.Running? then [w.job] else []
  }

  lemma AcquireKeeps(p: Pool, w: nat, panics: Job -> bool)
    requires Inv(p, panics) && Enabled(p, Acquire(w), panics)
    ensures Inv(Take(p, Acquire(w), panics), panics)
  {
    hide QueueOk, TerminatesOk, Accounted, Panics, Sum, AnyLive;
    LiveMove(p, w, Receiving, panics);
    Counts(p.workers, w, Receiving, panics);
    AccountMove(p.workers, w, Receiving, p.dequeued, p.finished, p.crashed, [], [], []);
    NobodyReceives(p.workers);
    Append3(p.dequeued, p.finished, p.crashed);
  }

  lemma Append3(a: seq<Job>, b: seq<Job>, c: seq<Job>)
    ensures a + [] == a && b + [] == b && c + [] == c
  {
  }

  lemma NobodyReceives(ws: seq<Worker>)
    requires Receiving !in ws
    ensures Sum(ws, LockOnes()) == 0
  {
    SumZero(ws, LockOnes());
  }

  lemma FinishKeeps(p: Pool, w: nat, panics: Job -> bool)
    requires Inv(p, panics) && Enabled(p, Finish(w), panics)
    ensures Inv(Take(p, Finish(w), panics), panics)
  {
    hide QueueOk, TerminatesOk, Accounted, Panics, Sum, AnyLive;
    LiveMove(p, w, AtLock, panics);
    Counts(p.workers, w, AtLock, panics);
    AccountMove(p.workers, w, AtLock, p.dequeued, p.finished, p.crashed, [], [p.workers[w].job], []);
    Append3(p.dequeued, p.finished, p.crashed);
  }

  /** A worker that dies leaves the queue, unless it was the last. */
  lemma DeadMove(p: Pool, i: nat, to: Worker, panics: Job -> bool)
    requires Inv(p, panics) && i < |p.workers| && p.workers[i].Running? && to.Panicked?
    ensures var q := Settle(Moved(p, i, to));
      && QueueOk(q.queue, q.workers, p.accepted, p.dequeued) && TerminatesOk(q.queue, q.workers, p.phase)
      && q == p.(queue := q.queue, workers := p.workers[i := to])
  {
    Counts(p.workers, i, to, panics);
    StillLive(p.workers, i, to);
    hide Accounted, EndingsOk, Sum, AnyLive;
  }

  lemma PanicKeeps(p: Pool, w: nat, panics: Job -> bool)
    requires Inv(p, panics) && Enabled(p, Panic(w), panics)
    ensures Inv(Take(p, Panic(w), panics), panics)
  {
    hide QueueOk, TerminatesOk, Accounted, Panics, Sum, AnyLive;
    DeadMove(p, w, Panicked, panics);
    Counts(p.workers, w, Panicked, panics);
    AccountMove(p.workers, w, Panicked, p.dequeued, p.finished, p.crashed, [], [], [p.workers[w].job]);
    Append3(p.dequeued, p.finished, p.crashed);
  }

  lemma {:induction false} RoomForOne(ws: seq<Worker>, panics: Job -> bool)
    ensures Sum(ws, PanickedOnes()) + Sum(ws, DoomedOnes(panics)) + Sum(ws, LockOnes()) <= |ws|
  {
    if ws != [] {
      RoomForOne(ws[1..], panics);
    }
  }

  lemma ReceiverHoldsLock(ws: seq<Worker>, i: nat)
    requires i < |ws| && ws[i].Receiving?
    ensures Sum(ws, LockOnes()) > 0
  {
    SumZero(ws, LockOnes());
    assert LockOnes()(ws[i]) == 1;
  }

  lemma DequeuedJob(p: Pool, w: nat, panics: Job -> bool)
    requires Inv(p, panics) && Enabled(p, Receive(w), panics) && p.queue[0].NewJob?
    ensures var job := p.queue[0].job;
      && QueueOk(p.queue[1..], p.workers[w := Running(job)], p.accepted, p.dequeued + [job])
      && TerminatesOk(p.queue[1..], p.workers[w := Running(job)], p.phase)
  {
    var job := p.queue[0].job;
    Counts(p.workers, w, Running(job), panics);
    StillLive(p.workers, w, Running(job));
    hide Accounted, EndingsOk, Sum, AnyLive;
    assert p.dequeued + JobsIn(p.queue) == p.dequeued + [job] + JobsIn(p.queue[1..]);
  }

  /** The worker that takes a job is neither dead nor doomed, so a panic has one more worker to kill. */
  lemma EndingsAfterReceive(p: Pool, w: nat, job: Job, panics: Job -> bool)
    requires Inv(p, panics) && IsAt(p, w, Receiving)
    ensures EndingsOk(p.workers[w := Running(job)], p.dequeued + [job], p.finished, p.crashed, panics)
    ensures Sum(p.workers[w := Running(job)], LockOnes()) <= 1
  {
    Counts(p.workers, w, Running(job), panics);
    RoomForOne(p.workers, panics);
    ReceiverHoldsLock(p.workers, w);
    PanicsSnoc(p.dequeued, job, panics);
    hide QueueOk, TerminatesOk, Accounted, Panics, Sum;
    assert (p.dequeued + [job])[..|p.dequeued|] == p.dequeued;
  }

  lemma ReceiveJobKeeps(p: Pool, w: nat, panics: Job -> bool)
    requires Inv(p, panics) && Enabled(p, Receive(w), panics) && p.queue[0].NewJob?
    ensures Inv(Take(p, Receive(w), panics), panics)
  {
    var job := p.queue[0].job;
    DequeuedJob(p, w, panics);
    EndingsAfterReceive(p, w, job, panics);
    AccountMove(p.workers, w, Running(job), p.dequeued, p.finished, p.crashed, [job], [], []);
    hide QueueOk, TerminatesOk, Accounted, EndingsOk, Sum;
    Append3(p.dequeued, p.finished, p.crashed);
  }

  lemma DequeuedTerminate(p: Pool, w: nat, panics: Job -> bool)
    requires Inv(p, panics) && Enabled(p, Receive(w), panics) && p.queue[0].Terminate?
    ensures var q := Settle(Moved(p.(queue := p.queue[1..]), w, Exited));
      && QueueOk(q.queue, q.workers, p.accepted, p.dequeued) && TerminatesOk(q.queue, q.workers, p.phase)
      && q == p.(queue := q.queue, workers := p.workers[w := Exited])
  {
    Counts(p.workers, w, Exited, panics);
    StillLive(p.workers, w, Exited);
    HeadTerminate(p.queue);
    assert JobsIn(p.queue[1..]) == [];
    assert p.dequeued + [] == p.dequeued;
    hide Accounted, EndingsOk, Sum, AnyLive;
  }

  lemma ReceiveTerminateKeeps(p: Pool, w: nat, panics: Job -> bool)
    requires Inv(p, panics) && Enabled(p, Receive(w), panics) && p.queue[0].Terminate?
    ensures Inv(Take(p, Receive(w), panics), panics)
  {
    hide QueueOk, TerminatesOk, Accounted, Panics, Sum, AnyLive;
    DequeuedTerminate(p, w, panics);
    Counts(p.workers, w, Exited, panics);
    AccountMove(p.workers, w, Exited, p.dequeued, p.finished, p.crashed, [], [], []);
    Append3(p.dequeued, p.finished, p.crashed);
  }

  /** Every step, of any thread, keeps the invariant. */
  lemma StepKeeps(p: Pool, step: Step, panics: Job -> bool)
    requires Inv(p, panics) && Enabled(p, step, panics)
    ensures Inv(Take(p, step, panics), panics)
  {
    match step
    case Submit(job) => SubmitKeeps(p, job, panics);
    case Acquire(w) => AcquireKeeps(p, w, panics);
    case Receive(w) =>
      if p.queue[0].NewJob? {
        ReceiveJobKeeps(p, w, panics);
      } else {
        ReceiveTerminateKeeps(p, w, panics);
      }
    case Finish(w) => FinishKeeps(p, w, panics);
    case Panic(w) => PanicKeeps(p, w, panics);
    case _ => StopperKeeps(p, step, panics);
  }

  // ---------- executions ----------

  /** The steps can be taken one after the other. */
  predicate Possible(p: Pool, steps: seq<Step>, panics: Job -> bool)
    decreases |steps|
  {
    steps == [] || (Enabled(p, steps[0], panics) && Possible(Take(p, steps[0], panics), steps[1..], panics))
  }

  function TakeAll(p: Pool, steps: seq<Step>, panics: Job -> bool): Pool
    requires Possible(p, steps, panics)
    decreases |steps|
  {
    if steps == [] then p else TakeAll(Take(p, steps[0], panics), steps[1..], panics)
  }

  lemma SumOfIdle(n: nat, f: Worker -> nat)
    requires f(AtLock) == 0
    ensures Sum(Idle(n), f) == 0
  {
    SumZero(Idle(n), f);
  }

  lemma FreshInv(n: nat, panics: Job -> bool)
    requires n > 0
    ensures Inv(Fresh(n), panics)
  {
    hide Sum, Idle;
    var ws := Idle(n);
    SumOfIdle(n, ExitedOnes());
    SumOfIdle(n, PanickedOnes());
    SumOfIdle(n, LockOnes());
    SumOfIdle(n, DoomedOnes(panics));
    assert ws[0] in ws;
    forall job ensures Sum(ws, RunnersOf(job)) == 0 {
      SumOfIdle(n, RunnersOf(job));
    }
  }

  lemma {:induction false} ExecutionKeeps(p: Pool, steps: seq<Step>, panics: Job -> bool)
    requires Inv(p, panics) && Possible(p, steps, panics)
    ensures Inv(TakeAll(p, steps, panics), panics)
    decreases |steps|
  {
    hide Inv, Take, Enabled;
    if steps != [] {
      StepKeeps(p, steps[0], panics);
      ExecutionKeeps(Take(p, steps[0], panics), steps[1..], panics);
    }
  }
}

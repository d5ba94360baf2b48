/**
 What stopping the pool comes to, over every interleaving: which jobs have run
 when `stop` returns, and that it always returns.
*/
module PoolShutdown {
  import opened ThreadPool

  // ---------- stopping drains the queue ----------

  /** Jobs that `n` workers can take from a queue, each panic costing one worker. */
  function Served(jobs: seq<Job>, n: nat, panics: Job -> bool): (k: nat)
    ensures k <= |jobs|
  {
    if n == 0 || jobs == [] then 0
    else 1 + Served(jobs[1..], if panics(jobs[0]) then n - 1 else n, panics)
  }

  /** With fewer panics than workers, every job is served. */
  lemma {:induction false} AllServed(jobs: seq<Job>, n: nat, panics: Job -> bool)
    requires Panics(jobs, panics) < n
    ensures Served(jobs, n, panics) == |jobs|
  {
    if jobs != [] {
      AllServed(jobs[1..], if panics(jobs[0]) then n - 1 else n, panics);
    }
  }

  /** With the n-th panic the last worker is gone, and what follows is never served. */
  lemma {:induction false} ServedToLastPanic(jobs: seq<Job>, done: seq<Job>, n: nat, panics: Job -> bool)
    requires done <= jobs && done != []
    requires Panics(done, panics) == n && Panics(done[..|done| - 1], panics) < n
    ensures Served(jobs, n, panics) == |done|
  {
    var m := if panics(jobs[0]) then n - 1 else n;
    if |done| == 1 {
      assert Panics(done[1..], panics) == 0;
      assert panics(jobs[0]) && m == 0;
    } else {
      assert done[1..][..|done[1..]| - 1] == done[..|done| - 1][1..];
      ServedToLastPanic(jobs[1..], done[1..], m, panics);
    }
  }

  /** Jobs that end without a panic. */
  function Survivors(jobs: seq<Job>, panics: Job -> bool): seq<Job> {
    if jobs == [] then []
    else (if panics(jobs[0]) then [] else [jobs[0]]) + Survivors(jobs[1..], panics)
  }

  lemma {:induction false} SurvivorCount(jobs: seq<Job>, job: Job, panics: Job -> bool)
    ensures multiset(Survivors(jobs, panics))[job] == if panics(job) then 0 else multiset(jobs)[job]
  {
    if jobs != [] {
      SurvivorCount(jobs[1..], job, panics);
      assert jobs == [jobs[0]] + jobs[1..];
    }
  }

  /** With every worker gone, no job is still running. */
  lemma NobodyRuns(p: Pool, panics: Job -> bool)
    requires Inv(p, panics) && !AnyLive(p.workers)
    ensures Sum(p.workers, ExitedOnes()) + Sum(p.workers, PanickedOnes()) == |p.workers|
    ensures Sum(p.workers, DoomedOnes(panics)) == 0
    ensures forall job :: Sum(p.workers, RunnersOf(job)) == 0
  {
    EachIsOneKind(p.workers);
    LiveIsCounted(p.workers);
    SumZero(p.workers, DoomedOnes(panics));
    forall job ensures Sum(p.workers, RunnersOf(job)) == 0 {
      SumZero(p.workers, RunnersOf(job));
    }
    hide Sum, Inv;
  }

  /** When no job is running, those dequeued that do not panic are those that have finished. */
  lemma SurvivorsFinish(p: Pool, panics: Job -> bool)
    requires Inv(p, panics) && forall job :: Sum(p.workers, RunnersOf(job)) == 0
    ensures multiset(p.finished) == multiset(Survivors(p.dequeued, panics))
  {
    hide Sum, Panics, Survivors, QueueOk, TerminatesOk;
    forall job ensures multiset(p.finished)[job] == multiset(Survivors(p.dequeued, panics))[job] {
      SurvivorCount(p.dequeued, job, panics);
      assert panics(job) ==> job !in p.finished;
      assert !panics(job) ==> job !in p.crashed;
    }
  }

  /**
   When `stop` returns, the jobs dequeued are exactly those the workers could
   serve, once each and in submission order: all of them when fewer jobs panic
   than there are workers, and otherwise those up to the panic that killed the
   last worker. Each of them has ended, and the ones that do not panic have
   finished.
  */
  lemma StoppedIsDrained(p: Pool, panics: Job -> bool)
    requires Inv(p, panics) && p.phase.Stopped?
    ensures p.dequeued == p.accepted[..Served(p.accepted, |p.workers|, panics)]
    ensures Panics(p.accepted, panics) < |p.workers| ==> p.dequeued == p.accepted
    ensures multiset(p.finished) == multiset(Survivors(p.dequeued, panics))
  {
    NobodyRuns(p, panics);
    ServedExactly(p, panics);
    if Panics(p.accepted, panics) < |p.workers| {
      AllServed(p.accepted, |p.workers|, panics);
    }
    SurvivorsFinish(p, panics);
    hide Sum, Panics, Served, Survivors, QueueOk, TerminatesOk;
  }

  lemma ServedExactly(p: Pool, panics: Job -> bool)
    requires Inv(p, panics) && !AnyLive(p.workers)
    ensures p.dequeued == p.accepted[..Served(p.accepted, |p.workers|, panics)]
  {
    NobodyRuns(p, panics);
    hide Sum;
    if Sum(p.workers, ExitedOnes()) > 0 {
      AllServed(p.accepted, |p.workers|, panics);
    } else {
      ServedToLastPanic(p.accepted, p.dequeued, |p.workers|, panics);
    }
  }

  /** On every execution that has stopped a pool of `n` workers. */
  lemma EveryStopDrains(n: nat, steps: seq<Step>, panics: Job -> bool)
    requires n > 0 && Possible(Fresh(n), steps, panics)
    requires TakeAll(Fresh(n), steps, panics).phase.Stopped?
    ensures var p := TakeAll(Fresh(n), steps, panics);
      && p.dequeued == p.accepted[..Served(p.accepted, n, panics)]
      && (Panics(p.accepted, panics) < n ==> p.dequeued == p.accepted)
      && multiset(p.finished) == multiset(Survivors(p.dequeued, panics))
  {
    FreshInv(n, panics);
    ExecutionKeeps(Fresh(n), steps, panics);
    SameWorkers(Fresh(n), steps, panics);
    hide Possible, TakeAll;
    StoppedIsDrained(TakeAll(Fresh(n), steps, panics), panics);
  }

  lemma {:induction false} SameWorkers(p: Pool, steps: seq<Step>, panics: Job -> bool)
    requires Possible(p, steps, panics)
    ensures |TakeAll(p, steps, panics).workers| == |p.workers|
    decreases |steps|
  {
    if steps != [] {
      SameWorkers(Take(p, steps[0], panics), steps[1..], panics);
    }
  }

  // ---------- jobs do not wait forever ----------

  predicate WorkerStep(step: Step) {
    step.Acquire? || step.Receive? || step.Finish? || step.Panic?
  }

  function Rank(): Worker -> nat {
    (w: Worker) => if w.Running? then 3 else if w.AtLock? then 2 else if w.Receiving? then 1 else 0
  }

  /** What the workers have to do with what is queued and running. */
  function Work(p: Pool): nat {
    5 * |p.queue| + Sum(p.workers, Rank())
  }

  /** Whatever a worker does brings the end of its work nearer, in every phase of the pool. */
  lemma WorkRunsOut(p: Pool, step: Step, panics: Job -> bool)
    requires Enabled(p, step, panics) && WorkerStep(step)
    ensures Work(Take(p, step, panics)) < Work(p)
  {
    hide Sum, AnyLive;
    match step
    case Acquire(w) => SumUpdate(p.workers, w, Receiving, Rank());
    case Receive(w) =>
      SumUpdate(p.workers, w, Exited, Rank());
      if p.queue[0].NewJob? {
        SumUpdate(p.workers, w, Running(p.queue[0].job), Rank());
      }
    case Finish(w) => SumUpdate(p.workers, w, AtLock, Rank());
    case Panic(w) => SumUpdate(p.workers, w, Panicked, Rank());
  }

  /** A message never waits while some worker lives and none can move. */
  lemma WaitingIsTaken(p: Pool, panics: Job -> bool) returns (step: Step)
    requires AnyLive(p.workers) && p.queue != []
    ensures Enabled(p, step, panics) && WorkerStep(step)
  {
    var w :| 0 <= w < |p.workers| && Live(p.workers[w]);
    step := SomeoneMoves(p, w, panics);
  }

  /** So when no worker can move, every job of an open pool has been taken and has ended, if a worker is left. */
  lemma RestingIsDone(p: Pool, panics: Job -> bool)
    requires Inv(p, panics) && AnyLive(p.workers)
    requires forall step | WorkerStep(step) :: !Enabled(p, step, panics)
    ensures p.queue == [] && p.dequeued == p.accepted
    ensures multiset(p.finished) == multiset(Survivors(p.accepted, panics))
  {
    if p.queue != [] {
      var step := WaitingIsTaken(p, panics);
    }
    assert p.dequeued + [] == p.dequeued;
    forall job ensures Sum(p.workers, RunnersOf(job)) == 0 {
      forall i | 0 <= i < |p.workers| ensures p.workers[i] != Running(job) {
        assert !Enabled(p, if panics(job) then Panic(i) else Finish(i), panics);
      }
      SumZero(p.workers, RunnersOf(job));
    }
    hide Sum, Panics, Served, Survivors, TerminatesOk, Enabled;
    SurvivorsFinish(p, panics);
  }

  // ---------- stopping cannot hang ----------

  predicate Stopping(p: Pool) {
    p.phase.Sending? || p.phase.Joining?
  }

  /** Sends and joins still to do. */
  function StopperWork(p: Pool): nat {
    match p.phase
    case Sending(k) => (if k <= |p.workers| then 6 * (|p.workers| - k) else 0) + |p.workers| + 2
    case Joining(k) => (if k <= |p.workers| then |p.workers| - k else 0) + 1
    case _ => 0
  }

  function Measure(p: Pool): nat {
    Work(p) + StopperWork(p)
  }

  /** While `stop` runs, every step of any thread brings its end nearer. */
  lemma StepsRunOut(p: Pool, step: Step, panics: Job -> bool)
    requires Inv(p, panics) && Stopping(p) && Enabled(p, step, panics)
    ensures Measure(Take(p, step, panics)) < Measure(p)
  {
    hide Sum, Inv, AnyLive;
    if WorkerStep(step) {
      WorkRunsOut(p, step, panics);
      hide Work;
    }
  }

  /** Waiting Terminates outnumber, or equal, the live workers once all are sent. */
  lemma EnoughTerminates(p: Pool, panics: Job -> bool)
    requires Inv(p, panics) && p.phase.Joining? && AnyLive(p.workers)
    ensures Terminates(p.queue) >= Sum(p.workers, LiveOnes())
    ensures p.queue != []
  {
    EachIsOneKind(p.workers);
    LiveIsCounted(p.workers);
    hide Sum, QueueOk, Accounted, EndingsOk;
  }

  /** A worker's next step, whatever holds it up, while a message waits. */
  lemma SomeoneMoves(p: Pool, w: nat, panics: Job -> bool) returns (step: Step)
    requires w < |p.workers| && Live(p.workers[w]) && p.queue != []
    ensures Enabled(p, step, panics) && WorkerStep(step)
  {
    if p.workers[w].Running? {
      step := if panics(p.workers[w].job) then Panic(w) else Finish(w);
    } else if Receiving in p.workers {
      var i :| 0 <= i < |p.workers| && p.workers[i] == Receiving;
      step := Receive(i);
    } else {
      step := Acquire(w);
    }
  }

  /** While `stop` runs, some thread can move. */
  lemma StopIsNeverStuck(p: Pool, panics: Job -> bool) returns (step: Step)
    requires Inv(p, panics) && Stopping(p)
    ensures Enabled(p, step, panics)
  {
    match p.phase
    case Sending(k) => step := if k < |p.workers| then SendTerminate else AllSent;
    case Joining(k) =>
      if k == |p.workers| {
        step := Return;
      } else if Live(p.workers[k]) {
        assert p.workers[k] in p.workers;
        EnoughTerminates(p, panics);
        step := SomeoneMoves(p, k, panics);
      } else {
        step := Join;
      }
  }

  ghost predicate CanMove(p: Pool, panics: Job -> bool) {
    exists step :: Enabled(p, step, panics)
  }

  /** No state on the way, the first included, has left `stop`. */
  predicate StaysStopping(p: Pool, steps: seq<Step>, panics: Job -> bool)
    requires Possible(p, steps, panics)
    decreases |steps|
  {
    Stopping(p) && (steps != [] ==> StaysStopping(Take(p, steps[0], panics), steps[1..], panics))
  }

  /**
   Once `stop` has begun it returns, however the threads interleave: no execution
   stays inside it for more than `Measure` steps, and none gets stuck in it.
  */
  lemma {:induction false} StopReturns(p: Pool, steps: seq<Step>, panics: Job -> bool)
    requires Inv(p, panics) && Possible(p, steps, panics) && StaysStopping(p, steps, panics)
    ensures |steps| <= Measure(p)
    ensures CanMove(TakeAll(p, steps, panics), panics)
    decreases |steps|
  {
    hide Inv, Take, Enabled, Measure;
    if steps == [] {
      var step := StopIsNeverStuck(p, panics);
      assert CanMove(p, panics);
    } else {
      StepKeeps(p, steps[0], panics);
      StepsRunOut(p, steps[0], panics);
      StopReturns(Take(p, steps[0], panics), steps[1..], panics);
    }
  }

  // ---------- with as many panics as workers, jobs are lost ----------

  function OnlyFirst(): Job -> bool {
    job => job == 0
  }

  lemma Then(p: Pool, step: Step, rest: seq<Step>, panics: Job -> bool)
    requires Enabled(p, step, panics) && Possible(Take(p, step, panics), rest, panics)
    ensures Possible(p, [step] + rest, panics)
    ensures TakeAll(p, [step] + rest, panics) == TakeAll(Take(p, step, panics), rest, panics)
  {
    hide Enabled, Take;
    assert ([step] + rest)[1..] == rest;
  }

  /** A pool of one worker: while it is open, and once its worker is dead. */
  function Alone(queue: seq<Message>, worker: Worker, accepted: seq<Job>, dequeued: seq<Job>): Pool {
    Pool(queue, [worker], Open, accepted, [], dequeued, [], [])
  }

  function Dead(phase: Phase): Pool {
    Pool([], [Panicked], phase, [0, 1], [], [0], [], [0])
  }

  lemma FirstHalf()
    ensures var f, a, b := OnlyFirst(), NewJob(0), NewJob(1);
      && Fresh(1) == Alone([], AtLock, [], [])
      && Took(Alone([], AtLock, [], []), Submit(0), Alone([a], AtLock, [0], []), f)
      && Took(Alone([a], AtLock, [0], []), Submit(1), Alone([a, b], AtLock, [0, 1], []), f)
      && Took(Alone([a, b], AtLock, [0, 1], []), Acquire(0), Alone([a, b], Receiving, [0, 1], []), f)
      && Took(Alone([a, b], Receiving, [0, 1], []), Receive(0), Alone([b], Running(0), [0, 1], [0]), f)
      && Took(Alone([b], Running(0), [0, 1], [0]), Panic(0), Dead(Open), f)
  {
    assert AtLock in [AtLock];
    assert AnyLive([AtLock]) && !AnyLive([Panicked]);
    assert [NewJob(0), NewJob(1)][1..] == [NewJob(1)];
  }

  lemma SecondHalf()
    ensures var f := OnlyFirst();
      && Took(Dead(Open), BeginStop, Dead(Sending(0)), f)
      && Took(Dead(Sending(0)), SendTerminate, Dead(Sending(1)), f)
      && Took(Dead(Sending(1)), AllSent, Dead(Joining(0)), f)
      && Took(Dead(Joining(0)), Join, Dead(Joining(1)), f)
      && Took(Dead(Joining(1)), Return, Dead(Stopped), f)
  {
    assert !AnyLive([Panicked]);
  }

  predicate Took(p: Pool, step: Step, q: Pool, panics: Job -> bool) {
    Enabled(p, step, panics) && Take(p, step, panics) == q
  }

  /** One worker, a job that panics and a job behind it: the pool stops, and the second job was never run. */
  lemma PanicLosesJob() returns (steps: seq<Step>)
    ensures Possible(Fresh(1), steps, OnlyFirst())
    ensures var p := TakeAll(Fresh(1), steps, OnlyFirst());
      p.phase.Stopped? && p.accepted == [0, 1] && p.dequeued == [0]
  {
    FirstHalf();
    SecondHalf();
    hide Enabled, Take, AnyLive, OnlyFirst, Fresh;
    var f := OnlyFirst();
    steps := [];
    Then(Dead(Joining(1)), Return, steps, f);
    steps := [Return] + steps;
    Then(Dead(Joining(0)), Join, steps, f);
    steps := [Join] + steps;
    Then(Dead(Sending(1)), AllSent, steps, f);
    steps := [AllSent] + steps;
    Then(Dead(Sending(0)), SendTerminate, steps, f);
    steps := [SendTerminate] + steps;
    Then(Dead(Open), BeginStop, steps, f);
    steps := [BeginStop] + steps;
    Then(Alone([NewJob(1)], Running(0), [0, 1], [0]), Panic(0), steps, f);
    steps := [Panic(0)] + steps;
    Then(Alone([NewJob(0), NewJob(1)], Receiving, [0, 1], []), Receive(0), steps, f);
    steps := [Receive(0)] + steps;
    Then(Alone([NewJob(0), NewJob(1)], AtLock, [0, 1], []), Acquire(0), steps, f);
    steps := [Acquire(0)] + steps;
    Then(Alone([NewJob(0)], AtLock, [0], []), Submit(1), steps, f);
    steps := [Submit(1)] + steps;
    Then(Alone([], AtLock, [], []), Submit(0), steps, f);
    steps := [Submit(0)] + steps;
  }
}

/**
 The pool as the program runs it: a shared queue and worker states changed in
 place, and a `stop` whose sends and joins interleave with whatever the scheduler
 lets the workers do.
*/
module WorkerThreads {
  import opened ThreadPool
  import opened PoolShutdown

  /** What the scheduler lets happen: turns of workers before each of the stopper's actions. */
  type Schedule = nat -> seq<nat>

  class WorkerPool {
    /** Which jobs panic. */
    const panics: Job -> bool
    var queue: seq<Message>
    var workers: seq<Worker>
    var phase: Phase
    ghost var accepted: seq<Job>
    ghost var late: seq<Job>
    ghost var dequeued: seq<Job>
    ghost var finished: seq<Job>
    ghost var crashed: seq<Job>

    ghost function View(): Pool
      reads this
    {
      Pool(queue, workers, phase, accepted, late, dequeued, finished, crashed)
    }

    ghost predicate Valid()
      reads this
    {
      Inv(View(), panics)
    }

    constructor (size: nat, panics: Job -> bool)
      requires size > 0
      ensures Valid() && View() == Fresh(size) && this.panics == panics
    {
      this.panics := panics;
      queue, workers, phase := [], Idle(size), Open;
      accepted, late, dequeued, finished, crashed := [], [], [], [], [];
      new;
      FreshInv(size, panics);
    }

    /** A channel none of whose receivers is left refuses the message. */
    method Send(m: Message)
      modifies this`queue
      ensures View() == Sent(old(View()), m)
    {
      if AnyLive(workers) {
        queue := queue + [m];
      }
    }

    /** `ThreadPool::run`. */
    method Run(job: Job)
      requires Valid() && (phase.Open? || phase.Stopped?)
      modifies this
      ensures Valid() && View() == Take(old(View()), Submit(job), panics)
    {
      StepKeeps(View(), Submit(job), panics);
      hide Inv;
      if phase.Open? {
        accepted := accepted + [job];
      } else {
        late := late + [job];
      }
      Send(NewJob(job));
    }

    /** Can worker `w` take its next action now? */
    predicate Ready(w: nat)
      reads this
    {
      w < |workers| &&
      match workers[w]
      case AtLock => Receiving !in workers
      case Receiving => queue != []
      case Running(_) => true
      case _ => false
    }

    /** That action. */
    ghost function Next(w: nat): (step: Step)
      requires Ready(w)
      reads this
      ensures Enabled(View(), step, panics)
    {
      match workers[w]
      case AtLock => Acquire(w)
      case Receiving => Receive(w)
      case Running(job) => if panics(job) then Panic(w) else Finish(w)
    }

    /** One atomic action of the loop in `Worker::new`. */
    method Turn(w: nat)
      requires Valid() && Ready(w)
      modifies this`queue, this`workers, this`dequeued, this`finished, this`crashed
      ensures Valid() && View() == Take(old(View()), old(Next(w)), panics)
    {
      StepKeeps(View(), Next(w), panics);
      hide Inv;
      match workers[w]
      case AtLock => workers := workers[w := Receiving];
      case Receiving =>
        var message := queue[0];
        queue := queue[1..];
        match message {
          case NewJob(job) =>
            workers, dequeued := workers[w := Running(job)], dequeued + [job];
          case Terminate =>
            workers := workers[w := Exited];
            if !AnyLive(workers) {
              queue := [];
            }
        }
      case Running(job) =>
        if panics(job) {
          workers, crashed := workers[w := Panicked], crashed + [job];
          if !AnyLive(workers) {
            queue := [];
          }
        } else {
          workers, finished := workers[w := AtLock], finished + [job];
        }
    }

    /** Nothing the stopper, or a caller of `run`, decides has changed. */
    twostate predicate OnlyWorkersMoved()
      reads this
    {
      phase == old(phase) && accepted == old(accepted) && late == old(late) && |workers| == |old(workers)|
    }

    /** The workers the scheduler picks act, those that can. */
    method Interleave(turns: seq<nat>)
      requires Valid() && Stopping(View())
      modifies this`queue, this`workers, this`dequeued, this`finished, this`crashed
      ensures Valid() && OnlyWorkersMoved() && Measure(View()) <= old(Measure(View()))
    {
      hide Inv, Measure;
      var i := 0;
      while i < |turns|
        invariant 0 <= i <= |turns|
        invariant Valid() && OnlyWorkersMoved() && Measure(View()) <= old(Measure(View()))
      {
        if Ready(turns[i]) {
          StepsRunOut(View(), Next(turns[i]), panics);
          Turn(turns[i]);
        }
        i := i + 1;
      }
    }

    /** Some worker that can act, while one is waited for. */
    method FindReady() returns (w: nat)
      requires Valid() && phase.Joining? && phase.joined < |workers| && Live(workers[phase.joined])
      ensures Ready(w)
    {
      assert workers[phase.joined] in workers;
      EnoughTerminates(View(), panics);
      ghost var step := SomeoneMoves(View(), phase.joined, panics);
      ReadyStep(step);
      hide Inv;
      w := 0;
      while !Ready(w)
        invariant w < |workers|
        invariant exists i: nat :: w <= i < |workers| && Ready(i)
        decreases |workers| - w
      {
        w := w + 1;
      }
    }

    /** The step found above is some worker's. */
    lemma ReadyStep(step: Step)
      requires Enabled(View(), step, panics)
      requires phase.Joining? && phase.joined < |workers| && Live(workers[phase.joined])
      ensures exists i: nat :: i < |workers| && Ready(i)
    {
      match step
      case Acquire(w) => assert Ready(w);
      case Receive(w) => assert Ready(w);
      case Finish(w) => assert Ready(w);
      case Panic(w) => assert Ready(w);
      case _ =>
    }

    method SendOne()
      requires Valid() && phase.Sending? && phase.sent < |workers|
      modifies this`queue, this`phase
      ensures Valid() && View() == Take(old(View()), ThreadPool.SendTerminate, panics)
    {
      hide Inv;
      StepKeeps(View(), ThreadPool.SendTerminate, panics);
      Send(Terminate);
      phase := Sending(phase.sent + 1);
    }

    /** Sends one Terminate per worker, workers acting meanwhile. */
    method SendTerminates(schedule: Schedule)
      requires Valid() && phase == Sending(0)
      modifies this
      ensures Valid() && phase == Joining(0) && accepted == old(accepted) && |workers| == old(|workers|)
    {
      hide Inv, Measure;
      var k := 0;
      while k < |workers|
        invariant 0 <= k <= |workers| == old(|workers|)
        invariant Valid() && phase == Sending(k) && accepted == old(accepted)
      {
        Interleave(schedule(k));
        SendOne();
        k := k + 1;
      }
      StepKeeps(View(), AllSent, panics);
      phase := Joining(0);
    }

    /** `thread.join()`: waits, workers acting meanwhile, until the next thread has ended. */
    method JoinNext(schedule: Schedule)
      requires Valid() && phase.Joining? && phase.joined < |workers|
      modifies this
      ensures Valid() && phase == Joining(old(phase.joined) + 1)
      ensures accepted == old(accepted) && |workers| == old(|workers|)
    {
      hide Inv, Measure;
      var turn := 0;
      while Live(workers[phase.joined])
        invariant Valid() && phase == old(phase) && accepted == old(accepted) && |workers| == old(|workers|)
        decreases Measure(View())
      {
        Interleave(schedule(turn));
        turn := turn + 1;
        if !Live(workers[phase.joined]) {
          break;
        }
        var w := FindReady();
        StepsRunOut(View(), Next(w), panics);
        Turn(w);
      }
      StepKeeps(View(), Join, panics);
      phase := Joining(phase.joined + 1);
    }

    /** `ThreadPool::stop`, also run on `Drop`: it returns under every schedule, with the queue drained. */
    method Stop(schedule: Schedule)
      requires Valid() && (phase.Open? || phase.Stopped?)
      modifies this
      ensures Valid() && phase.Stopped? && accepted == old(accepted)
      ensures dequeued == accepted[..Served(accepted, |workers|, panics)]
      ensures Panics(accepted, panics) < |workers| ==> dequeued == accepted
      ensures multiset(finished) == multiset(Survivors(dequeued, panics))
      ensures forall i | 0 <= i < |workers| :: !Live(workers[i])
    {
      hide Inv;
      StepKeeps(View(), BeginStop, panics);
      phase := Sending(0);
      SendTerminates(schedule);
      var k := 0;
      while k < |workers|
        invariant 0 <= k <= |workers| && Valid() && phase == Joining(k) && accepted == old(accepted)
      {
        JoinNext(schedule);
        k := k + 1;
      }
      StepKeeps(View(), Return, panics);
      phase := Stopped;
      StoppedIsDrained(View(), panics);
      NoneLive(View(), panics);
    }
  }

  lemma NoneLive(p: Pool, panics: Job -> bool)
    requires Inv(p, panics) && p.phase.Stopped?
    ensures forall i | 0 <= i < |p.workers| :: !Live(p.workers[i])
  {
    hide QueueOk, Accounted, EndingsOk, Sum;
  }
}

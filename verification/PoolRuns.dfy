/**
  Whole runs of the thread pool: every job is taken once and in order, one stop job is always there
  to be passed on, and after the shutdown every schedule comes to an end with all workers gone.
 */
module PoolRuns {
  import opened Sequences
  import opened WaitQueue
  import opened ThreadPool

  // ---------------------------------------------------------------- every reachable state

  ghost predicate IsPoolRun(p: Pool, steps: seq<PoolStep>, p': Pool)
    decreases |steps|
  {
    if steps == [] then p == p'
    else CanStep(p, steps[0]) && IsPoolRun(DoStep(p, steps[0]), steps[1..], p')
  }

  lemma {:induction false} PoolInvOverRuns(p: Pool, steps: seq<PoolStep>, p': Pool)
    requires PoolInv(p) && IsPoolRun(p, steps, p')
    ensures PoolInv(p') && |p'.ctl| == |p.ctl|
    decreases |steps|
  {
    if steps != [] {
      PoolInvKept(p, steps[0]);
      PoolInvOverRuns(DoStep(p, steps[0]), steps[1..], p');
    }
  }

  lemma NoTasks()
    ensures Tasks([]) == []
  {
  }

  lemma {:induction false} TasksOfConcat(a: seq<Job>, b: seq<Job>)
    ensures Tasks(a + b) == Tasks(a) + Tasks(b)
  {
    hide Tasks;
    hide Tally;
    if b == [] {
      NoTasks();
      assert a + b == a;
    } else {
      var n := |b| - 1;
      TasksOfConcat(a, b[..n]);
      OneMoreJob(a + b[..n], b[n]);
      OneMoreJob(b[..n], b[n]);
      assert b == b[..n] + [b[n]];
      Assoc(a, b[..n], [b[n]]);
      Assoc(Tasks(a), Tasks(b[..n]), if b[n].Task? then [b[n]] else []);
    }
  }

  lemma {:induction false} TasksCounted(jobs: seq<Job>)
    ensures |Tasks(jobs)| == Tally(jobs, IsTask) && |jobs| == Tally(jobs, IsTask) + Tally(jobs, IsStop)
  {
    if jobs != [] {
      var n := |jobs| - 1;
      TasksCounted(jobs[..n]);
      OneMoreJob(jobs[..n], jobs[n]);
      assert jobs == jobs[..n] + [jobs[n]];
    }
  }

  /**
    In every interleaving jobs are taken in the order in which they were submitted, each by one worker
    and no other.  Those submitted before the shutdown are all taken before any stop job is.  From the
    shutdown on there is one stop job, in the queue or in the hands of a worker.
   */
  lemma TakenInOrder(workers: nat, clients: nat, steps: seq<PoolStep>, p: Pool)
    requires IsPoolRun(Start(workers, clients), steps, p)
    ensures !p.q.underflow
    ensures |p.taken| == |p.q.popped| && Tasks(p.q.popped) <= p.submitted
    ensures forall i :: 0 <= i < |p.taken| ==> p.taken[i].0 < workers && p.taken[i].1 == p.q.popped[i]
    ensures forall i :: 0 <= i < |p.taken| && (p.stopping ==> i < p.inTime) ==>
      i < |p.submitted| && p.taken[i].1 == p.submitted[i]
    ensures p.stopping && |p.taken| > p.inTime ==> p.taken[p.inTime].1 == Stop
    ensures Tally(p.q.queue, IsStop) + Tally(p.ctl, IsHolding) == if p.stopping then 1 else 0
  {
    StartHolds(workers, clients);
    PoolInvOverRuns(Start(workers, clients), steps, p);
    OneStopJob(p);
    PoppedInOrder(p);
  }

  lemma PoppedInOrder(p: Pool)
    requires PoolInv(p)
    ensures !p.q.underflow && |p.taken| == |p.q.popped| && Tasks(p.q.popped) <= p.submitted
    ensures forall i :: 0 <= i < |p.q.popped| && (p.stopping ==> i < p.inTime) ==>
      i < |p.submitted| && p.q.popped[i] == p.submitted[i]
    ensures p.stopping && |p.q.popped| > p.inTime ==> p.q.popped[p.inTime] == Stop
  {
    hide PcsFit;
    hide Accounted;
    hide NoLostWakeup;
    hide Tasks;
    hide Tally;
    TasksOfConcat(p.q.popped, p.q.queue);
    if p.stopping {
      assert forall i :: 0 <= i < p.inTime ==> p.q.enqueued[..p.inTime][i] == p.submitted[..p.inTime][i];
    }
  }

  // ---------------------------------------------------------------- shutting down

  /** The steps of the pool's own making: not those of its callers, nor spurious wakeups. */
  predicate IsInternal(step: PoolStep) {
    !step.Submit? && !step.Shutdown? && !(step.Within? && step.step.WakeUp?)
  }

  /** Jobs not yet taken, and workers that have not met the stop job. */
  ghost function Left(p: Pool): nat
    requires PoolInv(p)
  {
    TallyRelation(p.ctl);
    Tally(p.q.queue, IsTask) + (|p.ctl| - Tally(p.ctl, TookStop))
  }

  function PcWeight(pc: Pc): nat {
    match pc
    case Idle => 1
    case Posting(_) => 4
    case Notifying(_) => 3
    case Counting => 0
    case Sleeping => 0
    case Woken => 1
    case Popping => 0
  }

  function CtlWeight(c: Ctl): nat {
    match c
    case Running => 1
    case Holding => 4
    case _ => 0
  }

  function Weight(p: Pool): nat {
    Tally(p.q.threads, PcWeight) + Tally(p.ctl, CtlWeight)
  }

  function MaxWeight(p: Pool): nat {
    4 * |p.q.threads| + 4 * |p.ctl|
  }

  lemma {:induction false} SumBounded(threads: seq<Pc>)
    ensures Tally(threads, PcWeight) <= 4 * |threads|
  {
    if threads != [] { SumBounded(threads[1..]); }
  }

  lemma {:induction false} TallyBounded(ctl: seq<Ctl>)
    ensures Tally(ctl, CtlWeight) <= 4 * |ctl|
  {
    if ctl != [] { TallyBounded(ctl[1..]); }
  }

  /** Each job taken, the stop job included, leaves less to take. */
  lemma PopLeavesLess(p: Pool, t: nat)
    requires PoolInv(p) && CanStep(p, Within(Pop(t)))
    ensures PoolInv(DoStep(p, Within(Pop(t)))) && Left(DoStep(p, Within(Pop(t)))) == Left(p) - 1
  {
    hide PoolInv;
    PopKeeps(p, t);
    PopReady(p, t);
    TallyOfUpdate(p.ctl, TookStop, t, NextCtl(p, Pop(t)));
  }

  /** What a step that is no pop does to the worker that takes it. */
  lemma WorkerTires(p: Pool, step: PoolStep)
    requires PoolInv(p) && CanStep(p, step) && IsInternal(step) && !(step.Within? && step.step.Pop?)
    ensures |DoStep(p, step).ctl| == |p.ctl|
    ensures Tally(DoStep(p, step).ctl, TookStop) == Tally(p.ctl, TookStop)
    ensures var fall := if step.Finish? then 1 else if step.Return? then 4 else 0;
      Tally(DoStep(p, step).ctl, CtlWeight) == Tally(p.ctl, CtlWeight) - fall
  {
    var t := QueueThread(step);
    assert PcFits(p, t);
    if t < |p.ctl| {
      var c := DoStep(p, step).ctl[t];
      assert DoStep(p, step).ctl == p.ctl[t := c];
      TallyOfUpdate(p.ctl, TookStop, t, c);
      TallyOfUpdate(p.ctl, CtlWeight, t, c);
    }
  }

  /** And to the threads. */
  lemma ThreadTires(p: Pool, step: PoolStep)
    requires PoolInv(p) && CanStep(p, step) && IsInternal(step) && !(step.Within? && step.step.Pop?)
    ensures var rise := if step.Return? then 3 else if step.Finish? then 0 else -1;
      Tally(DoStep(p, step).q.threads, PcWeight) <= Tally(p.q.threads, PcWeight) + rise
  {
    hide PoolInv;
    var t := QueueThread(step);
    FitOf(p, t);
    if step.Within? && step.step.NotifyOne? {
      TallyOfUpdate(p.q.threads, PcWeight, t, Idle);
      TallyOfUpdate(p.q.threads[t := Idle], PcWeight, step.step.wakee, Woken);
    } else if !step.Finish? {
      TallyOfUpdate(p.q.threads, PcWeight, t, DoStep(p, step).q.threads[t]);
    }
  }

  /** Every other step of the pool leaves as much to take, and its threads nearer to rest. */
  lemma OtherStepsTire(p: Pool, step: PoolStep)
    requires PoolInv(p) && CanStep(p, step) && IsInternal(step) && !(step.Within? && step.step.Pop?)
    ensures PoolInv(DoStep(p, step)) && Left(DoStep(p, step)) == Left(p)
    ensures Weight(DoStep(p, step)) < Weight(p)
  {
    hide PoolInv;
    hide CtlWeight;
    hide PcWeight;
    hide TookStop;
    PoolInvKept(p, step);
    WorkerTires(p, step);
    ThreadTires(p, step);
    if step.Return? {
      OneMoreJob(p.q.queue, Stop);
    }
  }

  function Blocks(n: nat, k: nat): nat {
    n * k
  }

  ghost function Rank(p: Pool): nat
    requires PoolInv(p)
  {
    Blocks(Left(p), MaxWeight(p) + 1) + Weight(p)
  }

  lemma OneBlockLess(n: nat, k: nat)
    requires n > 0
    ensures Blocks(n, k) == Blocks(n - 1, k) + k
  {
  }

  lemma WeightBounded(p: Pool)
    ensures Weight(p) <= MaxWeight(p)
  {
    SumBounded(p.q.threads);
    TallyBounded(p.ctl);
  }

  lemma MaxWeightKept(p: Pool, step: PoolStep)
    requires CanStep(p, step)
    ensures MaxWeight(DoStep(p, step)) == MaxWeight(p)
  {
  }

  lemma RankFalls(p: Pool, step: PoolStep)
    requires PoolInv(p) && CanStep(p, step) && IsInternal(step)
    ensures PoolInv(DoStep(p, step)) && Rank(DoStep(p, step)) < Rank(p)
  {
    hide Left;
    hide Weight;
    hide MaxWeight;
    hide PoolInv;
    hide Blocks;
    hide DoStep;
    PoolInvKept(p, step);
    WeightBounded(DoStep(p, step));
    MaxWeightKept(p, step);
    if step.Within? && step.step.Pop? {
      PopLeavesLess(p, step.step.t);
      OneBlockLess(Left(p), MaxWeight(p) + 1);
    } else {
      OtherStepsTire(p, step);
    }
  }

  predicate AllGone(p: Pool) {
    && (forall i :: 0 <= i < |p.ctl| ==> p.ctl[i] == Exited)
    && (forall t :: 0 <= t < |p.q.threads| ==> p.q.threads[t] == Idle)
  }

  predicate IsBusy(p: Pool, t: nat) {
    t < |p.q.threads| && p.q.threads[t] != Sleeping && (p.q.threads[t] != Idle || (t < |p.ctl| && p.ctl[t] != Exited))
  }

  /** A thread that is neither at rest nor asleep can go on. */
  lemma BusyThreadCanStep(p: Pool, t: nat)
    requires PoolInv(p) && IsBusy(p, t)
    ensures exists step :: IsInternal(step) && CanStep(p, step)
  {
    assert PcFits(p, t);
    var pc, step := p.q.threads[t], Finish(t);
    if pc.Posting? {
      step := Within(Post(t));
    } else if pc.Notifying? {
      if w: nat :| w < |p.q.threads| && p.q.threads[w] == Sleeping {
        step := Within(NotifyOne(t, w));
      } else {
        step := Within(NotifyNobody(t));
      }
    } else if pc == Popping {
      step := Within(Pop(t));
    } else if p.ctl[t] == Ready {
      step := Within(Wait(t));
    } else if p.ctl[t] == Holding {
      step := Return(t);
    }
    assert IsInternal(step) && CanStep(p, step);
  }

  /** After the shutdown the pool is never stuck: while a worker is left, some thread can go on. */
  lemma NeverStuck(p: Pool)
    requires PoolInv(p) && p.stopping && !AllGone(p)
    ensures exists step :: IsInternal(step) && CanStep(p, step)
  {
    if t: nat :| IsBusy(p, t) {
      BusyThreadCanStep(p, t);
    } else {
      forall t | 0 <= t < |p.q.threads|
        ensures InFlight(p.q.threads[t]) == 0 && Wakes(p.q.threads[t]) == 0
      {
        assert !IsBusy(p, t);
      }
      TallyOfConstant(p.q.threads, InFlight, 0);
      TallyOfConstant(p.q.threads, Wakes, 0);
      forall i | 0 <= i < |p.ctl|
        ensures IsHolding(p.ctl[i]) == 0 && (p.ctl[i] != Exited ==> p.q.threads[i] == Sleeping)
      {
        assert PcFits(p, i) && !IsBusy(p, i);
      }
      TallyOfConstant(p.ctl, IsHolding, 0);
      if exists i :: 0 <= i < |p.ctl| && p.ctl[i] != Exited {
        assert SomeoneSleeps(p.q.threads);
        assert !NotifyAllPending(p.q.threads) by {
          forall t | 0 <= t < |p.q.threads|
            ensures !p.q.threads[t].Notifying?
          {
            assert !IsBusy(p, t);
          }
        }
        assert p.q.queue == [];
      } else {
        SleepersAreWorkers(p);
        assert false;
      }
      OneStopJob(p);
    }
  }

  lemma SleepersAreWorkers(p: Pool)
    requires PoolInv(p)
    requires forall i :: 0 <= i < |p.ctl| ==> p.ctl[i] == Exited
    requires forall t :: 0 <= t < |p.q.threads| ==> !IsBusy(p, t)
    ensures AllGone(p)
  {
    forall t | 0 <= t < |p.q.threads|
      ensures p.q.threads[t] == Idle
    {
      assert PcFits(p, t) && !IsBusy(p, t);
    }
  }

  ghost predicate IsInternalRun(p: Pool, steps: seq<PoolStep>, p': Pool) {
    IsPoolRun(p, steps, p') && forall i :: 0 <= i < |steps| ==> IsInternal(steps[i])
  }

  lemma {:induction false} InternalRunsEnd(p: Pool, steps: seq<PoolStep>, p': Pool)
    requires PoolInv(p) && IsInternalRun(p, steps, p')
    ensures PoolInv(p') && |steps| <= Rank(p) - Rank(p')
    ensures |p'.ctl| == |p.ctl| && p'.stopping == p.stopping && p'.submitted == p.submitted && p'.inTime == p.inTime
    decreases |steps|
  {
    hide Rank;
    hide PoolInv;
    if steps != [] {
      RankFalls(p, steps[0]);
      assert IsInternal(steps[0]);
      InternalRunsEnd(DoStep(p, steps[0]), steps[1..], p');
    }
  }

  /** A stop job was taken only after all the jobs submitted in time. */
  lemma StopComesLater(p: Pool)
    requires PoolInv(p) && p.stopping && Tally(p.q.popped, IsStop) > 0
    ensures |p.q.popped| > p.inTime
  {
    if |p.q.popped| <= p.inTime {
      forall i | 0 <= i < |p.q.popped|
        ensures IsStop(p.q.popped[i]) == 0
      {
        assert p.q.popped[i] == p.q.enqueued[i] == p.q.enqueued[..p.inTime][i] == p.submitted[..p.inTime][i];
      }
      TallyOfConstant(p.q.popped, IsStop, 0);
    }
  }

  /**
    Once the stop job is pushed, no schedule without spurious wakeups or new jobs is longer than the rank
    of the state it starts in, and one that cannot be continued ends with every worker gone, every job
    submitted in time taken, and one stop job left; what else is left was submitted by jobs that were
    still running.
   */
  lemma ShutdownCompletes(p: Pool, steps: seq<PoolStep>, p': Pool)
    requires PoolInv(p) && p.stopping && |p.ctl| > 0 && IsInternalRun(p, steps, p')
    ensures |steps| <= Rank(p)
    ensures (forall step :: IsInternal(step) ==> !CanStep(p', step)) ==>
      && AllGone(p') && p.submitted[..p.inTime] <= Tasks(p'.q.popped) <= p.submitted
      && Tally(p'.q.queue, IsStop) == 1
      && (p'.q.queue == [Stop] <==> Tasks(p'.q.popped) == p.submitted)
  {
    InternalRunsEnd(p, steps, p');
    if forall step :: IsInternal(step) ==> !CanStep(p', step) {
      if !AllGone(p') {
        NeverStuck(p');
        assert false;
      }
      GoneMeansDone(p');
    }
  }

  lemma GoneMeansDone(p: Pool)
    requires PoolInv(p) && p.stopping && |p.ctl| > 0 && AllGone(p)
    ensures p.inTime <= |p.submitted| && p.submitted[..p.inTime] <= Tasks(p.q.popped) <= p.submitted
    ensures Tally(p.q.queue, IsStop) == 1
    ensures p.q.queue == [Stop] <==> Tasks(p.q.popped) == p.submitted
  {
    hide PcsFit;
    hide Accounted;
    hide NoLostWakeup;
    hide Tasks;
    TallyOfConstant(p.ctl, TookStop, 1);
    TallyOfConstant(p.ctl, IsHolding, 0);
    OneStopJob(p);
    StopComesLater(p);
    TasksOfConcat(p.q.popped, p.q.queue);
    var n := p.inTime;
    assert p.q.popped[..n] == p.q.enqueued[..n];
    assert p.q.popped == p.q.popped[..n] + p.q.popped[n..];
    TasksOfConcat(p.q.popped[..n], p.q.popped[n..]);
    AllAreTasks(p.submitted[..n]);
    TasksCounted(p.q.queue);
    if Tasks(p.q.popped) == p.submitted {
      assert |p.q.queue| == 1;
      assert p.q.queue == [p.q.queue[0]];
    }
  }

  lemma {:induction false} AllAreTasks(jobs: seq<Job>)
    requires forall i :: 0 <= i < |jobs| ==> jobs[i].Task?
    ensures Tasks(jobs) == jobs
  {
    if jobs != [] {
      AllAreTasks(jobs[..|jobs| - 1]);
    }
  }
}

/**
  The thread pool on top of the wait queue: N workers take jobs until they meet the stop job, which
  each of them puts back for the next.  Threads 0 to N-1 are the workers, the others submit jobs.
 */
module ThreadPool {
  import opened Sequences
  import opened WaitQueue

  datatype Job = Task(id: nat) | Stop

  /** What a worker does between and around its queue operations. */
  datatype Ctl = Ready | Running | Holding | Returning | Exited

  /** `submitted` and `taken` are the history; `inTime` of the jobs were submitted before the shutdown. */
  datatype Pool = Pool(
    q: State<Job>,
    ctl: seq<Ctl>,
    submitted: seq<Job>,
    stopping: bool,
    inTime: nat,
    taken: seq<(nat, Job)>)

  datatype PoolStep =
    | Submit(t: nat, id: nat)      // run(): a client, or a job on a worker, pushes a job
    | Shutdown(t: nat)             // ~ThreadPool(): the stop job is pushed; callers stay away from now on
    | Finish(t: nat)               // job.func() returns
    | Return(t: nat)               // a worker pushes the stop job back
    | Within(step: Step<Job>)      // a step inside push or pop

  function Start(workers: nat, clients: nat): Pool {
    Pool(Init<Job>(workers + clients), seq(workers, _ => Ready), [], false, 0, [])
  }

  /** What the step does to the queue; the end of a job does nothing to it. */
  function QueueStep(step: PoolStep): Step<Job>
    requires !step.Finish?
  {
    match step
    case Submit(t, id) => Push(t, Task(id))
    case Shutdown(t) => Push(t, Stop)
    case Return(t) => Push(t, Stop)
    case Within(s) => s
  }

  predicate CanStep(p: Pool, step: PoolStep) {
    var n := |p.ctl|;
    match step
    case Submit(t, _) => (if t < n then p.ctl[t] == Running else !p.stopping) && Enabled(p.q, QueueStep(step))
    case Shutdown(t) => n <= t && !p.stopping && Enabled(p.q, QueueStep(step))
    case Finish(t) => t < n && t < |p.q.threads| && p.ctl[t] == Running && p.q.threads[t] == Idle
    case Return(t) => t < n && p.ctl[t] == Holding && Enabled(p.q, QueueStep(step))
    case Within(s) =>
      && Enabled(p.q, s)
      && !s.Push? && !s.PushQuiet? && !s.NotifyPending?
      && (s.Wait? ==> s.t < n && p.ctl[s.t] == Ready)
  }

  /** The control of the worker that takes this step. */
  function NextCtl(p: Pool, step: Step<Job>): Ctl
    requires step.t < |p.ctl|
  {
    var c := p.ctl[step.t];
    if step.Pop? && p.q.queue != [] then if p.q.queue[0].Stop? then Holding else Running
    else if c == Returning && (step.NotifyOne? || step.NotifyNobody? || step.NotifyAll?) then Exited
    else c
  }

  function DoStep(p: Pool, step: PoolStep): Pool
    requires CanStep(p, step)
  {
    match step
    case Submit(t, id) => p.(q := Apply(p.q, QueueStep(step)), submitted := p.submitted + [Task(id)])
    case Shutdown(t) => p.(q := Apply(p.q, QueueStep(step)), stopping := true, inTime := |p.submitted|)
    case Finish(t) => p.(ctl := p.ctl[t := Ready])
    case Return(t) => p.(q := Apply(p.q, QueueStep(step)), ctl := p.ctl[t := Returning])
    case Within(s) =>
      p.(q := Apply(p.q, s),
         ctl := if s.t < |p.ctl| then p.ctl[s.t := NextCtl(p, s)] else p.ctl,
         taken := if s.Pop? && p.q.queue != [] then p.taken + [(s.t, p.q.queue[0])] else p.taken)
  }

  // ---------------------------------------------------------------- counting workers

  /** The worker has taken the stop job. */
  function TookStop(c: Ctl): nat {
    if c in {Holding, Returning, Exited} then 1 else 0
  }

  /** The worker has put the stop job back. */
  function GaveBack(c: Ctl): nat {
    if c in {Returning, Exited} then 1 else 0
  }

  function IsHolding(c: Ctl): nat {
    if c == Holding then 1 else 0
  }

  lemma {:induction false} TallyRelation(ctl: seq<Ctl>)
    ensures Tally(ctl, TookStop) == Tally(ctl, GaveBack) + Tally(ctl, IsHolding) <= |ctl|
  {
    if ctl != [] { TallyRelation(ctl[1..]); }
  }

  // ---------------------------------------------------------------- the invariant

  function IsTask(j: Job): nat {
    if j.Task? then 1 else 0
  }

  function IsStop(j: Job): nat {
    if j.Stop? then 1 else 0
  }

  /** The jobs proper, in order. */
  function Tasks(jobs: seq<Job>): seq<Job> {
    if jobs == [] then []
    else Tasks(jobs[..|jobs| - 1]) + if jobs[|jobs| - 1].Task? then [jobs[|jobs| - 1]] else []
  }

  lemma OneMoreJob(jobs: seq<Job>, j: Job)
    ensures Tasks(jobs + [j]) == Tasks(jobs) + (if j.Task? then [j] else [])
    ensures Tally(jobs + [j], IsStop) == Tally(jobs, IsStop) + IsStop(j)
    ensures Tally(jobs + [j], IsTask) == Tally(jobs, IsTask) + IsTask(j)
  {
    assert (jobs + [j])[..|jobs|] == jobs;
    TallyOfConcat(jobs, [j], IsStop);
    TallyOfConcat(jobs, [j], IsTask);
    assert [j][1..] == [];
  }

  /** How often the stop job has been pushed. */
  function StopsPushed(p: Pool): nat {
    (if p.stopping then 1 else 0) + Tally(p.ctl, GaveBack)
  }

  /** Each thread's place in its queue operation fits what it is doing. */
  predicate PcFits(p: Pool, t: nat)
    requires t < |p.q.threads|
  {
    var pc := p.q.threads[t];
    if t < |p.ctl| then
      match p.ctl[t]
      case Ready => pc in {Idle, Sleeping, Woken, Popping}
      case Running => pc in {Idle, Posting(1), Notifying(1)}
      case Holding => pc == Idle
      case Returning => pc in {Posting(1), Notifying(1)}
      case Exited => pc == Idle
    else pc in {Idle, Posting(1), Notifying(1)}
  }

  ghost predicate PcsFit(p: Pool) {
    forall t :: 0 <= t < |p.q.threads| ==> PcFits(p, t)
  }

  /** The jobs submitted in time were all pushed before the first stop job. */
  ghost predicate InTimeFirst(p: Pool) {
    if p.stopping then
      && p.inTime <= |p.submitted| && p.inTime < |p.q.enqueued|
      && p.q.enqueued[..p.inTime] == p.submitted[..p.inTime] && p.q.enqueued[p.inTime] == Stop
    else p.q.enqueued == p.submitted && Tally(p.ctl, GaveBack) == 0
  }

  ghost predicate PoolInv(p: Pool) {
    && Inv(p.q) && p.q.pending == 0
    && |p.ctl| <= |p.q.threads|
    && PcsFit(p)
    && (forall i :: 0 <= i < |p.submitted| ==> p.submitted[i].Task?)
    && InTimeFirst(p)
    && Tasks(p.q.enqueued) == p.submitted
    && Tally(p.q.enqueued, IsStop) == StopsPushed(p)
    && Tally(p.q.popped, IsStop) == Tally(p.ctl, TookStop)
    && |p.taken| == |p.q.popped|
    && (forall i :: 0 <= i < |p.taken| ==> p.taken[i].0 < |p.ctl| && p.taken[i].1 == p.q.popped[i])
  }

  lemma StartHolds(workers: nat, clients: nat)
    ensures PoolInv(Start(workers, clients))
  {
    var p := Start(workers, clients);
    InitHolds<Job>(workers + clients);
    TallyOfConstant(p.ctl, TookStop, 0);
    TallyOfConstant(p.ctl, GaveBack, 0);
  }

  // ---------------------------------------------------------------- what every step keeps

  /** One stop job from the shutdown on, in the queue or in the hands of a worker. */
  lemma OneStopJob(p: Pool)
    requires PoolInv(p)
    ensures Tally(p.q.queue, IsStop) + Tally(p.ctl, IsHolding) == if p.stopping then 1 else 0
  {
    TallyRelation(p.ctl);
    TallyOfConcat(p.q.popped, p.q.queue, IsStop);
  }

  /** To the others a step does no more than to wake them. */
  lemma OthersStay(q: State<Job>, s: Step<Job>, t: nat)
    requires Enabled(q, s) && t < |q.threads| && t != s.t
    ensures var q' := Apply(q, s);
      |q'.threads| == |q.threads| &&
      (q'.threads[t] == q.threads[t] || (q.threads[t] == Sleeping && q'.threads[t] == Woken))
  {
  }

  lemma OtherPcFits(p: Pool, step: PoolStep, t: nat)
    requires |p.ctl| <= |p.q.threads| && t < |p.q.threads| && CanStep(p, step) && t != QueueThread(step)
    requires PcFits(p, t)
    ensures PcFits(DoStep(p, step), t)
  {
    hide Apply;
    hide NextCtl;
    if !step.Finish? {
      hide Enabled;
      OthersStay(p.q, QueueStep(step), t);
    }
  }

  /** And it leaves its own thread where the control wants it next. */
  lemma OwnPcFits(p: Pool, s: Step<Job>)
    requires |p.ctl| <= |p.q.threads| && CanStep(p, Within(s)) && (s.Pop? ==> p.q.queue != [])
    requires PcFits(p, s.t)
    ensures PcFits(DoStep(p, Within(s)), s.t)
  {
  }

  lemma StarterPcFits(p: Pool, step: PoolStep)
    requires |p.ctl| <= |p.q.threads| && CanStep(p, step) && !step.Within?
    requires PcFits(p, step.t)
    ensures PcFits(DoStep(p, step), step.t)
  {
  }

  lemma PcsStillFit(p: Pool, step: PoolStep)
    requires |p.ctl| <= |p.q.threads| && PcsFit(p) && CanStep(p, step)
    requires step == Within(Pop(QueueThread(step))) ==> p.q.queue != []
    ensures PcsFit(DoStep(p, step))
  {
    hide PcFits;
    hide CanStep;
    forall t | 0 <= t < |DoStep(p, step).q.threads|
      ensures PcFits(DoStep(p, step), t)
    {
      ThreadsStay(p, step);
      if t != QueueThread(step) {
        OtherPcFits(p, step, t);
      } else if step.Within? {
        OwnPcFits(p, step.step);
      } else {
        StarterPcFits(p, step);
      }
    }
  }

  lemma ThreadsStay(p: Pool, step: PoolStep)
    requires CanStep(p, step)
    ensures |DoStep(p, step).q.threads| == |p.q.threads|
  {
  }

  function QueueThread(step: PoolStep): nat {
    if step.Within? then step.step.t else step.t
  }

  lemma SubmitKeeps(p: Pool, t: nat, id: nat)
    requires PoolInv(p) && CanStep(p, Submit(t, id))
    ensures PoolInv(DoStep(p, Submit(t, id)))
  {
    hide Tasks;
    hide Tally;
    hide PcsFit;
    hide Inv;
    PcsStillFit(p, Submit(t, id));
    InvKept(p.q, Push(t, Task(id)));
    OneMoreJob(p.q.enqueued, Task(id));
    if p.stopping {
      PrefixStays(p.q.enqueued, Task(id), p.inTime);
      PrefixStays(p.submitted, Task(id), p.inTime);
    }
  }

  lemma PrefixStays(jobs: seq<Job>, j: Job, n: nat)
    requires n <= |jobs|
    ensures (jobs + [j])[..n] == jobs[..n]
  {
  }

  lemma ShutdownKeeps(p: Pool, t: nat)
    requires PoolInv(p) && CanStep(p, Shutdown(t))
    ensures PoolInv(DoStep(p, Shutdown(t)))
  {
    hide Tasks;
    hide Tally;
    hide PcsFit;
    hide Inv;
    PcsStillFit(p, Shutdown(t));
    InvKept(p.q, Push(t, Stop));
    OneMoreJob(p.q.enqueued, Stop);
  }

  lemma ReturnKeeps(p: Pool, t: nat)
    requires PoolInv(p) && CanStep(p, Return(t))
    ensures PoolInv(DoStep(p, Return(t)))
  {
    hide Tasks;
    hide Tally;
    hide PcsFit;
    hide Inv;
    PcsStillFit(p, Return(t));
    InvKept(p.q, Push(t, Stop));
    OneStopJob(p);
    TallyOfUpdate(p.ctl, IsHolding, t, Returning);
    TallyOfUpdate(p.ctl, TookStop, t, Returning);
    TallyOfUpdate(p.ctl, GaveBack, t, Returning);
    OneMoreJob(p.q.enqueued, Stop);
    PrefixStays(p.q.enqueued, Stop, p.inTime);
  }

  lemma FinishKeeps(p: Pool, t: nat)
    requires PoolInv(p) && CanStep(p, Finish(t))
    ensures PoolInv(DoStep(p, Finish(t)))
  {
    hide PcsFit;
    hide Inv;
    hide Tasks;
    FitOf(p, t);
    PcsStillFit(p, Finish(t));
    TallyOfUpdate(p.ctl, TookStop, t, Ready);
    TallyOfUpdate(p.ctl, GaveBack, t, Ready);
  }

  lemma FitOf(p: Pool, t: nat)
    requires PoolInv(p) && t < |p.q.threads|
    ensures PcFits(p, t)
  {
  }

  lemma PopReady(p: Pool, t: nat)
    requires PoolInv(p) && CanStep(p, Within(Pop(t)))
    ensures t < |p.ctl| && p.ctl[t] == Ready && p.q.queue != []
  {
    FitOf(p, t);
    PopFindsAnItem(p.q, t);
  }

  lemma PopKeeps(p: Pool, t: nat)
    requires PoolInv(p) && CanStep(p, Within(Pop(t)))
    ensures t < |p.ctl| && PoolInv(DoStep(p, Within(Pop(t))))
  {
    hide PcsFit;
    hide Inv;
    hide Tasks;
    PopReady(p, t);
    InvKept(p.q, Pop(t));
    PcsStillFit(p, Within(Pop(t)));
    OneMoreJob(p.q.popped, p.q.queue[0]);
    var c := NextCtl(p, Pop(t));
    TallyOfUpdate(p.ctl, TookStop, t, c);
    TallyOfUpdate(p.ctl, GaveBack, t, c);
  }

  /** No other step changes who has met the stop job. */
  lemma CtlKept(p: Pool, s: Step<Job>)
    requires PoolInv(p) && CanStep(p, Within(s)) && !s.Pop?
    ensures var ctl := DoStep(p, Within(s)).ctl;
      |ctl| == |p.ctl| && Tally(ctl, TookStop) == Tally(p.ctl, TookStop) && Tally(ctl, GaveBack) == Tally(p.ctl, GaveBack)
  {
    hide Inv;
    FitOf(p, s.t);
    if s.t < |p.ctl| {
      var c := NextCtl(p, s);
      TallyOfUpdate(p.ctl, TookStop, s.t, c);
      TallyOfUpdate(p.ctl, GaveBack, s.t, c);
    }
  }

  lemma OtherKeeps(p: Pool, s: Step<Job>)
    requires PoolInv(p) && CanStep(p, Within(s)) && !s.Pop?
    ensures PoolInv(DoStep(p, Within(s)))
  {
    hide PcsFit;
    hide Inv;
    hide Tasks;
    FitOf(p, s.t);
    PcsStillFit(p, Within(s));
    InvKept(p.q, s);
    CtlKept(p, s);
  }

  lemma PoolInvKept(p: Pool, step: PoolStep)
    requires PoolInv(p) && CanStep(p, step)
    ensures PoolInv(DoStep(p, step)) && |DoStep(p, step).ctl| == |p.ctl|
  {
    match step
    case Submit(t, id) => SubmitKeeps(p, t, id);
    case Shutdown(t) => ShutdownKeeps(p, t);
    case Finish(t) => FinishKeeps(p, t);
    case Return(t) => ReturnKeeps(p, t);
    case Within(s) => if s.Pop? { PopKeeps(p, s.t); } else { OtherKeeps(p, s); }
  }
}

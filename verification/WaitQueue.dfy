/**
  The wait queue and its semaphore as a state machine.  One step is what a thread does while it
  holds a lock, one atomic operation, or one notification; steps of any number of threads interleave
  in any order.
 */
module WaitQueue {
  import opened Sequences

  /** Where a thread is in push, push_quiet, notify_pending or pop. */
  datatype Pc =
    | Idle
    | Posting(num: nat)       // about to add num to the semaphore
    | Notifying(num: nat)     // has added num, about to notify
    | Counting                // has pushed quietly, about to count the deferred notification
    | Sleeping                // waits on the semaphore's condition variable
    | Woken                   // notified, about to look at the semaphore again
    | Popping                 // has taken one from the semaphore, about to take from the queue

  /** `enqueued` and `popped` are the history; `underflow` says that a pop has read an empty queue. */
  datatype State<T> = State(
    queue: seq<T>,
    sem: nat,
    pending: int,
    threads: seq<Pc>,
    enqueued: seq<T>,
    popped: seq<T>,
    underflow: bool)

  datatype Step<T> =
    | Push(t: nat, x: T)          // push, emplace: under the queue lock
    | PushQuiet(t: nat, x: T)     // push_quiet, emplace_quiet: under the queue lock
    | Count(t: nat)               // pending_notifies++
    | NotifyPending(t: nat)       // pending_notifies.exchange(0)
    | Post(t: nat)                // value += num, under the semaphore lock
    | NotifyOne(t: nat, wakee: nat)
    | NotifyNobody(t: nat)        // notify_one with no thread asleep
    | NotifyAll(t: nat)
    | Wait(t: nat)                // look at the semaphore: take one, or go to sleep
    | WakeUp(t: nat)              // a spurious wakeup
    | Pop(t: nat)                 // front and pop_front, under the queue lock

  function Init<T>(threads: nat): State<T> {
    State([], 0, 0, seq(threads, _ => Idle), [], [], false)
  }

  predicate SomeoneSleeps(threads: seq<Pc>) {
    exists i :: 0 <= i < |threads| && threads[i] == Sleeping
  }

  predicate Enabled<T>(s: State<T>, step: Step<T>) {
    && step.t < |s.threads|
    && var pc := s.threads[step.t];
    match step
    case Push(_, _) => pc == Idle
    case PushQuiet(_, _) => pc == Idle
    case Count(_) => pc == Counting
    case NotifyPending(_) => pc == Idle
    case Post(_) => pc.Posting?
    case NotifyOne(_, w) => pc.Notifying? && pc.num <= 1 && w < |s.threads| && s.threads[w] == Sleeping
    case NotifyNobody(_) => pc.Notifying? && pc.num <= 1 && !SomeoneSleeps(s.threads)
    case NotifyAll(_) => pc.Notifying? && pc.num > 1
    case Wait(_) => pc == Idle || pc == Woken
    case WakeUp(_) => pc == Sleeping
    case Pop(_) => pc == Popping
  }

  function WakeAll(threads: seq<Pc>): (woken: seq<Pc>)
    ensures |woken| == |threads|
    ensures forall i :: 0 <= i < |threads| ==> woken[i] == if threads[i] == Sleeping then Woken else threads[i]
  {
    seq(|threads|, i requires 0 <= i < |threads| => if threads[i] == Sleeping then Woken else threads[i])
  }

  function Apply<T>(s: State<T>, step: Step<T>): State<T>
    requires Enabled(s, step)
  {
    var t := step.t;
    match step
    case Push(_, x) =>
      s.(queue := s.queue + [x], enqueued := s.enqueued + [x], threads := s.threads[t := Posting(1)])
    case PushQuiet(_, x) =>
      s.(queue := s.queue + [x], enqueued := s.enqueued + [x], threads := s.threads[t := Counting])
    case Count(_) => s.(pending := s.pending + 1, threads := s.threads[t := Idle])
    case NotifyPending(_) =>
      s.(pending := 0, threads := s.threads[t := Posting(if s.pending < 0 then 0 else s.pending)])
    case Post(_) => s.(sem := s.sem + s.threads[t].num, threads := s.threads[t := Notifying(s.threads[t].num)])
    case NotifyOne(_, w) => s.(threads := s.threads[t := Idle][w := Woken])
    case NotifyNobody(_) => s.(threads := s.threads[t := Idle])
    case NotifyAll(_) => s.(threads := WakeAll(s.threads[t := Idle]))
    case Wait(_) =>
      if s.sem == 0 then s.(threads := s.threads[t := Sleeping])
      else s.(sem := s.sem - 1, threads := s.threads[t := Popping])
    case WakeUp(_) => s.(threads := s.threads[t := Woken])
    case Pop(_) =>
      if s.queue == [] then s.(underflow := true, threads := s.threads[t := Idle])
      else s.(queue := s.queue[1..], popped := s.popped + [s.queue[0]], threads := s.threads[t := Idle])
  }

  /** Nothing but sleep keeps a thread that has begun an operation from going on with it. */
  lemma NoThreadStuck<T>(s: State<T>, t: nat) returns (step: Step<T>)
    requires t < |s.threads| && s.threads[t] != Idle && s.threads[t] != Sleeping
    ensures step.t == t && !step.WakeUp? && Enabled(s, step)
  {
    var pc := s.threads[t];
    if pc.Posting? {
      step := Post(t);
    } else if pc.Notifying? && pc.num > 1 {
      step := NotifyAll(t);
    } else if pc.Notifying? {
      if w: nat :| w < |s.threads| && s.threads[w] == Sleeping {
        step := NotifyOne(t, w);
      } else {
        step := NotifyNobody(t);
      }
    } else if pc.Counting? {
      step := Count(t);
    } else if pc.Popping? {
      step := Pop(t);
    } else {
      step := Wait(t);
    }
  }

  // ---------------------------------------------------------------- what threads are about to do

  /** What a thread owes to or has claimed from the queue, between its two steps. */
  function InFlight(pc: Pc): nat {
    match pc
    case Posting(n) => n
    case Counting => 1
    case Popping => 1
    case _ => 0
  }

  /** Threads on their way to the semaphore: woken ones, and those a notification will still wake. */
  function Wakes(pc: Pc): nat {
    match pc
    case Woken => 1
    case Notifying(n) => if n <= 1 then 1 else 0
    case _ => 0
  }

  predicate NotifyAllPending(threads: seq<Pc>) {
    exists i :: 0 <= i < |threads| && threads[i].Notifying? && threads[i].num > 1
  }

  // ---------------------------------------------------------------- the invariant

  /** Every item in the queue is accounted for exactly once. */
  ghost predicate Accounted<T>(s: State<T>) {
    s.pending >= 0 && |s.queue| == s.sem + s.pending + Tally(s.threads, InFlight)
  }

  /** First in, first out, and no pop ever read an empty queue. */
  ghost predicate Fifo<T>(s: State<T>) {
    s.enqueued == s.popped + s.queue && !s.underflow
  }

  /** While threads sleep, enough others are on their way to use up the semaphore. */
  ghost predicate NoLostWakeup<T>(s: State<T>) {
    SomeoneSleeps(s.threads) ==> NotifyAllPending(s.threads) || s.sem <= Tally(s.threads, Wakes)
  }

  ghost predicate Inv<T>(s: State<T>) {
    Accounted(s) && Fifo(s) && NoLostWakeup(s)
  }

  lemma InitHolds<T>(n: nat)
    ensures Inv(Init<T>(n))
  {
    TallyOfConstant(Init<T>(n).threads, InFlight, 0);
  }

  lemma AccountedKept<T>(s: State<T>, step: Step<T>)
    requires Accounted(s) && Enabled(s, step) && !Apply(s, step).underflow
    ensures Accounted(Apply(s, step))
  {
    if step.NotifyAll? || step.NotifyOne? {
      NotifyingMovesNothing(s, step);
    } else {
      TallyOfUpdate(s.threads, InFlight, step.t, Apply(s, step).threads[step.t]);
    }
  }

  /** Waking threads neither adds to nor takes from what is accounted for. */
  lemma NotifyingMovesNothing<T>(s: State<T>, step: Step<T>)
    requires Enabled(s, step) && (step.NotifyAll? || step.NotifyOne?)
    ensures Tally(Apply(s, step).threads, InFlight) == Tally(s.threads, InFlight)
  {
    var t := step.t;
    TallyOfUpdate(s.threads, InFlight, t, Idle);
    if step.NotifyAll? {
      TallyOfPointwise(s.threads[t := Idle], Apply(s, step).threads, InFlight);
    } else {
      TallyOfUpdate(s.threads[t := Idle], InFlight, step.wakee, Woken);
    }
  }

  /** A thread about to take from the queue finds something in it. */
  lemma PopFindsAnItem<T>(s: State<T>, t: nat)
    requires Accounted(s) && t < |s.threads| && s.threads[t] == Popping
    ensures s.queue != []
  {
    TallyOfUpdate(s.threads, InFlight, t, Idle);
  }

  lemma FifoKept<T>(s: State<T>, step: Step<T>)
    requires Accounted(s) && Fifo(s) && Enabled(s, step)
    ensures Fifo(Apply(s, step))
  {
    if step.Pop? {
      PopFindsAnItem(s, step.t);
      assert s.queue == [s.queue[0]] + s.queue[1..];
    }
  }

  lemma NoLostWakeupKept<T>(s: State<T>, step: Step<T>)
    requires NoLostWakeup(s) && Enabled(s, step)
    ensures NoLostWakeup(Apply(s, step))
  {
    var t, s' := step.t, Apply(s, step);
    if SomeoneSleeps(s'.threads) && s'.sem > 0 {
      assert !step.NotifyAll?;
      var i :| 0 <= i < |s'.threads| && s'.threads[i] == Sleeping;
      assert s.threads[i] == Sleeping;
      if NotifyAllPending(s.threads) {
        var j :| 0 <= j < |s.threads| && s.threads[j].Notifying? && s.threads[j].num > 1;
        assert s'.threads[j] == s.threads[j];
      } else {
        WakesKept(s, step);
      }
    }
  }

  lemma WakesKept<T>(s: State<T>, step: Step<T>)
    requires Enabled(s, step) && !step.NotifyAll? && !step.NotifyNobody? && s.sem <= Tally(s.threads, Wakes)
    requires Apply(s, step).sem > 0
    ensures NotifyAllPending(Apply(s, step).threads) || Apply(s, step).sem <= Tally(Apply(s, step).threads, Wakes)
  {
    var t, s' := step.t, Apply(s, step);
    if step.NotifyOne? {
      TallyOfUpdate(s.threads, Wakes, t, Idle);
      TallyOfUpdate(s.threads[t := Idle], Wakes, step.wakee, Woken);
    } else {
      TallyOfUpdate(s.threads, Wakes, t, s'.threads[t]);
      if step.Post? && s.threads[t].num > 1 {
        assert s'.threads[t].Notifying? && s'.threads[t].num > 1;
      }
    }
  }

  lemma InvKept<T>(s: State<T>, step: Step<T>)
    requires Inv(s) && Enabled(s, step)
    ensures Inv(Apply(s, step))
  {
    FifoKept(s, step);
    AccountedKept(s, step);
    NoLostWakeupKept(s, step);
  }

  // ---------------------------------------------------------------- whole runs

  /** The states a run goes through; a step that is not enabled ends the claim about the run. */
  ghost predicate IsRun<T>(s: State<T>, steps: seq<Step<T>>, s': State<T>)
    decreases |steps|
  {
    if steps == [] then s == s'
    else Enabled(s, steps[0]) && IsRun(Apply(s, steps[0]), steps[1..], s')
  }

  lemma {:induction false} InvOverRuns<T>(s: State<T>, steps: seq<Step<T>>, s': State<T>)
    requires Inv(s) && IsRun(s, steps, s')
    ensures Inv(s') && |s'.threads| == |s.threads|
    decreases |steps|
  {
    if steps != [] {
      InvKept(s, steps[0]);
      InvOverRuns(Apply(s, steps[0]), steps[1..], s');
    }
  }

  /**
    In every interleaving from an empty queue: every item is accounted for by the semaphore, a deferred
    notification or an operation between its two steps; pops never read an empty queue and take items in
    order; and while threads sleep, the semaphore never exceeds the wake-ups made or still to be made.
   */
  lemma SafeInEveryRun<T>(n: nat, steps: seq<Step<T>>, s: State<T>)
    requires IsRun(Init<T>(n), steps, s)
    ensures |s.threads| == n && |s.queue| == s.sem + s.pending + Tally(s.threads, InFlight)
    ensures !s.underflow && s.enqueued == s.popped + s.queue
    ensures SomeoneSleeps(s.threads) ==> NotifyAllPending(s.threads) || s.sem <= Tally(s.threads, Wakes)
    ensures forall t :: 0 <= t < n && s.threads[t] == Popping ==> s.queue != []
    ensures SomeoneSleeps(s.threads) && s.sem > 0 ==>
      exists t :: 0 <= t < n && (s.threads[t] == Woken || s.threads[t].Notifying?)
    ensures (forall t :: 0 <= t < n ==> s.threads[t] == Idle || s.threads[t] == Sleeping) && SomeoneSleeps(s.threads)
      ==> |s.queue| == s.pending
  {
    InitHolds<T>(n);
    InvOverRuns(Init<T>(n), steps, s);
    forall t | 0 <= t < n && s.threads[t] == Popping
      ensures s.queue != []
    {
      PopFindsAnItem(s, t);
    }
    if SomeoneSleeps(s.threads) && s.sem > 0 && !NotifyAllPending(s.threads) {
      if forall t :: 0 <= t < n ==> s.threads[t] != Woken && !s.threads[t].Notifying? {
        TallyOfConstant(s.threads, Wakes, 0);
      }
    }
    if forall t :: 0 <= t < n ==> s.threads[t] == Idle || s.threads[t] == Sleeping {
      TallyOfConstant(s.threads, Wakes, 0);
      TallyOfConstant(s.threads, InFlight, 0);
    }
  }
}

/**
 What the pool's invariant means when the mutex is free: no wakeup is lost, nobody sleeps without
 reason, no task is lost, duplicated or reordered. The one way to be stuck is described exactly:
 every worker is running a task that is asleep in add_task.
 */
module PoolTheorems {
  import opened PoolProtocol
  import opened PoolInvariant

  // ---------------------------------------------------------------- what it means when the mutex is free

  /** Work conservation: while any worker sleeps, as many others are up and idle as tasks are queued. */
  lemma NoLostWakeup(s: Pool)
    requires Inv(s) && s.lock == Free && AnyWaiting(s.workers)
    ensures IdleAwake(s.workers) >= s.queueSize == |s.queue|
  {
    IdleIsActiveOutside(s.workers);
  }

  /** A thread sleeping in add_task means a full queue. */
  lemma SleepingSubmitterMeansFull(s: Pool, i: nat)
    requires Inv(s) && s.lock == Free && i < |s.submitters| && s.submitters[i].SWaiting?
    ensures s.queueSize >= s.maxSize
    ensures s.maxSize >= 0 ==> |s.queue| == s.queueSize == s.maxSize
  {
  }

  /** The failed-dequeue branch of work() is never taken. */
  lemma DequeueNeverFails(s: Pool, w: nat)
    requires Inv(s) && w < |s.workers|
    ensures s.workers[w].WDeq? ==> s.queue != []
    ensures !s.workers[w].WStuck?
  {
  }

  /** In every state of every run the queue is bounded, and tasks leave in the order they came. */
  lemma RunConservesTasks(ss: seq<Pool>, acts: seq<Action>, threadNum: int)
    requires IsRun(ss, acts, threadNum)
    ensures forall n :: 0 <= n < |ss| ==>
              && ss[n].added == ss[n].taken + ss[n].queue
              && (ss[n].lock == Free ==>
                    ss[n].queueSize == |ss[n].queue| && (|ss[n].queue| <= ss[n].maxSize || ss[n].queue == []))
              && (ss[n].maxSize <= 0 ==> ss[n].added == [])
  {
    forall n | 0 <= n < |ss|
      ensures ss[n].added == ss[n].taken + ss[n].queue
      ensures ss[n].lock == Free ==>
                ss[n].queueSize == |ss[n].queue| && (|ss[n].queue| <= ss[n].maxSize || ss[n].queue == [])
      ensures ss[n].maxSize <= 0 ==> ss[n].added == []
    {
      RunInvariant(ss, acts, threadNum, n);
    }
  }

  // ---------------------------------------------------------------- deadlock

  /** The task that worker w is running sleeps in add_task. */
  predicate AsleepInOwnCall(s: Pool, w: nat) {
    && w < |s.workers| && s.workers[w].WRun?
    && w < |s.submitters| && s.submitters[w].SWaiting?
  }

  ghost predicate AllAsleepInOwnCalls(s: Pool) {
    forall w: nat :: w < |s.workers| ==> AsleepInOwnCall(s, w)
  }

  function Sleeping(s: Pool): set<nat> {
    set w: nat | w < |s.workers| && s.workers[w].WWaiting?
  }

  /** Worker w's thread can take a step, in work() or in the add_task of the task it is running. */
  ghost predicate CanRun(s: Pool, w: nat) {
    w < |s.workers| && (Enabled(s, StepWorker(w)) || Enabled(s, StepSubmitter(w, Sleeping(s))))
  }

  /** Something is left for the workers to do: a queued task, or a thread asleep in add_task. */
  ghost predicate WorkLeft(s: Pool) {
    s.queue != [] || (s.maxSize >= 1 && exists i :: 0 <= i < |s.submitters| && s.submitters[i].SWaiting?)
  }

  /** Whatever sleeps or is queued, the queue is not empty. */
  lemma WorkLeftMeansQueued(s: Pool)
    requires Inv(s) && s.lock == Free && WorkLeft(s)
    ensures s.queue != [] && s.queueSize == |s.queue| >= 1
  {
  }

  /**
   No deadlock of the pool's own making: whenever a task is queued or a thread sleeps in add_task,
   some worker that is not in the middle of its own add_task can take a step of work(), if there is
   such a worker at all.
   */
  lemma NoDeadlock(s: Pool) returns (w: nat)
    requires Inv(s) && s.lock == Free && WorkLeft(s)
    requires exists v :: 0 <= v < |s.workers| && !InOwnCall(s, v)
    ensures w < |s.workers| && !InOwnCall(s, w) && Enabled(s, StepWorker(w))
    ensures s.workers[w].WLock? || s.workers[w].WWoken? || s.workers[w].WRun?
    ensures s.queue != []
  {
    WorkLeftMeansQueued(s);
    if AnyWaiting(s.workers) {
      NoLostWakeup(s);
      w := SomeIdleAwake(s.workers);
    } else {
      w :| 0 <= w < |s.workers| && !InOwnCall(s, w);
    }
  }

  /**
   Exactly when the pool is stuck: with something left to do and the mutex free, a worker's thread
   can run if and only if not every worker's task is asleep in its own add_task.
   */
  lemma SomeWorkerCanRunIff(s: Pool)
    requires Inv(s) && s.lock == Free && WorkLeft(s)
    ensures (exists w: nat :: CanRun(s, w)) <==> !AllAsleepInOwnCalls(s)
  {
    if w: nat :| w < |s.workers| && !AsleepInOwnCall(s, w) {
      if v :| 0 <= v < |s.workers| && !InOwnCall(s, v) {
        var u := NoDeadlock(s);
        assert CanRun(s, u);
      } else {
        assert InOwnCall(s, w) && s.workers[w].WRun?;
        assert CanRun(s, w);
      }
    }
    if w: nat :| CanRun(s, w) {
      assert !AsleepInOwnCall(s, w);
    }
  }

  /** A thread in add_task that has not yet entered its task in the queue. */
  predicate BeforeEnqueue(p: Submitter) {
    p.SLock? || p.SCheck? || p.SWaiting? || p.SWoken?
  }

  /** The queue is full and every worker is running a task that has still to find room in it. */
  ghost predicate Deadlocked(s: Pool) {
    && s.queueSize >= s.maxSize
    && forall w :: 0 <= w < |s.workers| ==>
         s.workers[w].WRun? && w < |s.submitters| && BeforeEnqueue(s.submitters[w])
  }

  /** No step of anybody ends a deadlock, and no task moves. */
  lemma DeadlockStays(s: Pool, a: Action)
    requires Inv(s) && Deadlocked(s) && Enabled(s, a)
    ensures Deadlocked(Step(s, a))
    ensures Step(s, a).queue == s.queue && Step(s, a).taken == s.taken && Step(s, a).added == s.added
  {
  }

  /** A deadlock lasts for ever, whatever further calls, signals and spurious wakeups there are. */
  lemma {:induction false} DeadlockIsForever(ss: seq<Pool>, acts: seq<Action>, n: nat)
    requires |ss| == |acts| + 1 && n < |ss| && Inv(ss[0]) && Deadlocked(ss[0])
    requires forall i :: 0 <= i < |acts| ==> IsStep(ss[i], acts[i], ss[i + 1])
    ensures Inv(ss[n]) && Deadlocked(ss[n])
    ensures ss[n].queue == ss[0].queue && ss[n].taken == ss[0].taken && ss[n].added == ss[0].added
  {
    if n > 0 {
      var m := n - 1;
      DeadlockIsForever(ss, acts, m);
      assert IsStep(ss[m], acts[m], ss[m + 1]);
      StepKeepsInv(ss[m], acts[m]);
      DeadlockStays(ss[m], acts[m]);
    }
  }

  /** In a run in which no task calls add_task, no worker is ever in its own add_task. */
  lemma {:induction false} NoTaskSubmits(ss: seq<Pool>, acts: seq<Action>, threadNum: int, n: nat)
    requires IsRun(ss, acts, threadNum) && n < |ss|
    requires forall k :: 0 <= k < |acts| && acts[k].Call? ==> acts[k].i >= |ss[0].workers|
    ensures |ss[n].workers| == |ss[0].workers| >= 1
    ensures forall w: nat :: w < |ss[n].workers| ==> !InOwnCall(ss[n], w)
  {
    if n > 0 {
      var m := n - 1;
      NoTaskSubmits(ss, acts, threadNum, m);
      assert IsStep(ss[m], acts[m], ss[m + 1]);
      ThreadsStay(ss[m], acts[m]);
      IdleCallsStay(ss[m], acts[m], |ss[0].workers|);
    }
  }

  /** A submitter that is idle stays so until it calls. */
  lemma IdleCallsStay(s: Pool, a: Action, k: nat)
    requires Enabled(s, a) && (a.Call? ==> a.i >= k)
    ensures forall w: nat :: w < k && !InOwnCall(s, w) ==> !InOwnCall(Step(s, a), w)
  {
  }
}

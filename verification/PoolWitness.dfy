/**
 A pool of one worker and room for one task deadlocks on a task that submits two: the second
 add_task waits for room that only the worker running it could make.
 */
module PoolWitness {
  import opened PoolProtocol
  import opened PoolInvariant
  import opened PoolTheorems

  ghost predicate Reachable(s: Pool) {
    exists ss: seq<Pool>, acts: seq<Action> :: IsRun(ss, acts, 1) && ss[|acts|] == s
  }

  lemma Go(s: Pool, a: Action) returns (s': Pool)
    requires Reachable(s) && Enabled(s, a)
    ensures Reachable(s') && s' == Step(s, a)
  {
    s' := Step(s, a);
    var ss: seq<Pool>, acts: seq<Action> :| IsRun(ss, acts, 1) && ss[|acts|] == s;
    var zs, as' := ss + [s'], acts + [a];
    forall i | 0 <= i < |as'| ensures IsStep(zs[i], as'[i], zs[i + 1]) {
      if i < |acts| { assert IsStep(ss[i], acts[i], ss[i + 1]); }
    }
    assert IsRun(zs, as', 1) && zs[|as'|] == s';
  }

  /** One worker, room for one task; submitter 0 is the worker's own, submitter 1 a thread outside. */
  function At(size: int, queue: seq<Task>, lock: Owner, worker: Worker, own: Submitter, other: Submitter,
              added: seq<Task>, taken: seq<Task>): Pool {
    Pool(1, size, queue, lock, [worker], [own, other], added, taken)
  }

  const START := At(0, [], Free, WLock, SIdle, SIdle, [], [])

  lemma StartReachable()
    ensures Reachable(START)
  {
    var none: seq<Action> := [];
    assert IsRun([START], none, 1) && [START][|none|] == START;
  }

  /** From the call to the decision that there is room. */
  lemma EnterAddTask(s: Pool, i: nat, task: Task) returns (z: Pool)
    requires Reachable(s) && s.lock == Free && Enabled(s, Call(i, task)) && s.queueSize < s.maxSize
    ensures Reachable(z)
    ensures z == s.(lock := HeldBySubmitter(i), submitters := s.submitters[i := SEnq(task)])
  {
    z := Go(s, Call(i, task));
    z := Go(z, StepSubmitter(i, {}));
    z := Go(z, StepSubmitter(i, {}));
    assert z.submitters == s.submitters[i := SEnq(task)];
  }

  /** From the enqueue to the return, with no worker asleep. */
  lemma LeaveAddTask(s: Pool, i: nat, task: Task) returns (z: Pool)
    requires Reachable(s) && s.lock == HeldBySubmitter(i) && !AnyWaiting(s.workers)
    requires i < |s.submitters| && s.submitters[i] == SEnq(task)
    ensures Reachable(z)
    ensures z == s.(lock := Free, submitters := s.submitters[i := SIdle], queueSize := s.queueSize + 1,
                    queue := s.queue + [task], added := s.added + [task])
  {
    z := Go(s, StepSubmitter(i, {}));
    z := Go(z, StepSubmitter(i, {}));
    z := Go(z, StepSubmitter(i, {}));
    assert Wake(s.workers, {}) == s.workers;
    z := Go(z, StepSubmitter(i, {}));
    assert z.submitters == s.submitters[i := SIdle];
  }

  lemma AddTask(s: Pool, i: nat, task: Task) returns (z: Pool)
    requires Reachable(s) && s.lock == Free && Enabled(s, Call(i, task)) && s.queueSize < s.maxSize
    requires !AnyWaiting(s.workers)
    ensures Reachable(z)
    ensures z == s.(queueSize := s.queueSize + 1, queue := s.queue + [task], added := s.added + [task])
  {
    z := EnterAddTask(s, i, task);
    z := LeaveAddTask(z, i, task);
    assert z.submitters == s.submitters;
  }

  /** The worker takes task A and starts running it. */
  lemma TakeTask(a: Task) returns (z: Pool)
    requires Reachable(At(1, [a], Free, WLock, SIdle, SIdle, [a], []))
    ensures Reachable(z) && z == At(0, [], Free, WRun(a), SIdle, SIdle, [a], [a])
  {
    z := At(1, [a], Free, WLock, SIdle, SIdle, [a], []);
    z := Go(z, StepWorker(0));
    z := Go(z, StepWorker(0));
    z := Go(z, StepWorker(0));
    assert z == At(1, [], HeldByWorker(0), WDec(a), SIdle, SIdle, [a], [a]);
    z := FinishTake(a);
  }

  lemma FinishTake(a: Task) returns (z: Pool)
    requires Reachable(At(1, [], HeldByWorker(0), WDec(a), SIdle, SIdle, [a], [a]))
    ensures Reachable(z) && z == At(0, [], Free, WRun(a), SIdle, SIdle, [a], [a])
  {
    z := Go(At(1, [], HeldByWorker(0), WDec(a), SIdle, SIdle, [a], [a]), StepWorker(0));
    z := Go(z, StepWorker(0));
    assert z == At(0, [], HeldByWorker(0), WUnlock(a), SIdle, SIdle, [a], [a]);
    z := Go(z, StepWorker(0));
  }

  /** The task's add_task finds the queue full and goes to sleep. */
  lemma Wait(a: Task, b: Task, c: Task) returns (z: Pool)
    requires Reachable(At(1, [b], Free, WRun(a), SIdle, SIdle, [a, b], [a]))
    ensures Reachable(z) && z == At(1, [b], Free, WRun(a), SWaiting(c), SIdle, [a, b], [a])
  {
    z := Go(At(1, [b], Free, WRun(a), SIdle, SIdle, [a, b], [a]), Call(0, c));
    z := Go(z, StepSubmitter(0, {}));
    z := Go(z, StepSubmitter(0, {}));
  }

  lemma ReachableInv(s: Pool)
    requires Reachable(s)
    ensures Inv(s)
  {
    var ss: seq<Pool>, acts: seq<Action> :| IsRun(ss, acts, 1) && ss[|acts|] == s;
    RunInvariant(ss, acts, 1, |acts|);
  }

  /** The task has submitted b and sleeps trying to submit c. */
  lemma ReachStuck(a: Task, b: Task, c: Task) returns (z: Pool)
    ensures Reachable(z) && z == At(1, [b], Free, WRun(a), SWaiting(c), SIdle, [a, b], [a])
  {
    StartReachable();
    z := AddTask(START, 1, a);
    assert z == At(1, [a], Free, WLock, SIdle, SIdle, [a], []);
    z := TakeTask(a);
    z := AddTask(z, 0, b);
    assert z == At(1, [b], Free, WRun(a), SIdle, SIdle, [a, b], [a]);
    z := Wait(a, b, c);
  }

  /**
   The deadlock is reached, with a task queued; by DeadlockIsForever nothing ends it, and by
   SomeWorkerCanRunIff no worker's thread can run.
   */
  lemma ResubmittingTaskDeadlocks(a: Task, b: Task, c: Task) returns (z: Pool)
    ensures Reachable(z) && Inv(z) && z.lock == Free && z.queue == [b] && z.taken == [a]
    ensures Deadlocked(z) && AllAsleepInOwnCalls(z) && forall w: nat :: !CanRun(z, w)
  {
    z := ReachStuck(a, b, c);
    ReachableInv(z);
    SomeWorkerCanRunIff(z);
  }
}

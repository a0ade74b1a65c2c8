/**
 Progress of the pool under every schedule. With no new call and no spurious wakeup every step of
 every thread lowers a measure, so every schedule ends; where it ends, either every task has been
 taken and nobody sleeps in add_task, or every worker is asleep in its own add_task.
 */
module PoolSchedules {
  import opened Prelude
  import opened PoolProtocol
  import opened PoolInvariant
  import opened PoolTheorems

  /** A path of threads' own steps: no new call, no spurious wakeup. */
  ghost predicate Path(ss: seq<Pool>, acts: seq<Action>, workersOnly: bool) {
    Linked(ss, acts, OwnSteps(workersOnly))
  }

  ghost function OwnSteps(workersOnly: bool): (Pool, Action, Pool) -> bool {
    (s, a, s') => OwnStep(s, a, s', workersOnly)
  }

  ghost predicate OwnStep(s: Pool, a: Action, s': Pool, workersOnly: bool) {
    IsStep(s, a, s') && (a.StepWorker? || (!workersOnly && a.StepSubmitter?))
  }

  lemma JoinPaths(ss: seq<Pool>, acts: seq<Action>, ss': seq<Pool>, acts': seq<Action>, b: bool)
    requires Path(ss, acts, b) && Path(ss', acts', b) && ss[|acts|] == ss'[0]
    ensures Path(ss + ss'[1..], acts + acts', b)
    ensures (ss + ss'[1..])[0] == ss[0] && (ss + ss'[1..])[|acts + acts'|] == ss'[|acts'|]
  {
    JoinLinked(ss, acts, ss', acts', OwnSteps(b));
  }

  lemma OneStep(s: Pool, w: nat) returns (ss: seq<Pool>, acts: seq<Action>)
    requires Inv(s) && Enabled(s, StepWorker(w))
    ensures Path(ss, acts, true) && ss[0] == s && ss[|acts|] == WorkerStep(s, w) && Inv(WorkerStep(s, w))
  {
    ss, acts := [s, WorkerStep(s, w)], [StepWorker(w)];
    assert OwnStep(s, StepWorker(w), WorkerStep(s, w), true);
    WorkerStepKeepsInv(s, w);
  }

  /** The same submitters are idle. */
  ghost predicate SameOwnCalls(s: Pool, z: Pool) {
    |z.submitters| == |s.submitters| && forall w: nat :: InOwnCall(z, w) <==> InOwnCall(s, w)
  }

  // ---------------------------------------------------------------- the workers alone

  predicate Runnable(w: Worker) { w.WLock? || w.WWoken? || w.WRun? }

  /** How far a worker at w is from having taken a task and released the mutex. */
  function Distance(w: Worker): nat {
    match w
    case WRun(_) => 7
    case WLock => 6
    case WWoken => 6
    case WCheck => 5
    case WDeq => 4
    case WDec(_) => 3
    case WBroadcast(_) => 2
    case WUnlock(_) => 1
    case _ => 8
  }

  /** A worker that has the mutex and a task to give back finishes its turn. */
  lemma {:induction false} FinishTurn(s: Pool, w: nat) returns (ss: seq<Pool>, acts: seq<Action>)
    requires Inv(s) && w < |s.workers|
    requires s.workers[w].WDec? || s.workers[w].WBroadcast? || s.workers[w].WUnlock?
    ensures Path(ss, acts, true) && ss[0] == s
    ensures var z := ss[|acts|];
            && Inv(z) && z.lock == Free && z.workers == s.workers[w := WRun(s.workers[w].task)]
            && z.queue == s.queue && z.taken == s.taken && z.added == s.added && z.maxSize == s.maxSize
            && SameOwnCalls(s, z)
    decreases Distance(s.workers[w])
  {
    ss, acts := OneStep(s, w);
    if !s.workers[w].WUnlock? {
      var ss', acts' := FinishTurn(WorkerStep(s, w), w);
      JoinPaths(ss, acts, ss', acts', true);
      ss, acts := ss + ss'[1..], acts + acts';
      assert ss[|acts|].workers == s.workers[w := WRun(s.workers[w].task)];
    }
  }

  /** A runnable worker whose task is not in add_task, alone, takes the oldest task and gets to run it. */
  lemma {:induction false} TakeOldest(s: Pool, w: nat) returns (ss: seq<Pool>, acts: seq<Action>)
    requires Inv(s) && w < |s.workers| && s.queue != [] && !InOwnCall(s, w)
    requires Runnable(s.workers[w]) || s.workers[w].WCheck? || s.workers[w].WDeq?
    requires Runnable(s.workers[w]) ==> s.lock == Free
    ensures Path(ss, acts, true) && ss[0] == s
    ensures var z := ss[|acts|];
            && Inv(z) && z.lock == Free && z.workers == s.workers[w := WRun(s.queue[0])]
            && z.queue == s.queue[1..] && z.taken == s.taken + [s.queue[0]]
            && z.added == s.added && z.maxSize == s.maxSize && SameOwnCalls(s, z)
    decreases Distance(s.workers[w])
  {
    ss, acts := OneStep(s, w);
    var s' := WorkerStep(s, w);
    var ss', acts';
    if s.workers[w].WDeq? {
      ss', acts' := FinishTurn(s', w);
    } else {
      ss', acts' := TakeOldest(s', w);
    }
    JoinPaths(ss, acts, ss', acts', true);
    ss, acts := ss + ss'[1..], acts + acts';
    assert ss[|acts|].workers == s.workers[w := WRun(s.queue[0])];
  }

  /**
   From any state in which the mutex is free and some worker is not in its own add_task, the workers'
   own steps, with no further signal from outside and no spurious wakeup, reach a state where every
   queued task has been taken in order and nobody is left asleep in add_task.
   */
  lemma {:induction false} WorkersDrainQueue(s: Pool) returns (ss: seq<Pool>, acts: seq<Action>)
    requires Inv(s) && s.lock == Free && exists v :: 0 <= v < |s.workers| && !InOwnCall(s, v)
    ensures Path(ss, acts, true) && ss[0] == s
    ensures var z := ss[|acts|];
            && Inv(z) && z.lock == Free && z.queue == [] && z.taken == s.taken + s.queue
            && z.added == s.added && z.maxSize == s.maxSize
            && (s.maxSize >= 1 ==> forall i :: 0 <= i < |z.submitters| ==> !z.submitters[i].SWaiting?)
    decreases |s.queue|
  {
    if s.queue == [] {
      ss, acts := [s], [];
    } else {
      var w := NoDeadlock(s);
      ss, acts := TakeOldest(s, w);
      assert !InOwnCall(ss[|acts|], w);
      var ss', acts' := WorkersDrainQueue(ss[|acts|]);
      JoinPaths(ss, acts, ss', acts', true);
      assert s.taken + [s.queue[0]] + s.queue[1..] == s.taken + s.queue;
      ss, acts := ss + ss'[1..], acts + acts';
    }
  }

  // ---------------------------------------------------------------- the holder of the mutex

  /** The step of whoever holds the mutex; a signal wakes every sleeping worker. */
  function HolderAction(s: Pool): Action
    requires s.lock != Free
  {
    if s.lock.HeldByWorker? then StepWorker(s.lock.w) else StepSubmitter(s.lock.i, Sleeping(s))
  }

  lemma HolderCanStep(s: Pool)
    requires Inv(s) && s.lock != Free
    ensures Enabled(s, HolderAction(s)) && Inv(Step(s, HolderAction(s)))
  {
    if AnyWaiting(s.workers) {
      var w :| 0 <= w < |s.workers| && s.workers[w].WWaiting?;
      assert w in Sleeping(s);
    }
    StepKeepsInv(s, HolderAction(s));
  }

  /** How many steps at most the holder of the mutex keeps it. */
  function Hold(s: Pool): nat {
    match s.lock
    case Free => 0
    case HeldByWorker(_) => Distance(HolderW(s))
    case HeldBySubmitter(_) =>
      match HolderS(s)
      case SCheck(_) => 5
      case SEnq(_) => 4
      case SInc => 3
      case SSignal => 2
      case _ => 1
  }

  /** The holder of the mutex always gets to release it. */
  lemma {:induction false} HolderReleases(s: Pool) returns (ss: seq<Pool>, acts: seq<Action>)
    requires Inv(s)
    ensures Path(ss, acts, false) && ss[0] == s
    ensures var z := ss[|acts|]; Inv(z) && z.lock == Free && |z.workers| == |s.workers|
    ensures var z := ss[|acts|]; s.added <= z.added && s.taken <= z.taken && z.maxSize == s.maxSize
    decreases Hold(s)
  {
    if s.lock == Free {
      ss, acts := [s], [];
    } else {
      var a := HolderAction(s);
      HolderCanStep(s);
      var s' := Step(s, a);
      HolderGetsCloser(s);
      ss, acts := HolderReleases(s');
      assert OwnStep(s, a, s', false);
      JoinPaths([s, s'], [a], ss, acts, false);
      ss, acts := [s, s'] + ss[1..], [a] + acts;
    }
  }

  lemma HolderGetsCloser(s: Pool)
    requires Inv(s) && s.lock != Free && Enabled(s, HolderAction(s))
    ensures Closer(s, Step(s, HolderAction(s)))
  {
    if s.lock.HeldByWorker? {
      WorkerGetsCloser(s, s.lock.w);
    } else {
      SubmitterGetsCloser(s, s.lock.i, Sleeping(s));
    }
  }

  ghost predicate Closer(s: Pool, s': Pool) {
    && Hold(s') < Hold(s) && |s'.workers| == |s.workers| && s'.maxSize == s.maxSize
    && s.added <= s'.added && s.taken <= s'.taken
  }

  lemma WorkerGetsCloser(s: Pool, w: nat)
    requires Inv(s) && s.lock == HeldByWorker(w) && Enabled(s, StepWorker(w))
    ensures Closer(s, WorkerStep(s, w))
  {
  }

  lemma SubmitterGetsCloser(s: Pool, i: nat, woken: set<nat>)
    requires Inv(s) && s.lock == HeldBySubmitter(i) && Enabled(s, StepSubmitter(i, woken))
    ensures Closer(s, SubmitterStep(s, i, woken))
  {
  }

  // ---------------------------------------------------------------- a measure

  /** What one task in the queue may still cause: being taken, and waking n submitters. */
  function TaskWeight(n: nat): nat { 7 + 2 * n }

  /** With n submitters, at most how many steps a worker at w is from going to sleep. */
  function WorkerWeight(w: Worker, n: nat): nat {
    match w
    case WWaiting => 0
    case WStuck => 0
    case WDeq => 1
    case WCheck => 2
    case WLock => 3
    case WWoken => 3
    case WRun(_) => 4
    case WUnlock(_) => 5
    case WBroadcast(_) => 6 + 2 * n
    case WDec(_) => 7 + 2 * n
  }

  /** With m workers and n submitters, what an add_task at p may still cause. */
  function SubmitterWeight(p: Submitter, m: nat, n: nat): nat {
    match p
    case SIdle => 0
    case SUnlock => 1
    case SSignal => 2 + 3 * m
    case SInc => 3 + 3 * m
    case SEnq(_) => 4 + 3 * m + TaskWeight(n)
    case SWaiting(_) => 4 + 3 * m + TaskWeight(n)
    case SCheck(_) => 5 + 3 * m + TaskWeight(n)
    case SWoken(_) => 6 + 3 * m + TaskWeight(n)
    case SLock(_) => 6 + 3 * m + TaskWeight(n)
  }

  function WorkersWeight(ws: seq<Worker>, n: nat): nat {
    if ws == [] then 0 else WorkerWeight(ws[0], n) + WorkersWeight(ws[1..], n)
  }

  function SubmittersWeight(ss: seq<Submitter>, m: nat, n: nat): nat {
    if ss == [] then 0 else SubmitterWeight(ss[0], m, n) + SubmittersWeight(ss[1..], m, n)
  }

  function QueueWeight(q: nat, n: nat): nat {
    if q == 0 then 0 else TaskWeight(n) + QueueWeight(q - 1, n)
  }

  function Measure(s: Pool): nat {
    var m, n := |s.workers|, |s.submitters|;
    WorkersWeight(s.workers, n) + SubmittersWeight(s.submitters, m, n) + QueueWeight(|s.queue|, n)
  }

  lemma {:induction false} WorkersWeightUpdate(ws: seq<Worker>, n: nat, w: nat, p: Worker)
    requires w < |ws|
    ensures WorkersWeight(ws[w := p], n) + WorkerWeight(ws[w], n) == WorkersWeight(ws, n) + WorkerWeight(p, n)
  {
    if w == 0 {
      assert ws[w := p][1..] == ws[1..];
    } else {
      WorkersWeightUpdate(ws[1..], n, w - 1, p);
      assert ws[w := p][1..] == ws[1..][w - 1 := p];
    }
  }

  lemma {:induction false} SubmittersWeightUpdate(ss: seq<Submitter>, m: nat, n: nat, i: nat, p: Submitter)
    requires i < |ss|
    ensures SubmittersWeight(ss[i := p], m, n) + SubmitterWeight(ss[i], m, n)
            == SubmittersWeight(ss, m, n) + SubmitterWeight(p, m, n)
  {
    if i == 0 {
      assert ss[i := p][1..] == ss[1..];
    } else {
      SubmittersWeightUpdate(ss[1..], m, n, i - 1, p);
      assert ss[i := p][1..] == ss[1..][i - 1 := p];
    }
  }

  /** A signal costs at most 3 for each worker. */
  lemma {:induction false} WakeWeight(ws: seq<Worker>, n: nat, woken: set<nat>)
    ensures WorkersWeight(Wake(ws, woken), n) <= WorkersWeight(ws, n) + 3 * |ws|
  {
    if ws != [] {
      var rest := set w | w in woken && w > 0 :: w - 1;
      WakeWeight(ws[1..], n, rest);
      assert Wake(ws, woken)[1..] == Wake(ws[1..], rest) by {
        forall i | 0 <= i < |ws| - 1 ensures Wake(ws, woken)[1..][i] == Wake(ws[1..], rest)[i] {
          assert i + 1 in woken <==> i in rest;
        }
      }
    }
  }

  /** A broadcast costs 2 for each submitter at most. */
  lemma {:induction false} WakeAllWeight(ss: seq<Submitter>, m: nat, n: nat)
    ensures SubmittersWeight(WakeAll(ss), m, n) <= SubmittersWeight(ss, m, n) + 2 * |ss|
  {
    if ss != [] {
      WakeAllWeight(ss[1..], m, n);
      assert WakeAll(ss)[1..] == WakeAll(ss[1..]);
    }
  }

  /** Steps that change neither the queue nor a submitter. */
  lemma PlainStepLowers(s: Pool, w: nat, s': Pool, p: Worker)
    requires w < |s.workers| && s'.workers == s.workers[w := p]
    requires s'.submitters == s.submitters && |s'.queue| == |s.queue|
    requires WorkerWeight(p, |s.submitters|) < WorkerWeight(s.workers[w], |s.submitters|)
    ensures Measure(s') < Measure(s)
  {
    WorkersWeightUpdate(s.workers, |s.submitters|, w, p);
  }

  lemma DequeueLowers(s: Pool, w: nat)
    requires Inv(s) && Enabled(s, StepWorker(w)) && s.workers[w].WDeq?
    ensures Measure(WorkerStep(s, w)) < Measure(s)
  {
    WorkersWeightUpdate(s.workers, |s.submitters|, w, WorkerStep(s, w).workers[w]);
  }

  lemma BroadcastLowers(s: Pool, w: nat)
    requires Inv(s) && Enabled(s, StepWorker(w)) && s.workers[w].WBroadcast?
    ensures Measure(WorkerStep(s, w)) < Measure(s)
  {
    WorkersWeightUpdate(s.workers, |s.submitters|, w, WorkerStep(s, w).workers[w]);
    WakeAllWeight(s.submitters, |s.workers|, |s.submitters|);
  }

  lemma WorkerStepLowers(s: Pool, w: nat)
    requires Inv(s) && Enabled(s, StepWorker(w))
    ensures Measure(WorkerStep(s, w)) < Measure(s)
  {
    match s.workers[w]
    case WDeq => DequeueLowers(s, w);
    case WBroadcast(_) => BroadcastLowers(s, w);
    case WWaiting => assert false;
    case WStuck => assert false;
    case _ => PlainStepLowers(s, w, WorkerStep(s, w), WorkerStep(s, w).workers[w]);
  }

  lemma SignalLowers(s: Pool, i: nat, woken: set<nat>)
    requires Inv(s) && Enabled(s, StepSubmitter(i, woken)) && s.submitters[i].SSignal?
    ensures Measure(SubmitterStep(s, i, woken)) < Measure(s)
  {
    SubmittersWeightUpdate(s.submitters, |s.workers|, |s.submitters|, i, SUnlock);
    WakeWeight(s.workers, |s.submitters|, woken);
  }

  lemma SubmitterStepLowers(s: Pool, i: nat, woken: set<nat>)
    requires Inv(s) && Enabled(s, StepSubmitter(i, woken))
    ensures Measure(SubmitterStep(s, i, woken)) < Measure(s)
  {
    if s.submitters[i].SSignal? {
      SignalLowers(s, i, woken);
    } else {
      SubmittersWeightUpdate(s.submitters, |s.workers|, |s.submitters|, i, SubmitterStep(s, i, woken).submitters[i]);
    }
  }

  /** Every step that is neither a new call nor a spurious wakeup lowers the measure. */
  lemma OwnStepLowers(s: Pool, a: Action, s': Pool)
    requires Inv(s) && OwnStep(s, a, s', false)
    ensures Inv(s') && Measure(s') < Measure(s)
    ensures |s'.workers| == |s.workers| && s'.maxSize == s.maxSize
    ensures forall w: nat :: !InOwnCall(s, w) ==> !InOwnCall(s', w)
  {
    StepKeepsInv(s, a);
    ThreadsStay(s, a);
    IdleCallsStay(s, a, |s.submitters|);
    if a.StepWorker? { WorkerStepLowers(s, a.w); } else { SubmitterStepLowers(s, a.i, a.woken); }
  }

  // ---------------------------------------------------------------- every schedule

  /** No thread can take a step of its own. */
  ghost predicate Terminal(s: Pool) {
    && (forall w: nat :: !Enabled(s, StepWorker(w)))
    && (forall i: nat, woken: set<nat> :: !Enabled(s, StepSubmitter(i, woken)))
  }

  /** Every task ever added has been taken, and with room for a task nobody sleeps in add_task. */
  ghost predicate Drained(s: Pool) {
    && s.lock == Free && s.queue == [] && s.taken == s.added
    && (s.maxSize >= 1 ==> forall i :: 0 <= i < |s.submitters| ==> !s.submitters[i].SWaiting?)
  }

  lemma AllAsleepMeansDeadlocked(s: Pool)
    requires Inv(s) && s.lock == Free && |s.workers| >= 1 && AllAsleepInOwnCalls(s)
    ensures Deadlocked(s)
  {
    assert AsleepInOwnCall(s, 0);
    forall w | 0 <= w < |s.workers|
      ensures s.workers[w].WRun? && w < |s.submitters| && BeforeEnqueue(s.submitters[w])
    {
      assert AsleepInOwnCall(s, w);
    }
  }

  /** Where no thread can move, the pool is drained, or every worker is asleep in its own call. */
  lemma TerminalMeans(s: Pool)
    requires Inv(s) && Terminal(s)
    ensures s.lock == Free && (Drained(s) || AllAsleepInOwnCalls(s))
  {
    if s.lock != Free {
      HolderCanStep(s);
    }
    if WorkLeft(s) {
      SomeWorkerCanRunIff(s);
    }
  }

  lemma {:induction false} MeasureBoundsPath(ss: seq<Pool>, acts: seq<Action>, n: nat)
    requires Path(ss, acts, false) && Inv(ss[0]) && n <= |acts|
    ensures Inv(ss[n]) && n + Measure(ss[n]) <= Measure(ss[0])
    ensures |ss[n].workers| == |ss[0].workers| && ss[n].maxSize == ss[0].maxSize
    ensures forall w: nat :: !InOwnCall(ss[0], w) ==> !InOwnCall(ss[n], w)
  {
    if n > 0 {
      var m := n - 1;
      MeasureBoundsPath(ss, acts, m);
      assert OwnStep(ss[m], acts[m], ss[m + 1], false);
      OwnStepLowers(ss[m], acts[m], ss[m + 1]);
    }
  }

  /**
   Every schedule of the threads' own steps, fair or not: it is no longer than the measure of the
   state it starts from, and where it cannot be continued the pool is drained or deadlocked. It is
   drained if at the start some worker was not in its own add_task.
   */
  lemma EveryScheduleDrains(ss: seq<Pool>, acts: seq<Action>)
    requires Path(ss, acts, false) && Inv(ss[0]) && |ss[0].workers| >= 1
    ensures |acts| <= Measure(ss[0])
    ensures var z := ss[|acts|]; Terminal(z) ==> Drained(z) || Deadlocked(z)
    ensures var z := ss[|acts|];
            Terminal(z) && (exists w: nat :: w < |z.workers| && !InOwnCall(ss[0], w)) ==> Drained(z)
  {
    MeasureBoundsPath(ss, acts, |acts|);
    var z := ss[|acts|];
    if Terminal(z) {
      TerminalMeans(z);
      if AllAsleepInOwnCalls(z) {
        AllAsleepMeansDeadlocked(z);
        forall w: nat | w < |z.workers| ensures InOwnCall(ss[0], w) {
          assert AsleepInOwnCall(z, w);
        }
      }
    }
  }

  /** A schedule that goes on as long as it can. */
  lemma {:induction false} SomeSchedule(s: Pool) returns (ss: seq<Pool>, acts: seq<Action>)
    requires Inv(s)
    ensures Path(ss, acts, false) && ss[0] == s && Terminal(ss[|acts|])
    decreases Measure(s)
  {
    if Terminal(s) {
      ss, acts := [s], [];
    } else {
      var a := SomeOwnStep(s);
      var s' := Step(s, a);
      OwnStepLowers(s, a, s');
      ss, acts := SomeSchedule(s');
      JoinPaths([s, s'], [a], ss, acts, false);
      ss, acts := [s, s'] + ss[1..], [a] + acts;
    }
  }

  lemma SomeOwnStep(s: Pool) returns (a: Action)
    requires !Terminal(s)
    ensures Enabled(s, a) && OwnStep(s, a, Step(s, a), false)
  {
    if w: nat :| Enabled(s, StepWorker(w)) {
      a := StepWorker(w);
    } else {
      var i: nat, woken: set<nat> :| Enabled(s, StepSubmitter(i, woken));
      a := StepSubmitter(i, woken);
    }
  }

  /**
   In any state of any run in which some worker is not in its own add_task, the pool gets drained;
   in particular always when tasks do not call add_task.
   */
  lemma EveryTaskCanBeTaken(all: seq<Pool>, allActs: seq<Action>, threadNum: int, n: nat)
      returns (ss: seq<Pool>, acts: seq<Action>)
    requires IsRun(all, allActs, threadNum) && n < |all|
    requires exists w: nat :: w < |all[n].workers| && !InOwnCall(all[n], w)
    ensures Path(ss, acts, false) && ss[0] == all[n] && Terminal(ss[|acts|]) && Drained(ss[|acts|])
  {
    RunInvariant(all, allActs, threadNum, n);
    ss, acts := SomeSchedule(all[n]);
    MeasureBoundsPath(ss, acts, |acts|);
    EveryScheduleDrains(ss, acts);
  }

  // ---------------------------------------------------------------- exactly when it can be drained

  /** A worker's own add_task that finds the mutex free and room in the queue runs to its end. */
  lemma {:induction false} FinishAddTask(s: Pool, i: nat) returns (ss: seq<Pool>, acts: seq<Action>)
    requires Inv(s) && i < |s.submitters|
    requires !s.submitters[i].SIdle? && !s.submitters[i].SWaiting?
    requires s.submitters[i].SLock? || s.submitters[i].SWoken? ==> s.lock == Free
    requires BeforeEnqueue(s.submitters[i]) ==> s.queueSize < s.maxSize
    ensures Path(ss, acts, false) && ss[0] == s
    ensures Inv(ss[|acts|]) && !InOwnCall(ss[|acts|], i)
    decreases Measure(s)
  {
    var a := StepSubmitter(i, Sleeping(s));
    assert AnyWaiting(s.workers) ==> Sleeping(s) != {} by {
      if w :| 0 <= w < |s.workers| && s.workers[w].WWaiting? { assert w in Sleeping(s); }
    }
    var s' := Step(s, a);
    assert OwnStep(s, a, s', false);
    OwnStepLowers(s, a, s');
    ss, acts := [s, s'], [a];
    if !s'.submitters[i].SIdle? {
      var ss', acts' := FinishAddTask(s', i);
      JoinPaths(ss, acts, ss', acts', false);
      ss, acts := ss + ss'[1..], acts + acts';
    }
  }

  /** There is a way to drain the pool. */
  ghost predicate CanDrain(s: Pool) {
    exists ss: seq<Pool>, acts: seq<Action> :: Path(ss, acts, false) && ss[0] == s && Drained(ss[|acts|])
  }

  /**
   With room for a task and the mutex free, the pool can be drained without further calls if and
   only if it is not deadlocked.
   */
  lemma CanDrainIffNotDeadlocked(s: Pool)
    requires Inv(s) && s.lock == Free && |s.workers| >= 1 && s.maxSize >= 1
    ensures CanDrain(s) <==> !Deadlocked(s)
  {
    if Deadlocked(s) {
      NoWayOut(s);
    } else if w: nat :| w < |s.workers| && !InOwnCall(s, w) {
      var ss, acts := SomeSchedule(s);
      MeasureBoundsPath(ss, acts, |acts|);
      EveryScheduleDrains(ss, acts);
    } else {
      WayOutOfOwnCalls(s);
    }
  }

  lemma NoWayOut(s: Pool)
    requires Inv(s) && s.lock == Free && s.maxSize >= 1 && Deadlocked(s)
    ensures !CanDrain(s)
  {
    forall ss: seq<Pool>, acts: seq<Action> | Path(ss, acts, false) && ss[0] == s
      ensures !Drained(ss[|acts|])
    {
      forall i | 0 <= i < |acts| ensures IsStep(ss[i], acts[i], ss[i + 1]) {
        assert OwnStep(ss[i], acts[i], ss[i + 1], false);
      }
      DeadlockIsForever(ss, acts, |acts|);
    }
  }

  /** Every worker is in its own add_task, but there is room: one of them gets through. */
  lemma WayOutOfOwnCalls(s: Pool)
    requires Inv(s) && s.lock == Free && |s.workers| >= 1 && s.maxSize >= 1 && !Deadlocked(s)
    requires forall w: nat :: w < |s.workers| ==> InOwnCall(s, w)
    ensures CanDrain(s)
  {
    assert InOwnCall(s, 0) && s.workers[0].WRun?;
    assert s.queueSize < s.maxSize by {
      forall w | 0 <= w < |s.workers|
        ensures s.workers[w].WRun? && BeforeEnqueue(s.submitters[w])
      {
        assert InOwnCall(s, w);
      }
    }
    var ss, acts := FinishAddTask(s, 0);
    var z := ss[|acts|];
    MeasureBoundsPath(ss, acts, |acts|);
    var ss', acts' := SomeSchedule(z);
    MeasureBoundsPath(ss', acts', |acts'|);
    assert 0 < |z.workers| && !InOwnCall(z, 0);
    EveryScheduleDrains(ss', acts');
    JoinPaths(ss, acts, ss', acts', false);
    assert Path(ss + ss'[1..], acts + acts', false);
  }
}

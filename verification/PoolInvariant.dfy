/** The pool's counting invariant, kept by every step of every thread. */
module PoolInvariant {
  import opened PoolProtocol

  // ---------------------------------------------------------------- counting

  /** Awake and not carrying a task: on its way to look at the queue, or already looking. */
  predicate Active(w: Worker) {
    w.WLock? || w.WWoken? || w.WCheck? || w.WDeq? || w.WDec?
  }

  function ActiveCount(ws: seq<Worker>): nat {
    if ws == [] then 0 else (if Active(ws[0]) then 1 else 0) + ActiveCount(ws[1..])
  }

  /** Awake, not carrying a task and not inside the critical section. */
  function IdleAwake(ws: seq<Worker>): nat {
    if ws == [] then 0 else (if ws[0].WLock? || ws[0].WWoken? then 1 else 0) + IdleAwake(ws[1..])
  }

  lemma {:induction false} ActiveCountUpdate(ws: seq<Worker>, w: nat, p: Worker)
    requires w < |ws|
    ensures ActiveCount(ws[w := p]) + (if Active(ws[w]) then 1 else 0)
            == ActiveCount(ws) + (if Active(p) then 1 else 0)
  {
    if w == 0 {
      assert ws[w := p][1..] == ws[1..];
    } else {
      ActiveCountUpdate(ws[1..], w - 1, p);
      assert ws[w := p][1..] == ws[1..][w - 1 := p];
    }
  }

  lemma {:induction false} ActiveCountWake(ws: seq<Worker>, woken: set<nat>)
    ensures ActiveCount(Wake(ws, woken)) >= ActiveCount(ws)
    ensures (exists w :: 0 <= w < |ws| && w in woken && ws[w].WWaiting?) ==>
              ActiveCount(Wake(ws, woken)) > ActiveCount(ws)
  {
    if ws != [] {
      var rest := set w | w in woken && w > 0 :: w - 1;
      ActiveCountWake(ws[1..], rest);
      assert Wake(ws, woken)[1..] == Wake(ws[1..], rest) by {
        forall i | 0 <= i < |ws| - 1 ensures Wake(ws, woken)[1..][i] == Wake(ws[1..], rest)[i] {
          assert i + 1 in woken <==> i in rest;
        }
      }
      if w :| 0 <= w < |ws| && w in woken && ws[w].WWaiting? {
        if w > 0 {
          assert w - 1 in rest && ws[1..][w - 1].WWaiting?;
        }
      }
    }
  }

  lemma {:induction false} IdleIsActiveOutside(ws: seq<Worker>)
    requires forall w :: 0 <= w < |ws| ==> !Inside(ws[w])
    ensures IdleAwake(ws) == ActiveCount(ws)
  {
    if ws != [] {
      assert forall w :: 0 <= w < |ws| - 1 ==> ws[1..][w] == ws[w + 1];
      IdleIsActiveOutside(ws[1..]);
    }
  }

  lemma {:induction false} SomeIdleAwake(ws: seq<Worker>) returns (w: nat)
    requires IdleAwake(ws) > 0
    ensures w < |ws| && (ws[w].WLock? || ws[w].WWoken?)
  {
    if ws[0].WLock? || ws[0].WWoken? {
      w := 0;
    } else {
      w := SomeIdleAwake(ws[1..]);
      w := w + 1;
    }
  }

  // ---------------------------------------------------------------- the invariant

  ghost predicate LockOk(s: Pool) {
    && (forall w :: 0 <= w < |s.workers| ==> (Inside(s.workers[w]) <==> s.lock == HeldByWorker(w)))
    && (forall i :: 0 <= i < |s.submitters| ==> (InsideSub(s.submitters[i]) <==> s.lock == HeldBySubmitter(i)))
    && (s.lock.HeldByWorker? ==> s.lock.w < |s.workers|)
    && (s.lock.HeldBySubmitter? ==> s.lock.i < |s.submitters|)
  }

  /** The program point of the worker holding the mutex; WLock if none does. */
  function HolderW(s: Pool): Worker {
    if s.lock.HeldByWorker? && s.lock.w < |s.workers| then s.workers[s.lock.w] else WLock
  }

  /** The program point of the submitter holding the mutex; SIdle if none does. */
  function HolderS(s: Pool): Submitter {
    if s.lock.HeldBySubmitter? && s.lock.i < |s.submitters| then s.submitters[s.lock.i] else SIdle
  }

  /** queue_size is the queue's length, except between a queue operation and its counter update. */
  ghost predicate SizeOk(s: Pool) {
    && |s.queue| == s.queueSize + (if HolderS(s).SInc? then 1 else 0)
                                - (if HolderW(s).WDec? then 1 else 0)
    && 0 <= s.queueSize && (s.queueSize <= s.maxSize || s.queueSize == 0)
    && ((HolderS(s).SEnq? || HolderS(s).SInc?) ==> s.queueSize < s.maxSize)
    && ((HolderW(s).WDeq? || HolderW(s).WDec?) ==> s.queueSize > 0)
    && !HolderW(s).WStuck?
  }

  /** No lost wakeup: while a worker sleeps, enough others are up to take every queued task. */
  ghost predicate WakeOk(s: Pool) {
    AnyWaiting(s.workers) ==>
      ActiveCount(s.workers) + (if HolderS(s).SSignal? then 1 else 0) >= s.queueSize
  }

  /** A submitter sleeps only while the queue is full, or while a broadcast is on its way. */
  ghost predicate FullOk(s: Pool) {
    (exists i :: 0 <= i < |s.submitters| && s.submitters[i].SWaiting?) ==>
      s.queueSize >= s.maxSize || HolderW(s).WBroadcast?
  }

  ghost predicate Conserved(s: Pool) {
    s.added == s.taken + s.queue && (s.maxSize <= 0 ==> s.added == [])
  }

  /** Only the task a worker is running can be inside that worker's own add_task. */
  ghost predicate OwnCallsOk(s: Pool) {
    |s.workers| <= |s.submitters| && forall w :: 0 <= w < |s.workers| && InOwnCall(s, w) ==> s.workers[w].WRun?
  }

  ghost predicate Inv(s: Pool) {
    LockOk(s) && SizeOk(s) && WakeOk(s) && FullOk(s) && Conserved(s) && OwnCallsOk(s)
  }

  lemma InitInv(s: Pool, threadNum: int)
    requires Init(s, threadNum)
    ensures Inv(s)
  {
  }

  // ---------------------------------------------------------------- a worker's step

  lemma WorkerStepKeepsLock(s: Pool, w: nat)
    requires Inv(s) && Enabled(s, StepWorker(w))
    ensures LockOk(WorkerStep(s, w))
  {
  }

  lemma WorkerStepKeepsTasks(s: Pool, w: nat)
    requires Inv(s) && Enabled(s, StepWorker(w))
    ensures Conserved(WorkerStep(s, w))
  {
    if s.workers[w].WDeq? {
      assert s.taken + s.queue == s.taken + [s.queue[0]] + s.queue[1..];
    }
  }

  lemma WorkerStepKeepsOwnCalls(s: Pool, w: nat)
    requires Inv(s) && Enabled(s, StepWorker(w))
    ensures OwnCallsOk(WorkerStep(s, w))
  {
  }

  /** A worker that holds the mutex. */
  lemma InsideStepKeepsSize(s: Pool, w: nat)
    requires LockOk(s) && SizeOk(s) && Enabled(s, StepWorker(w)) && Inside(s.workers[w])
    ensures SizeOk(WorkerStep(s, w))
  {
    assert s.lock == HeldByWorker(w);
    assert HolderW(s) == s.workers[w] && HolderS(s) == SIdle;
  }

  /** A worker that does not. */
  lemma OutsideStepKeepsSize(s: Pool, w: nat)
    requires LockOk(s) && SizeOk(s) && Enabled(s, StepWorker(w)) && !Inside(s.workers[w])
    ensures SizeOk(WorkerStep(s, w))
  {
    assert s.lock != HeldByWorker(w);
  }

  lemma WorkerStepKeepsSize(s: Pool, w: nat)
    requires Inv(s) && Enabled(s, StepWorker(w))
    ensures SizeOk(WorkerStep(s, w))
  {
    if Inside(s.workers[w]) { InsideStepKeepsSize(s, w); } else { OutsideStepKeepsSize(s, w); }
  }

  lemma WorkerStepKeepsFull(s: Pool, w: nat)
    requires Inv(s) && Enabled(s, StepWorker(w))
    ensures FullOk(WorkerStep(s, w))
  {
  }

  lemma WorkerStepKeepsWakeups(s: Pool, w: nat)
    requires Inv(s) && Enabled(s, StepWorker(w))
    ensures WakeOk(WorkerStep(s, w))
  {
    ActiveCountUpdate(s.workers, w, WorkerStep(s, w).workers[w]);
  }

  lemma WorkerStepKeepsInv(s: Pool, w: nat)
    requires Inv(s) && Enabled(s, StepWorker(w))
    ensures Inv(WorkerStep(s, w))
  {
    WorkerStepKeepsLock(s, w);
    WorkerStepKeepsTasks(s, w);
    WorkerStepKeepsOwnCalls(s, w);
    WorkerStepKeepsSize(s, w);
    WorkerStepKeepsFull(s, w);
    WorkerStepKeepsWakeups(s, w);
  }

  // ---------------------------------------------------------------- a submitter's step

  lemma SubmitterStepKeepsLock(s: Pool, i: nat, woken: set<nat>)
    requires Inv(s) && Enabled(s, StepSubmitter(i, woken))
    ensures LockOk(SubmitterStep(s, i, woken))
  {
  }

  lemma SubmitterStepKeepsTasks(s: Pool, i: nat, woken: set<nat>)
    requires Inv(s) && Enabled(s, StepSubmitter(i, woken))
    ensures Conserved(SubmitterStep(s, i, woken))
  {
  }

  lemma SubmitterStepKeepsOwnCalls(s: Pool, i: nat, woken: set<nat>)
    requires Inv(s) && Enabled(s, StepSubmitter(i, woken))
    ensures OwnCallsOk(SubmitterStep(s, i, woken))
  {
  }

  lemma SubmitterStepKeepsSize(s: Pool, i: nat, woken: set<nat>)
    requires Inv(s) && Enabled(s, StepSubmitter(i, woken))
    ensures SizeOk(SubmitterStep(s, i, woken))
  {
  }

  lemma SubmitterStepKeepsFull(s: Pool, i: nat, woken: set<nat>)
    requires Inv(s) && Enabled(s, StepSubmitter(i, woken))
    ensures FullOk(SubmitterStep(s, i, woken))
  {
  }

  lemma SubmitterStepKeepsWakeups(s: Pool, i: nat, woken: set<nat>)
    requires Inv(s) && Enabled(s, StepSubmitter(i, woken))
    ensures WakeOk(SubmitterStep(s, i, woken))
  {
    if s.submitters[i].SSignal? {
      ActiveCountWake(s.workers, woken);
    }
  }

  lemma SubmitterStepKeepsInv(s: Pool, i: nat, woken: set<nat>)
    requires Inv(s) && Enabled(s, StepSubmitter(i, woken))
    ensures Inv(SubmitterStep(s, i, woken))
  {
    SubmitterStepKeepsLock(s, i, woken);
    SubmitterStepKeepsTasks(s, i, woken);
    SubmitterStepKeepsOwnCalls(s, i, woken);
    SubmitterStepKeepsSize(s, i, woken);
    SubmitterStepKeepsFull(s, i, woken);
    SubmitterStepKeepsWakeups(s, i, woken);
  }

  // ---------------------------------------------------------------- every step

  lemma CallKeepsInv(s: Pool, i: nat, task: Task)
    requires Inv(s) && Enabled(s, Call(i, task))
    ensures Inv(Step(s, Call(i, task)))
  {
  }

  lemma SpuriousKeepsInv(s: Pool, a: Action)
    requires Inv(s) && Enabled(s, a) && (a.SpuriousWorker? || a.SpuriousSubmitter?)
    ensures Inv(Step(s, a))
  {
    if a.SpuriousWorker? { ActiveCountUpdate(s.workers, a.w, WWoken); }
  }

  lemma StepKeepsInv(s: Pool, a: Action)
    requires Inv(s) && Enabled(s, a)
    ensures Inv(Step(s, a))
  {
    match a
    case Call(i, task) => CallKeepsInv(s, i, task);
    case StepWorker(w) => WorkerStepKeepsInv(s, w);
    case StepSubmitter(i, woken) => SubmitterStepKeepsInv(s, i, woken);
    case SpuriousWorker(_) => SpuriousKeepsInv(s, a);
    case SpuriousSubmitter(_) => SpuriousKeepsInv(s, a);
  }

  lemma ThreadsStay(s: Pool, a: Action)
    requires Enabled(s, a)
    ensures |Step(s, a).workers| == |s.workers| && |Step(s, a).submitters| == |s.submitters|
    ensures Step(s, a).maxSize == s.maxSize
  {
  }

  lemma {:induction false} RunInvariant(ss: seq<Pool>, acts: seq<Action>, threadNum: int, n: nat)
    requires IsRun(ss, acts, threadNum) && n < |ss|
    ensures Inv(ss[n]) && |ss[n].workers| == if threadNum > 0 then threadNum else 1
  {
    if n == 0 {
      InitInv(ss[0], threadNum);
    } else {
      var m := n - 1;
      RunInvariant(ss, acts, threadNum, m);
      assert IsStep(ss[m], acts[m], ss[m + 1]);
      StepKeepsInv(ss[m], acts[m]);
      ThreadsStay(ss[m], acts[m]);
    }
  }
}

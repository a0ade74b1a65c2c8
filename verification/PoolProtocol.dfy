/**
 The thread pool of threadpool.cpp as a monitor: one mutex, two condition variables, a task queue,
 any number of workers running work() and any number of threads calling add_task. One step per
 statement; condition variables follow POSIX, so a wait may end without a signal and a signal wakes
 at least one waiter. A task may itself call add_task: submitter w, for w below the number of
 workers, is the call made by the task that worker w is running; the other submitters are threads
 outside the pool.
 */
module PoolProtocol {
  datatype Task = Task(function_: int, arg: int)

  /** Where a worker is inside work(). */
  datatype Worker =
    | WLock                   // about to lock the mutex
    | WCheck                  // holding it: about to test queue_size <= 0
    | WWaiting                // asleep on cond_queue_not_empty, mutex released
    | WWoken                  // woken, about to take the mutex back
    | WDeq                    // about to dequeue
    | WStuck                  // dequeue failed: about to lock a mutex it already holds
    | WDec(task: Task)        // about to decrement queue_size
    | WBroadcast(task: Task)  // about to broadcast cond_queue_not_full
    | WUnlock(task: Task)
    | WRun(task: Task)        // running it, mutex released; it may be inside add_task

  /** Where a thread is with respect to add_task. */
  datatype Submitter =
    | SIdle
    | SLock(task: Task)
    | SCheck(task: Task)      // holding the mutex: about to test queue_size >= queue_max_size
    | SWaiting(task: Task)    // asleep on cond_queue_not_full
    | SWoken(task: Task)
    | SEnq(task: Task)
    | SInc                    // about to increment queue_size
    | SSignal                 // about to signal cond_queue_not_empty
    | SUnlock

  datatype Owner = Free | HeldByWorker(w: nat) | HeldBySubmitter(i: nat)

  /** `added` and `taken` log what entered and left the queue. */
  datatype Pool = Pool(maxSize: int, queueSize: int, queue: seq<Task>, lock: Owner,
                       workers: seq<Worker>, submitters: seq<Submitter>,
                       added: seq<Task>, taken: seq<Task>)

  datatype Action =
    | Call(i: nat, task: Task)               // a thread calls add_task
    | StepWorker(w: nat)
    | StepSubmitter(i: nat, woken: set<nat>) // woken: the workers a signal wakes
    | SpuriousWorker(w: nat)
    | SpuriousSubmitter(i: nat)

  predicate Inside(w: Worker) {
    w.WCheck? || w.WDeq? || w.WStuck? || w.WDec? || w.WBroadcast? || w.WUnlock?
  }

  predicate InsideSub(s: Submitter) {
    s.SCheck? || s.SEnq? || s.SInc? || s.SSignal? || s.SUnlock?
  }

  predicate AnyWaiting(ws: seq<Worker>) {
    exists w :: 0 <= w < |ws| && ws[w].WWaiting?
  }

  /** The task that worker w is running is inside add_task. */
  predicate InOwnCall(s: Pool, w: nat) {
    w < |s.submitters| && !s.submitters[w].SIdle?
  }

  ghost predicate Enabled(s: Pool, a: Action) {
    match a
    case Call(i, _) =>
      i < |s.submitters| && s.submitters[i].SIdle? && (i < |s.workers| ==> s.workers[i].WRun?)
    case StepWorker(w) =>
      && w < |s.workers| && !s.workers[w].WWaiting? && !s.workers[w].WStuck?
      && (s.workers[w].WRun? ==> !InOwnCall(s, w))
      && (s.workers[w].WLock? || s.workers[w].WWoken? ==> s.lock == Free)
    case StepSubmitter(i, woken) =>
      && i < |s.submitters| && !s.submitters[i].SIdle? && !s.submitters[i].SWaiting?
      && (s.submitters[i].SLock? || s.submitters[i].SWoken? ==> s.lock == Free)
      && (s.submitters[i].SSignal? ==>
            && (forall w :: w in woken ==> w < |s.workers| && s.workers[w].WWaiting?)
            && (AnyWaiting(s.workers) ==> woken != {}))
    case SpuriousWorker(w) => w < |s.workers| && s.workers[w].WWaiting?
    case SpuriousSubmitter(i) => i < |s.submitters| && s.submitters[i].SWaiting?
  }

  function SetWorker(s: Pool, w: nat, p: Worker): Pool
    requires w < |s.workers|
  {
    s.(workers := s.workers[w := p])
  }

  function SetSub(s: Pool, i: nat, p: Submitter): Pool
    requires i < |s.submitters|
  {
    s.(submitters := s.submitters[i := p])
  }

  /** pthread_cond_signal on cond_queue_not_empty waking the workers in woken. */
  function Wake(ws: seq<Worker>, woken: set<nat>): (r: seq<Worker>)
    ensures |r| == |ws|
  {
    seq(|ws|, i requires 0 <= i < |ws| => if i in woken && ws[i].WWaiting? then WWoken else ws[i])
  }

  /** pthread_cond_broadcast on cond_queue_not_full. */
  function WakeAll(ss: seq<Submitter>): (r: seq<Submitter>)
    ensures |r| == |ss|
  {
    seq(|ss|, i requires 0 <= i < |ss| => if ss[i].SWaiting? then SWoken(ss[i].task) else ss[i])
  }

  function WorkerStep(s: Pool, w: nat): Pool
    requires w < |s.workers|
  {
    match s.workers[w]
    case WLock => SetWorker(s.(lock := HeldByWorker(w)), w, WCheck)
    case WCheck =>
      if s.queueSize <= 0 then SetWorker(s.(lock := Free), w, WWaiting) else SetWorker(s, w, WDeq)
    case WWoken => SetWorker(s.(lock := HeldByWorker(w)), w, WCheck)
    case WDeq =>
      if s.queue == [] then SetWorker(s, w, WStuck)
      else SetWorker(s.(queue := s.queue[1..], taken := s.taken + [s.queue[0]]), w, WDec(s.queue[0]))
    case WDec(task) => SetWorker(s.(queueSize := s.queueSize - 1), w, WBroadcast(task))
    case WBroadcast(task) => SetWorker(s.(submitters := WakeAll(s.submitters)), w, WUnlock(task))
    case WUnlock(task) => SetWorker(s.(lock := Free), w, WRun(task))
    case WRun(_) => SetWorker(s, w, WLock)
    case WWaiting => s
    case WStuck => s
  }

  function SubmitterStep(s: Pool, i: nat, woken: set<nat>): Pool
    requires i < |s.submitters|
  {
    match s.submitters[i]
    case SLock(task) => SetSub(s.(lock := HeldBySubmitter(i)), i, SCheck(task))
    case SCheck(task) =>
      if s.queueSize >= s.maxSize then SetSub(s.(lock := Free), i, SWaiting(task)) else SetSub(s, i, SEnq(task))
    case SWoken(task) => SetSub(s.(lock := HeldBySubmitter(i)), i, SCheck(task))
    case SEnq(task) => SetSub(s.(queue := s.queue + [task], added := s.added + [task]), i, SInc)
    case SInc => SetSub(s.(queueSize := s.queueSize + 1), i, SSignal)
    case SSignal => SetSub(s.(workers := Wake(s.workers, woken)), i, SUnlock)
    case SUnlock => SetSub(s.(lock := Free), i, SIdle)
    case SIdle => s
    case SWaiting(_) => s
  }

  ghost function Step(s: Pool, a: Action): Pool
    requires Enabled(s, a)
  {
    match a
    case Call(i, task) => SetSub(s, i, SLock(task))
    case StepWorker(w) => WorkerStep(s, w)
    case StepSubmitter(i, woken) => SubmitterStep(s, i, woken)
    case SpuriousWorker(w) => SetWorker(s, w, WWoken)
    case SpuriousSubmitter(i) => SetSub(s, i, SWoken(s.submitters[i].task))
  }

  /** The constructor's worker count: at least one. */
  function ThreadCount(threadNum: int): nat {
    if threadNum <= 0 then 1 else threadNum
  }

  ghost predicate Init(s: Pool, threadNum: int) {
    && |s.workers| == ThreadCount(threadNum) <= |s.submitters|
    && (forall w :: 0 <= w < |s.workers| ==> s.workers[w] == WLock)
    && (forall i :: 0 <= i < |s.submitters| ==> s.submitters[i] == SIdle)
    && s.queueSize == 0 && s.queue == [] && s.lock == Free && s.added == [] && s.taken == []
  }

  ghost predicate IsStep(s: Pool, a: Action, s': Pool) {
    Enabled(s, a) && s' == Step(s, a)
  }

  ghost predicate IsRun(ss: seq<Pool>, acts: seq<Action>, threadNum: int) {
    && |ss| == |acts| + 1 && Init(ss[0], threadNum)
    && forall i :: 0 <= i < |acts| ==> IsStep(ss[i], acts[i], ss[i + 1])
  }
}

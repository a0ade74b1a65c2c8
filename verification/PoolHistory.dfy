/**
 The pool seen from outside, over whole runs: which tasks were handed to add_task is read off the
 calls, which tasks were started off the workers. Every call adds the task it was given, once, and
 the tasks are started in the order in which they were added.
 */
module PoolHistory {
  import opened Prelude
  import opened PoolProtocol
  import opened PoolInvariant

  /** The argument of submitter i's latest call among the first n actions. */
  function LastCall(acts: seq<Action>, i: nat, n: nat): Option<Task>
    requires n <= |acts|
  {
    if n == 0 then None
    else if acts[n - 1].Call? && acts[n - 1].i == i then Some(acts[n - 1].task)
    else LastCall(acts, i, n - 1)
  }

  /** Step n of a run is a submitter's and puts something into the queue. */
  predicate Adds(ss: seq<Pool>, acts: seq<Action>, n: nat)
    requires n < |acts| && |ss| == |acts| + 1
  {
    acts[n].StepSubmitter? && |ss[n + 1].queue| > |ss[n].queue|
  }

  /** For each step that puts something into the queue, the task its submitter was last called with. */
  function Submitted(ss: seq<Pool>, acts: seq<Action>, n: nat): seq<Task>
    requires n <= |acts| && |ss| == |acts| + 1
  {
    if n == 0 then []
    else
      Submitted(ss, acts, n - 1)
      + (if Adds(ss, acts, n - 1) && LastCall(acts, acts[n - 1].i, n - 1).Some?
         then [LastCall(acts, acts[n - 1].i, n - 1).value] else [])
  }

  /** The tasks that workers have begun to run. */
  function Started(ss: seq<Pool>, acts: seq<Action>, n: nat): seq<Task>
    requires n <= |acts| && |ss| == |acts| + 1
  {
    if n == 0 then []
    else Started(ss, acts, n - 1) + Begins(ss[n - 1], acts[n - 1], ss[n])
  }

  /** The task whose running this step begins, if any. */
  function Begins(s: Pool, a: Action, s': Pool): seq<Task> {
    if a.StepWorker? && a.w < |s.workers| == |s'.workers| && s'.workers[a.w].WRun? && !s.workers[a.w].WRun?
    then [s'.workers[a.w].task] else []
  }

  /** The task the worker inside the critical section has taken and not yet begun. */
  function Carried(s: Pool): seq<Task> {
    var w := HolderW(s);
    if w.WDec? || w.WBroadcast? || w.WUnlock? then [w.task] else []
  }

  // ---------------------------------------------------------------- what a call was given

  /** The task of an add_task that has not entered it yet. */
  function Pending(p: Submitter): Option<Task> {
    match p
    case SLock(task) => Some(task)
    case SCheck(task) => Some(task)
    case SWaiting(task) => Some(task)
    case SWoken(task) => Some(task)
    case SEnq(task) => Some(task)
    case _ => None
  }

  /** A submitter's pending task comes from its call, and only the enqueue disposes of it. */
  lemma PendingTask(s: Pool, a: Action, s': Pool, i: nat)
    requires IsStep(s, a, s') && i < |s.submitters| && |s'.submitters| == |s.submitters|
    ensures a.Call? && a.i == i ==>
              Pending(s.submitters[i]) == None && Pending(s'.submitters[i]) == Some(a.task)
    ensures !(a.Call? && a.i == i) ==>
              Pending(s'.submitters[i]) == Pending(s.submitters[i])
              || (Pending(s'.submitters[i]) == None && a.StepSubmitter? && a.i == i
                  && s'.queue == s.queue + [Pending(s.submitters[i]).value])
  {
  }

  /** The queue grows only by a submitter that disposes of its pending task. */
  lemma GrowthIsAnAdd(s: Pool, a: Action, s': Pool)
    requires IsStep(s, a, s') && |s'.submitters| == |s.submitters|
    ensures |s'.queue| > |s.queue| ==>
              && a.StepSubmitter? && a.i < |s.submitters|
              && Pending(s.submitters[a.i]).Some? && Pending(s'.submitters[a.i]) == None
              && s'.queue == s.queue + [Pending(s.submitters[a.i]).value]
              && s'.added == s.added + [Pending(s.submitters[a.i]).value]
    ensures |s'.queue| <= |s.queue| ==> s'.added == s.added
  {
  }

  lemma {:induction false} PendingIsLastCall(ss: seq<Pool>, acts: seq<Action>, threadNum: int, n: nat, i: nat)
    requires IsRun(ss, acts, threadNum) && n <= |acts|
    ensures |ss[n].submitters| == |ss[0].submitters|
    ensures i < |ss[n].submitters| && Pending(ss[n].submitters[i]).Some? ==>
              LastCall(acts, i, n) == Pending(ss[n].submitters[i])
  {
    if n > 0 {
      var m := n - 1;
      PendingIsLastCall(ss, acts, threadNum, m, i);
      assert IsStep(ss[m], acts[m], ss[m + 1]);
      ThreadsStay(ss[m], acts[m]);
      if i < |ss[m].submitters| { PendingTask(ss[m], acts[m], ss[n], i); }
    }
  }

  /** Whatever is added is what the adding thread's latest call was given. */
  lemma {:induction false} AddedIsSubmitted(ss: seq<Pool>, acts: seq<Action>, threadNum: int, n: nat)
    requires IsRun(ss, acts, threadNum) && n <= |acts|
    ensures ss[n].added == Submitted(ss, acts, n)
  {
    if n > 0 {
      var m := n - 1;
      AddedIsSubmitted(ss, acts, threadNum, m);
      RunStep(ss, acts, threadNum, m);
      if acts[m].StepSubmitter? {
        PendingIsLastCall(ss, acts, threadNum, m, acts[m].i);
        AddStep(ss[m], acts[m], ss[n], LastCall(acts, acts[m].i, m));
      } else {
        AddStep(ss[m], acts[m], ss[n], None);
      }
    }
  }

  lemma RunStep(ss: seq<Pool>, acts: seq<Action>, threadNum: int, m: nat)
    requires IsRun(ss, acts, threadNum) && m < |acts|
    ensures IsStep(ss[m], acts[m], ss[m + 1])
  {
  }

  lemma AddStep(s: Pool, a: Action, s': Pool, last: Option<Task>)
    requires IsStep(s, a, s')
    requires a.StepSubmitter? && a.i < |s.submitters| && Pending(s.submitters[a.i]).Some? ==>
               last == Pending(s.submitters[a.i])
    ensures s'.added == s.added
                        + (if a.StepSubmitter? && |s'.queue| > |s.queue| && last.Some? then [last.value] else [])
  {
    ThreadsStay(s, a);
    GrowthIsAnAdd(s, a, s');
  }

  // ---------------------------------------------------------------- once for each call

  /** How often submitter i called among the first n actions. */
  function Calls(acts: seq<Action>, i: nat, n: nat): nat
    requires n <= |acts|
  {
    if n == 0 then 0 else Calls(acts, i, n - 1) + (if acts[n - 1].Call? && acts[n - 1].i == i then 1 else 0)
  }

  /** How often it put something into the queue. */
  function AddsBy(ss: seq<Pool>, acts: seq<Action>, i: nat, n: nat): nat
    requires n <= |acts| && |ss| == |acts| + 1
  {
    if n == 0 then 0
    else AddsBy(ss, acts, i, n - 1) + (if Adds(ss, acts, n - 1) && acts[n - 1].i == i then 1 else 0)
  }

  /** Every call has added exactly one task, or is in progress with it. */
  lemma {:induction false} EachCallAddsOnce(ss: seq<Pool>, acts: seq<Action>, threadNum: int, n: nat, i: nat)
    requires IsRun(ss, acts, threadNum) && n <= |acts| && i < |ss[0].submitters|
    ensures |ss[n].submitters| == |ss[0].submitters|
    ensures Calls(acts, i, n) == AddsBy(ss, acts, i, n) + (if Pending(ss[n].submitters[i]).Some? then 1 else 0)
  {
    if n > 0 {
      var m := n - 1;
      EachCallAddsOnce(ss, acts, threadNum, m, i);
      RunStep(ss, acts, threadNum, m);
      CountStep(ss[m], acts[m], ss[n], i);
    }
  }

  lemma CountStep(s: Pool, a: Action, s': Pool, i: nat)
    requires IsStep(s, a, s') && i < |s.submitters|
    ensures |s'.submitters| == |s.submitters|
    ensures (if a.Call? && a.i == i then 1 else 0) + (if Pending(s.submitters[i]).Some? then 1 else 0)
            == (if a.StepSubmitter? && |s'.queue| > |s.queue| && a.i == i then 1 else 0)
               + (if Pending(s'.submitters[i]).Some? then 1 else 0)
  {
    ThreadsStay(s, a);
    PendingTask(s, a, s', i);
    GrowthIsAnAdd(s, a, s');
  }

  // ---------------------------------------------------------------- the order of starting

  /** What a step does to the tasks taken: the worker carries one, then begins it. */
  lemma TakenAdvances(s: Pool, a: Action, s': Pool)
    requires Inv(s) && IsStep(s, a, s')
    ensures s.taken <= s'.taken
    ensures s'.taken == s.taken ==> Begins(s, a, s') + Carried(s') == Carried(s)
    ensures s'.taken != s.taken ==> Begins(s, a, s') == Carried(s) == [] && s'.taken == s.taken + Carried(s')
  {
    if a.StepWorker? {
      WorkerAdvances(s, a.w);
    } else {
      OthersDoNotTake(s, a, s');
    }
  }

  lemma WorkerAdvances(s: Pool, w: nat)
    requires Inv(s) && Enabled(s, StepWorker(w))
    ensures var s' := WorkerStep(s, w);
            && s.taken <= s'.taken
            && (s'.taken == s.taken ==> Begins(s, StepWorker(w), s') + Carried(s') == Carried(s))
            && (s'.taken != s.taken ==>
                  Begins(s, StepWorker(w), s') == Carried(s) == [] && s'.taken == s.taken + Carried(s'))
  {
    if Inside(s.workers[w]) {
      assert s.lock == HeldByWorker(w) && HolderW(s) == s.workers[w];
    } else {
      assert s.lock != HeldByWorker(w);
    }
  }

  lemma OthersDoNotTake(s: Pool, a: Action, s': Pool)
    requires Inv(s) && IsStep(s, a, s') && !a.StepWorker?
    ensures s'.taken == s.taken && Begins(s, a, s') == [] && Carried(s') == Carried(s)
  {
  }

  lemma {:induction false} TakenIsStarted(ss: seq<Pool>, acts: seq<Action>, threadNum: int, n: nat)
    requires IsRun(ss, acts, threadNum) && n <= |acts|
    ensures ss[n].taken == Started(ss, acts, n) + Carried(ss[n])
  {
    if n > 0 {
      var m := n - 1;
      TakenIsStarted(ss, acts, threadNum, m);
      RunInvariant(ss, acts, threadNum, m);
      assert IsStep(ss[m], acts[m], ss[m + 1]);
      TakenAdvances(ss[m], acts[m], ss[n]);
      Advance(Started(ss, acts, m), Begins(ss[m], acts[m], ss[n]), Carried(ss[m]), Carried(ss[n]),
              ss[m].taken, ss[n].taken);
    }
  }

  lemma Advance<T>(started: seq<T>, begun: seq<T>, c: seq<T>, c': seq<T>, taken: seq<T>, taken': seq<T>)
    requires taken == started + c
    requires taken' == taken ==> begun + c' == c
    requires taken' != taken ==> begun == c == [] && taken' == taken + c'
    ensures taken' == started + begun + c'
  {
    assert started + begun + c' == started + (begun + c');
  }

  lemma NothingCarriedOutside(s: Pool)
    requires s.lock == Free
    ensures Carried(s) == []
  {
  }

  lemma Prefix<T>(all: seq<T>, a: seq<T>, b: seq<T>, c: seq<T>)
    requires all == a + b + c
    ensures a <= all && (b == [] ==> all == a + c)
  {
  }

  /**
   From the calls to the workers, in every state of every run: the tasks handed to add_task, in the
   order in which they entered the queue, are the tasks started so far, then the one just taken, then
   the queue. So nothing is lost, duplicated, altered or overtaken.
   */
  lemma RunFollowsTasks(ss: seq<Pool>, acts: seq<Action>, threadNum: int, n: nat)
    requires IsRun(ss, acts, threadNum) && n <= |acts|
    ensures Submitted(ss, acts, n) == Started(ss, acts, n) + Carried(ss[n]) + ss[n].queue
    ensures ss[n].lock == Free ==> Submitted(ss, acts, n) == Started(ss, acts, n) + ss[n].queue
    ensures Started(ss, acts, n) <= Submitted(ss, acts, n)
  {
    AddedIsSubmitted(ss, acts, threadNum, n);
    TakenIsStarted(ss, acts, threadNum, n);
    RunConserves(ss, acts, threadNum, n);
    Prefix(Submitted(ss, acts, n), Started(ss, acts, n), Carried(ss[n]), ss[n].queue);
    if ss[n].lock == Free { NothingCarriedOutside(ss[n]); }
  }

  lemma RunConserves(ss: seq<Pool>, acts: seq<Action>, threadNum: int, n: nat)
    requires IsRun(ss, acts, threadNum) && n <= |acts|
    ensures ss[n].added == ss[n].taken + ss[n].queue
  {
    RunInvariant(ss, acts, threadNum, n);
  }
}

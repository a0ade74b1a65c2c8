/**
 Exactly from which states every schedule drains the pool: those in which some worker is not in its
 own add_task, or there are fewer threads outside the pool about to add a task than places in the
 queue, so that they cannot take every place before a worker's own task gets one.
 */
module PoolDraining {
  import opened Prelude
  import opened PoolProtocol
  import opened PoolInvariant
  import opened PoolTheorems
  import opened PoolSchedules

  /** In add_task and not yet counted in queue_size. */
  predicate NotCounted(p: Submitter) { BeforeEnqueue(p) || p.SEnq? || p.SInc? }

  /** How many of the submitters from k on have still to be counted. */
  function Coming(ss: seq<Submitter>, k: nat): nat
    decreases |ss| - k
  {
    if k >= |ss| then 0 else (if NotCounted(ss[k]) then 1 else 0) + Coming(ss, k + 1)
  }

  /** The threads outside the pool that have still to be counted. */
  function Outside(s: Pool): nat { Coming(s.submitters, |s.workers|) }

  lemma {:induction false} ComingUpdate(ss: seq<Submitter>, k: nat, i: nat, p: Submitter)
    requires i < |ss|
    ensures Coming(ss[i := p], k) + (if k <= i && NotCounted(ss[i]) then 1 else 0)
            == Coming(ss, k) + (if k <= i && NotCounted(p) then 1 else 0)
    decreases |ss| - k
  {
    if k < |ss| {
      ComingUpdate(ss, k + 1, i, p);
    }
  }

  lemma {:induction false} SomeComing(ss: seq<Submitter>, k: nat) returns (i: nat)
    requires Coming(ss, k) > 0
    ensures k <= i < |ss| && NotCounted(ss[i])
    decreases |ss| - k
  {
    if NotCounted(ss[k]) {
      i := k;
    } else {
      i := SomeComing(ss, k + 1);
    }
  }

  // ---------------------------------------------------------------- enough room: every schedule drains

  /** Every worker is running a task that has still to find room for another. */
  ghost predicate AllBefore(s: Pool) {
    forall w :: 0 <= w < |s.workers| ==>
      s.workers[w].WRun? && w < |s.submitters| && BeforeEnqueue(s.submitters[w])
  }

  /** The threads outside cannot fill the queue. */
  ghost predicate Roomy(s: Pool) { s.queueSize + Outside(s) < s.maxSize }

  /** As long as all workers are held up, a step makes no room disappear that was not spoken for. */
  lemma StepKeepsRoom(s: Pool, a: Action, s': Pool)
    requires Inv(s) && OwnStep(s, a, s', false) && AllBefore(s) && AllBefore(s') && Roomy(s)
    ensures Roomy(s')
  {
    if a.StepSubmitter? {
      assert s'.submitters == s.submitters[a.i := s'.submitters[a.i]];
      ComingUpdate(s.submitters, |s.workers|, a.i, s'.submitters[a.i]);
    }
  }

  /** Once a worker is not held up, it never is again without a new call. */
  lemma StepKeepsOneThrough(s: Pool, a: Action, s': Pool)
    requires Inv(s) && OwnStep(s, a, s', false) && AllBefore(s')
    ensures AllBefore(s)
  {
    StepKeepsInv(s, a);
    ThreadsStay(s, a);
    forall w | 0 <= w < |s.workers|
      ensures s.workers[w].WRun? && w < |s.submitters| && BeforeEnqueue(s.submitters[w])
    {
      assert s'.workers[w].WRun? && BeforeEnqueue(s'.submitters[w]);
      StepKeepsThrough(s, a, s', w);
    }
  }

  lemma StepKeepsThrough(s: Pool, a: Action, s': Pool, w: nat)
    requires Inv(s) && OwnStep(s, a, s', false) && w < |s.workers| == |s'.workers|
    requires w < |s'.submitters| && BeforeEnqueue(s'.submitters[w])
    ensures w < |s.submitters| && BeforeEnqueue(s.submitters[w]) && s.workers[w].WRun?
  {
    assert w < |s.submitters|;
    assert BeforeEnqueue(s.submitters[w]);
    assert InOwnCall(s, w);
  }

  lemma {:induction false} PathKeepsRoom(ss: seq<Pool>, acts: seq<Action>, n: nat)
    requires Path(ss, acts, false) && Inv(ss[0]) && Roomy(ss[0]) && n <= |acts|
    ensures Inv(ss[n]) && (AllBefore(ss[n]) ==> AllBefore(ss[0]) && Roomy(ss[n]))
  {
    if n > 0 {
      var m := n - 1;
      PathKeepsRoom(ss, acts, m);
      assert OwnStep(ss[m], acts[m], ss[m + 1], false);
      StepKeepsInv(ss[m], acts[m]);
      if AllBefore(ss[n]) {
        StepKeepsOneThrough(ss[m], acts[m], ss[n]);
        StepKeepsRoom(ss[m], acts[m], ss[n]);
      }
    }
  }

  // ---------------------------------------------------------------- too little room: one schedule deadlocks

  /** The thread can go on with add_task: the mutex is its own or free, and there is room. */
  ghost predicate CanAdd(s: Pool, i: nat) {
    && |s.workers| <= i < |s.submitters| && !s.submitters[i].SIdle? && !s.submitters[i].SWaiting?
    && (s.submitters[i].SLock? || s.submitters[i].SWoken? ==> s.lock == Free)
    && (BeforeEnqueue(s.submitters[i]) ==> s.queueSize < s.maxSize)
  }

  /** One step of it; nobody else is moved, since no worker sleeps. */
  lemma AddStep(s: Pool, i: nat) returns (s': Pool)
    requires Inv(s) && AllBefore(s) && CanAdd(s, i)
    ensures OwnStep(s, StepSubmitter(i, {}), s', false) && Inv(s') && Measure(s') < Measure(s)
    ensures s'.workers == s.workers && s'.maxSize == s.maxSize && |s'.submitters| == |s.submitters|
    ensures s'.submitters == s.submitters[i := s'.submitters[i]]
    ensures s'.queueSize - s.queueSize
            == (if NotCounted(s.submitters[i]) then 1 else 0) - (if NotCounted(s'.submitters[i]) then 1 else 0)
    ensures if s'.submitters[i].SIdle? then s'.lock == Free else CanAdd(s', i)
  {
    var a := StepSubmitter(i, {});
    assert !AnyWaiting(s.workers);
    assert Wake(s.workers, {}) == s.workers;
    s' := Step(s, a);
    assert OwnStep(s, a, s', false);
    OwnStepLowers(s, a, s');
  }

  /** A thread outside that finds the mutex free and room in the queue adds its task. */
  lemma {:induction false} AddOne(s: Pool, i: nat) returns (ss: seq<Pool>, acts: seq<Action>)
    requires Inv(s) && AllBefore(s) && CanAdd(s, i)
    ensures Path(ss, acts, false) && ss[0] == s
    ensures var z := ss[|acts|];
            && Inv(z) && z.lock == Free && z.workers == s.workers && z.maxSize == s.maxSize
            && z.submitters == s.submitters[i := SIdle]
            && z.queueSize == s.queueSize + (if NotCounted(s.submitters[i]) then 1 else 0)
    decreases Measure(s)
  {
    var s' := AddStep(s, i);
    ss, acts := [s, s'], [StepSubmitter(i, {})];
    if !s'.submitters[i].SIdle? {
      var ss', acts' := AddOne(s', i);
      JoinPaths(ss, acts, ss', acts', false);
      ss, acts := ss + ss'[1..], acts + acts';
      assert s'.submitters[i := SIdle] == s.submitters[i := SIdle];
    }
  }

  /** The threads outside take every place, and the workers' own calls never get one. */
  lemma {:induction false} FillUp(s: Pool) returns (ss: seq<Pool>, acts: seq<Action>)
    requires Inv(s) && s.lock == Free && |s.workers| >= 1 && s.maxSize >= 1 && AllBefore(s) && !Roomy(s)
    ensures Path(ss, acts, false) && ss[0] == s && Terminal(ss[|acts|]) && !Drained(ss[|acts|])
    decreases s.maxSize - s.queueSize
  {
    if s.queueSize >= s.maxSize {
      assert Deadlocked(s);
      ss, acts := SomeSchedule(s);
      StaysFull(s, ss, acts);
    } else {
      var i := SomeComing(s.submitters, |s.workers|);
      ss, acts := AddOne(s, i);
      var z := ss[|acts|];
      ComingUpdate(s.submitters, |s.workers|, i, SIdle);
      var ss', acts' := FillUp(z);
      JoinPaths(ss, acts, ss', acts', false);
      ss, acts := ss + ss'[1..], acts + acts';
    }
  }

  lemma StaysFull(s: Pool, ss: seq<Pool>, acts: seq<Action>)
    requires Inv(s) && s.lock == Free && s.maxSize >= 1 && Deadlocked(s)
    requires Path(ss, acts, false) && ss[0] == s
    ensures !Drained(ss[|acts|])
  {
    forall i | 0 <= i < |acts| ensures IsStep(ss[i], acts[i], ss[i + 1]) {
      assert OwnStep(ss[i], acts[i], ss[i + 1], false);
    }
    DeadlockIsForever(ss, acts, |acts|);
  }

  // ---------------------------------------------------------------- the exact condition

  /** However the threads are scheduled, without new calls or spurious wakeups the pool gets drained. */
  ghost predicate MustDrain(s: Pool) {
    forall ss: seq<Pool>, acts: seq<Action> ::
      Path(ss, acts, false) && ss[0] == s && Terminal(ss[|acts|]) ==> Drained(ss[|acts|])
  }

  lemma MustDrainIff(s: Pool)
    requires Inv(s) && s.lock == Free && |s.workers| >= 1
    ensures MustDrain(s) <==>
            || s.maxSize <= 0
            || (exists w: nat :: w < |s.workers| && !InOwnCall(s, w))
            || s.queueSize + Outside(s) < s.maxSize
  {
    if s.maxSize >= 1 && !Roomy(s) && forall w: nat :: w < |s.workers| ==> InOwnCall(s, w) {
      forall w | 0 <= w < |s.workers|
        ensures s.workers[w].WRun? && w < |s.submitters| && BeforeEnqueue(s.submitters[w])
      {
        assert InOwnCall(s, w);
      }
      var ss, acts := FillUp(s);
    } else {
      forall ss: seq<Pool>, acts: seq<Action> | Path(ss, acts, false) && ss[0] == s && Terminal(ss[|acts|])
        ensures Drained(ss[|acts|])
      {
        EndsDrained(s, ss, acts);
      }
    }
  }

  lemma EndsDrained(s: Pool, ss: seq<Pool>, acts: seq<Action>)
    requires Inv(s) && s.lock == Free && |s.workers| >= 1
    requires Path(ss, acts, false) && ss[0] == s && Terminal(ss[|acts|])
    requires s.maxSize <= 0 || (exists w: nat :: w < |s.workers| && !InOwnCall(s, w)) || Roomy(s)
    ensures Drained(ss[|acts|])
  {
    var z := ss[|acts|];
    MeasureBoundsPath(ss, acts, |acts|);
    EveryScheduleDrains(ss, acts);
    TerminalMeans(z);
    if s.maxSize >= 1 && Roomy(s) && !Drained(z) {
      PathKeepsRoom(ss, acts, |acts|);
      AllAsleepMeansDeadlocked(z);
      assert AllBefore(z);
      assert false;
    }
  }
}

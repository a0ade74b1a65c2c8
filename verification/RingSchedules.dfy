/**
 Progress of the ring under every schedule: whatever the order in which the threads inside a claim
 take their steps, only a bounded number of steps are not failed tests of a tail, and as long as
 anything is pending one more such step is possible.
 */
module RingSchedules {
  import opened RingProtocol
  import opened RingInvariant
  import opened RingTheorems
  import opened RingProgress

  /** Thread t is waiting for a tail that has not reached its slot: its step changes nothing. */
  predicate FailedTailTest(c: Conc, t: nat)
    requires t < |c.threads|
  {
    match c.threads[t]
    case PWait(_, h) => c.ring.prodTail != h
    case CWait(_, h) => c.ring.consTail != h
    case _ => false
  }

  /** How many bytes thread t has to copy out, if it is a consumer inside a claim. */
  function BytesOut(s: Sys, t: nat): nat
    requires t < |s.c.threads| == |s.x.ticket|
  {
    if ClaimedCons(s.c.threads[t]) && s.x.ticket[t] < |s.x.sent| then |s.x.sent[s.x.ticket[t]]| else 0
  }

  function ThreadWork(s: Sys, t: nat): nat
    requires t < |s.c.threads| == |s.x.ticket|
  {
    Remaining(s.c.threads[t], BytesOut(s, t))
  }

  /** What the first k threads have left to do. */
  function Work(s: Sys, k: nat): nat
    requires k <= |s.c.threads| == |s.x.ticket|
  {
    if k == 0 then 0 else Work(s, k - 1) + ThreadWork(s, k - 1)
  }

  function TotalWork(s: Sys): nat
    requires |s.c.threads| == |s.x.ticket|
  {
    Work(s, |s.c.threads|)
  }

  lemma {:induction false} OneThreadsWork(s: Sys, s': Sys, t: nat, k: nat)
    requires |s.c.threads| == |s.x.ticket| == |s'.c.threads| == |s'.x.ticket| && t < |s.c.threads|
    requires k <= |s.c.threads|
    requires forall u :: 0 <= u < |s.c.threads| && u != t ==> ThreadWork(s', u) == ThreadWork(s, u)
    ensures Work(s', k) == Work(s, k) + (if t < k then ThreadWork(s', t) - ThreadWork(s, t) else 0)
  {
    if k > 0 {
      OneThreadsWork(s, s', t, k - 1);
    }
  }

  /** A step of a thread inside a claim claims nothing. */
  lemma ClaimedStep(s: Sys, a: Action)
    requires Inv(s) && Enabled(s.c, a) && a.Run? && InClaim(s.c.threads[a.t])
    ensures Inv(Step(s, a))
    ensures Step(s, a).x.ph == s.x.ph && Step(s, a).x.ch == s.x.ch
    ensures Step(s, a).x.sent == s.x.sent && Step(s, a).x.ticket == s.x.ticket
  {
    StepKeepsInv(s, a);
  }

  lemma ProdStepWorks(s: Sys, a: Action)
    requires Inv(s) && Enabled(s.c, a) && a.Run? && ClaimedProd(s.c.threads[a.t])
    ensures FailedTailTest(s.c, a.t) ==> Step(s, a) == s
    ensures !FailedTailTest(s.c, a.t) ==> ThreadWork(Step(s, a), a.t) < ThreadWork(s, a.t)
  {
    assert ThreadOk(s, a.t);
  }

  lemma ConsStepWorks(s: Sys, a: Action)
    requires Inv(s) && Enabled(s.c, a) && a.Run? && ClaimedCons(s.c.threads[a.t])
    ensures FailedTailTest(s.c, a.t) ==> Step(s, a) == s
    ensures !FailedTailTest(s.c, a.t) ==> ThreadWork(Step(s, a), a.t) < ThreadWork(s, a.t)
  {
    ClaimedEntryHolds(s, a.t);
    assert ThreadOk(s, a.t);
    ClaimedStep(s, a);
  }

  /** Every step of a thread inside a claim lowers the work left, unless it is a failed tail test. */
  lemma StepLowersWork(s: Sys, a: Action)
    requires Inv(s) && Enabled(s.c, a) && a.Run? && InClaim(s.c.threads[a.t])
    ensures Inv(Step(s, a)) && Step(s, a).x.ph == s.x.ph && Step(s, a).x.ch == s.x.ch
    ensures FailedTailTest(s.c, a.t) ==> Step(s, a) == s
    ensures !FailedTailTest(s.c, a.t) ==> TotalWork(Step(s, a)) < TotalWork(s)
  {
    ClaimedStep(s, a);
    if ClaimedProd(s.c.threads[a.t]) { ProdStepWorks(s, a); } else { ConsStepWorks(s, a); }
    OneThreadsWork(s, Step(s, a), a.t, |s.c.threads|);
  }

  /** As long as anything is pending, on either side, somebody's step does lower it. */
  lemma SomebodyCanWork(s: Sys) returns (t: nat)
    requires Inv(s) && (s.x.pt < s.x.ph || s.x.ct < s.x.ch)
    ensures t < |s.c.threads| && InClaim(s.c.threads[t]) && !FailedTailTest(s.c, t)
    ensures Enabled(s.c, Run(t, NO_JUNK))
  {
    if s.x.pt < s.x.ph {
      OneProducerOwnsTail(s);
      t := s.x.pOwner[s.x.pt];
    } else {
      OneConsumerOwnsTail(s);
      t := s.x.cOwner[s.x.ct];
    }
  }

  /** No step but failed tail tests is possible for the threads inside a claim. */
  ghost predicate Finished(s: Sys) {
    forall t :: 0 <= t < |s.c.threads| && InClaim(s.c.threads[t]) ==> FailedTailTest(s.c, t)
  }

  /** Then no thread is inside a claim at all. */
  lemma FinishedMeansNothingPending(s: Sys)
    requires Inv(s)
    ensures Finished(s) <==> s.x.pt == s.x.ph && s.x.ct == s.x.ch
    ensures Finished(s) ==> forall t :: 0 <= t < |s.c.threads| ==> !InClaim(s.c.threads[t])
  {
    if s.x.pt < s.x.ph || s.x.ct < s.x.ch {
      var t := SomebodyCanWork(s);
    } else {
      forall t | 0 <= t < |s.c.threads| ensures !InClaim(s.c.threads[t]) {
        assert ThreadOk(s, t);
      }
    }
  }

  /** How many of the first n steps of a path are not failed tail tests. */
  function Effective(ss: seq<Sys>, acts: seq<Action>, n: nat): nat
    requires n <= |acts| && |ss| == |acts| + 1
  {
    if n == 0 then 0 else Effective(ss, acts, n - 1) + Counts(ss[n - 1].c, acts[n - 1])
  }

  function Counts(c: Conc, a: Action): nat {
    if a.t < |c.threads| && FailedTailTest(c, a.t) then 0 else 1
  }

  lemma FinishingStepCounts(s: Sys, a: Action, s': Sys)
    requires Inv(s) && FinishingStep(s, a, s')
    ensures Inv(s') && s'.x.ph == s.x.ph && s'.x.ch == s.x.ch
    ensures Counts(s.c, a) + TotalWork(s') <= TotalWork(s)
  {
    StepLowersWork(s, a);
  }

  lemma PathStepCounts(ss: seq<Sys>, acts: seq<Action>, m: nat)
    requires FinishingPath(ss, acts) && m < |acts| && Inv(ss[m])
    ensures Inv(ss[m + 1]) && ss[m + 1].x.ph == ss[m].x.ph && ss[m + 1].x.ch == ss[m].x.ch
    ensures Counts(ss[m].c, acts[m]) + TotalWork(ss[m + 1]) <= TotalWork(ss[m])
  {
    assert FinishingStep(ss[m], acts[m], ss[m + 1]);
    FinishingStepCounts(ss[m], acts[m], ss[m + 1]);
  }

  lemma {:induction false} WorkBoundsPrefix(ss: seq<Sys>, acts: seq<Action>, n: nat)
    requires FinishingPath(ss, acts) && Inv(ss[0]) && n <= |acts|
    ensures Inv(ss[n]) && ss[n].x.ph == ss[0].x.ph && ss[n].x.ch == ss[0].x.ch
    ensures Effective(ss, acts, n) + TotalWork(ss[n]) <= TotalWork(ss[0])
  {
    if n > 0 {
      var m := n - 1;
      WorkBoundsPrefix(ss, acts, m);
      assert Effective(ss, acts, n) == Effective(ss, acts, m) + Counts(ss[m].c, acts[m]);
      PathStepCounts(ss, acts, m);
    }
  }

  /**
   Every schedule of the threads inside a claim: it has at most TotalWork effective steps, and if it
   goes on until only failed tests are left, every claim has been completed.
   */
  lemma EveryScheduleFinishes(ss: seq<Sys>, acts: seq<Action>)
    requires FinishingPath(ss, acts) && Inv(ss[0])
    ensures Effective(ss, acts, |acts|) <= TotalWork(ss[0])
    ensures var z := ss[|acts|];
            && Inv(z)
            && (Finished(z) <==> z.x.pt == z.x.ph == ss[0].x.ph && z.x.ct == z.x.ch == ss[0].x.ch)
            && (Finished(z) ==> forall t :: 0 <= t < |z.c.threads| ==> !InClaim(z.c.threads[t]))
  {
    WorkBoundsPrefix(ss, acts, |acts|);
    FinishedMeansNothingPending(ss[|acts|]);
  }
}

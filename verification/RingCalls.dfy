/**
 Progress of whole calls, with their CAS retry loops, under every schedule: without new calls only a
 bounded number of steps are not failed tests of a tail, because a CAS can fail only if another call
 has claimed since the load; and where only such tests are left every call has returned.
 */
module RingCalls {
  import opened Prelude
  import opened RingIndex
  import opened RingProtocol
  import opened RingInvariant
  import opened RingTheorems
  import opened RingProgress
  import opened RingSchedules

  /** In a call that has not claimed a ticket yet. */
  predicate Unclaimed(l: Local) { l.PLoad? || LoadedProd(l) || l.CLoad? || LoadedCons(l) }

  /**
   How many steps at most an unclaimed call is from its claim or refusal if nobody else claims; a
   head that has gone stale costs another round of the loop.
   */
  function Stage(s: Sys, t: nat): nat
    requires t < |s.c.threads| == |s.x.ticket|
  {
    var k := s.x.ticket[t];
    match s.c.threads[t]
    case PLoad(_) => 3
    case PTest(_, _) => if k == s.x.ph then 2 else 5
    case PClaim(_, _) => if k == s.x.ph then 1 else 4
    case CLoad(_) => 3
    case CTest(_, _) => if k == s.x.ch then 2 else 5
    case CClaim(_, _) => if k == s.x.ch then 1 else 4
    case _ => 0
  }

  /** What thread t's call may still take; an unclaimed call is charged b for the claim itself. */
  function Cost(s: Sys, t: nat, b: nat): nat
    requires t < |s.c.threads| == |s.x.ticket|
  {
    if Unclaimed(s.c.threads[t]) then b + Stage(s, t) else ThreadWork(s, t)
  }

  function Costs(s: Sys, b: nat, k: nat): nat
    requires k <= |s.c.threads| == |s.x.ticket|
  {
    if k == 0 then 0 else Costs(s, b, k - 1) + Cost(s, k - 1, b)
  }

  function TotalCost(s: Sys, b: nat): nat
    requires |s.c.threads| == |s.x.ticket|
  {
    Costs(s, b, |s.c.threads|)
  }

  /** No message, sent or about to be, is longer than len. */
  ghost predicate NoLonger(s: Sys, len: nat) {
    && (forall k :: 0 <= k < |s.x.sent| ==> |s.x.sent[k]| <= len)
    && (forall t :: 0 <= t < |s.c.threads| && InProd(s.c.threads[t]) ==> |s.c.threads[t].msg| <= len)
  }

  /** Every other thread costs at most d more. */
  lemma {:induction false} CostsRise(s: Sys, s': Sys, t: nat, b: nat, d: nat, k: nat)
    requires |s.c.threads| == |s.x.ticket| == |s'.c.threads| == |s'.x.ticket| && t < |s.c.threads|
    requires k <= |s.c.threads|
    requires forall u :: 0 <= u < |s.c.threads| && u != t ==> Cost(s', u, b) <= Cost(s, u, b) + d
    ensures Costs(s', b, k) <= Costs(s, b, k) + Extra(d, k) + (if t < k then Cost(s', t, b) - Cost(s, t, b) else 0)
  {
    if k > 0 {
      CostsRise(s, s', t, b, d, k - 1);
    }
  }

  /** d for each of k threads. */
  function Extra(d: nat, k: nat): nat {
    if k == 0 then 0 else d + Extra(d, k - 1)
  }

  lemma {:induction false} NothingExtra(k: nat)
    ensures Extra(0, k) == 0
  {
    if k > 0 { NothingExtra(k - 1); }
  }

  // ---------------------------------------------------------------- one step

  /** A step of thread t that claims nothing. */
  ghost predicate NoClaim(s: Sys, s': Sys) { s'.x.ph == s.x.ph && s'.x.ch == s.x.ch && s'.x.sent == s.x.sent }

  /** The other threads' costs after a step that claims nothing. */
  lemma OthersCostTheSame(s: Sys, a: Action, b: nat, u: nat)
    requires Inv(s) && Enabled(s.c, a) && NoClaim(s, Step(s, a)) && u < |s.c.threads| && u != a.t
    ensures Cost(Step(s, a), u, b) == Cost(s, u, b)
  {
  }

  /** And after a claim: a fresh head may have gone stale. */
  lemma OthersCostAtMost3More(s: Sys, a: Action, b: nat, u: nat)
    requires Inv(s) && Enabled(s.c, a) && a.Run? && ClaimSucceeds(s.c, a.t) && u < |s.c.threads| && u != a.t
    ensures Cost(Step(s, a), u, b) <= Cost(s, u, b) + 3
  {
    assert ThreadOk(s, u);
  }

  /** Loading and testing, refusal and a failed CAS: each brings the call nearer to its claim. */
  lemma UnclaimedStep(s: Sys, a: Action, b: nat)
    requires Inv(s) && Enabled(s.c, a) && a.Run? && Unclaimed(s.c.threads[a.t]) && !ClaimSucceeds(s.c, a.t)
    ensures NoClaim(s, Step(s, a)) && Cost(Step(s, a), a.t, b) < Cost(s, a.t, b)
  {
    assert ThreadOk(s, a.t);
  }

  /** A successful claim: the call now only has its bytes to copy and its turn to wait for. */
  lemma ClaimStep(s: Sys, a: Action, b: nat, len: nat)
    requires Inv(s) && Enabled(s.c, a) && a.Run? && ClaimSucceeds(s.c, a.t) && Guarded(s.c, a) && NoLonger(s, len)
    ensures Cost(s, a.t, b) > b && Cost(Step(s, a), a.t, b) <= len + 5
  {
    assert ThreadOk(s, a.t);
    EntryMeansNotEmpty(s);
  }

  lemma EnterKeepsMessage(c: Conc, t: nat)
    requires Shape(c) && t < |c.threads| && InProd(c.threads[t]) && !ClaimedProd(c.threads[t])
    ensures var l' := StepEnter(c, t).threads[t]; InProd(l') ==> l'.msg == c.threads[t].msg
  {
  }

  lemma FillKeepsMessage(c: Conc, t: nat, junk: nat -> Byte)
    requires Shape(c) && t < |c.threads| && ClaimedProd(c.threads[t])
    ensures var l' := StepFill(c, t, junk).threads[t];
            !Unclaimed(l') && (InProd(l') ==> l'.msg == c.threads[t].msg)
  {
  }

  lemma ConsumerStaysOne(c: Conc, t: nat, junk: nat -> Byte)
    requires Shape(c) && t < |c.threads| && InCons(c.threads[t])
    ensures var l' := StepCons(c, t, junk).threads[t];
            !InProd(l') && (ClaimedCons(c.threads[t]) ==> !Unclaimed(l'))
  {
  }

  lemma SameMessage(c: Conc, a: Action)
    requires Shape(c) && Enabled(c, a) && a.Run?
    ensures var l, l' := c.threads[a.t], ConcStep(c, a).threads[a.t]; InProd(l') ==> InProd(l) && l'.msg == l.msg
  {
    if ClaimedProd(c.threads[a.t]) {
      FillKeepsMessage(c, a.t, a.junk);
    } else if InProd(c.threads[a.t]) {
      EnterKeepsMessage(c, a.t);
    } else {
      ConsumerStaysOne(c, a.t, a.junk);
    }
  }

  lemma SentOnlyGrows(c: Conc, x: Aux, a: Action)
    requires a.t < |c.threads| == |x.ticket| && a.Run?
    ensures var x', l := AuxStep(c, x, a), c.threads[a.t];
            x'.sent == x.sent || (InProd(l) && x'.sent == x.sent + [l.msg])
  {
  }

  lemma NoLongerStays(s: Sys, a: Action, s': Sys, len: nat)
    requires WellFormed(s) && Enabled(s.c, a) && a.Run? && NoLonger(s, len)
    requires |s'.c.threads| == |s.c.threads|
    requires forall u :: 0 <= u < |s.c.threads| && u != a.t ==> s'.c.threads[u] == s.c.threads[u]
    requires var l, l' := s.c.threads[a.t], s'.c.threads[a.t];
             && (InProd(l') ==> InProd(l) && l'.msg == l.msg)
             && (s'.x.sent == s.x.sent || (InProd(l) && s'.x.sent == s.x.sent + [l.msg]))
    ensures NoLonger(s', len)
  {
  }

  /** What an unclaimed call must be charged so that its claim pays for all it may cause. */
  function Charge(threads: nat, len: nat): nat { Extra(3, threads) + len + 5 }

  /**
   Every guarded step of every thread, in or before its claim, lowers the total cost, unless it is a
   failed tail test, which changes nothing.
   */
  lemma StepLowersCost(s: Sys, a: Action, len: nat)
    requires Inv(s) && Enabled(s.c, a) && a.Run? && Guarded(s.c, a) && NoLonger(s, len)
    ensures var b := Charge(|s.c.threads|, len);
            && (FailedTailTest(s.c, a.t) ==> Step(s, a) == s)
            && (!FailedTailTest(s.c, a.t) ==> TotalCost(Step(s, a), b) < TotalCost(s, b))
    ensures Inv(Step(s, a)) && NoLonger(Step(s, a), len)
  {
    var b, n, s' := Charge(|s.c.threads|, len), |s.c.threads|, Step(s, a);
    StepKeepsInv(s, a);
    SameMessage(s.c, a);
    SentOnlyGrows(s.c, s.x, a);
    NoLongerStays(s, a, s', len);
    if Unclaimed(s.c.threads[a.t]) && ClaimSucceeds(s.c, a.t) {
      ClaimStep(s, a, b, len);
      forall u | 0 <= u < n && u != a.t ensures Cost(s', u, b) <= Cost(s, u, b) + 3 {
        OthersCostAtMost3More(s, a, b, u);
      }
      CostsRise(s, s', a.t, b, 3, n);
    } else {
      QuietStepLowersCost(s, a, b);
    }
  }

  lemma QuietStepLowersCost(s: Sys, a: Action, b: nat)
    requires Inv(s) && Enabled(s.c, a) && a.Run? && !(Unclaimed(s.c.threads[a.t]) && ClaimSucceeds(s.c, a.t))
    ensures FailedTailTest(s.c, a.t) ==> Step(s, a) == s
    ensures !FailedTailTest(s.c, a.t) ==> TotalCost(Step(s, a), b) < TotalCost(s, b)
  {
    var n, s' := |s.c.threads|, Step(s, a);
    if Unclaimed(s.c.threads[a.t]) {
      UnclaimedStep(s, a, b);
    } else {
      StepLowersWork(s, a);
      ClaimedStep(s, a);
      ClaimedStepCosts(s, a, b);
    }
    forall u | 0 <= u < n && u != a.t ensures Cost(s', u, b) <= Cost(s, u, b) + 0 {
      OthersCostTheSame(s, a, b, u);
    }
    CostsRise(s, s', a.t, b, 0, n);
    NothingExtra(n);
  }

  lemma ClaimedStepCosts(s: Sys, a: Action, b: nat)
    requires Inv(s) && Enabled(s.c, a) && a.Run? && InClaim(s.c.threads[a.t])
    ensures !FailedTailTest(s.c, a.t) ==> Cost(Step(s, a), a.t, b) < Cost(s, a.t, b)
  {
    if ClaimedProd(s.c.threads[a.t]) { ProdStepWorks(s, a); } else { ConsStepWorks(s, a); }
    NeverUnclaimedAgain(s, a);
  }

  lemma NeverUnclaimedAgain(s: Sys, a: Action)
    requires Inv(s) && Enabled(s.c, a) && a.Run? && InClaim(s.c.threads[a.t])
    ensures !Unclaimed(Step(s, a).c.threads[a.t])
  {
    if ClaimedProd(s.c.threads[a.t]) {
      FillKeepsMessage(s.c, a.t, a.junk);
    } else {
      ConsumerStaysOne(s.c, a.t, a.junk);
    }
  }

  // ---------------------------------------------------------------- every schedule

  /** A step of a call in progress, made while its guard, if it is a claim, holds. */
  ghost predicate CallStep(s: Sys, a: Action, s': Sys) {
    IsStep(s, a, s') && a.Run? && Guarded(s.c, a)
  }

  ghost predicate CallPath(ss: seq<Sys>, acts: seq<Action>) {
    Linked(ss, acts, CallStep)
  }

  lemma CallStepCounts(s: Sys, a: Action, s': Sys, len: nat)
    requires Inv(s) && CallStep(s, a, s') && NoLonger(s, len)
    ensures Inv(s') && NoLonger(s', len) && |s'.c.threads| == |s.c.threads|
    ensures var b := Charge(|s.c.threads|, len); Counts(s.c, a) + TotalCost(s', b) <= TotalCost(s, b)
  {
    StepLowersCost(s, a, len);
  }

  lemma PathStepCosts(ss: seq<Sys>, acts: seq<Action>, m: nat, len: nat)
    requires CallPath(ss, acts) && m < |acts| && Inv(ss[m]) && NoLonger(ss[m], len)
    ensures Inv(ss[m + 1]) && NoLonger(ss[m + 1], len) && |ss[m + 1].c.threads| == |ss[m].c.threads|
    ensures var b := Charge(|ss[m].c.threads|, len);
            Counts(ss[m].c, acts[m]) + TotalCost(ss[m + 1], b) <= TotalCost(ss[m], b)
  {
    assert CallStep(ss[m], acts[m], ss[m + 1]);
    CallStepCounts(ss[m], acts[m], ss[m + 1], len);
  }

  lemma {:induction false} CostBoundsPrefix(ss: seq<Sys>, acts: seq<Action>, n: nat, len: nat)
    requires CallPath(ss, acts) && Inv(ss[0]) && NoLonger(ss[0], len) && n <= |acts|
    ensures Inv(ss[n]) && NoLonger(ss[n], len) && |ss[n].c.threads| == |ss[0].c.threads|
    ensures var b := Charge(|ss[0].c.threads|, len);
            Effective(ss, acts, n) + TotalCost(ss[n], b) <= TotalCost(ss[0], b)
  {
    if n > 0 {
      var m := n - 1;
      CostBoundsPrefix(ss, acts, m, len);
      assert Effective(ss, acts, n) == Effective(ss, acts, m) + Counts(ss[m].c, acts[m]);
      PathStepCosts(ss, acts, m, len);
    }
  }

  /** Every thread in a call is waiting for a tail that has not reached its slot. */
  ghost predicate OnlyWaiting(c: Conc) {
    forall t :: 0 <= t < |c.threads| ==> Resting(c.threads[t]) || FailedTailTest(c, t)
  }

  lemma OnlyWaitingMeansReturned(s: Sys)
    requires Inv(s) && OnlyWaiting(s.c)
    ensures forall t :: 0 <= t < |s.c.threads| ==> Resting(s.c.threads[t])
  {
    FinishedMeansNothingPending(s);
  }

  /**
   Every schedule of the calls in progress, retry loops included: with messages of at most len bytes
   it has at most TotalCost steps that are not failed tail tests, and where only such tests are left
   every call has returned.
   */
  lemma EveryCallScheduleEnds(ss: seq<Sys>, acts: seq<Action>, len: nat)
    requires CallPath(ss, acts) && Inv(ss[0]) && NoLonger(ss[0], len)
    ensures Effective(ss, acts, |acts|) <= TotalCost(ss[0], Charge(|ss[0].c.threads|, len))
    ensures Inv(ss[|acts|])
    ensures var z := ss[|acts|];
            OnlyWaiting(z.c) ==> forall t :: 0 <= t < |z.c.threads| ==> Resting(z.c.threads[t])
  {
    CostBoundsPrefix(ss, acts, |acts|, len);
    var z := ss[|acts|];
    if OnlyWaiting(z.c) {
      OnlyWaitingMeansReturned(z);
    }
  }
}

/**
 The ring cannot deadlock: from every state that meets the invariant the threads inside a claim
 can all finish, by themselves, in ticket order.
 */
module RingProgress {
  import opened Prelude
  import opened RingIndex
  import opened RingProtocol
  import opened RingInvariant
  import opened RingTheorems

  /** A path made only of steps of threads that have already claimed a ticket. */
  ghost predicate FinishingPath(ss: seq<Sys>, acts: seq<Action>) {
    Linked(ss, acts, FinishingStep)
  }

  ghost predicate FinishingStep(s: Sys, a: Action, s': Sys) {
    IsStep(s, a, s') && a.Run? && InClaim(s.c.threads[a.t])
  }

  /** How many steps at most separate a claimed thread whose turn it is from its return. */
  function Remaining(l: Local, n: nat): nat {
    match l
    case PGrow(msg, _) => |msg| + 5
    case PCopy(msg, _, i) => if i <= |msg| then |msg| - i + 4 else 4
    case PLen(_, _) => 3
    case PWait(_, _) => 2
    case PPub(_, _) => 1
    case CGrow(_, _) => n + 5
    case CCopy(_, _, i) => if i <= n then n - i + 4 else 4
    case CLen(_, _) => 3
    case CWait(_, _) => 2
    case CPub(_, _) => 1
    case _ => 0
  }

  const NO_JUNK: nat -> Byte := _ => 0

  lemma JoinPaths(ss: seq<Sys>, acts: seq<Action>, ss': seq<Sys>, acts': seq<Action>)
    requires FinishingPath(ss, acts) && FinishingPath(ss', acts') && ss[|acts|] == ss'[0]
    ensures FinishingPath(ss + ss'[1..], acts + acts')
    ensures (ss + ss'[1..])[0] == ss[0] && (ss + ss'[1..])[|acts + acts'|] == ss'[|acts'|]
  {
    JoinLinked(ss, acts, ss', acts', FinishingStep);
  }

  lemma ExtendFront(s: Sys, a: Action, ss: seq<Sys>, acts: seq<Action>)
    requires FinishingPath(ss, acts) && FinishingStep(s, a, ss[0])
    ensures FinishingPath([s] + ss, [a] + acts)
    ensures ([s] + ss)[|[a] + acts|] == ss[|acts|]
  {
    JoinLinked([s, ss[0]], [a], ss, acts, FinishingStep);
    assert [s] + ss == [s, ss[0]] + ss[1..];
  }

  /**
   While anything is pending, exactly one pending producer finds the stored tail at its own slot:
   the one that won ticket pt. So the wait for the tail lets one through, and no two at once.
   */
  lemma OneProducerOwnsTail(s: Sys)
    requires Inv(s) && s.x.pt < s.x.ph
    ensures s.x.pOwner[s.x.pt] < |s.c.threads|
    ensures forall t :: 0 <= t < |s.c.threads| && ClaimedProd(s.c.threads[t]) ==>
              (s.c.threads[t].h == s.c.ring.prodTail <==> t == s.x.pOwner[s.x.pt])
    ensures ClaimedProd(s.c.threads[s.x.pOwner[s.x.pt]])
  {
    assert PendingProd(s, s.x.pt);
    forall t | 0 <= t < |s.c.threads| && ClaimedProd(s.c.threads[t])
      ensures s.c.threads[t].h == s.c.ring.prodTail <==> t == s.x.pOwner[s.x.pt]
    {
      assert ThreadOk(s, t);
      SlotInjective(s.x.pt, s.x.ticket[t], s.c.ring.size);
    }
  }

  lemma OneConsumerOwnsTail(s: Sys)
    requires Inv(s) && s.x.ct < s.x.ch
    ensures s.x.cOwner[s.x.ct] < |s.c.threads|
    ensures forall t :: 0 <= t < |s.c.threads| && ClaimedCons(s.c.threads[t]) ==>
              (s.c.threads[t].h == s.c.ring.consTail <==> t == s.x.cOwner[s.x.ct])
    ensures ClaimedCons(s.c.threads[s.x.cOwner[s.x.ct]])
  {
    assert PendingCons(s, s.x.ct);
    forall t | 0 <= t < |s.c.threads| && ClaimedCons(s.c.threads[t])
      ensures s.c.threads[t].h == s.c.ring.consTail <==> t == s.x.cOwner[s.x.ct]
    {
      assert ThreadOk(s, t);
      SlotInjective(s.x.ct, s.x.ticket[t], s.c.ring.size);
    }
  }

  /** One step of the thread whose turn it is brings it closer to publishing. */
  lemma ProdTurnStep(s: Sys, t: nat)
    requires Inv(s) && t < |s.c.threads| && ClaimedProd(s.c.threads[t]) && s.x.ticket[t] == s.x.pt
    ensures var s' := Step(s, Run(t, NO_JUNK));
            && Inv(s') && s'.x.ph == s.x.ph && s'.x.ch == s.x.ch && s'.x.ct == s.x.ct
            && (s.c.threads[t].PPub? ==> s'.x.pt == s.x.pt + 1 && s'.c.threads[t] == EnqRet(SUCCESS))
            && (!s.c.threads[t].PPub? ==>
                  && s'.x.pt == s.x.pt && ClaimedProd(s'.c.threads[t]) && s'.x.ticket[t] == s.x.ticket[t]
                  && Remaining(s'.c.threads[t], 0) < Remaining(s.c.threads[t], 0))
  {
    assert ThreadOk(s, t);
    StepKeepsInv(s, Run(t, NO_JUNK));
  }

  lemma {:induction false} FinishProd(s: Sys, t: nat) returns (ss: seq<Sys>, acts: seq<Action>)
    requires Inv(s) && t < |s.c.threads| && ClaimedProd(s.c.threads[t]) && s.x.ticket[t] == s.x.pt
    ensures FinishingPath(ss, acts) && ss[0] == s
    ensures forall i :: 0 <= i < |acts| ==> acts[i].t == t
    ensures var z := ss[|acts|];
            && Inv(z) && z.x.pt == s.x.pt + 1 && z.x.ph == s.x.ph && z.x.ch == s.x.ch && z.x.ct == s.x.ct
            && |z.c.threads| == |s.c.threads| && z.c.threads[t] == EnqRet(SUCCESS)
    decreases Remaining(s.c.threads[t], 0)
  {
    var a := Run(t, NO_JUNK);
    var s' := Step(s, a);
    ProdTurnStep(s, t);
    assert FinishingStep(s, a, s');
    if s.c.threads[t].PPub? {
      ss, acts := [s, s'], [a];
    } else {
      ss, acts := FinishProd(s', t);
      ExtendFront(s, a, ss, acts);
      ss, acts := [s] + ss, [a] + acts;
    }
  }

  lemma ConsTurnStep(s: Sys, t: nat, n: nat)
    requires Inv(s) && t < |s.c.threads| && ClaimedCons(s.c.threads[t]) && s.x.ticket[t] == s.x.ct
    requires s.x.ct < |s.x.sent| && n == |s.x.sent[s.x.ct]|
    ensures var s' := Step(s, Run(t, NO_JUNK));
            && Inv(s') && s'.x.ph == s.x.ph && s'.x.pt == s.x.pt && s'.x.ch == s.x.ch && s'.x.sent == s.x.sent
            && (s.c.threads[t].CPub? ==>
                  && s'.x.ct == s.x.ct + 1 && s'.c.threads[t].DeqRet? && s'.c.threads[t].code == SUCCESS
                  && Taken(s'.c.threads[t].out) == s.x.sent[s.x.ct])
            && (!s.c.threads[t].CPub? ==>
                  && s'.x.ct == s.x.ct && ClaimedCons(s'.c.threads[t]) && s'.x.ticket[t] == s.x.ticket[t]
                  && Remaining(s'.c.threads[t], n) < Remaining(s.c.threads[t], n))
  {
    StepKeepsInv(s, Run(t, NO_JUNK));
    if s.c.threads[t].CPub? {
      ReleaseHandsOutNext(s, t);
    } else {
      ConsCopyProgress(s, t);
    }
  }

  lemma ConsCopyProgress(s: Sys, t: nat)
    requires Inv(s) && t < |s.c.threads| && ClaimedCons(s.c.threads[t]) && !s.c.threads[t].CPub?
    requires s.x.ticket[t] == s.x.ct < |s.x.sent|
    ensures var l', n := ConcStep(s.c, Run(t, NO_JUNK)).threads[t], |s.x.sent[s.x.ct]|;
            ClaimedCons(l') && Remaining(l', n) < Remaining(s.c.threads[t], n)
  {
    assert ThreadOk(s, t);
    ClaimedEntryHolds(s, t);
  }

  lemma {:induction false} FinishCons(s: Sys, t: nat) returns (ss: seq<Sys>, acts: seq<Action>)
    requires Inv(s) && t < |s.c.threads| && ClaimedCons(s.c.threads[t]) && s.x.ticket[t] == s.x.ct
    requires s.x.ct < |s.x.sent|
    ensures FinishingPath(ss, acts) && ss[0] == s
    ensures forall i :: 0 <= i < |acts| ==> acts[i].t == t
    ensures var z := ss[|acts|];
            && Inv(z) && z.x.ct == s.x.ct + 1 && z.x.ph == s.x.ph && z.x.pt == s.x.pt && z.x.ch == s.x.ch
            && |z.c.threads| == |s.c.threads| && z.c.threads[t].DeqRet? && z.c.threads[t].code == SUCCESS
            && Taken(z.c.threads[t].out) == s.x.sent[s.x.ct]
    decreases Remaining(s.c.threads[t], |s.x.sent[s.x.ct]|)
  {
    var a := Run(t, NO_JUNK);
    var s' := Step(s, a);
    ConsTurnStep(s, t, |s.x.sent[s.x.ct]|);
    assert FinishingStep(s, a, s');
    if s.c.threads[t].CPub? {
      ss, acts := [s, s'], [a];
    } else {
      ss, acts := FinishCons(s', t);
      ExtendFront(s, a, ss, acts);
      ss, acts := [s] + ss, [a] + acts;
    }
  }

  /**
   Pending producers hold exactly the tickets from pt to ph; the one that owns pt can publish
   running alone, after which the next one can, until nothing is pending.
   */
  lemma {:induction false} ProducersCanFinish(s: Sys) returns (ss: seq<Sys>, acts: seq<Action>)
    requires Inv(s)
    ensures FinishingPath(ss, acts) && ss[0] == s
    ensures var z := ss[|acts|];
            Inv(z) && z.x.pt == z.x.ph == s.x.ph && z.x.ch == s.x.ch && z.x.ct == s.x.ct
    decreases s.x.ph - s.x.pt
  {
    if s.x.pt == s.x.ph {
      ss, acts := [s], [];
    } else {
      assert PendingProd(s, s.x.pt);
      ss, acts := FinishProd(s, s.x.pOwner[s.x.pt]);
      var ss', acts' := ProducersCanFinish(ss[|acts|]);
      JoinPaths(ss, acts, ss', acts');
      ss, acts := ss + ss'[1..], acts + acts';
    }
  }

  lemma {:induction false} ConsumersCanFinish(s: Sys) returns (ss: seq<Sys>, acts: seq<Action>)
    requires Inv(s)
    ensures FinishingPath(ss, acts) && ss[0] == s
    ensures var z := ss[|acts|];
            Inv(z) && z.x.ct == z.x.ch == s.x.ch && z.x.pt == s.x.pt && z.x.ph == s.x.ph
    decreases s.x.ch - s.x.ct
  {
    if s.x.ct == s.x.ch {
      ss, acts := [s], [];
    } else {
      assert PendingCons(s, s.x.ct);
      ss, acts := FinishCons(s, s.x.cOwner[s.x.ct]);
      var ss', acts' := ConsumersCanFinish(ss[|acts|]);
      JoinPaths(ss, acts, ss', acts');
      ss, acts := ss + ss'[1..], acts + acts';
    }
  }

  /** Every claim ever made can be completed by the claimants' own steps alone: no deadlock. */
  lemma EveryClaimCanFinish(s: Sys) returns (ss: seq<Sys>, acts: seq<Action>)
    requires Inv(s)
    ensures FinishingPath(ss, acts) && ss[0] == s
    ensures var z := ss[|acts|];
            && Inv(z) && z.x.pt == z.x.ph == s.x.ph && z.x.ct == z.x.ch == s.x.ch
            && forall t :: 0 <= t < |z.c.threads| ==> !InClaim(z.c.threads[t])
  {
    ss, acts := ProducersCanFinish(s);
    var ss', acts' := ConsumersCanFinish(ss[|acts|]);
    JoinPaths(ss, acts, ss', acts');
    ss, acts := ss + ss'[1..], acts + acts';
    var z := ss[|acts|];
    forall t | 0 <= t < |z.c.threads| ensures !InClaim(z.c.threads[t]) {
      assert ThreadOk(z, t);
    }
  }
}

/**
 The ring the header describes: indices run freely, are compared and subtracted as they are, and are
 reduced modulo the size only to select a slot. The ring of the code, which stores masked indices,
 takes the same step exactly when it does not decide by a head that has gone stale.
 */
module RingFree {
  import opened Prelude
  import opened RingIndex
  import opened RingProtocol
  import opened RingInvariant
  import opened RingTheorems

  /** A state of the free-running ring: the same record, its indices and locals being tickets. */
  ghost predicate FreeShape(c: Conc) {
    c.ring.size > 0 && |c.ring.slots| == c.ring.size
  }

  /** The slot that index k selects. */
  function At(r: Ring, k: nat): (h: nat)
    requires r.size > 0
    ensures h < r.size
  {
    Slot(k, r.size)
  }

  function FreeProd(c: Conc, t: nat, junk: nat -> Byte): Conc
    requires FreeShape(c) && t < |c.threads| && InProd(c.threads[t])
  {
    var r := c.ring;
    match c.threads[t]
    case PLoad(msg) => Goto(c, t, PTest(msg, r.prodHead))
    case PTest(msg, k) =>
      if k + 1 == r.consTail + r.size then Goto(c, t, EnqRet(NOSPACE)) else Goto(c, t, PClaim(msg, k))
    case PClaim(msg, k) =>
      if c.cfg.multiProd && r.prodHead != k then Goto(c, t, PLoad(msg))
      else Goto(c.(ring := r.(prodHead := k + 1)), t, PGrow(msg, k))
    case PGrow(msg, k) =>
      var e := r.slots[At(r, k)];
      var e' := if e.size < |msg| then e.(data := Malloc(|msg|, junk), size := |msg|) else e;
      Goto(c.(ring := SetSlot(r, At(r, k), e')), t, PCopy(msg, k, 0))
    case PCopy(msg, k, i) =>
      var e := r.slots[At(r, k)];
      if i >= |msg| then Goto(c, t, PLen(msg, k))
      else if i >= |e.data| then Goto(c.(fault := true), t, PCopy(msg, k, i + 1))
      else Goto(c.(ring := SetSlot(r, At(r, k), e.(data := e.data[i := msg[i]]))), t, PCopy(msg, k, i + 1))
    case PLen(msg, k) =>
      Goto(c.(ring := SetSlot(r, At(r, k), r.slots[At(r, k)].(contentLength := |msg|))), t,
           if c.cfg.multiProd then PWait(msg, k) else PPub(msg, k))
    case PWait(msg, k) => if r.prodTail == k then Goto(c, t, PPub(msg, k)) else c
    case PPub(msg, k) => Goto(c.(ring := r.(prodTail := k + 1)), t, EnqRet(SUCCESS))
  }

  function FreeCons(c: Conc, t: nat, junk: nat -> Byte): Conc
    requires FreeShape(c) && t < |c.threads| && InCons(c.threads[t])
  {
    var r := c.ring;
    match c.threads[t]
    case CLoad(out) => Goto(c, t, CTest(out, r.consHead))
    case CTest(out, k) =>
      if k == r.prodTail then Goto(c, t, DeqRet(NOENT, out)) else Goto(c, t, CClaim(out, k))
    case CClaim(out, k) =>
      if c.cfg.multiCons && r.consHead != k then Goto(c, t, CLoad(out))
      else Goto(c.(ring := r.(consHead := k + 1)), t, CGrow(out, k))
    case CGrow(out, k) =>
      var e := r.slots[At(r, k)];
      var out' := if out.size < e.contentLength then out.(data := Malloc(e.size, junk)) else out;
      Goto(c, t, CCopy(out', k, 0))
    case CCopy(out, k, i) =>
      var e := r.slots[At(r, k)];
      if i >= e.contentLength then Goto(c, t, CLen(out, k))
      else if i >= |e.data| || i >= |out.data| then Goto(c.(fault := true), t, CCopy(out, k, i + 1))
      else Goto(c, t, CCopy(out.(data := out.data[i := e.data[i]]), k, i + 1))
    case CLen(out, k) =>
      var out' := out.(contentLength := r.slots[At(r, k)].contentLength);
      Goto(c, t, if c.cfg.multiCons then CWait(out', k) else CPub(out', k))
    case CWait(out, k) => if r.consTail == k then Goto(c, t, CPub(out, k)) else c
    case CPub(out, k) => Goto(c.(ring := r.(consTail := k + 1)), t, DeqRet(SUCCESS, out))
  }

  function FreeStep(c: Conc, a: Action): Conc
    requires FreeShape(c) && Enabled(c, a)
  {
    match a
    case CallEnq(t, msg) => Goto(c, t, PLoad(msg))
    case CallDeq(t, out) => Goto(c, t, CLoad(out))
    case Run(t, junk) => if InProd(c.threads[t]) then FreeProd(c, t, junk) else FreeCons(c, t, junk)
  }

  // ---------------------------------------------------------------- the simulation

  /** The local state with its ticket in place of its masked index. */
  function Unmasked(l: Local, k: nat): Local {
    match l
    case PTest(msg, _) => PTest(msg, k)
    case PClaim(msg, _) => PClaim(msg, k)
    case PGrow(msg, _) => PGrow(msg, k)
    case PCopy(msg, _, i) => PCopy(msg, k, i)
    case PLen(msg, _) => PLen(msg, k)
    case PWait(msg, _) => PWait(msg, k)
    case PPub(msg, _) => PPub(msg, k)
    case CTest(out, _) => CTest(out, k)
    case CClaim(out, _) => CClaim(out, k)
    case CGrow(out, _) => CGrow(out, k)
    case CCopy(out, _, i) => CCopy(out, k, i)
    case CLen(out, _) => CLen(out, k)
    case CWait(out, _) => CWait(out, k)
    case CPub(out, _) => CPub(out, k)
    case _ => l
  }

  function Tickets(r: Ring, x: Aux): Ring {
    r.(prodHead := x.ph, prodTail := x.pt, consHead := x.ch, consTail := x.ct)
  }

  function UnmaskedThreads(threads: seq<Local>, ticket: seq<nat>): (us: seq<Local>)
    requires |threads| == |ticket|
    ensures |us| == |threads|
  {
    seq(|threads|, t requires 0 <= t < |threads| => Unmasked(threads[t], ticket[t]))
  }

  /** The free-running ring that a state of the code's ring stands for. */
  function Free(s: Sys): Conc
    requires |s.c.threads| == |s.x.ticket|
  {
    s.c.(ring := Tickets(s.c.ring, s.x), threads := UnmaskedThreads(s.c.threads, s.x.ticket))
  }

  /** The free-running image of a step that moves thread t to l' with ticket k'. */
  lemma FreeOfGoto(s: Sys, s': Sys, t: nat)
    requires WellFormed(s) && WellFormed(s') && OthersUntouched(s, s', t) && t < |s.c.threads|
    ensures Free(s').threads == Free(s).threads[t := Unmasked(s'.c.threads[t], s'.x.ticket[t])]
  {
  }

  lemma FreeEnabled(s: Sys, a: Action)
    requires WellFormed(s) && Enabled(s.c, a)
    ensures Enabled(Free(s), a)
  {
  }

  /**
   Thread a.t refuses (for want of room or of an entry) or claims on the strength of a head that is
   no longer the ring's: it was loaded with another ticket than the next one.
   */
  ghost predicate StaleDecision(s: Sys, a: Action)
    requires WellFormed(s) && Enabled(s.c, a)
  {
    StaleRefusal(s, a) || StaleClaim(s, a)
  }

  ghost predicate StaleRefusal(s: Sys, a: Action)
    requires WellFormed(s) && Enabled(s.c, a)
  {
    a.Run? &&
    match s.c.threads[a.t]
    case PTest(_, h) => Next(s.c.ring, h) == s.c.ring.consTail && s.x.ticket[a.t] != s.x.ph
    case CTest(_, h) => h == s.c.ring.prodTail && s.x.ticket[a.t] != s.x.ch
    case _ => false
  }

  ghost predicate StaleClaim(s: Sys, a: Action)
    requires WellFormed(s) && Enabled(s.c, a)
  {
    a.Run? && ClaimSucceeds(s.c, a.t) &&
    match s.c.threads[a.t]
    case PClaim(_, _) => s.x.ticket[a.t] != s.x.ph
    case CClaim(_, _) => s.x.ticket[a.t] != s.x.ch
    case _ => false
  }

  lemma CallSimulated(s: Sys, a: Action)
    requires Inv(s) && Enabled(s.c, a) && !a.Run?
    ensures Enabled(Free(s), a) && FreeStep(Free(s), a) == Free(Step(s, a))
  {
    FreeOfGoto(s, Step(s, a), a.t);
  }

  lemma ProdLoadSimulated(s: Sys, a: Action)
    requires Inv(s) && Enabled(s.c, a) && a.Run?
    requires s.c.threads[a.t].PLoad?
    ensures FreeProd(Free(s), a.t, a.junk) == Free(Step(s, a))
  {
    assert ThreadOk(s, a.t);
    FreeOfGoto(s, Step(s, a), a.t);
  }

  lemma ProdTestSimulated(s: Sys, a: Action)
    requires Inv(s) && Enabled(s.c, a) && a.Run?
    requires s.c.threads[a.t].PTest?
    ensures FreeProd(Free(s), a.t, a.junk) == Free(Step(s, a)) <==> !StaleDecision(s, a)
  {
    assert ThreadOk(s, a.t);
    RoomTestMeaning(s, a.t);
    RoomMeansNotFull(s);
    FreeOfGoto(s, Step(s, a), a.t);
    assert FreeProd(Free(s), a.t, a.junk).threads[a.t] == Free(Step(s, a)).threads[a.t] <==> !StaleDecision(s, a);
  }

  lemma ProdClaimSimulated(s: Sys, a: Action)
    requires Inv(s) && Enabled(s.c, a) && a.Run?
    requires s.c.threads[a.t].PClaim?
    ensures FreeProd(Free(s), a.t, a.junk) == Free(Step(s, a)) <==> !StaleDecision(s, a)
  {
    assert ThreadOk(s, a.t);
    FreeOfGoto(s, Step(s, a), a.t);
    assert FreeProd(Free(s), a.t, a.junk).threads[a.t] == Free(Step(s, a)).threads[a.t] <==> !StaleDecision(s, a);
  }

  lemma ProdGrowSimulated(s: Sys, a: Action)
    requires Inv(s) && Enabled(s.c, a) && a.Run?
    requires s.c.threads[a.t].PGrow?
    ensures FreeProd(Free(s), a.t, a.junk) == Free(Step(s, a))
  {
    assert ThreadOk(s, a.t);
    FreeOfGoto(s, Step(s, a), a.t);
  }

  lemma ProdLenSimulated(s: Sys, a: Action)
    requires Inv(s) && Enabled(s.c, a) && a.Run?
    requires s.c.threads[a.t].PLen?
    ensures FreeProd(Free(s), a.t, a.junk) == Free(Step(s, a))
  {
    assert ThreadOk(s, a.t);
    FreeOfGoto(s, Step(s, a), a.t);
  }

  lemma ProdCopySimulated(s: Sys, a: Action)
    requires Inv(s) && Enabled(s.c, a) && a.Run?
    requires s.c.threads[a.t].PCopy?
    ensures FreeProd(Free(s), a.t, a.junk) == Free(Step(s, a))
  {
    assert ThreadOk(s, a.t);
    FreeOfGoto(s, Step(s, a), a.t);
  }

  lemma ProdWaitSimulated(s: Sys, a: Action)
    requires Inv(s) && Enabled(s.c, a) && a.Run?
    requires s.c.threads[a.t].PWait?
    ensures FreeProd(Free(s), a.t, a.junk) == Free(Step(s, a))
  {
    assert ThreadOk(s, a.t);
    MaskedTestsAgreeWithTickets(s, a);
    FreeOfGoto(s, Step(s, a), a.t);
  }

  lemma ProdPublishSimulated(s: Sys, a: Action)
    requires Inv(s) && Enabled(s.c, a) && a.Run?
    requires s.c.threads[a.t].PPub?
    ensures FreeProd(Free(s), a.t, a.junk) == Free(Step(s, a))
  {
    assert ThreadOk(s, a.t);
    FreeOfGoto(s, Step(s, a), a.t);
  }

  lemma ConsLoadSimulated(s: Sys, a: Action)
    requires Inv(s) && Enabled(s.c, a) && a.Run?
    requires s.c.threads[a.t].CLoad?
    ensures FreeCons(Free(s), a.t, a.junk) == Free(Step(s, a))
  {
    assert ThreadOk(s, a.t);
    FreeOfGoto(s, Step(s, a), a.t);
  }

  lemma ConsTestSimulated(s: Sys, a: Action)
    requires Inv(s) && Enabled(s.c, a) && a.Run?
    requires s.c.threads[a.t].CTest?
    ensures FreeCons(Free(s), a.t, a.junk) == Free(Step(s, a)) <==> !StaleDecision(s, a)
  {
    assert ThreadOk(s, a.t);
    EntryTestMeaning(s, a.t);
    EntryMeansNotEmpty(s);
    FreeOfGoto(s, Step(s, a), a.t);
    assert FreeCons(Free(s), a.t, a.junk).threads[a.t] == Free(Step(s, a)).threads[a.t] <==> !StaleDecision(s, a);
  }

  lemma ConsClaimSimulated(s: Sys, a: Action)
    requires Inv(s) && Enabled(s.c, a) && a.Run?
    requires s.c.threads[a.t].CClaim?
    ensures FreeCons(Free(s), a.t, a.junk) == Free(Step(s, a)) <==> !StaleDecision(s, a)
  {
    assert ThreadOk(s, a.t);
    FreeOfGoto(s, Step(s, a), a.t);
    assert FreeCons(Free(s), a.t, a.junk).threads[a.t] == Free(Step(s, a)).threads[a.t] <==> !StaleDecision(s, a);
  }

  lemma ConsGrowSimulated(s: Sys, a: Action)
    requires Inv(s) && Enabled(s.c, a) && a.Run?
    requires s.c.threads[a.t].CGrow?
    ensures FreeCons(Free(s), a.t, a.junk) == Free(Step(s, a))
  {
    assert ThreadOk(s, a.t);
    FreeOfGoto(s, Step(s, a), a.t);
  }

  lemma ConsLenSimulated(s: Sys, a: Action)
    requires Inv(s) && Enabled(s.c, a) && a.Run?
    requires s.c.threads[a.t].CLen?
    ensures FreeCons(Free(s), a.t, a.junk) == Free(Step(s, a))
  {
    assert ThreadOk(s, a.t);
    FreeOfGoto(s, Step(s, a), a.t);
  }

  lemma ConsCopySimulated(s: Sys, a: Action)
    requires Inv(s) && Enabled(s.c, a) && a.Run?
    requires s.c.threads[a.t].CCopy?
    ensures FreeCons(Free(s), a.t, a.junk) == Free(Step(s, a))
  {
    assert ThreadOk(s, a.t);
    FreeOfGoto(s, Step(s, a), a.t);
  }

  lemma ConsWaitSimulated(s: Sys, a: Action)
    requires Inv(s) && Enabled(s.c, a) && a.Run?
    requires s.c.threads[a.t].CWait?
    ensures FreeCons(Free(s), a.t, a.junk) == Free(Step(s, a))
  {
    assert ThreadOk(s, a.t);
    MaskedTestsAgreeWithTickets(s, a);
    FreeOfGoto(s, Step(s, a), a.t);
  }

  lemma ConsReleaseSimulated(s: Sys, a: Action)
    requires Inv(s) && Enabled(s.c, a) && a.Run?
    requires s.c.threads[a.t].CPub?
    ensures FreeCons(Free(s), a.t, a.junk) == Free(Step(s, a))
  {
    assert ThreadOk(s, a.t);
    FreeOfGoto(s, Step(s, a), a.t);
  }

  /** A step is the free-running ring's step if and only if it is no decision by a stale head. */
  lemma StepSimulated(s: Sys, a: Action)
    requires Inv(s) && Enabled(s.c, a)
    ensures FreeShape(Free(s)) && Enabled(Free(s), a)
    ensures FreeStep(Free(s), a) == Free(Step(s, a)) <==> !StaleDecision(s, a)
  {
    FreeEnabled(s, a);
    if !a.Run? {
      CallSimulated(s, a);
    } else {
      match s.c.threads[a.t]
      case PLoad(_) => ProdLoadSimulated(s, a);
      case PTest(_, _) => ProdTestSimulated(s, a);
      case PClaim(_, _) => ProdClaimSimulated(s, a);
      case PGrow(_, _) => ProdGrowSimulated(s, a);
      case PCopy(_, _, _) => ProdCopySimulated(s, a);
      case PLen(_, _) => ProdLenSimulated(s, a);
      case PWait(_, _) => ProdWaitSimulated(s, a);
      case PPub(_, _) => ProdPublishSimulated(s, a);
      case CLoad(_) => ConsLoadSimulated(s, a);
      case CTest(_, _) => ConsTestSimulated(s, a);
      case CClaim(_, _) => ConsClaimSimulated(s, a);
      case CGrow(_, _) => ConsGrowSimulated(s, a);
      case CCopy(_, _, _) => ConsCopySimulated(s, a);
      case CLen(_, _) => ConsLenSimulated(s, a);
      case CWait(_, _) => ConsWaitSimulated(s, a);
      case CPub(_, _) => ConsReleaseSimulated(s, a);
    }
  }

  ghost predicate FreeRun(fs: seq<Conc>, acts: seq<Action>) {
    && |fs| == |acts| + 1 && ConcInit(fs[0])
    && forall i :: 0 <= i < |acts| ==> IsFreeStep(fs[i], acts[i], fs[i + 1])
  }

  ghost predicate IsFreeStep(c: Conc, a: Action, c': Conc) {
    FreeShape(c) && Enabled(c, a) && c' == FreeStep(c, a)
  }

  /** The states of a run, tickets in place of indices. */
  function FreeStates(ss: seq<Sys>): (fs: seq<Conc>)
    requires forall i :: 0 <= i < |ss| ==> |ss[i].c.threads| == |ss[i].x.ticket|
    ensures |fs| == |ss|
  {
    seq(|ss|, i requires 0 <= i < |ss| => Free(ss[i]))
  }

  lemma {:induction false} RunHasTickets(ss: seq<Sys>, acts: seq<Action>, n: nat)
    requires IsRun(ss, acts) && n < |ss|
    ensures |ss[n].c.threads| == |ss[n].x.ticket|
  {
    if n > 0 {
      var m := n - 1;
      assert IsStep(ss[m], acts[m], ss[m + 1]);
    }
  }

  lemma NotStaleGivesGuard(s: Sys, a: Action)
    requires Inv(s) && Enabled(s.c, a) && !StaleClaim(s, a)
    ensures Guarded(s.c, a)
  {
    assert ThreadOk(s, a.t);
    RoomMeansNotFull(s);
    EntryMeansNotEmpty(s);
  }

  lemma {:induction false} FreshPrefixIsInvariant(ss: seq<Sys>, acts: seq<Action>, n: nat)
    requires IsRun(ss, acts) && n < |ss|
    requires forall i :: 0 <= i < n ==> FreshStep(ss[i], acts[i], ss[i + 1])
    ensures Inv(ss[n])
  {
    if n == 0 {
      InitInv(ss[0]);
    } else {
      var m := n - 1;
      FreshPrefixIsInvariant(ss, acts, m);
      assert FreshStep(ss[m], acts[m], ss[m + 1]);
      NotStaleGivesGuard(ss[m], acts[m]);
      StepKeepsInv(ss[m], acts[m]);
    }
  }

  ghost predicate FreshStep(s: Sys, a: Action, s': Sys) {
    IsStep(s, a, s') && !StaleDecision(s, a)
  }

  /** No step of the run is a decision by a stale head. */
  ghost predicate FreshRun(ss: seq<Sys>, acts: seq<Action>)
    requires IsRun(ss, acts)
  {
    forall i :: 0 <= i < |acts| ==> FreshStep(ss[i], acts[i], ss[i + 1])
  }

  lemma FreshStepIsFree(s: Sys, a: Action, s': Sys)
    requires Inv(s) && IsStep(s, a, s')
    ensures |s'.c.threads| == |s'.x.ticket|
    ensures IsFreeStep(Free(s), a, Free(s')) <==> FreshStep(s, a, s')
  {
    StepSimulated(s, a);
  }

  /**
   Exactly which runs of the code's ring are, ticket for ticket, runs of the header's ring: those in
   which no thread refuses or claims by a stale head. No lap bound and no guard is supposed.
   */
  lemma RunIsFreeRunIff(ss: seq<Sys>, acts: seq<Action>)
    requires IsRun(ss, acts)
    ensures forall i :: 0 <= i < |ss| ==> |ss[i].c.threads| == |ss[i].x.ticket|
    ensures FreeRun(FreeStates(ss), acts) <==> FreshRun(ss, acts)
  {
    forall i | 0 <= i < |ss| ensures |ss[i].c.threads| == |ss[i].x.ticket| {
      RunHasTickets(ss, acts, i);
    }
    if FreshRun(ss, acts) {
      FreshRunIsFree(ss, acts);
    }
    if FreeRun(FreeStates(ss), acts) {
      FreeRunIsFresh(ss, acts, |acts|);
    }
  }

  lemma FreshRunIsFree(ss: seq<Sys>, acts: seq<Action>)
    requires IsRun(ss, acts) && FreshRun(ss, acts)
    requires forall i :: 0 <= i < |ss| ==> |ss[i].c.threads| == |ss[i].x.ticket|
    ensures FreeRun(FreeStates(ss), acts)
  {
    var fs := FreeStates(ss);
    forall i | 0 <= i < |acts| ensures IsFreeStep(fs[i], acts[i], fs[i + 1]) {
      FreshPrefixIsInvariant(ss, acts, i);
      assert FreshStep(ss[i], acts[i], ss[i + 1]);
      FreshStepIsFree(ss[i], acts[i], ss[i + 1]);
    }
  }

  lemma {:induction false} FreeRunIsFresh(ss: seq<Sys>, acts: seq<Action>, n: nat)
    requires IsRun(ss, acts) && n <= |acts|
    requires forall i :: 0 <= i < |ss| ==> |ss[i].c.threads| == |ss[i].x.ticket|
    requires FreeRun(FreeStates(ss), acts)
    ensures forall i :: 0 <= i < n ==> FreshStep(ss[i], acts[i], ss[i + 1])
  {
    if n > 0 {
      var m := n - 1;
      FreeRunIsFresh(ss, acts, m);
      FreshPrefixIsInvariant(ss, acts, m);
      assert IsStep(ss[m], acts[m], ss[m + 1]);
      var fs := FreeStates(ss);
      assert IsFreeStep(fs[m], acts[m], fs[m + 1]);
      FreshStepIsFree(ss[m], acts[m], ss[m + 1]);
    }
  }

  /** Any number of producers and consumers under the lap bound: only stale refusals differ. */
  lemma LapBoundedRunIsFreeRun(ss: seq<Sys>, acts: seq<Action>)
    requires IsRun(ss, acts) && LapBoundedRun(ss, acts)
    ensures forall i :: 0 <= i < |ss| ==> |ss[i].c.threads| == |ss[i].x.ticket|
    ensures FreeRun(FreeStates(ss), acts) <==>
            forall i :: 0 <= i < |acts| ==> NoStaleRefusal(ss[i], acts[i], ss[i + 1])
  {
    RunIsFreeRunIff(ss, acts);
    forall i | 0 <= i < |acts|
      ensures FreshStep(ss[i], acts[i], ss[i + 1]) <==> NoStaleRefusal(ss[i], acts[i], ss[i + 1])
    {
      LapBoundedPrefixIsInvariant(ss, acts, i);
      assert IsStep(ss[i], acts[i], ss[i + 1]) && LapBounded(ss[i], acts[i]);
      LapBoundGivesFresh(ss[i], acts[i]);
    }
    if FreshRun(ss, acts) {
      forall i | 0 <= i < |acts| ensures NoStaleRefusal(ss[i], acts[i], ss[i + 1]) {
        assert FreshStep(ss[i], acts[i], ss[i + 1]);
      }
    }
  }

  ghost predicate NoStaleRefusal(s: Sys, a: Action, s': Sys) {
    IsStep(s, a, s') && !StaleRefusal(s, a)
  }

  lemma LapBoundGivesFresh(s: Sys, a: Action)
    requires Inv(s) && Enabled(s.c, a) && LapBounded(s, a)
    ensures !StaleClaim(s, a)
  {
    if a.Run? { MaskedTestsAgreeWithTickets(s, a); }
  }

  /** One producer and one consumer: every run is a run of the header's ring. */
  lemma SpscRunIsFreeRun(ss: seq<Sys>, acts: seq<Action>)
    requires IsRun(ss, acts) && !ss[0].c.cfg.multiProd && !ss[0].c.cfg.multiCons
    ensures forall i :: 0 <= i < |ss| ==> |ss[i].c.threads| == |ss[i].x.ticket|
    ensures FreeRun(FreeStates(ss), acts)
  {
    SpscRunIsLapBounded(ss, acts);
    LapBoundedRunIsFreeRun(ss, acts);
    forall i | 0 <= i < |acts| ensures NoStaleRefusal(ss[i], acts[i], ss[i + 1]) {
      LapBoundedPrefixIsInvariant(ss, acts, i);
      ConfigNeverChanges(ss, acts, i);
      assert IsStep(ss[i], acts[i], ss[i + 1]);
      SoleHeadIsFresh(ss[i], acts[i]);
    }
  }

  lemma SoleHeadIsFresh(s: Sys, a: Action)
    requires Inv(s) && Enabled(s.c, a) && !s.c.cfg.multiProd && !s.c.cfg.multiCons
    ensures !StaleRefusal(s, a)
  {
    assert ThreadOk(s, a.t);
  }
}

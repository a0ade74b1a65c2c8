/**
 What holds over whole runs of the ring: when the run is safe, what the masked tests mean, that the
 ring is a bounded FIFO queue, and that no claim can get stuck.
 */
module RingTheorems {
  import opened Prelude
  import Bits
  import opened RingIndex
  import opened RingProtocol
  import opened RingInvariant

  // ---------------------------------------------------------------- safety of runs

  ghost predicate GuardedRun(ss: seq<Sys>, acts: seq<Action>)
    requires IsRun(ss, acts)
  {
    forall i :: 0 <= i < |acts| ==> IsStep(ss[i], acts[i], ss[i + 1]) && Guarded(ss[i].c, acts[i])
  }

  lemma {:induction false} GuardedPrefixIsInvariant(ss: seq<Sys>, acts: seq<Action>, n: nat)
    requires IsRun(ss, acts) && n < |ss|
    requires forall i :: 0 <= i < n ==> IsStep(ss[i], acts[i], ss[i + 1]) && Guarded(ss[i].c, acts[i])
    ensures Inv(ss[n])
  {
    if n == 0 {
      InitInv(ss[0]);
    } else {
      GuardedPrefixIsInvariant(ss, acts, n - 1);
      assert IsStep(ss[n - 1], acts[n - 1], ss[n - 1 + 1]);
      StepKeepsInv(ss[n - 1], acts[n - 1]);
    }
  }

  /**
   No two threads inside a claim, on either side, touch the same slot, and none touches a slot that
   holds a published entry waiting to be claimed.
   */
  ghost predicate ExclusiveSlots(s: Sys) {
    var r, x := s.c.ring, s.x;
    forall t, u :: 0 <= t < u < |s.c.threads| && InClaim(s.c.threads[t]) && InClaim(s.c.threads[u]) ==>
      s.c.threads[t].h != s.c.threads[u].h
  }

  predicate InClaim(l: Local) { ClaimedProd(l) || ClaimedCons(l) }

  lemma InvExcludesSharing(s: Sys)
    requires Inv(s)
    ensures ExclusiveSlots(s)
    ensures forall t, k :: 0 <= t < |s.c.threads| && InClaim(s.c.threads[t]) && s.x.ch <= k < s.x.pt ==>
              s.c.threads[t].h != Slot(k, s.c.ring.size)
  {
    var n := s.c.ring.size;
    forall t, k | 0 <= t < |s.c.threads| && InClaim(s.c.threads[t]) && s.x.ch <= k < s.x.pt
      ensures s.c.threads[t].h != Slot(k, n)
    {
      assert ThreadOk(s, t);
      DifferentTicketsDiffer(s, k, s.x.ticket[t]);
    }
    forall t, u | 0 <= t < u < |s.c.threads| && InClaim(s.c.threads[t]) && InClaim(s.c.threads[u])
      ensures s.c.threads[t].h != s.c.threads[u].h
    {
      assert ThreadOk(s, t) && ThreadOk(s, u);
      DifferentTicketsDiffer(s, s.x.ticket[t], s.x.ticket[u]);
    }
  }

  lemma DifferentTicketsDiffer(s: Sys, j: nat, k: nat)
    requires Inv(s) && s.x.ct <= j < s.x.ph && s.x.ct <= k < s.x.ph && j != k
    ensures Slot(j, s.c.ring.size) != Slot(k, s.c.ring.size)
  {
    if j < k {
      SlotInjective(j, k, s.c.ring.size);
    } else {
      SlotInjective(k, j, s.c.ring.size);
    }
  }

  /** What a user of the ring wants of every state of a run. */
  ghost predicate Safe(s: Sys) {
    && TicketsOrdered(s)              // capacity respected, nothing unpublished consumed
    && s.x.received <= s.x.sent       // FIFO: handed out in claim order, byte for byte
    && |s.x.sent| == s.x.ph && |s.x.received| == s.x.ct
    && ExclusiveSlots(s)              // no slot shared while being written or read
    && !s.c.fault                     // every memcpy stayed inside its buffers
  }

  /**
   A run is safe throughout if and only if every claim that succeeded was made while its guard
   still held. The guard reads only the stored masked indices.
   */
  lemma RunSafeIffGuarded(ss: seq<Sys>, acts: seq<Action>)
    requires IsRun(ss, acts)
    ensures GuardedRun(ss, acts) <==> forall i :: 0 <= i < |ss| ==> Safe(ss[i])
  {
    if GuardedRun(ss, acts) {
      forall i | 0 <= i < |ss| ensures Safe(ss[i]) {
        GuardedPrefixIsInvariant(ss, acts, i);
        InvExcludesSharing(ss[i]);
      }
    }
    if !GuardedRun(ss, acts) {
      var n := FirstUnguarded(ss, acts);
      GuardedPrefixIsInvariant(ss, acts, n);
      UnguardedClaimOverruns(ss[n], acts[n]);
      assert !Safe(ss[n + 1]);
    }
  }

  lemma FirstUnguarded(ss: seq<Sys>, acts: seq<Action>) returns (n: nat)
    requires IsRun(ss, acts) && !GuardedRun(ss, acts)
    ensures n < |acts| && IsStep(ss[n], acts[n], ss[n + 1]) && !Guarded(ss[n].c, acts[n])
    ensures forall i :: 0 <= i < n ==> IsStep(ss[i], acts[i], ss[i + 1]) && Guarded(ss[i].c, acts[i])
  {
    n := 0;
    while n < |acts| && IsStep(ss[n], acts[n], ss[n + 1]) && Guarded(ss[n].c, acts[n])
      invariant n <= |acts|
      invariant forall i :: 0 <= i < n ==> IsStep(ss[i], acts[i], ss[i + 1]) && Guarded(ss[i].c, acts[i])
    {
      n := n + 1;
    }
  }

  /** One unguarded successful claim puts the tickets out of order at once. */
  lemma UnguardedClaimOverruns(s: Sys, a: Action)
    requires Inv(s) && Enabled(s.c, a) && !Guarded(s.c, a)
    ensures !TicketsOrdered(Step(s, a))
  {
    assert ThreadOk(s, a.t);
    if s.c.threads[a.t].PClaim? {
      RoomMeansNotFull(s);
    } else {
      EntryMeansNotEmpty(s);
    }
  }

  /**
   The documented assumption: between a thread's load of a head and its CAS the head advances by
   fewer than `size`. It constrains only the CAS of the mp and mc entry points.
   */
  ghost predicate LapBounded(s: Sys, a: Action)
    requires WellFormed(s) && Enabled(s.c, a)
  {
    a.Run? ==>
      && (s.c.threads[a.t].PClaim? && s.c.cfg.multiProd ==> s.x.ph < s.x.ticket[a.t] + s.c.ring.size)
      && (s.c.threads[a.t].CClaim? && s.c.cfg.multiCons ==> s.x.ch < s.x.ticket[a.t] + s.c.ring.size)
  }

  ghost predicate LapBoundedRun(ss: seq<Sys>, acts: seq<Action>)
    requires IsRun(ss, acts)
  {
    forall i :: 0 <= i < |acts| ==> IsStep(ss[i], acts[i], ss[i + 1]) && LapBounded(ss[i], acts[i])
  }

  lemma LapBoundGivesGuard(s: Sys, a: Action)
    requires Inv(s) && Enabled(s.c, a) && LapBounded(s, a)
    ensures Guarded(s.c, a)
  {
    assert ThreadOk(s, a.t);
    if a.Run? && ClaimSucceeds(s.c, a.t) {
      var k, n := s.x.ticket[a.t], s.c.ring.size;
      if s.c.threads[a.t].PClaim? {
        if s.c.cfg.multiProd { SlotInjective(k, s.x.ph, n); }
        RoomMeansNotFull(s);
      } else {
        if s.c.cfg.multiCons { SlotInjective(k, s.x.ch, n); }
        EntryMeansNotEmpty(s);
      }
    }
  }

  lemma {:induction false} LapBoundedPrefixIsInvariant(ss: seq<Sys>, acts: seq<Action>, n: nat)
    requires IsRun(ss, acts) && LapBoundedRun(ss, acts) && n < |ss|
    ensures Inv(ss[n])
  {
    if n == 0 {
      InitInv(ss[0]);
    } else {
      LapBoundedPrefixIsInvariant(ss, acts, n - 1);
      assert IsStep(ss[n - 1], acts[n - 1], ss[n - 1 + 1]);
      LapBoundGivesGuard(ss[n - 1], acts[n - 1]);
      StepKeepsInv(ss[n - 1], acts[n - 1]);
    }
  }

  /** Any number of producers and consumers: every run that respects the lap bound is safe. */
  lemma LapBoundedRunIsSafe(ss: seq<Sys>, acts: seq<Action>)
    requires IsRun(ss, acts) && LapBoundedRun(ss, acts)
    ensures forall i :: 0 <= i < |ss| ==> Inv(ss[i]) && Safe(ss[i])
  {
    forall i | 0 <= i < |ss| ensures Inv(ss[i]) && Safe(ss[i]) {
      LapBoundedPrefixIsInvariant(ss, acts, i);
      InvExcludesSharing(ss[i]);
    }
  }

  lemma LapBoundedRunIsGuarded(ss: seq<Sys>, acts: seq<Action>)
    requires IsRun(ss, acts) && LapBoundedRun(ss, acts)
    ensures GuardedRun(ss, acts)
  {
    forall i | 0 <= i < |acts|
      ensures IsStep(ss[i], acts[i], ss[i + 1]) && Guarded(ss[i].c, acts[i])
    {
      LapBoundedPrefixIsInvariant(ss, acts, i);
      assert IsStep(ss[i], acts[i], ss[i + 1]) && LapBounded(ss[i], acts[i]);
      LapBoundGivesGuard(ss[i], acts[i]);
    }
  }

  lemma {:induction false} ConfigNeverChanges(ss: seq<Sys>, acts: seq<Action>, n: nat)
    requires IsRun(ss, acts) && n < |ss|
    ensures ss[n].c.cfg == ss[0].c.cfg && ss[n].c.ring.size == ss[0].c.ring.size
  {
    if n > 0 {
      ConfigNeverChanges(ss, acts, n - 1);
      assert IsStep(ss[n - 1], acts[n - 1], ss[n - 1 + 1]);
    }
  }

  lemma SpscRunIsLapBounded(ss: seq<Sys>, acts: seq<Action>)
    requires IsRun(ss, acts) && !ss[0].c.cfg.multiProd && !ss[0].c.cfg.multiCons
    ensures LapBoundedRun(ss, acts)
  {
    forall i | 0 <= i < |acts|
      ensures IsStep(ss[i], acts[i], ss[i + 1]) && LapBounded(ss[i], acts[i])
    {
      ConfigNeverChanges(ss, acts, i);
    }
  }

  /** One producer and one consumer: every interleaving whatsoever is safe. */
  lemma SpscRunIsSafe(ss: seq<Sys>, acts: seq<Action>)
    requires IsRun(ss, acts) && !ss[0].c.cfg.multiProd && !ss[0].c.cfg.multiCons
    ensures forall i :: 0 <= i < |ss| ==> Inv(ss[i]) && Safe(ss[i])
  {
    SpscRunIsLapBounded(ss, acts);
    LapBoundedRunIsSafe(ss, acts);
  }

  // ---------------------------------------------------------------- what the masked tests mean

  /**
   Under the lap bound the masked ring decides as a ring with free-running indices would: a CAS
   succeeds exactly when the head is still at the loaded ticket, and the wait for the tail ends
   exactly at the claimed ticket.
   */
  lemma MaskedTestsAgreeWithTickets(s: Sys, a: Action)
    requires Inv(s) && Enabled(s.c, a) && LapBounded(s, a) && a.Run?
    ensures s.c.threads[a.t].PClaim? ==> (ClaimSucceeds(s.c, a.t) <==> s.x.ticket[a.t] == s.x.ph)
    ensures s.c.threads[a.t].CClaim? ==> (ClaimSucceeds(s.c, a.t) <==> s.x.ticket[a.t] == s.x.ch)
    ensures s.c.threads[a.t].PWait? ==>
              (s.c.ring.prodTail == s.c.threads[a.t].h <==> s.x.ticket[a.t] == s.x.pt)
    ensures s.c.threads[a.t].CWait? ==>
              (s.c.ring.consTail == s.c.threads[a.t].h <==> s.x.ticket[a.t] == s.x.ct)
  {
    var l, k, n := s.c.threads[a.t], s.x.ticket[a.t], s.c.ring.size;
    assert ThreadOk(s, a.t);
    match l
    case PClaim(_, _) => if s.c.cfg.multiProd { SlotInjective(k, s.x.ph, n); }
    case CClaim(_, _) => if s.c.cfg.multiCons { SlotInjective(k, s.x.ch, n); }
    case PWait(_, _) => SlotInjective(s.x.pt, k, n);
    case CWait(_, _) => SlotInjective(s.x.ct, k, n);
    case _ =>
  }

  /**
   What the NOSPACE and NOENT tests decide, for a head however stale: whether two tickets agree
   modulo the size. A head not older than the opposite tail (less than a lap behind it) is answered
   only when it is up to date and the ring is really full (really empty).
   */
  lemma MaskedRoomTestMeaning(s: Sys, t: nat)
    requires Inv(s) && t < |s.c.threads|
    ensures var k, x, n := s.x.ticket[t], s.x, s.c.ring.size;
            s.c.threads[t].PTest? ==>
              && (Next(s.c.ring, s.c.threads[t].h) == s.c.ring.consTail <==> (k + 1) % n == x.ct % n)
              && (Next(s.c.ring, s.c.threads[t].h) == s.c.ring.consTail && x.ct <= k ==>
                    k == x.ph && x.ph + 1 == x.ct + n)
    ensures var k, x, n := s.x.ticket[t], s.x, s.c.ring.size;
            s.c.threads[t].CTest? ==>
              && (s.c.threads[t].h == s.c.ring.prodTail <==> k % n == x.pt % n)
              && (s.c.threads[t].h == s.c.ring.prodTail && x.pt < k + n ==> k == x.ch == x.pt)
  {
    if s.c.threads[t].PTest? { RoomTestMeaning(s, t); }
    if s.c.threads[t].CTest? { EntryTestMeaning(s, t); }
  }

  lemma RoomTestMeaning(s: Sys, t: nat)
    requires Inv(s) && t < |s.c.threads| && s.c.threads[t].PTest?
    ensures var k, x, n := s.x.ticket[t], s.x, s.c.ring.size;
            var nospace := Next(s.c.ring, s.c.threads[t].h) == s.c.ring.consTail;
            && (nospace <==> (k + 1) % n == x.ct % n)
            && (nospace && x.ct <= k ==> k == x.ph && x.ph + 1 == x.ct + n)
  {
    var k, x, n := s.x.ticket[t], s.x, s.c.ring.size;
    assert ThreadOk(s, t);
    assert Next(s.c.ring, s.c.threads[t].h) == Slot(k + 1, n);
    SlotIsRemainder(k + 1, n);
    SlotIsRemainder(x.ct, n);
    if x.ct <= k { SlotsOneLapApart(x.ct, k + 1, n); }
  }

  lemma EntryTestMeaning(s: Sys, t: nat)
    requires Inv(s) && t < |s.c.threads| && s.c.threads[t].CTest?
    ensures var k, x, n := s.x.ticket[t], s.x, s.c.ring.size;
            var noent := s.c.threads[t].h == s.c.ring.prodTail;
            && (noent <==> k % n == x.pt % n)
            && (noent && x.pt < k + n ==> k == x.ch == x.pt)
  {
    var k, x, n := s.x.ticket[t], s.x, s.c.ring.size;
    assert ThreadOk(s, t);
    SlotIsRemainder(k, n);
    SlotIsRemainder(x.pt, n);
    if x.pt < k + n { SlotInjective(k, x.pt, n); }
  }

  /** For a head loaded less than a lap ago there is exactly one way to be stale and answered. */
  lemma StaleWithinALap(s: Sys, t: nat)
    requires Inv(s) && t < |s.c.threads|
    ensures s.c.threads[t].PTest? && s.x.ph < s.x.ticket[t] + s.c.ring.size ==>
              (Next(s.c.ring, s.c.threads[t].h) == s.c.ring.consTail <==>
               s.x.ticket[t] + 1 == s.x.ct + s.c.ring.size || s.x.ticket[t] + 1 == s.x.ct)
    ensures s.c.threads[t].CTest? && s.x.ch < s.x.ticket[t] + s.c.ring.size ==>
              (s.c.threads[t].h == s.c.ring.prodTail <==>
               s.x.ticket[t] == s.x.pt || s.x.ticket[t] + s.c.ring.size == s.x.pt)
  {
    var l, k, x, n := s.c.threads[t], s.x.ticket[t], s.x, s.c.ring.size;
    assert ThreadOk(s, t);
    if l.PTest? && x.ph < k + n {
      assert Next(s.c.ring, l.h) == Slot(k + 1, n);
      SlotsOneLapApart(x.ct, k + 1, n);
    }
    if l.CTest? && x.ch < k + n {
      SlotsOneLapApart(k, x.pt, n);
    }
  }

  /** No ticket is left to claim: size - 1 entries are in flight. */
  ghost predicate NoRoom(s: Sys) { s.x.ph + 1 == s.x.ct + s.c.ring.size }

  /** Every published entry has been claimed. */
  ghost predicate NoEntry(s: Sys) { s.x.ch == s.x.pt }

  /**
   Exactly when x_ring_mp_enqueue answers right about room: its answer differs from the truth if
   and only if one of them says "full" while the head it loaded is no longer the stored prod.head.
   A NOSPACE is therefore true of the tickets exactly if prod.head still is the loaded head, and
   true of the published queue exactly if besides nothing is pending. There is no bound on how
   stale the head may be.
   */
  lemma MpNospaceIsExactIff(s: Sys, a: Action)
    requires Inv(s) && Enabled(s.c, a) && a.Run? && s.c.threads[a.t].PTest?
    ensures var nospace := Step(s, a).c.threads[a.t] == EnqRet(NOSPACE);
            var current := s.c.threads[a.t].h == s.c.ring.prodHead;
            && ((nospace <==> NoRoom(s)) <==> (nospace || NoRoom(s) ==> current))
            && (nospace ==> (NoRoom(s) <==> current))
            && (nospace ==> (|Queue(s)| == s.c.ring.size - 1 <==>
                             current && s.c.ring.prodHead == s.c.ring.prodTail))
  {
    var l, k, x, n := s.c.threads[a.t], s.x.ticket[a.t], s.x, s.c.ring.size;
    assert ThreadOk(s, a.t);
    RoomMeansNotFull(s);
    SlotInjective(x.pt, x.ph, n);
    NextInjective(s.c.ring, l.h, s.c.ring.prodHead);
  }

  /** Exactly when x_ring_mc_dequeue answers right about entries. */
  lemma McNoentIsExactIff(s: Sys, a: Action)
    requires Inv(s) && Enabled(s.c, a) && a.Run? && s.c.threads[a.t].CTest?
    ensures var noent := Step(s, a).c.threads[a.t] == DeqRet(NOENT, s.c.threads[a.t].out);
            var current := s.c.threads[a.t].h == s.c.ring.consHead;
            && ((noent <==> NoEntry(s)) <==> (noent || NoEntry(s) ==> current))
            && (noent ==> (NoEntry(s) <==> current))
            && (noent ==> (Queue(s) == [] <==> current && s.c.ring.consHead == s.c.ring.consTail))
  {
    assert ThreadOk(s, a.t);
    EntryMeansNotEmpty(s);
    SlotInjective(s.x.ct, s.x.ch, s.c.ring.size);
  }

  lemma NextInjective(r: Ring, g: nat, h: nat)
    requires RingShape(r) && g < r.size && h < r.size
    ensures Next(r, g) == Next(r, h) <==> g == h
  {
  }

  lemma SlotsOneLapApart(j: nat, k: nat, n: nat)
    requires n > 0 && j < k + n && k < j + 2 * n
    ensures Slot(j, n) == Slot(k, n) <==> j == k || k == j + n
  {
    if k < j {
      SlotInjective(k, j, n);
    } else if k < j + n {
      SlotInjective(j, k, n);
    } else {
      SlotLap(j, n);
      SlotInjective(j + n, k, n);
    }
  }

  // ---------------------------------------------------------------- a bounded FIFO queue

  /** The queue a caller sees: messages published and not yet released. */
  ghost function Queue(s: Sys): seq<Msg>
    requires Inv(s)
  {
    s.x.sent[s.x.ct..s.x.pt]
  }

  datatype QueueOp = Tau | Enq(m: Msg) | Deq(m: Msg)

  /** A bounded FIFO queue of capacity cap. */
  ghost predicate QueueStep(cap: int, q: seq<Msg>, op: QueueOp, q': seq<Msg>) {
    match op
    case Tau => q' == q
    case Enq(m) => |q| < cap && q' == q + [m]
    case Deq(m) => q == [m] + q'
  }

  /** The queue operation a step performs, read off the value its call returns. */
  ghost function OpOf(s: Sys, a: Action): QueueOp
    requires Inv(s) && Enabled(s.c, a)
  {
    var l, l' := s.c.threads[a.t], Step(s, a).c.threads[a.t];
    if a.Run? && l' == EnqRet(SUCCESS) then Enq(l.msg)
    else if a.Run? && l'.DeqRet? && l'.code == SUCCESS then Deq(Taken(l'.out))
    else Tau
  }

  /**
   Every step is a step of a FIFO queue of capacity size - 1: the successful returns are its
   enqueue and dequeue, with the caller's message and the message handed out, and no other step
   changes the queue.
   */
  lemma StepRefinesQueue(s: Sys, a: Action)
    requires Inv(s) && Enabled(s.c, a) && Guarded(s.c, a)
    ensures Inv(Step(s, a))
    ensures QueueStep(s.c.ring.size - 1, Queue(s), OpOf(s, a), Queue(Step(s, a)))
  {
    StepKeepsInv(s, a);
    if a.Run? && s.c.threads[a.t].PPub? {
      PublishEnqueues(s, a);
    } else if a.Run? && s.c.threads[a.t].CPub? {
      ReleaseDequeues(s, a);
    } else {
      OtherStepsKeepQueue(s, a);
    }
  }

  lemma PublishEnqueues(s: Sys, a: Action)
    requires Inv(s) && Enabled(s.c, a) && a.Run? && s.c.threads[a.t].PPub? && Inv(Step(s, a))
    ensures QueueStep(s.c.ring.size - 1, Queue(s), OpOf(s, a), Queue(Step(s, a)))
  {
    QueueGrows(s, Step(s, a), a.t);
  }

  lemma QueueGrows(s: Sys, s': Sys, t: nat)
    requires Inv(s) && Inv(s') && t < |s.c.threads| && s.c.threads[t].PPub?
    requires s'.c.ring.size == s.c.ring.size && s'.x == s.x.(pt := s.x.pt + 1)
    ensures Queue(s') == Queue(s) + [s.c.threads[t].msg] && |Queue(s')| < s.c.ring.size
  {
    assert ThreadOk(s, t);
    assert s.x.sent[s.x.ct..s.x.pt + 1] == s.x.sent[s.x.ct..s.x.pt] + [s.x.sent[s.x.pt]];
  }

  lemma ReleaseDequeues(s: Sys, a: Action)
    requires Inv(s) && Enabled(s.c, a) && a.Run? && s.c.threads[a.t].CPub? && Inv(Step(s, a))
    ensures QueueStep(s.c.ring.size - 1, Queue(s), OpOf(s, a), Queue(Step(s, a)))
  {
    QueueShrinks(s, Step(s, a), a.t);
  }

  lemma QueueShrinks(s: Sys, s': Sys, t: nat)
    requires Inv(s) && Inv(s') && t < |s.c.threads| && s.c.threads[t].CPub?
    requires s'.x.sent == s.x.sent && s'.x.pt == s.x.pt && s'.x.ct == s.x.ct + 1
    ensures Queue(s) == [Taken(s.c.threads[t].out)] + Queue(s')
  {
    ReleaseHandsOutNext(s, t);
    assert s.x.sent[s.x.ct..s.x.pt] == [s.x.sent[s.x.ct]] + s.x.sent[s.x.ct + 1..s.x.pt];
  }

  lemma OtherStepsKeepQueue(s: Sys, a: Action)
    requires Inv(s) && Enabled(s.c, a) && Inv(Step(s, a))
    requires a.Run? ==> !s.c.threads[a.t].PPub? && !s.c.threads[a.t].CPub?
    ensures OpOf(s, a) == Tau && Queue(Step(s, a)) == Queue(s)
  {
    if a.Run? { OtherStepsReturnNothing(s.c, a); }
    OtherStepsKeepTickets(s.c, s.x, a);
    var x, x' := s.x, Step(s, a).x;
    assert x'.sent[x.ct..x.pt] == x.sent[x.ct..x.pt];
  }

  lemma OtherStepsReturnNothing(c: Conc, a: Action)
    requires Shape(c) && Enabled(c, a) && a.Run?
    requires !c.threads[a.t].PPub? && !c.threads[a.t].CPub?
    ensures var l' := ConcStep(c, a).threads[a.t];
            l' != EnqRet(SUCCESS) && !(l'.DeqRet? && l'.code == SUCCESS)
  {
  }

  lemma OtherStepsKeepTickets(c: Conc, x: Aux, a: Action)
    requires a.t < |c.threads| == |x.ticket|
    requires a.Run? ==> !c.threads[a.t].PPub? && !c.threads[a.t].CPub?
    ensures var x' := AuxStep(c, x, a); x'.pt == x.pt && x'.ct == x.ct && x.sent <= x'.sent
  {
  }

  /** Step i of a run, seen through Queue, is a step of the queue of capacity size - 1. */
  ghost predicate QueueStepAt(ss: seq<Sys>, acts: seq<Action>, i: nat)
    requires i + 1 < |ss| && i < |acts|
  {
    && Inv(ss[i]) && Inv(ss[i + 1]) && Enabled(ss[i].c, acts[i])
    && QueueStep(ss[0].c.ring.size - 1, Queue(ss[i]), OpOf(ss[i], acts[i]), Queue(ss[i + 1]))
  }

  /** A whole run, seen through Queue, is a run of the bounded FIFO queue from empty. */
  lemma RunRefinesQueue(ss: seq<Sys>, acts: seq<Action>)
    requires IsRun(ss, acts) && GuardedRun(ss, acts)
    ensures Inv(ss[0]) && Queue(ss[0]) == []
    ensures forall i :: 0 <= i < |acts| ==> QueueStepAt(ss, acts, i)
  {
    InitInv(ss[0]);
    forall i | 0 <= i < |acts| ensures QueueStepAt(ss, acts, i) {
      GuardedPrefixIsInvariant(ss, acts, i);
      ConfigNeverChanges(ss, acts, i);
      assert IsStep(ss[i], acts[i], ss[i + 1]);
      StepRefinesQueue(ss[i], acts[i]);
    }
  }

  /** Any number of producers and consumers under the lap bound: the ring is that queue. */
  lemma LapBoundedRunRefinesQueue(ss: seq<Sys>, acts: seq<Action>)
    requires IsRun(ss, acts) && LapBoundedRun(ss, acts)
    ensures Inv(ss[0]) && Queue(ss[0]) == []
    ensures forall i :: 0 <= i < |acts| ==> QueueStepAt(ss, acts, i)
  {
    LapBoundedRunIsGuarded(ss, acts);
    RunRefinesQueue(ss, acts);
  }

  /** One producer and one consumer, in every interleaving: the ring is that queue. */
  lemma SpscRunRefinesQueue(ss: seq<Sys>, acts: seq<Action>)
    requires IsRun(ss, acts) && !ss[0].c.cfg.multiProd && !ss[0].c.cfg.multiCons
    ensures Inv(ss[0]) && Queue(ss[0]) == []
    ensures forall i :: 0 <= i < |acts| ==> QueueStepAt(ss, acts, i)
  {
    SpscRunIsLapBounded(ss, acts);
    LapBoundedRunRefinesQueue(ss, acts);
  }

  /** With a sole producer (consumer), whatever is pending is its own. */
  lemma PendingBelongsToSole(s: Sys)
    requires Inv(s)
    ensures !s.c.cfg.multiProd && s.x.pt < s.x.ph ==>
              s.c.cfg.soleProd < |s.c.threads| && ClaimedProd(s.c.threads[s.c.cfg.soleProd])
    ensures !s.c.cfg.multiCons && s.x.ct < s.x.ch ==>
              s.c.cfg.soleCons < |s.c.threads| && ClaimedCons(s.c.threads[s.c.cfg.soleCons])
  {
    if s.x.pt < s.x.ph {
      assert PendingProd(s, s.x.pt);
      assert ThreadOk(s, s.x.pOwner[s.x.pt]);
    }
    if s.x.ct < s.x.ch {
      assert PendingCons(s, s.x.ct);
      assert ThreadOk(s, s.x.cOwner[s.x.ct]);
    }
  }

  /** x_ring_sp_enqueue fails exactly when the queue is full at its load of cons.tail. */
  lemma SpNospaceIsExact(s: Sys, a: Action)
    requires Inv(s) && Enabled(s.c, a) && a.Run? && !s.c.cfg.multiProd && s.c.threads[a.t].PTest?
    ensures Step(s, a).c.threads[a.t] == EnqRet(NOSPACE) <==> |Queue(s)| == s.c.ring.size - 1
  {
    assert ThreadOk(s, a.t);
    PendingBelongsToSole(s);
    RoomMeansNotFull(s);
  }

  /** x_ring_sc_dequeue fails exactly when the queue is empty at its load of prod.tail. */
  lemma ScNoentIsExact(s: Sys, a: Action)
    requires Inv(s) && Enabled(s.c, a) && a.Run? && !s.c.cfg.multiCons && s.c.threads[a.t].CTest?
    ensures (exists out :: Step(s, a).c.threads[a.t] == DeqRet(NOENT, out)) <==> Queue(s) == []
  {
    assert ThreadOk(s, a.t);
    PendingBelongsToSole(s);
    EntryMeansNotEmpty(s);
    var l := s.c.threads[a.t];
    if l.h == s.c.ring.prodTail {
      assert Step(s, a).c.threads[a.t] == DeqRet(NOENT, l.out);
    }
  }

  // ---------------------------------------------------------------- observers

  function RingCount(r: Ring): nat { Bits.And((r.prodTail - r.consTail) % TWO32, r.mask) }

  function RingFreeCount(r: Ring): nat { Bits.And((r.consTail - r.prodTail - 1) % TWO32, r.mask) }

  predicate RingFull(r: Ring) { RingFreeCount(r) == 0 }

  predicate RingEmpty(r: Ring) { r.consTail == r.prodTail }

  /** On one snapshot the observers agree with the queue, despite 32-bit wrap-around. */
  lemma ObserversMatchQueue(s: Sys)
    requires Inv(s)
    ensures RingCount(s.c.ring) == |Queue(s)|
    ensures RingFreeCount(s.c.ring) == s.c.ring.size - 1 - |Queue(s)|
    ensures RingFull(s.c.ring) <==> |Queue(s)| == s.c.ring.size - 1
    ensures RingEmpty(s.c.ring) <==> Queue(s) == []
  {
    ObserversOnTickets(s.c.ring, s.x.ct, s.x.pt);
    assert |Queue(s)| == s.x.pt - s.x.ct;
  }

  lemma ObserversOnTickets(r: Ring, ct: nat, pt: nat)
    requires RingShape(r) && ct <= pt < ct + r.size
    requires r.consTail == Slot(ct, r.size) && r.prodTail == Slot(pt, r.size)
    ensures RingCount(r) == pt - ct && RingFreeCount(r) == r.size - 1 - (pt - ct)
    ensures RingFull(r) <==> pt - ct == r.size - 1
    ensures RingEmpty(r) <==> pt == ct
  {
    MaskedDifference(ct, pt, r.size);
    SlotInjective(ct, pt, r.size);
    FreeIsDifference(r.consTail, r.prodTail, ct, pt, r.size);
  }

  lemma FreeIsDifference(c: nat, p: nat, ct: nat, pt: nat, n: nat)
    requires RingSize(n) && ct <= pt < ct + n && c == Slot(ct, n) && p == Slot(pt, n)
    ensures Bits.And((c - p - 1) % TWO32, n - 1) == n - 1 - (pt - ct)
  {
    var d: int := c - p - 1;
    MaskWord(d % TWO32, n);
    var w := DividesWord(n);
    RemainderOfWrapped(d, n, w);
    SlotIsRemainder(ct, n);
    SlotIsRemainder(pt, n);
    FreeRemainder(ct, pt, n);
  }

  lemma FreeRemainder(j: nat, k: nat, n: nat)
    requires n > 0 && j <= k < j + n
    ensures (j % n - k % n - 1) % n == n - 1 - (k - j)
  {
    var a, b := j / n, k / n;
    assert j == a * n + j % n && k == b * n + k % n;
    assert (b - a - 1) * n == b * n - a * n - n;
    Bits.RemainderUnique(j % n - k % n - 1, n, b - a - 1, n - 1 - (k - j));
  }
}

/**
 The ring's inductive invariant, and the proof that every step keeps it as long as a claim is
 only made while there is room (for a producer) or a published entry (for a consumer).
 */
module RingInvariant {
  import opened RingIndex
  import opened RingProtocol

  /** The four tickets in order, and never more than size - 1 entries in flight. */
  ghost predicate TicketsOrdered(s: Sys) {
    s.x.ct <= s.x.ch <= s.x.pt <= s.x.ph && s.x.ph < s.x.ct + s.c.ring.size
  }

  /** Every stored index is the slot number of its ticket. */
  ghost predicate IndicesMatch(s: Sys) {
    var r, x := s.c.ring, s.x;
    && RingShape(r)
    && r.prodHead == Slot(x.ph, r.size) && r.prodTail == Slot(x.pt, r.size)
    && r.consHead == Slot(x.ch, r.size) && r.consTail == Slot(x.ct, r.size)
  }

  /** Everything handed out so far is, in order, what was claimed first. */
  ghost predicate Fifo(s: Sys) {
    && |s.x.sent| == |s.x.pOwner| == s.x.ph && |s.x.cOwner| == s.x.ch
    && |s.x.received| == s.x.ct
    && s.x.received <= s.x.sent
  }

  /** The entry holds message m. */
  ghost predicate Holds(e: Entry, m: Msg) {
    e.contentLength == |m| && |m| <= |e.data| && e.data[..|m|] == m
  }

  ghost predicate Published(s: Sys)
    requires RingShape(s.c.ring) && |s.x.sent| == s.x.ph
  {
    forall k :: s.x.ct <= k < s.x.pt && k < s.x.ph ==>
      Holds(s.c.ring.slots[Slot(k, s.c.ring.size)], s.x.sent[k])
  }

  ghost predicate Capacities(r: Ring) {
    forall j :: 0 <= j < |r.slots| ==> |r.slots[j].data| == r.slots[j].size
  }

  /** Claimed-but-unpublished tickets are exactly those of the threads inside a claim. */
  ghost predicate PendingProd(s: Sys, k: nat) {
    && k < |s.x.pOwner| && s.x.pOwner[k] < |s.c.threads| == |s.x.ticket|
    && ClaimedProd(s.c.threads[s.x.pOwner[k]]) && s.x.ticket[s.x.pOwner[k]] == k
  }

  ghost predicate PendingCons(s: Sys, k: nat) {
    && k < |s.x.cOwner| && s.x.cOwner[k] < |s.c.threads| == |s.x.ticket|
    && ClaimedCons(s.c.threads[s.x.cOwner[k]]) && s.x.ticket[s.x.cOwner[k]] == k
  }

  ghost predicate Pending(s: Sys) {
    && (forall k :: s.x.pt <= k < s.x.ph ==> PendingProd(s, k))
    && (forall k :: s.x.ct <= k < s.x.ch ==> PendingCons(s, k))
  }

  /** How far the producer in l has got with the entry it claimed. */
  ghost predicate ProdProgress(l: Local, e: Entry)
    requires ClaimedProd(l)
  {
    match l
    case PGrow(msg, _) => true
    case PCopy(msg, _, i) => i <= |msg| <= |e.data| && e.data[..i] == msg[..i]
    case PLen(msg, _) => |msg| <= |e.data| && e.data[..|msg|] == msg
    case PWait(msg, _) => Holds(e, msg)
    case PPub(msg, _) => Holds(e, msg)
  }

  /** How far the consumer in l has got with copying message m out. */
  ghost predicate ConsProgress(l: Local, m: Msg)
    requires ClaimedCons(l)
  {
    match l
    case CGrow(out, _) => true
    case CCopy(out, _, i) => i <= |m| <= |out.data| && out.data[..i] == m[..i]
    case CLen(out, _) => |m| <= |out.data| && out.data[..|m|] == m
    case CWait(out, _) => Holds(out, m)
    case CPub(out, _) => Holds(out, m)
  }

  ghost predicate OutOk(l: Local) {
    InCons(l) || l.DeqRet? ==> l.out.size <= |l.out.data|
  }

  /** A thread between its load of a head and its claim. */
  ghost predicate LoadedOk(s: Sys, t: nat)
    requires t < |s.c.threads| == |s.x.ticket| && s.c.ring.size > 0
  {
    var l, k, x, n := s.c.threads[t], s.x.ticket[t], s.x, s.c.ring.size;
    && (LoadedProd(l) ==>
          && k <= x.ph && l.h == Slot(k, n)
          && (!s.c.cfg.multiProd ==> k == x.ph)
          && (l.PClaim? && k == x.ph ==> x.ph + 1 < x.ct + n))
    && (LoadedCons(l) ==>
          && k <= x.ch && l.h == Slot(k, n)
          && (!s.c.cfg.multiCons ==> k == x.ch)
          && (l.CClaim? && k == x.ch ==> x.ch < x.pt))
  }

  ghost predicate ProdOk(s: Sys, t: nat)
    requires t < |s.c.threads| == |s.x.ticket| && RingShape(s.c.ring)
  {
    var l, k, x, n := s.c.threads[t], s.x.ticket[t], s.x, s.c.ring.size;
    ClaimedProd(l) ==>
      && x.pt <= k < x.ph && k < |x.sent| && k < |x.pOwner|
      && x.pOwner[k] == t && x.sent[k] == l.msg
      && l.h == Slot(k, n)
      && ProdProgress(l, s.c.ring.slots[Slot(k, n)])
      && (l.PPub? ==> k == x.pt)
  }

  ghost predicate ConsOk(s: Sys, t: nat)
    requires t < |s.c.threads| == |s.x.ticket| && s.c.ring.size > 0
  {
    var l, k, x, n := s.c.threads[t], s.x.ticket[t], s.x, s.c.ring.size;
    ClaimedCons(l) ==>
      && x.ct <= k < x.ch && k < |x.sent| && k < |x.cOwner|
      && x.cOwner[k] == t
      && l.h == Slot(k, n)
      && ConsProgress(l, x.sent[k])
      && (l.CPub? ==> k == x.ct)
  }

  ghost predicate SoleOk(s: Sys, t: nat)
    requires t < |s.c.threads|
  {
    && (InProd(s.c.threads[t]) && !s.c.cfg.multiProd ==> t == s.c.cfg.soleProd)
    && (InCons(s.c.threads[t]) && !s.c.cfg.multiCons ==> t == s.c.cfg.soleCons)
  }

  ghost predicate ThreadOk(s: Sys, t: nat)
    requires t < |s.c.threads| == |s.x.ticket| && RingShape(s.c.ring)
  {
    OutOk(s.c.threads[t]) && LoadedOk(s, t) && ProdOk(s, t) && ConsOk(s, t) && SoleOk(s, t)
  }

  ghost predicate Inv(s: Sys) {
    && WellFormed(s)
    && TicketsOrdered(s) && IndicesMatch(s) && Fifo(s) && Published(s) && Capacities(s.c.ring)
    && Pending(s)
    && (forall t :: 0 <= t < |s.c.threads| ==> ThreadOk(s, t))
    && !s.c.fault
  }

  /**
   The guard of a claim, re-read at the moment the claim succeeds. It speaks of the stored
   indices only: there is still room, or still a published entry, right now.
   */
  ghost predicate Guarded(c: Conc, a: Action)
    requires Shape(c) && Enabled(c, a)
  {
    a.Run? && ClaimSucceeds(c, a.t) ==>
      match c.threads[a.t]
      case PClaim(_, h) => Next(c.ring, h) != c.ring.consTail
      case CClaim(_, h) => h != c.ring.prodTail
      case _ => true
  }

  lemma InitInv(s: Sys)
    requires Init(s)
    ensures Inv(s)
  {
  }

  // ---------------------------------------------------------------- what other threads see

  /** What thread u needs of a step that another thread takes. */
  ghost predicate Rely(s: Sys, s': Sys, u: nat)
    requires u < |s.c.threads| == |s.x.ticket| && RingShape(s.c.ring)
    requires u < |s'.c.threads| == |s'.x.ticket| && RingShape(s'.c.ring)
  {
    var l, k, x, x', n := s.c.threads[u], s.x.ticket[u], s.x, s'.x, s.c.ring.size;
    && s'.c.cfg == s.c.cfg && s'.c.ring.size == n
    && s'.c.threads[u] == l && x'.ticket[u] == k
    && x.sent <= x'.sent && x.pOwner <= x'.pOwner && x.cOwner <= x'.cOwner
    && x.ph <= x'.ph && x.pt <= x'.pt && x.ch <= x'.ch && x.ct <= x'.ct
    && (InProd(l) && !s.c.cfg.multiProd ==> x'.ph == x.ph)
    && (InCons(l) && !s.c.cfg.multiCons ==> x'.ch == x.ch)
    && (ClaimedProd(l) ==> k >= x'.pt && s'.c.ring.slots[Slot(k, n)] == s.c.ring.slots[Slot(k, n)])
    && (ClaimedCons(l) ==> k >= x'.ct)
  }

  lemma RelyKeepsThread(s: Sys, s': Sys, u: nat)
    requires u < |s.c.threads| == |s.x.ticket| && RingShape(s.c.ring)
    requires u < |s'.c.threads| == |s'.x.ticket| && RingShape(s'.c.ring)
    requires Rely(s, s', u) && ThreadOk(s, u)
    ensures ThreadOk(s', u)
  {
  }

  ghost predicate OthersUntouched(s: Sys, s': Sys, t: nat) {
    && |s'.c.threads| == |s'.x.ticket| == |s.c.threads| == |s.x.ticket|
    && forall u :: 0 <= u < |s.c.threads| && u != t ==>
         s'.c.threads[u] == s.c.threads[u] && s'.x.ticket[u] == s.x.ticket[u]
  }

  lemma OthersKeepThreads(s: Sys, s': Sys, t: nat)
    requires Inv(s) && WellFormed(s') && t < |s.c.threads| && OthersUntouched(s, s', t)
    requires forall u :: 0 <= u < |s.c.threads| && u != t ==> Rely(s, s', u)
    requires ThreadOk(s', t)
    ensures forall u :: 0 <= u < |s'.c.threads| ==> ThreadOk(s', u)
  {
    forall u | 0 <= u < |s.c.threads| && u != t ensures ThreadOk(s', u) {
      assert ThreadOk(s, u);
      assert Rely(s, s', u);
      RelyKeepsThread(s, s', u);
    }
  }

  /** Tickets pending before and held by threads that did not move are still pending. */
  lemma OthersKeepPending(s: Sys, s': Sys, t: nat)
    requires Inv(s) && OthersUntouched(s, s', t)
    requires s.x.pOwner <= s'.x.pOwner && s.x.cOwner <= s'.x.cOwner
    requires s.x.pt <= s'.x.pt && s.x.ct <= s'.x.ct
    requires forall k :: s'.x.pt <= k < s'.x.ph && (k >= s.x.ph || s.x.pOwner[k] == t) ==> PendingProd(s', k)
    requires forall k :: s'.x.ct <= k < s'.x.ch && (k >= s.x.ch || s.x.cOwner[k] == t) ==> PendingCons(s', k)
    ensures Pending(s')
  {
    forall k | s'.x.pt <= k < s'.x.ph ensures PendingProd(s', k) {
      if k < s.x.ph && s.x.pOwner[k] != t { assert PendingProd(s, k); }
    }
    forall k | s'.x.ct <= k < s'.x.ch ensures PendingCons(s', k) {
      if k < s.x.ch && s.x.cOwner[k] != t { assert PendingCons(s, k); }
    }
  }

  // ---------------------------------------------------------------- steps that move no index

  /** A step that changes only thread t's own locals. */
  lemma LocalStepKeepsInv(s: Sys, s': Sys, t: nat, l': Local, k': nat)
    requires Inv(s) && WellFormed(s') && t < |s.c.threads|
    requires s' == Sys(Goto(s.c, t, l'), s.x.(ticket := s.x.ticket[t := k']))
    requires ClaimedProd(s.c.threads[t]) || ClaimedCons(s.c.threads[t]) ==> k' == s.x.ticket[t]
    requires ClaimedProd(s.c.threads[t]) ==> ClaimedProd(l')
    requires ClaimedCons(s.c.threads[t]) ==> ClaimedCons(l')
    requires ThreadOk(s', t)
    ensures Inv(s')
  {
    forall u | 0 <= u < |s.c.threads| && u != t ensures ThreadOk(s', u) {
      assert ThreadOk(s, u);
      RelyKeepsThread(s, s', u);
    }
    forall k | s.x.pt <= k < s.x.ph ensures PendingProd(s', k) {
      assert PendingProd(s, k);
    }
    forall k | s.x.ct <= k < s.x.ch ensures PendingCons(s', k) {
      assert PendingCons(s, k);
    }
  }

  /** Such a step that keeps the thread's ticket as well. */
  lemma GotoKeepsInv(s: Sys, s': Sys, t: nat, l': Local)
    requires Inv(s) && WellFormed(s') && t < |s.c.threads|
    requires s' == Sys(Goto(s.c, t, l'), s.x)
    requires ClaimedProd(s.c.threads[t]) ==> ClaimedProd(l')
    requires ClaimedCons(s.c.threads[t]) ==> ClaimedCons(l')
    requires ThreadOk(s', t)
    ensures Inv(s')
  {
    assert s.x.ticket[t := s.x.ticket[t]] == s.x.ticket;
    LocalStepKeepsInv(s, s', t, l', s.x.ticket[t]);
  }

  /** Claimed tickets are less than a lap apart, so their slots differ from all others in use. */
  lemma ClaimedSlotIsPrivate(s: Sys, t: nat)
    requires Inv(s) && t < |s.c.threads| && ClaimedProd(s.c.threads[t])
    ensures forall u :: 0 <= u < |s.c.threads| && u != t && ClaimedProd(s.c.threads[u]) ==>
              s.c.threads[u].h != s.c.threads[t].h
    ensures forall k :: s.x.ct <= k < s.x.ph && k != s.x.ticket[t] ==>
              Slot(k, s.c.ring.size) != s.c.threads[t].h
  {
    var n := s.c.ring.size;
    assert ThreadOk(s, t);
    forall k | s.x.ct <= k < s.x.ph && k != s.x.ticket[t]
      ensures Slot(k, n) != s.c.threads[t].h
    {
      if k < s.x.ticket[t] {
        SlotInjective(k, s.x.ticket[t], n);
      } else {
        SlotInjective(s.x.ticket[t], k, n);
      }
    }
    forall u | 0 <= u < |s.c.threads| && u != t && ClaimedProd(s.c.threads[u])
      ensures s.c.threads[u].h != s.c.threads[t].h
    {
      assert ThreadOk(s, u);
    }
  }

  /** A producer writing the slot it claimed. */
  lemma SlotStepKeepsInv(s: Sys, s': Sys, t: nat, l': Local, e: Entry)
    requires Inv(s) && WellFormed(s') && t < |s.c.threads|
    requires ClaimedProd(s.c.threads[t]) && ClaimedProd(l')
    requires s' == Sys(Goto(s.c.(ring := SetSlot(s.c.ring, s.c.threads[t].h, e)), t, l'), s.x)
    requires |e.data| == e.size
    requires ThreadOk(s', t)
    ensures Inv(s')
  {
    var n := s.c.ring.size;
    assert ThreadOk(s, t);
    ClaimedSlotIsPrivate(s, t);
    forall u | 0 <= u < |s.c.threads| && u != t ensures ThreadOk(s', u) {
      assert ThreadOk(s, u);
      RelyKeepsThread(s, s', u);
    }
    forall k | s.x.pt <= k < s.x.ph ensures PendingProd(s', k) {
      assert PendingProd(s, k);
    }
    forall k | s.x.ct <= k < s.x.ch ensures PendingCons(s', k) {
      assert PendingCons(s, k);
    }
    forall k | s.x.ct <= k < s.x.pt && k < s.x.ph
      ensures Holds(s'.c.ring.slots[Slot(k, n)], s.x.sent[k])
    {
      assert Slot(k, n) != s.c.threads[t].h;
    }
  }

  // ---------------------------------------------------------------- enqueue

  lemma CallKeepsInv(s: Sys, a: Action)
    requires Inv(s) && Enabled(s.c, a) && !a.Run?
    ensures Inv(Step(s, a))
  {
    var s' := Step(s, a);
    assert ThreadOk(s, a.t);
    LocalStepKeepsInv(s, s', a.t, s'.c.threads[a.t], s'.x.ticket[a.t]);
  }

  lemma ProdLoadKeepsInv(s: Sys, a: Action)
    requires Inv(s) && Enabled(s.c, a) && a.Run? && s.c.threads[a.t].PLoad?
    ensures Inv(Step(s, a))
  {
    var s', t := Step(s, a), a.t;
    assert ThreadOk(s, t);
    LocalStepKeepsInv(s, s', t, PTest(s.c.threads[t].msg, s.c.ring.prodHead), s.x.ph);
  }

  lemma ProdTestKeepsInv(s: Sys, a: Action)
    requires Inv(s) && Enabled(s.c, a) && a.Run? && s.c.threads[a.t].PTest?
    ensures Inv(Step(s, a))
  {
    var t, l := a.t, s.c.threads[a.t];
    assert ThreadOk(s, t);
    if Next(s.c.ring, l.h) == s.c.ring.consTail {
      GotoKeepsInv(s, Step(s, a), t, EnqRet(NOSPACE));
    } else {
      ProdRoomKeepsInv(s, Step(s, a), t);
    }
  }

  lemma ProdRoomKeepsInv(s: Sys, s': Sys, t: nat)
    requires Inv(s) && WellFormed(s') && t < |s.c.threads| && s.c.threads[t].PTest?
    requires s.c.threads[t].h < s.c.ring.size && Next(s.c.ring, s.c.threads[t].h) != s.c.ring.consTail
    requires s' == Sys(Goto(s.c, t, PClaim(s.c.threads[t].msg, s.c.threads[t].h)), s.x)
    ensures Inv(s')
  {
    assert ThreadOk(s, t);
    RoomMeansNotFull(s);
    GotoKeepsInv(s, s', t, s'.c.threads[t]);
  }

  /** The masked test for space is exact for an up-to-date head. */
  lemma RoomMeansNotFull(s: Sys)
    requires WellFormed(s) && TicketsOrdered(s) && IndicesMatch(s)
    ensures Next(s.c.ring, s.c.ring.prodHead) == s.c.ring.consTail
            <==> s.x.ph + 1 == s.x.ct + s.c.ring.size
  {
    var n := s.c.ring.size;
    assert Next(s.c.ring, s.c.ring.prodHead) == Slot(s.x.ph + 1, n);
    if s.x.ph + 1 == s.x.ct + n {
      SlotLap(s.x.ct, n);
    } else {
      SlotInjective(s.x.ct, s.x.ph + 1, n);
    }
  }

  /** The masked test for a published entry is exact for an up-to-date head. */
  lemma EntryMeansNotEmpty(s: Sys)
    requires WellFormed(s) && TicketsOrdered(s) && IndicesMatch(s)
    ensures s.c.ring.consHead == s.c.ring.prodTail <==> s.x.ch == s.x.pt
  {
    SlotInjective(s.x.ch, s.x.pt, s.c.ring.size);
  }

  lemma ProdClaimKeepsInv(s: Sys, a: Action)
    requires Inv(s) && Enabled(s.c, a) && a.Run? && s.c.threads[a.t].PClaim?
    requires Guarded(s.c, a)
    ensures Inv(Step(s, a))
  {
    var s', t := Step(s, a), a.t;
    assert ThreadOk(s, t);
    if !ClaimSucceeds(s.c, t) {
      LocalStepKeepsInv(s, s', t, s'.c.threads[t], s'.x.ticket[t]);
    } else {
      RoomMeansNotFull(s);
      var l := s.c.threads[t];
      assert l.h == s.c.ring.prodHead;
      ProdClaimEffect(s, s', t);
    }
  }

  /** Thread t's claim of an enqueue ticket, with room left. */
  ghost predicate ProdClaim(s: Sys, s': Sys, t: nat)
    requires WellFormed(s) && t < |s.c.threads|
  {
    var l, x, r := s.c.threads[t], s.x, s.c.ring;
    && l.PClaim? && l.h == r.prodHead && x.ph + 1 < x.ct + r.size
    && s'.c == Goto(s.c.(ring := r.(prodHead := Next(r, l.h))), t, PGrow(l.msg, l.h))
    && s'.x == x.(ticket := x.ticket[t := x.ph], ph := x.ph + 1,
                  sent := x.sent + [l.msg], pOwner := x.pOwner + [t])
  }

  lemma ProdClaimThreads(s: Sys, s': Sys, t: nat)
    requires Inv(s) && t < |s.c.threads| && WellFormed(s') && ProdClaim(s, s', t)
    ensures forall u :: 0 <= u < |s'.c.threads| ==> ThreadOk(s', u)
  {
    assert ThreadOk(s, t);
    forall u | 0 <= u < |s.c.threads| && u != t ensures Rely(s, s', u) {
      assert ThreadOk(s, u);
    }
    assert ThreadOk(s', t);
    OthersKeepThreads(s, s', t);
  }

  lemma ProdClaimPending(s: Sys, s': Sys, t: nat)
    requires Inv(s) && t < |s.c.threads| && WellFormed(s') && ProdClaim(s, s', t)
    ensures Pending(s')
  {
    assert ThreadOk(s, t);
    PendingOwnersInClaim(s, t);
    OthersKeepPending(s, s', t);
  }

  lemma ProdClaimEffect(s: Sys, s': Sys, t: nat)
    requires Inv(s) && t < |s.c.threads| && WellFormed(s') && ProdClaim(s, s', t)
    ensures Inv(s')
  {
    assert ThreadOk(s, t);
    ProdClaimThreads(s, s', t);
    ProdClaimPending(s, s', t);
  }

  /** A thread outside a claim owns no pending ticket. */
  lemma PendingOwnersInClaim(s: Sys, t: nat)
    requires Inv(s) && t < |s.c.threads|
    ensures !ClaimedProd(s.c.threads[t]) ==> forall k :: s.x.pt <= k < s.x.ph ==> s.x.pOwner[k] != t
    ensures !ClaimedCons(s.c.threads[t]) ==> forall k :: s.x.ct <= k < s.x.ch ==> s.x.cOwner[k] != t
    ensures ClaimedProd(s.c.threads[t]) ==>
              forall k :: s.x.pt <= k < s.x.ph && s.x.pOwner[k] == t ==> k == s.x.ticket[t]
    ensures ClaimedCons(s.c.threads[t]) ==>
              forall k :: s.x.ct <= k < s.x.ch && s.x.cOwner[k] == t ==> k == s.x.ticket[t]
  {
    forall k | s.x.pt <= k < s.x.ph && s.x.pOwner[k] == t
      ensures ClaimedProd(s.c.threads[t]) && k == s.x.ticket[t]
    {
      assert PendingProd(s, k);
    }
    forall k | s.x.ct <= k < s.x.ch && s.x.cOwner[k] == t
      ensures ClaimedCons(s.c.threads[t]) && k == s.x.ticket[t]
    {
      assert PendingCons(s, k);
    }
  }

  lemma ProdGrowKeepsInv(s: Sys, a: Action)
    requires Inv(s) && Enabled(s.c, a) && a.Run? && s.c.threads[a.t].PGrow?
    ensures Inv(Step(s, a))
  {
    var s', t := Step(s, a), a.t;
    assert ThreadOk(s, t);
    SlotStepKeepsInv(s, s', t, s'.c.threads[t], s'.c.ring.slots[s.c.threads[t].h]);
  }

  lemma ProdCopyKeepsInv(s: Sys, a: Action)
    requires Inv(s) && Enabled(s.c, a) && a.Run? && s.c.threads[a.t].PCopy?
    ensures Inv(Step(s, a))
  {
    var t, l := a.t, s.c.threads[a.t];
    assert ThreadOk(s, t);
    if l.i >= |l.msg| {
      assert l.msg[..l.i] == l.msg;
      GotoKeepsInv(s, Step(s, a), t, PLen(l.msg, l.h));
    } else {
      var e := s.c.ring.slots[l.h];
      ProdByteKeepsInv(s, Step(s, a), t, e.(data := e.data[l.i := l.msg[l.i]]));
    }
  }

  lemma ProdByteKeepsInv(s: Sys, s': Sys, t: nat, e': Entry)
    requires Inv(s) && WellFormed(s') && t < |s.c.threads| && s.c.threads[t].PCopy?
    requires var l, r := s.c.threads[t], s.c.ring;
             && l.h < r.size && l.i < |l.msg| && l.i < |r.slots[l.h].data|
             && e' == r.slots[l.h].(data := r.slots[l.h].data[l.i := l.msg[l.i]])
             && s' == Sys(Goto(s.c.(ring := SetSlot(r, l.h, e')), t, PCopy(l.msg, l.h, l.i + 1)), s.x)
    ensures Inv(s')
  {
    var l := s.c.threads[t];
    assert ThreadOk(s, t);
    assert e'.data[..l.i + 1] == s.c.ring.slots[l.h].data[..l.i] + [l.msg[l.i]];
    assert l.msg[..l.i + 1] == l.msg[..l.i] + [l.msg[l.i]];
    SlotStepKeepsInv(s, s', t, PCopy(l.msg, l.h, l.i + 1), e');
  }

  lemma ProdLenKeepsInv(s: Sys, a: Action)
    requires Inv(s) && Enabled(s.c, a) && a.Run? && s.c.threads[a.t].PLen?
    ensures Inv(Step(s, a))
  {
    var s', t := Step(s, a), a.t;
    assert ThreadOk(s, t);
    if !s.c.cfg.multiProd { SoleProducerIsNext(s, t); }
    SlotStepKeepsInv(s, s', t, s'.c.threads[t], s'.c.ring.slots[s.c.threads[t].h]);
  }

  lemma ProdWaitKeepsInv(s: Sys, a: Action)
    requires Inv(s) && Enabled(s.c, a) && a.Run? && s.c.threads[a.t].PWait?
    ensures Inv(Step(s, a))
  {
    var t, l := a.t, s.c.threads[a.t];
    if s.c.ring.prodTail == l.h {
      ProdTurnKeepsInv(s, Step(s, a), t);
    }
  }

  lemma ProdTurnKeepsInv(s: Sys, s': Sys, t: nat)
    requires Inv(s) && WellFormed(s') && t < |s.c.threads| && s.c.threads[t].PWait?
    requires s.c.ring.prodTail == s.c.threads[t].h
    requires s' == Sys(Goto(s.c, t, PPub(s.c.threads[t].msg, s.c.threads[t].h)), s.x)
    ensures Inv(s')
  {
    assert ThreadOk(s, t);
    SlotInjective(s.x.pt, s.x.ticket[t], s.c.ring.size);
    GotoKeepsInv(s, s', t, s'.c.threads[t]);
  }

  /** A sole producer that has claimed is the only one pending. */
  lemma SoleProducerIsNext(s: Sys, t: nat)
    requires Inv(s) && t < |s.c.threads| && ClaimedProd(s.c.threads[t]) && !s.c.cfg.multiProd
    ensures s.x.ticket[t] == s.x.pt
  {
    assert ThreadOk(s, t);
    assert PendingProd(s, s.x.pt);
    assert ThreadOk(s, s.x.pOwner[s.x.pt]);
  }

  lemma ProdPublishKeepsInv(s: Sys, a: Action)
    requires Inv(s) && Enabled(s.c, a) && a.Run? && s.c.threads[a.t].PPub?
    ensures Inv(Step(s, a))
  {
    var t, l := a.t, s.c.threads[a.t];
    assert ThreadOk(s, t);
    ProdPublishEffect(s, Step(s, a), t);
  }

  /** Thread t's store of prod.tail. */
  ghost predicate ProdPublish(s: Sys, s': Sys, t: nat)
    requires WellFormed(s) && t < |s.c.threads|
  {
    var l, r := s.c.threads[t], s.c.ring;
    && l.PPub? && l.h < r.size
    && s'.c == Goto(s.c.(ring := r.(prodTail := Next(r, l.h))), t, EnqRet(SUCCESS))
    && s'.x == s.x.(pt := s.x.pt + 1)
  }

  lemma ProdPublishThreads(s: Sys, s': Sys, t: nat)
    requires Inv(s) && t < |s.c.threads| && WellFormed(s') && ProdPublish(s, s', t)
    ensures forall u :: 0 <= u < |s'.c.threads| ==> ThreadOk(s', u)
  {
    assert ThreadOk(s, t);
    forall u | 0 <= u < |s.c.threads| && u != t ensures Rely(s, s', u) {
      assert ThreadOk(s, u);
    }
    assert ThreadOk(s', t);
    OthersKeepThreads(s, s', t);
  }

  lemma ProdPublishPending(s: Sys, s': Sys, t: nat)
    requires Inv(s) && t < |s.c.threads| && WellFormed(s') && ProdPublish(s, s', t)
    ensures Pending(s')
  {
    assert ThreadOk(s, t);
    PendingOwnersInClaim(s, t);
    OthersKeepPending(s, s', t);
  }

  lemma ProdPublishEffect(s: Sys, s': Sys, t: nat)
    requires Inv(s) && t < |s.c.threads| && WellFormed(s') && ProdPublish(s, s', t)
    ensures Inv(s')
  {
    assert ThreadOk(s, t);
    ProdPublishThreads(s, s', t);
    ProdPublishPending(s, s', t);
  }

  // ---------------------------------------------------------------- dequeue

  lemma ConsLoadKeepsInv(s: Sys, a: Action)
    requires Inv(s) && Enabled(s.c, a) && a.Run? && s.c.threads[a.t].CLoad?
    ensures Inv(Step(s, a))
  {
    var s', t := Step(s, a), a.t;
    assert ThreadOk(s, t);
    LocalStepKeepsInv(s, s', t, CTest(s.c.threads[t].out, s.c.ring.consHead), s.x.ch);
  }

  lemma ConsTestKeepsInv(s: Sys, a: Action)
    requires Inv(s) && Enabled(s.c, a) && a.Run? && s.c.threads[a.t].CTest?
    ensures Inv(Step(s, a))
  {
    var s', t := Step(s, a), a.t;
    assert ThreadOk(s, t);
    EntryMeansNotEmpty(s);
    GotoKeepsInv(s, s', t, s'.c.threads[t]);
  }

  lemma ConsClaimKeepsInv(s: Sys, a: Action)
    requires Inv(s) && Enabled(s.c, a) && a.Run? && s.c.threads[a.t].CClaim?
    requires Guarded(s.c, a)
    ensures Inv(Step(s, a))
  {
    var s', t := Step(s, a), a.t;
    assert ThreadOk(s, t);
    if !ClaimSucceeds(s.c, t) {
      LocalStepKeepsInv(s, s', t, s'.c.threads[t], s'.x.ticket[t]);
    } else {
      EntryMeansNotEmpty(s);
      assert s.c.threads[t].h == s.c.ring.consHead;
      ConsClaimEffect(s, s', t);
    }
  }

  /** Thread t's claim of a dequeue ticket, with an entry published. */
  ghost predicate ConsClaim(s: Sys, s': Sys, t: nat)
    requires WellFormed(s) && t < |s.c.threads|
  {
    var l, x, r := s.c.threads[t], s.x, s.c.ring;
    && l.CClaim? && l.h == r.consHead && x.ch < x.pt
    && s'.c == Goto(s.c.(ring := r.(consHead := Next(r, l.h))), t, CGrow(l.out, l.h))
    && s'.x == x.(ticket := x.ticket[t := x.ch], ch := x.ch + 1, cOwner := x.cOwner + [t])
  }

  lemma ConsClaimThreads(s: Sys, s': Sys, t: nat)
    requires Inv(s) && t < |s.c.threads| && WellFormed(s') && ConsClaim(s, s', t)
    ensures forall u :: 0 <= u < |s'.c.threads| ==> ThreadOk(s', u)
  {
    assert ThreadOk(s, t);
    forall u | 0 <= u < |s.c.threads| && u != t ensures Rely(s, s', u) {
      assert ThreadOk(s, u);
    }
    assert ThreadOk(s', t);
    OthersKeepThreads(s, s', t);
  }

  lemma ConsClaimPending(s: Sys, s': Sys, t: nat)
    requires Inv(s) && t < |s.c.threads| && WellFormed(s') && ConsClaim(s, s', t)
    ensures Pending(s')
  {
    assert ThreadOk(s, t);
    PendingOwnersInClaim(s, t);
    OthersKeepPending(s, s', t);
  }

  lemma ConsClaimEffect(s: Sys, s': Sys, t: nat)
    requires Inv(s) && t < |s.c.threads| && WellFormed(s') && ConsClaim(s, s', t)
    ensures Inv(s')
  {
    assert ThreadOk(s, t);
    ConsClaimThreads(s, s', t);
    ConsClaimPending(s, s', t);
  }

  /** The slot a consumer reads holds the message of its ticket while it reads. */
  lemma ClaimedEntryHolds(s: Sys, t: nat)
    requires Inv(s) && t < |s.c.threads| && ClaimedCons(s.c.threads[t])
    ensures s.x.ticket[t] < s.x.pt
    ensures Holds(s.c.ring.slots[s.c.threads[t].h], s.x.sent[s.x.ticket[t]])
  {
    assert ThreadOk(s, t);
  }

  lemma ConsGrowKeepsInv(s: Sys, a: Action)
    requires Inv(s) && Enabled(s.c, a) && a.Run? && s.c.threads[a.t].CGrow?
    ensures Inv(Step(s, a))
  {
    var s', t := Step(s, a), a.t;
    assert ThreadOk(s, t);
    ClaimedEntryHolds(s, t);
    GotoKeepsInv(s, s', t, s'.c.threads[t]);
  }

  lemma ConsCopyKeepsInv(s: Sys, a: Action)
    requires Inv(s) && Enabled(s.c, a) && a.Run? && s.c.threads[a.t].CCopy?
    ensures Inv(Step(s, a))
  {
    var t, l := a.t, s.c.threads[a.t];
    assert ThreadOk(s, t);
    ClaimedEntryHolds(s, t);
    var e := s.c.ring.slots[l.h];
    if l.i < e.contentLength {
      ConsByteKeepsInv(s, Step(s, a), t, l.out.data[l.i := e.data[l.i]]);
    } else {
      ConsEndKeepsInv(s, Step(s, a), t);
    }
  }

  lemma ConsByteKeepsInv(s: Sys, s': Sys, t: nat, data: Msg)
    requires Inv(s) && WellFormed(s') && t < |s.c.threads| && s.c.threads[t].CCopy?
    requires var l, r := s.c.threads[t], s.c.ring;
             && l.h < r.size && l.i < r.slots[l.h].contentLength
             && l.i < |r.slots[l.h].data| && l.i < |l.out.data|
             && data == l.out.data[l.i := r.slots[l.h].data[l.i]]
             && s' == Sys(Goto(s.c, t, CCopy(l.out.(data := data), l.h, l.i + 1)), s.x)
    ensures Inv(s')
  {
    var l := s.c.threads[t];
    assert ThreadOk(s, t);
    ClaimedEntryHolds(s, t);
    var m, e := s.x.sent[s.x.ticket[t]], s.c.ring.slots[l.h];
    assert e.data[l.i] == e.data[..|m|][l.i] == m[l.i];
    assert data[..l.i + 1] == l.out.data[..l.i] + [m[l.i]];
    assert m[..l.i + 1] == m[..l.i] + [m[l.i]];
    GotoKeepsInv(s, s', t, s'.c.threads[t]);
  }

  lemma ConsEndKeepsInv(s: Sys, s': Sys, t: nat)
    requires Inv(s) && WellFormed(s') && t < |s.c.threads| && s.c.threads[t].CCopy?
    requires var l := s.c.threads[t];
             && l.h < s.c.ring.size && l.i >= s.c.ring.slots[l.h].contentLength
             && s' == Sys(Goto(s.c, t, CLen(l.out, l.h)), s.x)
    ensures Inv(s')
  {
    var l := s.c.threads[t];
    assert ThreadOk(s, t);
    ClaimedEntryHolds(s, t);
    assert s.x.sent[s.x.ticket[t]][..l.i] == s.x.sent[s.x.ticket[t]];
    GotoKeepsInv(s, s', t, s'.c.threads[t]);
  }

  lemma ConsLenKeepsInv(s: Sys, a: Action)
    requires Inv(s) && Enabled(s.c, a) && a.Run? && s.c.threads[a.t].CLen?
    ensures Inv(Step(s, a))
  {
    var s', t := Step(s, a), a.t;
    assert ThreadOk(s, t);
    ClaimedEntryHolds(s, t);
    if !s.c.cfg.multiCons { SoleConsumerIsNext(s, t); }
    GotoKeepsInv(s, s', t, s'.c.threads[t]);
  }

  lemma ConsWaitKeepsInv(s: Sys, a: Action)
    requires Inv(s) && Enabled(s.c, a) && a.Run? && s.c.threads[a.t].CWait?
    ensures Inv(Step(s, a))
  {
    var t, l := a.t, s.c.threads[a.t];
    if s.c.ring.consTail == l.h {
      ConsTurnKeepsInv(s, Step(s, a), t);
    }
  }

  lemma ConsTurnKeepsInv(s: Sys, s': Sys, t: nat)
    requires Inv(s) && WellFormed(s') && t < |s.c.threads| && s.c.threads[t].CWait?
    requires s.c.ring.consTail == s.c.threads[t].h
    requires s' == Sys(Goto(s.c, t, CPub(s.c.threads[t].out, s.c.threads[t].h)), s.x)
    ensures Inv(s')
  {
    assert ThreadOk(s, t);
    SlotInjective(s.x.ct, s.x.ticket[t], s.c.ring.size);
    GotoKeepsInv(s, s', t, s'.c.threads[t]);
  }

  lemma SoleConsumerIsNext(s: Sys, t: nat)
    requires Inv(s) && t < |s.c.threads| && ClaimedCons(s.c.threads[t]) && !s.c.cfg.multiCons
    ensures s.x.ticket[t] == s.x.ct
  {
    assert ThreadOk(s, t);
    assert PendingCons(s, s.x.ct);
    assert ThreadOk(s, s.x.cOwner[s.x.ct]);
  }

  lemma ConsReleaseKeepsInv(s: Sys, a: Action)
    requires Inv(s) && Enabled(s.c, a) && a.Run? && s.c.threads[a.t].CPub?
    ensures Inv(Step(s, a))
  {
    var t := a.t;
    assert ThreadOk(s, t);
    ConsReleaseEffect(s, Step(s, a), t);
  }

  /** Thread t's store of cons.tail. */
  ghost predicate ConsRelease(s: Sys, s': Sys, t: nat)
    requires WellFormed(s) && t < |s.c.threads|
  {
    var l, r := s.c.threads[t], s.c.ring;
    && l.CPub? && l.h < r.size
    && s'.c == Goto(s.c.(ring := r.(consTail := Next(r, l.h))), t, DeqRet(SUCCESS, l.out))
    && s'.x == s.x.(ct := s.x.ct + 1, received := s.x.received + [Taken(l.out)])
  }

  lemma ConsReleaseThreads(s: Sys, s': Sys, t: nat)
    requires Inv(s) && t < |s.c.threads| && WellFormed(s') && ConsRelease(s, s', t)
    ensures forall u :: 0 <= u < |s'.c.threads| ==> ThreadOk(s', u)
  {
    assert ThreadOk(s, t);
    forall u | 0 <= u < |s.c.threads| && u != t ensures Rely(s, s', u) {
      assert ThreadOk(s, u);
    }
    assert ThreadOk(s', t);
    OthersKeepThreads(s, s', t);
  }

  lemma ConsReleasePending(s: Sys, s': Sys, t: nat)
    requires Inv(s) && t < |s.c.threads| && WellFormed(s') && ConsRelease(s, s', t)
    ensures Pending(s')
  {
    assert ThreadOk(s, t);
    PendingOwnersInClaim(s, t);
    OthersKeepPending(s, s', t);
  }

  lemma ConsReleaseEffect(s: Sys, s': Sys, t: nat)
    requires Inv(s) && t < |s.c.threads| && WellFormed(s') && ConsRelease(s, s', t)
    ensures Inv(s')
  {
    assert ThreadOk(s, t);
    ReleaseHandsOutNext(s, t);
    ConsReleaseThreads(s, s', t);
    ConsReleasePending(s, s', t);
  }

  /** What a releasing consumer hands out is the next message in claim order. */
  lemma ReleaseHandsOutNext(s: Sys, t: nat)
    requires Inv(s) && t < |s.c.threads| && s.c.threads[t].CPub?
    ensures s.x.ct < s.x.pt && Taken(s.c.threads[t].out) == s.x.sent[s.x.ct]
    ensures s.x.received + [Taken(s.c.threads[t].out)] <= s.x.sent
  {
    assert ThreadOk(s, t);
    assert s.x.sent[..s.x.ct + 1] == s.x.sent[..s.x.ct] + [s.x.sent[s.x.ct]];
  }

  /** Every guarded step keeps the invariant. */
  lemma StepKeepsInv(s: Sys, a: Action)
    requires Inv(s) && Enabled(s.c, a) && Guarded(s.c, a)
    ensures Inv(Step(s, a))
  {
    if !a.Run? {
      CallKeepsInv(s, a);
    } else {
      match s.c.threads[a.t]
      case PLoad(_) => ProdLoadKeepsInv(s, a);
      case PTest(_, _) => ProdTestKeepsInv(s, a);
      case PClaim(_, _) => ProdClaimKeepsInv(s, a);
      case PGrow(_, _) => ProdGrowKeepsInv(s, a);
      case PCopy(_, _, _) => ProdCopyKeepsInv(s, a);
      case PLen(_, _) => ProdLenKeepsInv(s, a);
      case PWait(_, _) => ProdWaitKeepsInv(s, a);
      case PPub(_, _) => ProdPublishKeepsInv(s, a);
      case CLoad(_) => ConsLoadKeepsInv(s, a);
      case CTest(_, _) => ConsTestKeepsInv(s, a);
      case CClaim(_, _) => ConsClaimKeepsInv(s, a);
      case CGrow(_, _) => ConsGrowKeepsInv(s, a);
      case CCopy(_, _, _) => ConsCopyKeepsInv(s, a);
      case CLen(_, _) => ConsLenKeepsInv(s, a);
      case CWait(_, _) => ConsWaitKeepsInv(s, a);
      case CPub(_, _) => ConsReleaseKeepsInv(s, a);
    }
  }
}

/**
 Concrete runs of a two-slot ring with three threads and one-byte messages. They show that the
 multi-party claims are unsafe without their guards, on either side, and that NOSPACE and NOENT of
 the multi-party calls may be spurious.
 */
module RingWitness {
  import opened Prelude
  import opened RingIndex
  import opened RingProtocol
  import opened RingInvariant
  import opened RingTheorems
  import RingFree
  import Bits

  ghost predicate Reachable(s: Sys) {
    exists ss: seq<Sys>, acts: seq<Action> :: IsRun(ss, acts) && ss[|acts|] == s
  }

  lemma ReachableStep(s: Sys, a: Action, s': Sys)
    requires Reachable(s) && IsStep(s, a, s')
    ensures Reachable(s')
  {
    var ss: seq<Sys>, acts: seq<Action> :| IsRun(ss, acts) && ss[|acts|] == s;
    var zs, as' := ss + [s'], acts + [a];
    forall i | 0 <= i < |as'| ensures IsStep(zs[i], as'[i], zs[i + 1]) {
      if i < |acts| { assert IsStep(ss[i], acts[i], ss[i + 1]); }
    }
    assert IsRun(zs, as') && zs[|as'|] == s';
  }

  /** A slot or out-parameter that holds the one-byte message [b]. */
  function Holding(b: Byte): Entry { Entry(1, 1, [b]) }

  const BLANK := Entry(1, 0, [0])
  const PAD: nat -> Byte := _ => 0

  predicate OneByte(e: Entry) { e.size == 1 && |e.data| == 1 }

  /** Three threads round a ring of two one-byte slots, every entry point the multi-party one. */
  const START := Sys(Conc(Ring(0, 0, 0, 0, 2, 1, [BLANK, BLANK]), Config(true, true, 0, 0),
                          [Idle, Idle, Idle], false),
                     Aux(0, 0, 0, 0, [], [], [], [], [0, 0, 0]))

  lemma StartReachable()
    ensures Init(START) && Reachable(START)
  {
    assert Bits.Pow2(1) == 2;
    assert RingSize(2);
    var none: seq<Action> := [];
    assert IsRun([START], none) && [START][|none|] == START;
  }

  /** Let thread t take one step. */
  lemma Go(s: Sys, t: nat) returns (s': Sys)
    requires Reachable(s) && WellFormed(s) && Enabled(s.c, Run(t, PAD))
    ensures Reachable(s') && IsStep(s, Run(t, PAD), s')
  {
    s' := Step(s, Run(t, PAD));
    ReachableStep(s, Run(t, PAD), s');
  }

  lemma Call(s: Sys, a: Action) returns (s': Sys)
    requires Reachable(s) && WellFormed(s) && Enabled(s.c, a) && !a.Run?
    ensures Reachable(s') && IsStep(s, a, s')
  {
    s' := Step(s, a);
    ReachableStep(s, a, s');
  }

  // ---------------------------------------------------------------- enqueueing one byte

  /** Thread t enters enqueue, loads the head and passes the test for space. */
  lemma LoadAndTest(s: Sys, t: nat, b: Byte) returns (z: Sys)
    requires Reachable(s) && WellFormed(s) && t < |s.c.threads| && Resting(s.c.threads[t]) && s.c.cfg.multiProd
    requires Next(s.c.ring, s.c.ring.prodHead) != s.c.ring.consTail
    ensures Reachable(z) && WellFormed(z)
    ensures z == Sys(Goto(s.c, t, PClaim([b], s.c.ring.prodHead)), s.x.(ticket := s.x.ticket[t := s.x.ph]))
  {
    z := Call(s, CallEnq(t, [b]));
    z := Go(z, t);
    z := Go(z, t);
    assert z.c.threads == s.c.threads[t := PClaim([b], s.c.ring.prodHead)];
  }

  /** Its CAS succeeds. */
  lemma Claim(s: Sys, t: nat, b: Byte, h: nat) returns (z: Sys)
    requires Reachable(s) && WellFormed(s) && t < |s.c.threads|
    requires s.c.threads[t] == PClaim([b], h) && s.c.ring.prodHead == h
    ensures Reachable(z) && WellFormed(z)
    ensures z == Sys(Goto(s.c.(ring := s.c.ring.(prodHead := Next(s.c.ring, h))), t, PGrow([b], h)),
                     s.x.(ph := s.x.ph + 1, sent := s.x.sent + [[b]], pOwner := s.x.pOwner + [t],
                          ticket := s.x.ticket[t := s.x.ph]))
  {
    z := Go(s, t);
  }

  /** It copies its byte into the slot, which is large enough. */
  lemma Fill(s: Sys, t: nat, b: Byte, h: nat) returns (z: Sys)
    requires Reachable(s) && WellFormed(s) && t < |s.c.threads|
    requires s.c.threads[t] == PGrow([b], h) && h < s.c.ring.size && OneByte(s.c.ring.slots[h])
    ensures Reachable(z) && WellFormed(z)
    ensures z == Sys(Goto(s.c.(ring := SetSlot(s.c.ring, h, s.c.ring.slots[h].(data := [b]))), t, PLen([b], h)), s.x)
  {
    z := FindLargeEnough(s, t, b, h);
    z := CopyByte(z, t, b, h);
    z := Go(z, t);
    assert z.c.threads == s.c.threads[t := PLen([b], h)];
  }

  lemma FindLargeEnough(s: Sys, t: nat, b: Byte, h: nat) returns (z: Sys)
    requires Reachable(s) && WellFormed(s) && t < |s.c.threads|
    requires s.c.threads[t] == PGrow([b], h) && h < s.c.ring.size && OneByte(s.c.ring.slots[h])
    ensures Reachable(z) && WellFormed(z)
    ensures z == Sys(Goto(s.c, t, PCopy([b], h, 0)), s.x)
  {
    z := Go(s, t);
    assert s.c.ring.slots[h := s.c.ring.slots[h]] == s.c.ring.slots;
  }

  lemma CopyByte(s: Sys, t: nat, b: Byte, h: nat) returns (z: Sys)
    requires Reachable(s) && WellFormed(s) && t < |s.c.threads|
    requires s.c.threads[t] == PCopy([b], h, 0) && h < s.c.ring.size && OneByte(s.c.ring.slots[h])
    ensures Reachable(z) && WellFormed(z)
    ensures z == Sys(Goto(s.c.(ring := SetSlot(s.c.ring, h, s.c.ring.slots[h].(data := [b]))), t, PCopy([b], h, 1)), s.x)
  {
    z := Go(s, t);
    assert s.c.ring.slots[h].data[0 := b] == [b];
  }

  /** It stores the length, finds the tail at its slot and publishes. */
  lemma SetLength(s: Sys, t: nat, b: Byte, h: nat) returns (z: Sys)
    requires Reachable(s) && WellFormed(s) && t < |s.c.threads| && s.c.cfg.multiProd
    requires s.c.threads[t] == PLen([b], h) && h < s.c.ring.size
    requires OneByte(s.c.ring.slots[h]) && s.c.ring.slots[h].data == [b]
    ensures Reachable(z) && WellFormed(z)
    ensures z == Sys(Goto(s.c.(ring := SetSlot(s.c.ring, h, Holding(b))), t, PWait([b], h)), s.x)
  {
    z := Go(s, t);
  }

  lemma Publish(s: Sys, t: nat, b: Byte, h: nat) returns (z: Sys)
    requires Reachable(s) && WellFormed(s) && t < |s.c.threads|
    requires s.c.threads[t] == PWait([b], h) && h < s.c.ring.size && s.c.ring.prodTail == h
    ensures Reachable(z) && WellFormed(z)
    ensures z == Sys(Goto(s.c.(ring := s.c.ring.(prodTail := Next(s.c.ring, h))), t, EnqRet(SUCCESS)),
                     s.x.(pt := s.x.pt + 1))
  {
    z := Go(s, t);
    z := Go(z, t);
    assert z.c.threads == s.c.threads[t := EnqRet(SUCCESS)];
  }

  /** From the claim to the return, when it is the thread's turn. */
  lemma FinishEnqueue(s: Sys, t: nat, b: Byte, h: nat) returns (z: Sys)
    requires Reachable(s) && WellFormed(s) && t < |s.c.threads| && s.c.cfg.multiProd
    requires s.c.threads[t] == PGrow([b], h) && h < s.c.ring.size && s.c.ring.prodTail == h
    requires OneByte(s.c.ring.slots[h])
    ensures Reachable(z) && WellFormed(z)
    ensures var r := s.c.ring;
            z == Sys(Goto(s.c.(ring := r.(prodTail := Next(r, h), slots := r.slots[h := Holding(b)])), t, EnqRet(SUCCESS)),
                     s.x.(pt := s.x.pt + 1))
  {
    z := WriteSlot(s, t, b, h);
    z := Publish(z, t, b, h);
    assert z.c.threads == s.c.threads[t := EnqRet(SUCCESS)];
  }

  lemma WriteSlot(s: Sys, t: nat, b: Byte, h: nat) returns (z: Sys)
    requires Reachable(s) && WellFormed(s) && t < |s.c.threads| && s.c.cfg.multiProd
    requires s.c.threads[t] == PGrow([b], h) && h < s.c.ring.size && OneByte(s.c.ring.slots[h])
    ensures Reachable(z) && WellFormed(z)
    ensures z == Sys(Goto(s.c.(ring := SetSlot(s.c.ring, h, Holding(b))), t, PWait([b], h)), s.x)
  {
    z := Fill(s, t, b, h);
    z := SetLength(z, t, b, h);
    assert z.c.threads == s.c.threads[t := PWait([b], h)];
    assert z.c.ring.slots == s.c.ring.slots[h := Holding(b)];
  }

  /** Thread t, alone, enqueues a byte on a ring with room. */
  lemma EnqueueAlone(s: Sys, t: nat, b: Byte) returns (z: Sys)
    requires Reachable(s) && WellFormed(s) && t < |s.c.threads| && Resting(s.c.threads[t])
    requires s.c.cfg.multiProd && s.c.ring.prodHead == s.c.ring.prodTail
    requires Next(s.c.ring, s.c.ring.prodHead) != s.c.ring.consTail
    requires OneByte(s.c.ring.slots[s.c.ring.prodHead])
    ensures Reachable(z) && WellFormed(z)
    ensures var r := s.c.ring; var h := r.prodHead; var n := Next(r, h);
            z.c == Goto(s.c.(ring := r.(prodHead := n, prodTail := n, slots := r.slots[h := Holding(b)])), t, EnqRet(SUCCESS))
    ensures z.x == s.x.(ph := s.x.ph + 1, pt := s.x.pt + 1, sent := s.x.sent + [[b]],
                        pOwner := s.x.pOwner + [t], ticket := s.x.ticket[t := s.x.ph])
  {
    var h := s.c.ring.prodHead;
    z := LoadAndTest(s, t, b);
    z := Claim(z, t, b, h);
    z := FinishEnqueue(z, t, b, h);
    assert z.c.threads == s.c.threads[t := EnqRet(SUCCESS)];
    assert z.x.ticket == s.x.ticket[t := s.x.ph];
  }

  // ---------------------------------------------------------------- dequeueing one byte

  lemma LoadAndFind(s: Sys, t: nat) returns (z: Sys)
    requires Reachable(s) && WellFormed(s) && t < |s.c.threads| && Resting(s.c.threads[t]) && s.c.cfg.multiCons
    requires s.c.ring.consHead != s.c.ring.prodTail
    ensures Reachable(z) && WellFormed(z)
    ensures z == Sys(Goto(s.c, t, CClaim(BLANK, s.c.ring.consHead)), s.x.(ticket := s.x.ticket[t := s.x.ch]))
  {
    z := Call(s, CallDeq(t, BLANK));
    z := Go(z, t);
    z := Go(z, t);
    assert z.c.threads == s.c.threads[t := CClaim(BLANK, s.c.ring.consHead)];
  }

  lemma ClaimEntry(s: Sys, t: nat, h: nat) returns (z: Sys)
    requires Reachable(s) && WellFormed(s) && t < |s.c.threads|
    requires s.c.threads[t] == CClaim(BLANK, h) && s.c.ring.consHead == h
    ensures Reachable(z) && WellFormed(z)
    ensures z == Sys(Goto(s.c.(ring := s.c.ring.(consHead := Next(s.c.ring, h))), t, CGrow(BLANK, h)),
                     s.x.(ch := s.x.ch + 1, cOwner := s.x.cOwner + [t], ticket := s.x.ticket[t := s.x.ch]))
  {
    z := Go(s, t);
  }

  lemma BeginDequeue(s: Sys, t: nat) returns (z: Sys)
    requires Reachable(s) && WellFormed(s) && t < |s.c.threads| && Resting(s.c.threads[t]) && s.c.cfg.multiCons
    requires s.c.ring.consHead != s.c.ring.prodTail
    ensures Reachable(z) && WellFormed(z)
    ensures var r := s.c.ring;
            z == Sys(Goto(s.c.(ring := r.(consHead := Next(r, r.consHead))), t, CGrow(BLANK, r.consHead)),
                     s.x.(ch := s.x.ch + 1, cOwner := s.x.cOwner + [t], ticket := s.x.ticket[t := s.x.ch]))
  {
    z := LoadAndFind(s, t);
    z := ClaimEntry(z, t, s.c.ring.consHead);
    assert z.c.threads == s.c.threads[t := CGrow(BLANK, s.c.ring.consHead)];
    assert z.x.ticket == s.x.ticket[t := s.x.ch];
  }

  lemma FindRoom(s: Sys, t: nat, b: Byte, h: nat) returns (z: Sys)
    requires Reachable(s) && WellFormed(s) && t < |s.c.threads|
    requires s.c.threads[t] == CGrow(BLANK, h) && h < s.c.ring.size && s.c.ring.slots[h] == Holding(b)
    ensures Reachable(z) && WellFormed(z)
    ensures z == Sys(Goto(s.c, t, CCopy(BLANK, h, 0)), s.x)
  {
    z := Go(s, t);
  }

  lemma ReadByte(s: Sys, t: nat, b: Byte, h: nat) returns (z: Sys)
    requires Reachable(s) && WellFormed(s) && t < |s.c.threads|
    requires s.c.threads[t] == CCopy(BLANK, h, 0) && h < s.c.ring.size && s.c.ring.slots[h] == Holding(b)
    ensures Reachable(z) && WellFormed(z)
    ensures z == Sys(Goto(s.c, t, CCopy(Entry(1, 0, [b]), h, 1)), s.x)
  {
    z := Go(s, t);
    assert BLANK.data[0 := b] == [b];
  }

  lemma EndRead(s: Sys, t: nat, b: Byte, h: nat) returns (z: Sys)
    requires Reachable(s) && WellFormed(s) && t < |s.c.threads|
    requires s.c.threads[t] == CCopy(Entry(1, 0, [b]), h, 1) && h < s.c.ring.size && s.c.ring.slots[h] == Holding(b)
    ensures Reachable(z) && WellFormed(z)
    ensures z == Sys(Goto(s.c, t, CLen(Entry(1, 0, [b]), h)), s.x)
  {
    z := Go(s, t);
  }

  lemma ReadLength(s: Sys, t: nat, b: Byte, h: nat) returns (z: Sys)
    requires Reachable(s) && WellFormed(s) && t < |s.c.threads| && s.c.cfg.multiCons
    requires s.c.threads[t] == CLen(Entry(1, 0, [b]), h) && h < s.c.ring.size && s.c.ring.slots[h] == Holding(b)
    ensures Reachable(z) && WellFormed(z)
    ensures z == Sys(Goto(s.c, t, CWait(Holding(b), h)), s.x)
  {
    z := Go(s, t);
  }

  lemma Release(s: Sys, t: nat, b: Byte, h: nat) returns (z: Sys)
    requires Reachable(s) && WellFormed(s) && t < |s.c.threads|
    requires s.c.threads[t] == CWait(Holding(b), h) && h < s.c.ring.size && s.c.ring.consTail == h
    ensures Reachable(z) && WellFormed(z)
    ensures z == Sys(Goto(s.c.(ring := s.c.ring.(consTail := Next(s.c.ring, h))), t, DeqRet(SUCCESS, Holding(b))),
                     s.x.(ct := s.x.ct + 1, received := s.x.received + [[b]]))
  {
    z := Go(s, t);
    z := Go(z, t);
    assert z.c.threads == s.c.threads[t := DeqRet(SUCCESS, Holding(b))];
    assert Taken(Holding(b)) == [b];
  }

  /** From the claim to the return, when it is the thread's turn. */
  lemma FinishDequeue(s: Sys, t: nat, b: Byte, h: nat) returns (z: Sys)
    requires Reachable(s) && WellFormed(s) && t < |s.c.threads| && s.c.cfg.multiCons
    requires s.c.threads[t] == CGrow(BLANK, h) && h < s.c.ring.size && s.c.ring.consTail == h
    requires s.c.ring.slots[h] == Holding(b)
    ensures Reachable(z) && WellFormed(z)
    ensures z == Sys(Goto(s.c.(ring := s.c.ring.(consTail := Next(s.c.ring, h))), t, DeqRet(SUCCESS, Holding(b))),
                     s.x.(ct := s.x.ct + 1, received := s.x.received + [[b]]))
  {
    z := FindRoom(s, t, b, h);
    z := ReadByte(z, t, b, h);
    z := EndRead(z, t, b, h);
    z := ReadLength(z, t, b, h);
    z := Release(z, t, b, h);
    assert z.c.threads == s.c.threads[t := DeqRet(SUCCESS, Holding(b))];
  }

  /** Thread t, alone, dequeues from a ring whose oldest message is [b]. */
  lemma DequeueAlone(s: Sys, t: nat, b: Byte) returns (z: Sys)
    requires Reachable(s) && WellFormed(s) && t < |s.c.threads| && Resting(s.c.threads[t])
    requires s.c.cfg.multiCons && s.c.ring.consHead == s.c.ring.consTail
    requires s.c.ring.consHead != s.c.ring.prodTail
    requires s.c.ring.slots[s.c.ring.consHead] == Holding(b)
    ensures Reachable(z) && WellFormed(z)
    ensures var r := s.c.ring; var n := Next(r, r.consHead);
            z.c == Goto(s.c.(ring := r.(consHead := n, consTail := n)), t, DeqRet(SUCCESS, Holding(b)))
    ensures z.x == s.x.(ch := s.x.ch + 1, ct := s.x.ct + 1, received := s.x.received + [[b]],
                        cOwner := s.x.cOwner + [t], ticket := s.x.ticket[t := s.x.ch])
  {
    var h := s.c.ring.consHead;
    z := BeginDequeue(s, t);
    z := FinishDequeue(z, t, b, h);
    assert z.c.threads == s.c.threads[t := DeqRet(SUCCESS, Holding(b))];
  }

  // ---------------------------------------------------------------- the four runs

  /** The two-slot ring at an instant, with thread 0 at l0, thread 1 at l1 and thread 2 at l2. */
  function At(r: Ring, l0: Local, l1: Local, l2: Local, x: Aux): Sys {
    Sys(Conc(r, Config(true, true, 0, 0), [l0, l1, l2], false), x)
  }

  /** The ring untouched, thread 0 at l0. */
  function Untouched(l0: Local): Sys {
    At(Ring(0, 0, 0, 0, 2, 1, [BLANK, BLANK]), l0, Idle, Idle, Aux(0, 0, 0, 0, [], [], [], [], [0, 0, 0]))
  }

  lemma TwoSlots()
    ensures RingSize(2)
  {
    assert Bits.Pow2(1) == 2;
  }

  /** What four calls of threads 1 and 2 make of the ring while thread 0 stays at l0. */
  function Put1(l0: Local, b: Byte): Sys {
    At(Ring(1, 1, 0, 0, 2, 1, [Holding(b), BLANK]), l0, EnqRet(SUCCESS), Idle,
       Aux(1, 1, 0, 0, [[b]], [], [1], [], [0, 0, 0]))
  }

  function Took1(l0: Local, b: Byte): Sys {
    At(Ring(1, 1, 1, 1, 2, 1, [Holding(b), BLANK]), l0, EnqRet(SUCCESS), DeqRet(SUCCESS, Holding(b)),
       Aux(1, 1, 1, 1, [[b]], [[b]], [1], [2], [0, 0, 0]))
  }

  function Put2(l0: Local, b: Byte, c: Byte): Sys {
    At(Ring(0, 0, 1, 1, 2, 1, [Holding(b), Holding(c)]), l0, EnqRet(SUCCESS), DeqRet(SUCCESS, Holding(b)),
       Aux(2, 2, 1, 1, [[b], [c]], [[b]], [1, 1], [2], [0, 1, 0]))
  }

  function Took2(l0: Local, b: Byte, c: Byte): Sys {
    At(Ring(0, 0, 0, 0, 2, 1, [Holding(b), Holding(c)]), l0, EnqRet(SUCCESS), DeqRet(SUCCESS, Holding(c)),
       Aux(2, 2, 2, 2, [[b], [c]], [[b], [c]], [1, 1], [2, 2], [0, 1, 1]))
  }

  lemma ReachPut1(l0: Local, b: Byte) returns (z: Sys)
    requires Reachable(Untouched(l0)) && LocalInRange(l0, 2)
    ensures z == Put1(l0, b) && Reachable(z) && WellFormed(z)
  {
    TwoSlots();
    assert WellFormed(Untouched(l0));
    z := EnqueueAlone(Untouched(l0), 1, b);
    assert z.c.threads == Put1(l0, b).c.threads;
    assert z.x.ticket == [0, 0, 0];
  }

  lemma ReachTook1(l0: Local, b: Byte) returns (z: Sys)
    requires Reachable(Put1(l0, b)) && WellFormed(Put1(l0, b))
    ensures z == Took1(l0, b) && Reachable(z) && WellFormed(z)
  {
    z := DequeueAlone(Put1(l0, b), 2, b);
    assert z.c.threads == Took1(l0, b).c.threads;
    assert z.x.ticket == [0, 0, 0];
  }

  lemma ReachPut2(l0: Local, b: Byte, c: Byte) returns (z: Sys)
    requires Reachable(Took1(l0, b)) && WellFormed(Took1(l0, b))
    ensures z == Put2(l0, b, c) && Reachable(z) && WellFormed(z)
  {
    z := EnqueueAlone(Took1(l0, b), 1, c);
    assert z.c.threads == Put2(l0, b, c).c.threads;
    assert z.x.ticket == [0, 1, 0];
  }

  lemma ReachTook2(l0: Local, b: Byte, c: Byte) returns (z: Sys)
    requires Reachable(Put2(l0, b, c)) && WellFormed(Put2(l0, b, c))
    ensures z == Took2(l0, b, c) && Reachable(z) && WellFormed(z)
  {
    z := DequeueAlone(Put2(l0, b, c), 2, c);
    assert z.c.threads == Took2(l0, b, c).c.threads;
    assert z.x.ticket == [0, 1, 1];
  }

  /** Thread 0 has loaded prod.head 0; the ring is still untouched. */
  lemma ProducerLoads() returns (l0: Local)
    ensures l0 == PTest([1], 0) && Reachable(Untouched(l0))
  {
    l0 := PTest([1], 0);
    StartReachable();
    var z := Call(START, CallEnq(0, [1]));
    z := Go(z, 0);
    assert z.c.threads == [l0, Idle, Idle];
    assert z.x.ticket == [0, 0, 0];
  }

  /** It has also passed the test for space. */
  lemma ProducerTests() returns (l0: Local)
    ensures l0 == PClaim([1], 0) && Reachable(Untouched(l0))
  {
    l0 := PClaim([1], 0);
    StartReachable();
    var z := LoadAndTest(START, 0, 1);
    assert z.c.threads == [l0, Idle, Idle];
    assert z.x.ticket == [0, 0, 0];
  }

  /** Thread 0 has loaded cons.head 0; the ring is still untouched. */
  lemma ConsumerLoads() returns (l0: Local)
    ensures l0 == CTest(BLANK, 0) && Reachable(Untouched(l0))
  {
    l0 := CTest(BLANK, 0);
    StartReachable();
    var z := Call(START, CallDeq(0, BLANK));
    z := Go(z, 0);
    assert z.c.threads == [l0, Idle, Idle];
    assert z.x.ticket == [0, 0, 0];
  }

  lemma ClaimLate() returns (z: Sys)
    requires Reachable(Put2(PClaim([1], 0), 2, 3)) && WellFormed(Put2(PClaim([1], 0), 2, 3))
    ensures Reachable(z) && WellFormed(z)
    ensures z == At(Ring(1, 0, 1, 1, 2, 1, [Holding(2), Holding(3)]),
                    PGrow([1], 0), EnqRet(SUCCESS), DeqRet(SUCCESS, Holding(2)),
                    Aux(3, 2, 1, 1, [[2], [3], [1]], [[2]], [1, 1, 0], [2], [2, 1, 0]))
  {
    z := Claim(Put2(PClaim([1], 0), 2, 3), 0, 1, 0);
    assert z.c.threads == [PGrow([1], 0), EnqRet(SUCCESS), DeqRet(SUCCESS, Holding(2))];
    assert z.x.ticket == [2, 1, 0];
  }

  /** The late CAS on the full ring, and the rest of its call. */
  lemma EnqueueLate() returns (z: Sys)
    requires Reachable(Put2(PClaim([1], 0), 2, 3)) && WellFormed(Put2(PClaim([1], 0), 2, 3))
    ensures Reachable(z)
    ensures z == At(Ring(1, 1, 1, 1, 2, 1, [Holding(1), Holding(3)]),
                    EnqRet(SUCCESS), EnqRet(SUCCESS), DeqRet(SUCCESS, Holding(2)),
                    Aux(3, 3, 1, 1, [[2], [3], [1]], [[2]], [1, 1, 0], [2], [2, 1, 0]))
  {
    z := ClaimLate();
    z := FinishEnqueue(z, 0, 1, 0);
    assert z.c.threads == [EnqRet(SUCCESS), EnqRet(SUCCESS), DeqRet(SUCCESS, Holding(2))];
  }

  /**
   The lap bound is needed by producers. Thread 0 loads head 0 and stops before its CAS; meanwhile
   the head goes once round the two slots. Its CAS then succeeds on a full ring. When every call has
   returned, three messages were accepted, one was handed out, and the ring says it is empty: two
   are lost.
   */
  lemma LateClaimLosesMessages() returns (z: Sys)
    ensures Reachable(z)
    ensures forall t :: 0 <= t < |z.c.threads| ==> Resting(z.c.threads[t])
    ensures z.x.sent == [[2], [3], [1]] && z.x.received == [[2]]
    ensures RingEmpty(z.c.ring) && !Safe(z)
  {
    var l0 := ProducerTests();
    z := ReachPut1(l0, 2);
    z := ReachTook1(l0, 2);
    z := ReachPut2(l0, 2, 3);
    z := EnqueueLate();
    assert !TicketsOrdered(z);
  }

  /** Thread 0 finds the first message and stops before its CAS. */
  lemma ConsumerFinds() returns (l0: Local)
    ensures l0 == CClaim(BLANK, 0) && Reachable(Put1(l0, 1)) && WellFormed(Put1(l0, 1))
  {
    l0 := CClaim(BLANK, 0);
    StartReachable();
    assert START == Untouched(Idle);
    var z := ReachPut1(Idle, 1);
    z := LoadAndFind(z, 0);
    assert z.c.threads == [l0, EnqRet(SUCCESS), Idle];
    assert z.x.ticket == [0, 0, 0];
    assert z == Put1(l0, 1);
  }

  lemma ClaimEntryLate() returns (z: Sys)
    requires Reachable(Took2(CClaim(BLANK, 0), 1, 2)) && WellFormed(Took2(CClaim(BLANK, 0), 1, 2))
    ensures Reachable(z) && WellFormed(z)
    ensures z == At(Ring(0, 0, 1, 0, 2, 1, [Holding(1), Holding(2)]),
                    CGrow(BLANK, 0), EnqRet(SUCCESS), DeqRet(SUCCESS, Holding(2)),
                    Aux(2, 2, 3, 2, [[1], [2]], [[1], [2]], [1, 1], [2, 2, 0], [2, 1, 1]))
  {
    z := ClaimEntry(Took2(CClaim(BLANK, 0), 1, 2), 0, 0);
    assert z.c.threads == [CGrow(BLANK, 0), EnqRet(SUCCESS), DeqRet(SUCCESS, Holding(2))];
    assert z.x.ticket == [2, 1, 1];
  }

  /** The late CAS on the empty ring, and the rest of its call. */
  lemma DequeueLate() returns (z: Sys)
    requires Reachable(Took2(CClaim(BLANK, 0), 1, 2)) && WellFormed(Took2(CClaim(BLANK, 0), 1, 2))
    ensures Reachable(z)
    ensures z == At(Ring(0, 0, 1, 1, 2, 1, [Holding(1), Holding(2)]),
                    DeqRet(SUCCESS, Holding(1)), EnqRet(SUCCESS), DeqRet(SUCCESS, Holding(2)),
                    Aux(2, 2, 3, 3, [[1], [2]], [[1], [2], [1]], [1, 1], [2, 2, 0], [2, 1, 1]))
  {
    z := ClaimEntryLate();
    z := FinishDequeue(z, 0, 1, 0);
    assert z.c.threads == [DeqRet(SUCCESS, Holding(1)), EnqRet(SUCCESS), DeqRet(SUCCESS, Holding(2))];
  }

  /**
   And by consumers. Thread 0 loads head 0 while the first message is there and stops before its
   CAS; both messages ever sent are then handed out to thread 2. Its CAS succeeds on an empty ring:
   the first message is handed out twice, and the ring then says it holds one.
   */
  lemma LateClaimDuplicatesMessage() returns (z: Sys)
    ensures Reachable(z)
    ensures forall t :: 0 <= t < |z.c.threads| ==> Resting(z.c.threads[t])
    ensures z.x.sent == [[1], [2]] && z.x.received == [[1], [2], [1]]
    ensures !RingEmpty(z.c.ring) && !Safe(z)
  {
    var l0 := ConsumerFinds();
    z := ReachTook1(l0, 1);
    z := ReachPut2(l0, 1, 2);
    z := ReachTook2(l0, 1, 2);
    z := DequeueLate();
    assert !TicketsOrdered(z);
  }

  /**
   x_ring_mp_enqueue may report NOSPACE on an empty ring: its head went stale between the two
   loads. So the exactness proved for the sp form does not carry over.
   */
  lemma MpNospaceCanBeSpurious() returns (z: Sys)
    ensures Reachable(z) && Inv(z)
    ensures |z.c.threads| == 3 && z.c.threads[0].PTest? && Queue(z) == []
    ensures Step(z, Run(0, PAD)).c.threads[0] == EnqRet(NOSPACE)
  {
    var l0 := ProducerLoads();
    z := ReachPut1(l0, 2);
    z := ReachTook1(l0, 2);
    StaleProducerInv(z);
  }

  /**
   At that refusal the ring of the header goes on to its CAS: with indices that are not masked the
   stale head leaves room. So a run that takes this step is no run of the header's ring, although
   the step is within the lap bound.
   */
  lemma StaleRefusalIsNoFreeStep() returns (z: Sys)
    ensures Reachable(z) && Inv(z) && Enabled(z.c, Run(0, PAD))
    ensures LapBounded(z, Run(0, PAD)) && RingFree.StaleRefusal(z, Run(0, PAD))
    ensures |z.c.threads| == 3 && z.c.threads[0].PTest?
    ensures var f := RingFree.Free(z);
            && RingFree.FreeShape(f) && Enabled(f, Run(0, PAD))
            && RingFree.FreeStep(f, Run(0, PAD)).threads[0] == PClaim([1], 0)
            && Step(z, Run(0, PAD)).c.threads[0] == EnqRet(NOSPACE)
  {
    var l0 := ProducerLoads();
    z := ReachPut1(l0, 2);
    z := ReachTook1(l0, 2);
    StaleProducerInv(z);
    RingFree.StepSimulated(z, Run(0, PAD));
  }

  lemma StaleProducerInv(z: Sys)
    requires WellFormed(z)
    requires z.c == Conc(Ring(1, 1, 1, 1, 2, 1, [Holding(2), BLANK]), Config(true, true, 0, 0),
                         [PTest([1], 0), EnqRet(SUCCESS), DeqRet(SUCCESS, Holding(2))], false)
    requires z.x == Aux(1, 1, 1, 1, [[2]], [[2]], [1], [2], [0, 0, 0])
    ensures Inv(z)
  {
    assert Slot(1, 2) == 1;
    assert ThreadOk(z, 0) && ThreadOk(z, 1) && ThreadOk(z, 2);
  }

  /** Likewise x_ring_mc_dequeue may report NOENT on a ring that holds a message. */
  lemma McNoentCanBeSpurious() returns (z: Sys)
    ensures Reachable(z) && Inv(z)
    ensures |z.c.threads| == 3 && z.c.threads[0].CTest? && Queue(z) == [[2]]
    ensures Step(z, Run(0, PAD)).c.threads[0] == DeqRet(NOENT, BLANK)
  {
    var l0 := ConsumerLoads();
    z := ReachPut1(l0, 1);
    z := ReachTook1(l0, 1);
    z := ReachPut2(l0, 1, 2);
    StaleConsumerInv(z);
    StaleConsumerFails(z);
  }

  lemma StaleConsumerFails(z: Sys)
    requires WellFormed(z) && |z.c.threads| == 3 && z.c.threads[0] == CTest(BLANK, 0) && z.c.ring.prodTail == 0
    ensures Step(z, Run(0, PAD)).c.threads[0] == DeqRet(NOENT, BLANK)
  {
  }

  lemma StaleConsumerInv(z: Sys)
    requires WellFormed(z)
    requires z.c == Conc(Ring(0, 0, 1, 1, 2, 1, [Holding(1), Holding(2)]), Config(true, true, 0, 0),
                         [CTest(BLANK, 0), EnqRet(SUCCESS), DeqRet(SUCCESS, Holding(1))], false)
    requires z.x == Aux(2, 2, 1, 1, [[1], [2]], [[1]], [1, 1], [2], [0, 1, 0])
    ensures Inv(z) && Queue(z) == [[2]]
  {
    assert Slot(1, 2) == 1 && Slot(2, 2) == 0;
    assert ThreadOk(z, 0) && ThreadOk(z, 1) && ThreadOk(z, 2);
    assert [[1 as Byte], [2]][1..2] == [[2]];
  }
}

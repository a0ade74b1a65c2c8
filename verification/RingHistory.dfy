/**
 The ring seen from outside, over whole runs: what was asked is read off the calls, what was answered
 off the returns. A refusal comes only from the call's own test, a lost compare-and-set never ends a
 call, and the messages handed out are, in order, those given to the calls that returned success.
 */
module RingHistory {
  import opened Prelude
  import opened RingIndex
  import opened RingProtocol
  import opened RingInvariant
  import opened RingTheorems

  // ---------------------------------------------------------------- single steps

  lemma AdvanceIsRemainder(h: nat, n: nat)
    requires h < n
    ensures Advance(h, n) == (h + 1) % n
  {
    if h + 1 == n {
      assert n % n == 0;
    }
  }

  /** An enqueue says NOSPACE, which is -1, exactly at a test that finds the next slot at cons.tail. */
  lemma EnqueueRefusal(c: Conc, a: Action)
    requires Shape(c) && Enabled(c, a) && a.Run? && InProd(c.threads[a.t])
    ensures var l, c' := c.threads[a.t], ConcStep(c, a);
            && (c'.threads[a.t] == EnqRet(-1) <==> l.PTest? && (l.h + 1) % c.ring.size == c.ring.consTail)
            && (c'.threads[a.t] == EnqRet(-1) ==> c'.ring == c.ring)
            && (c'.threads[a.t].EnqRet? ==> c'.threads[a.t].code == 0 || c'.threads[a.t].code == -1)
            && !c'.threads[a.t].DeqRet?
  {
    var l := c.threads[a.t];
    if l.PTest? { AdvanceIsRemainder(l.h, c.ring.size); }
  }

  /** A dequeue says NOENT, which is -2, exactly at a test that finds its slot at prod.tail. */
  lemma DequeueRefusal(c: Conc, a: Action)
    requires Shape(c) && Enabled(c, a) && a.Run? && InCons(c.threads[a.t])
    ensures var l, c' := c.threads[a.t], ConcStep(c, a);
            && (c'.threads[a.t] == DeqRet(-2, l.out) <==> l.CTest? && l.h == c.ring.prodTail)
            && (c'.threads[a.t].DeqRet? && c'.threads[a.t].code == -2 ==>
                  c'.threads[a.t].out == l.out && c'.ring == c.ring)
            && (c'.threads[a.t].DeqRet? ==> c'.threads[a.t].code == 0 || c'.threads[a.t].code == -2)
            && !c'.threads[a.t].EnqRet?
  {
  }

  /** A lost compare-and-set changes nothing shared and sends the call back to its load. */
  lemma LostCompareAndSet(c: Conc, a: Action)
    requires Shape(c) && Enabled(c, a) && a.Run?
    ensures var l := c.threads[a.t];
            && (l.PClaim? && c.cfg.multiProd && c.ring.prodHead != l.h ==>
                  ConcStep(c, a) == c.(threads := c.threads[a.t := PLoad(l.msg)]))
            && (l.CClaim? && c.cfg.multiCons && c.ring.consHead != l.h ==>
                  ConcStep(c, a) == c.(threads := c.threads[a.t := CLoad(l.out)]))
  {
  }

  /** A slot's buffer is replaced only when the message does not fit. */
  lemma SlotGrowsOnlyIfNeeded(c: Conc, a: Action, j: nat)
    requires Shape(c) && Enabled(c, a) && a.Run? && j < c.ring.size
    ensures |ConcStep(c, a).ring.slots| == c.ring.size
    ensures var l, e, e' := c.threads[a.t], c.ring.slots[j], ConcStep(c, a).ring.slots[j];
            if l.PGrow? && l.h == j && e.size < |l.msg| then
              e'.size == |l.msg| == |e'.data|
            else
              e'.size == e.size && |e'.data| == |e.data|
  {
  }

  /** A caller's buffer is replaced, by one of the slot's size, only when its `size` says it is too small. */
  lemma EntryGrowsOnlyIfNeeded(c: Conc, a: Action)
    requires Shape(c) && Enabled(c, a) && a.Run? && InCons(c.threads[a.t])
    ensures var l, l' := c.threads[a.t], ConcStep(c, a).threads[a.t];
            && (InCons(l') || l'.DeqRet?) && l'.out.size == l.out.size
            && |l'.out.data| == if l.CGrow? && l.out.size < c.ring.slots[l.h].contentLength
                                then c.ring.slots[l.h].size else |l.out.data|
  {
  }

  // ---------------------------------------------------------------- whose call it is

  /** The index of thread t's latest call among the first n actions. */
  function LastCall(acts: seq<Action>, t: nat, n: nat): (o: Option<nat>)
    requires n <= |acts|
    ensures o.Some? ==> o.value < n && acts[o.value].t == t && !acts[o.value].Run?
  {
    if n == 0 then None
    else if acts[n - 1].t == t && !acts[n - 1].Run? then Some(n - 1)
    else LastCall(acts, t, n - 1)
  }

  /** Not yet past the claim of an entry: the caller's entry is untouched. */
  predicate BeforeCopy(l: Local) { l.CLoad? || LoadedCons(l) || l.CGrow? }

  /** What the thread's local state still says of the call it is in, or has returned from. */
  ghost predicate Remembers(l: Local, call: Action) {
    && (InProd(l) ==> call.CallEnq? && call.msg == l.msg)
    && (l.EnqRet? ==> call.CallEnq?)
    && (InCons(l) ==> call.CallDeq? && l.out.size == call.out.size && (BeforeCopy(l) ==> l.out == call.out))
    && (l.DeqRet? ==> call.CallDeq? && l.out.size == call.out.size && (l.code == -2 ==> l.out == call.out))
  }

  /** A call begins with what the caller handed in. */
  lemma CallBegins(c: Conc, a: Action)
    requires Shape(c) && Enabled(c, a) && !a.Run?
    ensures Remembers(ConcStep(c, a).threads[a.t], a)
    ensures ConcStep(c, a).ring == c.ring && !Resting(ConcStep(c, a).threads[a.t])
  {
  }

  lemma ProducerRemembers(c: Conc, a: Action, call: Action)
    requires Shape(c) && Enabled(c, a) && a.Run? && InProd(c.threads[a.t]) && Remembers(c.threads[a.t], call)
    ensures Remembers(ConcStep(c, a).threads[a.t], call)
  {
    EnqueueRefusal(c, a);
    ProducerKeepsMessage(c, a);
  }

  lemma ProducerKeepsMessage(c: Conc, a: Action)
    requires Shape(c) && Enabled(c, a) && a.Run? && InProd(c.threads[a.t])
    ensures var l, l' := c.threads[a.t], ConcStep(c, a).threads[a.t];
            l'.EnqRet? || (InProd(l') && !InCons(l') && !l'.DeqRet? && l'.msg == l.msg)
  {
    if ClaimedProd(c.threads[a.t]) {
      FillerKeepsMessage(c, a.t, a.junk);
    } else {
      EntererKeepsMessage(c, a.t);
    }
  }

  lemma FillerKeepsMessage(c: Conc, t: nat, junk: nat -> Byte)
    requires Shape(c) && t < |c.threads| && ClaimedProd(c.threads[t])
    ensures var l, l' := c.threads[t], StepProd(c, t, junk).threads[t];
            l'.EnqRet? || (InProd(l') && l'.msg == l.msg)
  {
  }

  lemma EntererKeepsMessage(c: Conc, t: nat)
    requires Shape(c) && t < |c.threads| && InProd(c.threads[t]) && !ClaimedProd(c.threads[t])
    ensures var l, l' := c.threads[t], StepEnter(c, t).threads[t];
            l'.EnqRet? || (InProd(l') && l'.msg == l.msg)
  {
  }

  lemma ConsumerRemembers(c: Conc, a: Action, call: Action)
    requires Shape(c) && Enabled(c, a) && a.Run? && InCons(c.threads[a.t]) && Remembers(c.threads[a.t], call)
    ensures Remembers(ConcStep(c, a).threads[a.t], call)
  {
    DequeueRefusal(c, a);
    ConsumerKeepsEntry(c, a);
  }

  lemma ConsumerKeepsEntry(c: Conc, a: Action)
    requires Shape(c) && Enabled(c, a) && a.Run? && InCons(c.threads[a.t])
    ensures var l, l' := c.threads[a.t], ConcStep(c, a).threads[a.t];
            && (InCons(l') || l'.DeqRet?) && !InProd(l') && l'.out.size == l.out.size
            && (InCons(l') && BeforeCopy(l') ==> BeforeCopy(l) && l'.out == l.out)
  {
  }

  lemma MemoryStep(s: Sys, a: Action, s': Sys, t: nat, call: Action)
    requires IsStep(s, a, s') && t < |s.c.threads| && Remembers(s.c.threads[t], call)
    requires a.t == t ==> a.Run?
    ensures Remembers(s'.c.threads[t], call)
  {
    if a.t == t {
      if InProd(s.c.threads[t]) { ProducerRemembers(s.c, a, call); } else { ConsumerRemembers(s.c, a, call); }
    }
  }

  /** A thread holds a head after a step only if it held it before, or its own load has just read it. */
  ghost predicate Loads(l: Local, a: Action, l': Local, t: nat, r: Ring) {
    && (LoadedProd(l') ==>
          || (LoadedProd(l) && l'.h == l.h && (a.t == t ==> a.Run?))
          || (a.t == t && a.Run? && l.PLoad? && l'.h == r.prodHead))
    && (LoadedCons(l') ==>
          || (LoadedCons(l) && l'.h == l.h && (a.t == t ==> a.Run?))
          || (a.t == t && a.Run? && l.CLoad? && l'.h == r.consHead))
  }

  lemma LoadStep(s: Sys, a: Action, s': Sys, t: nat)
    requires IsStep(s, a, s') && t < |s.c.threads|
    ensures Loads(s.c.threads[t], a, s'.c.threads[t], t, s.c.ring)
  {
    if a.t == t {
      if !a.Run? {
        CallBegins(s.c, a);
      } else if InProd(s.c.threads[t]) {
        ProducerLoads(s.c, a);
      } else {
        ConsumerLoads(s.c, a);
      }
    }
  }

  lemma ProducerLoads(c: Conc, a: Action)
    requires Shape(c) && Enabled(c, a) && a.Run? && InProd(c.threads[a.t])
    ensures var l, l' := c.threads[a.t], ConcStep(c, a).threads[a.t];
            && !LoadedCons(l')
            && (LoadedProd(l') ==>
                  (LoadedProd(l) && l'.h == l.h) || (l.PLoad? && l'.h == c.ring.prodHead))
  {
    ProducerKeepsMessage(c, a);
    if ClaimedProd(c.threads[a.t]) { NeverLoadedAgain(c, a.t, a.junk); }
  }

  lemma NeverLoadedAgain(c: Conc, t: nat, junk: nat -> Byte)
    requires Shape(c) && t < |c.threads| && ClaimedProd(c.threads[t])
    ensures !LoadedProd(StepFill(c, t, junk).threads[t])
  {
  }

  lemma ConsumerLoads(c: Conc, a: Action)
    requires Shape(c) && Enabled(c, a) && a.Run? && InCons(c.threads[a.t])
    ensures var l, l' := c.threads[a.t], ConcStep(c, a).threads[a.t];
            && !LoadedProd(l')
            && (LoadedCons(l') ==>
                  (LoadedCons(l) && l'.h == l.h) || (l.CLoad? && l'.h == c.ring.consHead))
  {
  }

  // ---------------------------------------------------------------- one thread through a run

  /** What a step does to thread t, as far as its memory of its call and its loads go. */
  ghost predicate ThreadStep(s: Sys, a: Action, s': Sys, t: nat) {
    && |s'.c.threads| == |s.c.threads| && s'.c.ring.size == s.c.ring.size
    && (t < |s.c.threads| ==>
          && Loads(s.c.threads[t], a, s'.c.threads[t], t, s.c.ring)
          && Follows(s.c.threads[t], a, s'.c.threads[t], t))
  }

  ghost predicate Follows(l: Local, a: Action, l': Local, t: nat) {
    if a.t == t && !a.Run? then Remembers(l', a)
    else (l.Idle? ==> l'.Idle?) && forall call :: Remembers(l, call) ==> Remembers(l', call)
  }

  ghost predicate ThreadRun(ss: seq<Sys>, acts: seq<Action>, t: nat) {
    && |ss| == |acts| + 1 && (t < |ss[0].c.threads| ==> ss[0].c.threads[t].Idle?)
    && forall i :: 0 <= i < |acts| ==> ThreadStep(ss[i], acts[i], ss[i + 1], t)
  }

  lemma FollowStep(s: Sys, a: Action, s': Sys, t: nat)
    requires IsStep(s, a, s') && t < |s.c.threads|
    ensures Follows(s.c.threads[t], a, s'.c.threads[t], t)
  {
    if a.t == t && !a.Run? {
      CallBegins(s.c, a);
    } else {
      forall call | Remembers(s.c.threads[t], call) ensures Remembers(s'.c.threads[t], call) {
        MemoryStep(s, a, s', t, call);
      }
    }
  }

  lemma RunOfThread(ss: seq<Sys>, acts: seq<Action>, t: nat)
    requires IsRun(ss, acts)
    ensures ThreadRun(ss, acts, t)
  {
    forall i | 0 <= i < |acts| ensures ThreadStep(ss[i], acts[i], ss[i + 1], t) {
      OneThreadStep(ss[i], acts[i], ss[i + 1], t);
    }
  }

  lemma OneThreadStep(s: Sys, a: Action, s': Sys, t: nat)
    requires IsStep(s, a, s')
    ensures ThreadStep(s, a, s', t)
  {
    if t < |s.c.threads| {
      LoadStep(s, a, s', t);
      FollowStep(s, a, s', t);
    }
  }

  lemma {:induction false} ThreadRemembers(ss: seq<Sys>, acts: seq<Action>, n: nat, t: nat)
    requires ThreadRun(ss, acts, t) && n <= |acts|
    ensures |ss[n].c.threads| == |ss[0].c.threads| && ss[n].c.ring.size == ss[0].c.ring.size
    ensures t < |ss[0].c.threads| ==>
              var o := LastCall(acts, t, n);
              if o.None? then ss[n].c.threads[t].Idle? else Remembers(ss[n].c.threads[t], acts[o.value])
  {
    if n > 0 {
      ThreadRemembers(ss, acts, n - 1, t);
      assert ThreadStep(ss[n - 1], acts[n - 1], ss[n], t);
    }
  }

  /** In every run, every thread in or after a call remembers its own latest call. */
  lemma RemembersLastCall(ss: seq<Sys>, acts: seq<Action>, n: nat, t: nat)
    requires IsRun(ss, acts) && n <= |acts| && t < |ss[0].c.threads|
    ensures |ss[n].c.threads| == |ss[0].c.threads| && ss[n].c.ring.size == ss[0].c.ring.size
    ensures var o := LastCall(acts, t, n);
            if o.None? then ss[n].c.threads[t].Idle? else Remembers(ss[n].c.threads[t], acts[o.value])
  {
    RunOfThread(ss, acts, t);
    ThreadRemembers(ss, acts, n, t);
  }

  // ---------------------------------------------------------------- refusals are the call's own

  /** Step j is thread t's, in the call it is in at n, and finds the stored head at h. */
  ghost predicate OwnLoad(ss: seq<Sys>, acts: seq<Action>, t: nat, n: nat, j: nat, producer: bool, h: nat)
    requires n <= |acts| && |ss| == |acts| + 1
  {
    && j < n && acts[j].Run? && acts[j].t == t
    && LastCall(acts, t, n).Some? && LastCall(acts, t, n).value < j
    && (if producer then ss[j].c.ring.prodHead else ss[j].c.ring.consHead) == h
  }

  lemma {:induction false} HeadWasLoaded(ss: seq<Sys>, acts: seq<Action>, n: nat, t: nat) returns (j: nat)
    requires ThreadRun(ss, acts, t) && n <= |acts| && t < |ss[0].c.threads| == |ss[n].c.threads|
    requires LoadedProd(ss[n].c.threads[t]) || LoadedCons(ss[n].c.threads[t])
    ensures OwnLoad(ss, acts, t, n, j, LoadedProd(ss[n].c.threads[t]), ss[n].c.threads[t].h)
  {
    if n > 0 {
      var m := n - 1;
      ThreadRemembers(ss, acts, m, t);
      assert ThreadStep(ss[m], acts[m], ss[n], t);
      if LoadedProd(ss[m].c.threads[t]) || LoadedCons(ss[m].c.threads[t]) {
        j := HeadWasLoaded(ss, acts, m, t);
      } else {
        j := m;
      }
    }
  }

  /** The head a thread holds was read by a load of the very call it is in. */
  lemma LoadOfCall(ss: seq<Sys>, acts: seq<Action>, n: nat, t: nat) returns (j: nat)
    requires ThreadRun(ss, acts, t) && n <= |acts| && t < |ss[n].c.threads|
    requires LoadedProd(ss[n].c.threads[t]) || LoadedCons(ss[n].c.threads[t])
    ensures j < n && acts[j].Run? && acts[j].t == t
    ensures LastCall(acts, t, n).Some? && LastCall(acts, t, n).value < j
    ensures ss[j].c.ring.size == ss[n].c.ring.size
    ensures var l, call := ss[n].c.threads[t], acts[LastCall(acts, t, n).value];
            if LoadedProd(l) then call == CallEnq(t, l.msg) && ss[j].c.ring.prodHead == l.h
            else call == CallDeq(t, l.out) && ss[j].c.ring.consHead == l.h
  {
    ThreadRemembers(ss, acts, n, t);
    j := HeadWasLoaded(ss, acts, n, t);
    ThreadRemembers(ss, acts, j, t);
  }

  lemma RunAt(ss: seq<Sys>, acts: seq<Action>, m: nat)
    requires IsRun(ss, acts) && m < |acts|
    ensures IsStep(ss[m], acts[m], ss[m + 1])
  {
  }

  /**
   Over any run whatsoever: when an enqueue returns NOSPACE, the slot after a head that this very call
   has loaded is the stored cons.tail at that moment.
   */
  lemma NospaceIsOwnTest(ss: seq<Sys>, acts: seq<Action>, i: nat) returns (j: nat)
    requires IsRun(ss, acts) && i < |acts| && acts[i].Run? && acts[i].t < |ss[i + 1].c.threads|
    requires ss[i + 1].c.threads[acts[i].t] == EnqRet(-1)
    ensures j < i && acts[j].Run? && acts[j].t == acts[i].t
    ensures LastCall(acts, acts[i].t, i).Some? && acts[LastCall(acts, acts[i].t, i).value].CallEnq?
    ensures LastCall(acts, acts[i].t, i).value < j
    ensures ss[j].c.ring.size == ss[i].c.ring.size > 0
    ensures (ss[j].c.ring.prodHead + 1) % ss[j].c.ring.size == ss[i].c.ring.consTail
    ensures ss[i + 1].c.ring == ss[i].c.ring
  {
    var t := acts[i].t;
    RunAt(ss, acts, i);
    NospaceTested(ss[i], acts[i], ss[i + 1]);
    RunOfThread(ss, acts, t);
    j := TestedLoad(ss, acts, i, t);
  }

  lemma TestedLoad(ss: seq<Sys>, acts: seq<Action>, n: nat, t: nat) returns (j: nat)
    requires ThreadRun(ss, acts, t) && n <= |acts| && t < |ss[n].c.threads| && ss[n].c.threads[t].PTest?
    requires ss[n].c.ring.size > 0 && (ss[n].c.threads[t].h + 1) % ss[n].c.ring.size == ss[n].c.ring.consTail
    ensures j < n && acts[j].Run? && acts[j].t == t
    ensures LastCall(acts, t, n).Some? && LastCall(acts, t, n).value < j
    ensures acts[LastCall(acts, t, n).value].CallEnq?
    ensures ss[j].c.ring.size == ss[n].c.ring.size
    ensures (ss[j].c.ring.prodHead + 1) % ss[j].c.ring.size == ss[n].c.ring.consTail
  {
    j := LoadOfCall(ss, acts, n, t);
  }

  lemma NospaceTested(s: Sys, a: Action, s': Sys)
    requires IsStep(s, a, s') && a.Run? && s'.c.threads[a.t] == EnqRet(-1)
    ensures a.t < |s.c.threads| && s'.c.ring == s.c.ring && s.c.ring.size > 0
    ensures s.c.threads[a.t].PTest? && (s.c.threads[a.t].h + 1) % s.c.ring.size == s.c.ring.consTail
  {
    ReturnIsFromOwnSide(s.c, a);
    EnqueueRefusal(s.c, a);
  }

  lemma NoentTested(s: Sys, a: Action, s': Sys)
    requires IsStep(s, a, s') && a.Run? && s'.c.threads[a.t].DeqRet? && s'.c.threads[a.t].code == -2
    ensures a.t < |s.c.threads| && s'.c.ring == s.c.ring
    ensures s.c.threads[a.t] == CTest(s'.c.threads[a.t].out, s.c.ring.prodTail)
  {
    ReturnIsFromOwnSide(s.c, a);
    DequeueRefusal(s.c, a);
  }

  /**
   Over any run whatsoever: when a dequeue returns NOENT, a head that this very call has loaded is the
   stored prod.tail at that moment, and the caller has the entry back as it was.
   */
  lemma NoentIsOwnTest(ss: seq<Sys>, acts: seq<Action>, i: nat) returns (j: nat)
    requires IsRun(ss, acts) && i < |acts| && acts[i].Run? && acts[i].t < |ss[i + 1].c.threads|
    requires ss[i + 1].c.threads[acts[i].t].DeqRet? && ss[i + 1].c.threads[acts[i].t].code == -2
    ensures j < i && acts[j].Run? && acts[j].t == acts[i].t
    ensures var o := LastCall(acts, acts[i].t, i);
            && o.Some? && o.value < j && acts[o.value].CallDeq?
            && ss[i + 1].c.threads[acts[i].t].out == acts[o.value].out
    ensures ss[j].c.ring.consHead == ss[i].c.ring.prodTail
    ensures ss[i + 1].c.ring == ss[i].c.ring
  {
    var t := acts[i].t;
    RunAt(ss, acts, i);
    NoentTested(ss[i], acts[i], ss[i + 1]);
    RunOfThread(ss, acts, t);
    j := LoadOfCall(ss, acts, i, t);
  }

  /** Only an enqueue returns from an enqueue, and only a dequeue from a dequeue. */
  lemma ReturnIsFromOwnSide(c: Conc, a: Action)
    requires Shape(c) && Enabled(c, a) && a.Run?
    ensures ConcStep(c, a).threads[a.t].EnqRet? ==> InProd(c.threads[a.t])
    ensures ConcStep(c, a).threads[a.t].DeqRet? ==> InCons(c.threads[a.t])
  {
    if InProd(c.threads[a.t]) { EnqueueRefusal(c, a); } else { DequeueRefusal(c, a); }
  }

  // ---------------------------------------------------------------- first in, first out

  /** The message handed to thread t's latest enqueue among the first n actions. */
  function Given(acts: seq<Action>, t: nat, n: nat): Msg
    requires n <= |acts|
  {
    var o := LastCall(acts, t, n);
    if o.Some? && acts[o.value].CallEnq? then acts[o.value].msg else []
  }

  /** The first content_length bytes of the entry a dequeue returned. */
  function HandedOut(l: Local): seq<Msg> {
    if l.DeqRet? && l.code == 0 && 0 <= l.out.contentLength <= |l.out.data|
    then [l.out.data[..l.out.contentLength]] else []
  }

  /** What the step into s' adds to the messages of successful enqueues. */
  function Accepted(a: Action, s': Sys, given: Msg): seq<Msg> {
    if a.Run? && a.t < |s'.c.threads| && s'.c.threads[a.t] == EnqRet(0) then [given] else []
  }

  /** What the step into s' adds to the messages of successful dequeues. */
  function Delivered(a: Action, s': Sys): seq<Msg> {
    if a.Run? && a.t < |s'.c.threads| then HandedOut(s'.c.threads[a.t]) else []
  }

  /** What the calls that returned success from enqueue, in the order of their returns, were given. */
  function Enqueued(ss: seq<Sys>, acts: seq<Action>, n: nat): seq<Msg>
    requires n <= |acts| && |ss| == |acts| + 1
  {
    if n == 0 then []
    else Enqueued(ss, acts, n - 1) + Accepted(acts[n - 1], ss[n], Given(acts, acts[n - 1].t, n - 1))
  }

  /** What the calls that returned success from dequeue handed out, in the order of their returns. */
  function Dequeued(ss: seq<Sys>, acts: seq<Action>, n: nat): seq<Msg>
    requires n <= |acts| && |ss| == |acts| + 1
  {
    if n == 0 then [] else Dequeued(ss, acts, n - 1) + Delivered(acts[n - 1], ss[n])
  }

  /** A step moves prod.tail's ticket on exactly if it returns success from an enqueue. */
  lemma PublishReturns(s: Sys, a: Action)
    requires Inv(s) && Enabled(s.c, a) && a.Run? && InProd(s.c.threads[a.t])
    ensures var l, s' := s.c.threads[a.t], Step(s, a);
            && s.x.sent <= s'.x.sent && s'.x.received == s.x.received
            && (if s'.c.threads[a.t] == EnqRet(0)
                then s'.x.pt == s.x.pt + 1 && s.x.pt < |s.x.sent| && s.x.sent[s.x.pt] == l.msg
                else s'.x.pt == s.x.pt)
  {
    assert ThreadOk(s, a.t);
  }

  lemma ReleaseReturns(s: Sys, a: Action)
    requires Inv(s) && Enabled(s.c, a) && a.Run? && InCons(s.c.threads[a.t])
    ensures var s' := Step(s, a);
            && s'.x.sent == s.x.sent && s'.x.pt == s.x.pt
            && s'.x.received == s.x.received + HandedOut(s'.c.threads[a.t])
  {
    assert ThreadOk(s, a.t);
    if s.c.threads[a.t].CPub? { ReleaseHandsOutNext(s, a.t); }
  }

  /** The messages of the tickets that prod.tail has passed. */
  function Published(x: Aux): seq<Msg> {
    if x.pt <= |x.sent| then x.sent[..x.pt] else []
  }

  /** One step of the observable history. */
  ghost predicate Records(s: Sys, a: Action, s': Sys, given: Msg) {
    && Published(s'.x) == Published(s.x) + Accepted(a, s', given)
    && s'.x.received == s.x.received + Delivered(a, s')
  }

  lemma HistoryStep(s: Sys, a: Action, s': Sys, given: Msg)
    requires Inv(s) && IsStep(s, a, s') && Inv(s')
    requires a.Run? && InProd(s.c.threads[a.t]) ==> s.c.threads[a.t].msg == given
    ensures Records(s, a, s', given)
  {
    if a.Run? {
      ReturnIsFromOwnSide(s.c, a);
      if InProd(s.c.threads[a.t]) { PublishReturns(s, a); } else { ReleaseReturns(s, a); }
    }
    TakeMore(s.x.sent, s'.x.sent, s.x.pt, s'.x.pt);
  }

  lemma TakeMore<T>(a: seq<T>, b: seq<T>, i: nat, j: nat)
    requires i <= |a| && j <= |b| && a <= b && i <= j <= i + 1
    ensures b[..j] == a[..i] + (if j == i then [] else [b[i]])
  {
  }

  ghost predicate Recorded(ss: seq<Sys>, acts: seq<Action>) {
    && |ss| == |acts| + 1 && Published(ss[0].x) == [] && ss[0].x.received == []
    && forall i :: 0 <= i < |acts| ==> Records(ss[i], acts[i], ss[i + 1], Given(acts, acts[i].t, i))
  }

  lemma RunIsRecorded(ss: seq<Sys>, acts: seq<Action>)
    requires IsRun(ss, acts) && GuardedRun(ss, acts)
    ensures Recorded(ss, acts)
  {
    forall i | 0 <= i < |acts| ensures Records(ss[i], acts[i], ss[i + 1], Given(acts, acts[i].t, i)) {
      GuardedPrefixIsInvariant(ss, acts, i);
      GuardedPrefixIsInvariant(ss, acts, i + 1);
      GivenIsCall(ss, acts, i);
      RunAt(ss, acts, i);
      HistoryStep(ss[i], acts[i], ss[i + 1], Given(acts, acts[i].t, i));
    }
  }

  lemma RecordedAt(ss: seq<Sys>, acts: seq<Action>, m: nat)
    requires Recorded(ss, acts) && m < |acts|
    ensures Published(ss[m + 1].x) == Published(ss[m].x) + Accepted(acts[m], ss[m + 1], Given(acts, acts[m].t, m))
    ensures ss[m + 1].x.received == ss[m].x.received + Delivered(acts[m], ss[m + 1])
  {
  }

  lemma {:induction false} HistoryOfRun(ss: seq<Sys>, acts: seq<Action>, n: nat)
    requires Recorded(ss, acts) && n <= |acts|
    ensures Published(ss[n].x) == Enqueued(ss, acts, n) && ss[n].x.received == Dequeued(ss, acts, n)
  {
    if n > 0 {
      var m := n - 1;
      HistoryOfRun(ss, acts, m);
      RecordedAt(ss, acts, m);
    }
  }

  /** A thread inside an enqueue carries what its latest call was given. */
  lemma GivenIsCall(ss: seq<Sys>, acts: seq<Action>, m: nat)
    requires IsRun(ss, acts) && m < |acts|
    ensures acts[m].t < |ss[m].c.threads|
    ensures InProd(ss[m].c.threads[acts[m].t]) ==>
              && LastCall(acts, acts[m].t, m).Some?
              && acts[LastCall(acts, acts[m].t, m).value] == CallEnq(acts[m].t, ss[m].c.threads[acts[m].t].msg)
  {
    RunAt(ss, acts, m);
    RunOfThread(ss, acts, acts[m].t);
    ThreadRemembers(ss, acts, m, acts[m].t);
  }

  /** Whenever a step of a run is the queue's Enq(m), its thread's latest call is enqueue with m. */
  lemma EnqIsLatestCall(ss: seq<Sys>, acts: seq<Action>, i: nat, m: Msg)
    requires IsRun(ss, acts) && i < |acts| && Enabled(ss[i].c, acts[i]) && Inv(ss[i])
    requires OpOf(ss[i], acts[i]) == Enq(m)
    ensures LastCall(acts, acts[i].t, i).Some?
    ensures acts[LastCall(acts, acts[i].t, i).value] == CallEnq(acts[i].t, m)
  {
    GivenIsCall(ss, acts, i);
    EnqNeedsProducer(ss[i], acts[i]);
  }

  lemma EnqNeedsProducer(s: Sys, a: Action)
    requires Inv(s) && Enabled(s.c, a) && OpOf(s, a).Enq?
    ensures InProd(s.c.threads[a.t]) && OpOf(s, a) == Enq(s.c.threads[a.t].msg)
  {
    ReturnIsFromOwnSide(s.c, a);
  }

  /**
   From the calls to the returns, for every run in which each claim still had its guard: what
   successful dequeues handed out is, in order and byte for byte, the beginning of what successful
   enqueues were given; the rest is in the ring, at most size - 1 messages, and x_ring_count says how
   many.
   */
  lemma RunIsFifo(ss: seq<Sys>, acts: seq<Action>, n: nat)
    requires IsRun(ss, acts) && GuardedRun(ss, acts) && n <= |acts|
    ensures Dequeued(ss, acts, n) <= Enqueued(ss, acts, n)
    ensures |Enqueued(ss, acts, n)| - |Dequeued(ss, acts, n)| <= ss[n].c.ring.size - 1
    ensures RingCount(ss[n].c.ring) == |Enqueued(ss, acts, n)| - |Dequeued(ss, acts, n)|
  {
    GuardedPrefixIsInvariant(ss, acts, n);
    RunIsRecorded(ss, acts);
    HistoryOfRun(ss, acts, n);
    ObserversMatchQueue(ss[n]);
  }

  lemma LapBoundedRunIsFifo(ss: seq<Sys>, acts: seq<Action>, n: nat)
    requires IsRun(ss, acts) && LapBoundedRun(ss, acts) && n <= |acts|
    ensures Dequeued(ss, acts, n) <= Enqueued(ss, acts, n)
    ensures |Enqueued(ss, acts, n)| - |Dequeued(ss, acts, n)| <= ss[n].c.ring.size - 1
  {
    LapBoundedRunIsGuarded(ss, acts);
    RunIsFifo(ss, acts, n);
  }

  lemma SpscRunIsFifo(ss: seq<Sys>, acts: seq<Action>, n: nat)
    requires IsRun(ss, acts) && !ss[0].c.cfg.multiProd && !ss[0].c.cfg.multiCons && n <= |acts|
    ensures Dequeued(ss, acts, n) <= Enqueued(ss, acts, n)
    ensures |Enqueued(ss, acts, n)| - |Dequeued(ss, acts, n)| <= ss[n].c.ring.size - 1
  {
    SpscRunIsLapBounded(ss, acts);
    LapBoundedRunIsFifo(ss, acts, n);
  }

  // ---------------------------------------------------------------- every ticket's message

  /** What a claim records. */
  lemma ClaimRecords(s: Sys, a: Action, s': Sys)
    requires IsStep(s, a, s') && |s.x.sent| == |s.x.pOwner| == s.x.ph
    ensures |s'.x.sent| == |s'.x.pOwner| == s'.x.ph && s.x.sent <= s'.x.sent && s.x.pOwner <= s'.x.pOwner
    ensures s'.x.ph != s.x.ph ==>
              && s'.x.ph == s.x.ph + 1 && a.Run? && InProd(s.c.threads[a.t])
              && s'.x.pOwner[s.x.ph] == a.t && s'.x.sent[s.x.ph] == s.c.threads[a.t].msg
  {
  }

  /** Over any run: the message of every ticket is the argument of the call that won the ticket. */
  lemma {:induction false} SentIsGiven(ss: seq<Sys>, acts: seq<Action>, n: nat, k: nat) returns (i: nat)
    requires IsRun(ss, acts) && n <= |acts| && k < ss[n].x.ph
    ensures |ss[n].x.sent| == |ss[n].x.pOwner| == ss[n].x.ph
    ensures i < n && acts[i].Run? && acts[i].t == ss[n].x.pOwner[k]
    ensures ss[i].x.ph == k && ss[i + 1].x.ph == k + 1
    ensures var o := LastCall(acts, acts[i].t, i); o.Some? && acts[o.value] == CallEnq(acts[i].t, ss[n].x.sent[k])
  {
    if n > 0 {
      var m := n - 1;
      ClaimLengths(ss, acts, m);
      RunAt(ss, acts, m);
      ClaimRecords(ss[m], acts[m], ss[n]);
      if k < ss[m].x.ph {
        i := SentIsGiven(ss, acts, m, k);
      } else {
        i := m;
        GivenIsCall(ss, acts, m);
      }
    }
  }

  /** In a guarded run, what the k-th dequeue handed out is the argument of an earlier enqueue call. */
  lemma ReceivedIsGiven(ss: seq<Sys>, acts: seq<Action>, n: nat, k: nat) returns (i: nat)
    requires IsRun(ss, acts) && GuardedRun(ss, acts) && n <= |acts| && k < |Dequeued(ss, acts, n)|
    ensures i < n && acts[i].CallEnq? && acts[i].msg == Dequeued(ss, acts, n)[k]
  {
    GuardedPrefixIsInvariant(ss, acts, n);
    RunIsRecorded(ss, acts);
    HistoryOfRun(ss, acts, n);
    var claim := SentIsGiven(ss, acts, n, k);
    i := LastCall(acts, acts[claim].t, claim).value;
  }

  ghost predicate Logged(x: Aux) { |x.sent| == |x.pOwner| == x.ph }

  lemma StaysLogged(ss: seq<Sys>, acts: seq<Action>, m: nat)
    requires IsRun(ss, acts) && m < |acts| && Logged(ss[m].x)
    ensures Logged(ss[m + 1].x)
  {
    ClaimRecords(ss[m], acts[m], ss[m + 1]);
  }

  lemma {:induction false} ClaimLengths(ss: seq<Sys>, acts: seq<Action>, n: nat)
    requires IsRun(ss, acts) && n <= |acts|
    ensures Logged(ss[n].x)
  {
    if n > 0 {
      ClaimLengths(ss, acts, n - 1);
      StaysLogged(ss, acts, n - 1);
    }
  }
}

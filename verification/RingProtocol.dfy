/**
 The lock-free ring of x_ring.c as a transition system: any number of threads, one step per
 shared access, sequentially consistent memory. `Conc` is exactly what the C code reads and
 writes; `Aux` is a record of free-running tickets and logs kept beside it, which no step of
 the code reads.
 */
module RingProtocol {
  import opened Prelude
  import opened RingIndex

  type Msg = seq<Byte>

  /** x_ring_entry_t; `data` is the whole allocated buffer. */
  datatype Entry = Entry(size: nat, contentLength: int, data: seq<Byte>)

  datatype Ring = Ring(prodHead: nat, prodTail: nat, consHead: nat, consTail: nat,
                       size: nat, mask: nat, slots: seq<Entry>)

  /**
   Which entry points are in use: x_ring_mp_enqueue by any thread, or x_ring_sp_enqueue by
   soleProd alone; x_ring_mc_dequeue by any thread, or x_ring_sc_dequeue by soleCons alone.
   */
  datatype Config = Config(multiProd: bool, multiCons: bool, soleProd: nat, soleCons: nat)

  /** Where a thread is inside a call, with the C locals that are live there. */
  datatype Local =
    | Idle
    | EnqRet(code: int)
    | DeqRet(code: int, out: Entry)
    | PLoad(msg: Msg)                  // about to load prod.head
    | PTest(msg: Msg, h: nat)          // about to load cons.tail and test for space
    | PClaim(msg: Msg, h: nat)         // about to CAS (or store) prod.head
    | PGrow(msg: Msg, h: nat)          // about to grow the slot's buffer if it is too small
    | PCopy(msg: Msg, h: nat, i: nat)  // about to copy byte i into the slot
    | PLen(msg: Msg, h: nat)           // about to store content_length
    | PWait(msg: Msg, h: nat)          // about to test prod.tail
    | PPub(msg: Msg, h: nat)           // about to store prod.tail
    | CLoad(out: Entry)
    | CTest(out: Entry, h: nat)
    | CClaim(out: Entry, h: nat)
    | CGrow(out: Entry, h: nat)
    | CCopy(out: Entry, h: nat, i: nat)
    | CLen(out: Entry, h: nat)
    | CWait(out: Entry, h: nat)
    | CPub(out: Entry, h: nat)

  /** `fault` records that some memory access went past the end of its buffer. */
  datatype Conc = Conc(ring: Ring, cfg: Config, threads: seq<Local>, fault: bool)

  const SUCCESS := 0
  const NOSPACE := -1
  const NOENT := -2

  predicate Resting(l: Local) {
    l.Idle? || l.EnqRet? || l.DeqRet?
  }

  predicate LoadedProd(l: Local) { l.PTest? || l.PClaim? }

  predicate ClaimedProd(l: Local) {
    l.PGrow? || l.PCopy? || l.PLen? || l.PWait? || l.PPub?
  }

  predicate InProd(l: Local) { l.PLoad? || LoadedProd(l) || ClaimedProd(l) }

  predicate LoadedCons(l: Local) { l.CTest? || l.CClaim? }

  predicate ClaimedCons(l: Local) {
    l.CGrow? || l.CCopy? || l.CLen? || l.CWait? || l.CPub?
  }

  predicate InCons(l: Local) { l.CLoad? || LoadedCons(l) || ClaimedCons(l) }

  predicate LocalInRange(l: Local, n: nat) {
    (LoadedProd(l) || ClaimedProd(l) || LoadedCons(l) || ClaimedCons(l)) ==> l.h < n
  }

  ghost predicate RingShape(r: Ring) {
    && RingSize(r.size) && r.mask == r.size - 1 && |r.slots| == r.size
    && r.prodHead < r.size && r.prodTail < r.size && r.consHead < r.size && r.consTail < r.size
  }

  ghost predicate Shape(c: Conc) {
    && RingShape(c.ring)
    && forall t :: 0 <= t < |c.threads| ==> LocalInRange(c.threads[t], c.ring.size)
  }

  /** The slot number after h, computed as the code does: 32-bit add, then mask. */
  ghost function Next(r: Ring, h: nat): (x: nat)
    requires RingShape(r) && h < r.size
    ensures x == Advance(h, r.size)
  {
    NextIndexIsAdvance(h, r.size);
    NextIndex(h, r.mask)
  }

  function Goto(c: Conc, t: nat, l: Local): Conc
    requires t < |c.threads|
  {
    c.(threads := c.threads[t := l])
  }

  function SetSlot(r: Ring, h: nat, e: Entry): Ring
    requires h < |r.slots|
  {
    r.(slots := r.slots[h := e])
  }

  /** malloc(n): a buffer of n bytes with unspecified contents. */
  function Malloc(n: nat, junk: nat -> Byte): seq<Byte> {
    seq(n, junk)
  }

  /** Only thread t moves, and the ring keeps its shape. */
  ghost predicate OnlyThread(c: Conc, c': Conc, t: nat) {
    && t < |c.threads|
    && RingShape(c'.ring) && c'.ring.size == c.ring.size && c'.cfg == c.cfg
    && |c'.threads| == |c.threads|
    && c'.threads == c.threads[t := c'.threads[t]]
    && LocalInRange(c'.threads[t], c.ring.size)
  }

  /** The enqueue code's next shared access. */
  ghost function StepProd(c: Conc, t: nat, junk: nat -> Byte): (c': Conc)
    requires Shape(c) && t < |c.threads| && InProd(c.threads[t])
    ensures OnlyThread(c, c', t)
  {
    if ClaimedProd(c.threads[t]) then StepFill(c, t, junk) else StepEnter(c, t)
  }

  /** Up to the claim. */
  ghost function StepEnter(c: Conc, t: nat): (c': Conc)
    requires Shape(c) && t < |c.threads| && InProd(c.threads[t]) && !ClaimedProd(c.threads[t])
    ensures OnlyThread(c, c', t)
  {
    var r := c.ring;
    match c.threads[t]
    case PLoad(msg) => Goto(c, t, PTest(msg, r.prodHead))
    case PTest(msg, h) =>
      if Next(r, h) == r.consTail then Goto(c, t, EnqRet(NOSPACE)) else Goto(c, t, PClaim(msg, h))
    case PClaim(msg, h) =>
      if c.cfg.multiProd && r.prodHead != h then
        Goto(c, t, PLoad(msg))
      else
        Goto(c.(ring := r.(prodHead := Next(r, h))), t, PGrow(msg, h))
  }

  /** From the claim to the return. */
  ghost function StepFill(c: Conc, t: nat, junk: nat -> Byte): (c': Conc)
    requires Shape(c) && t < |c.threads| && ClaimedProd(c.threads[t])
    ensures OnlyThread(c, c', t)
  {
    var r := c.ring;
    match c.threads[t]
    case PGrow(msg, h) =>
      var e := r.slots[h];
      var e' := if e.size < |msg| then e.(data := Malloc(|msg|, junk), size := |msg|) else e;
      Goto(c.(ring := SetSlot(r, h, e')), t, PCopy(msg, h, 0))
    case PCopy(msg, h, i) =>
      var e := r.slots[h];
      if i >= |msg| then Goto(c, t, PLen(msg, h))
      else if i >= |e.data| then Goto(c.(fault := true), t, PCopy(msg, h, i + 1))
      else Goto(c.(ring := SetSlot(r, h, e.(data := e.data[i := msg[i]]))), t, PCopy(msg, h, i + 1))
    case PLen(msg, h) =>
      Goto(c.(ring := SetSlot(r, h, r.slots[h].(contentLength := |msg|))), t,
           if c.cfg.multiProd then PWait(msg, h) else PPub(msg, h))
    case PWait(msg, h) => if r.prodTail == h then Goto(c, t, PPub(msg, h)) else c
    case PPub(msg, h) => Goto(c.(ring := r.(prodTail := Next(r, h))), t, EnqRet(SUCCESS))
  }

  /** The dequeue code's next shared access. */
  ghost function StepCons(c: Conc, t: nat, junk: nat -> Byte): (c': Conc)
    requires Shape(c) && t < |c.threads| && InCons(c.threads[t])
    ensures OnlyThread(c, c', t)
  {
    var r := c.ring;
    match c.threads[t]
    case CLoad(out) => Goto(c, t, CTest(out, r.consHead))
    case CTest(out, h) =>
      if h == r.prodTail then Goto(c, t, DeqRet(NOENT, out)) else Goto(c, t, CClaim(out, h))
    case CClaim(out, h) =>
      if c.cfg.multiCons && r.consHead != h then
        Goto(c, t, CLoad(out))
      else
        Goto(c.(ring := r.(consHead := Next(r, h))), t, CGrow(out, h))
    case CGrow(out, h) =>
      var e := r.slots[h];
      var out' := if out.size < e.contentLength then out.(data := Malloc(e.size, junk)) else out;
      Goto(c, t, CCopy(out', h, 0))
    case CCopy(out, h, i) =>
      var e := r.slots[h];
      if i >= e.contentLength then Goto(c, t, CLen(out, h))
      else if i >= |e.data| || i >= |out.data| then Goto(c.(fault := true), t, CCopy(out, h, i + 1))
      else Goto(c, t, CCopy(out.(data := out.data[i := e.data[i]]), h, i + 1))
    case CLen(out, h) =>
      var out' := out.(contentLength := r.slots[h].contentLength);
      Goto(c, t, if c.cfg.multiCons then CWait(out', h) else CPub(out', h))
    case CWait(out, h) => if r.consTail == h then Goto(c, t, CPub(out, h)) else c
    case CPub(out, h) => Goto(c.(ring := r.(consTail := Next(r, h))), t, DeqRet(SUCCESS, out))
  }

  /** A thread calls enqueue or dequeue, or takes the next step of the call it is in. */
  datatype Action =
    | CallEnq(t: nat, msg: Msg)
    | CallDeq(t: nat, out: Entry)
    | Run(t: nat, junk: nat -> Byte)

  /**
   What callers owe: only the sole producer or consumer uses the sp and sc entry points, and the
   receiving entry's buffer is as large as its `size` says.
   */
  predicate Enabled(c: Conc, a: Action) {
    && a.t < |c.threads|
    && match a
       case CallEnq(t, msg) => Resting(c.threads[t]) && (c.cfg.multiProd || t == c.cfg.soleProd)
       case CallDeq(t, out) =>
         Resting(c.threads[t]) && (c.cfg.multiCons || t == c.cfg.soleCons) && out.size <= |out.data|
       case Run(t, _) => !Resting(c.threads[t])
  }

  ghost function ConcStep(c: Conc, a: Action): (c': Conc)
    requires Shape(c) && Enabled(c, a)
    ensures OnlyThread(c, c', a.t)
  {
    match a
    case CallEnq(t, msg) => Goto(c, t, PLoad(msg))
    case CallDeq(t, out) => Goto(c, t, CLoad(out))
    case Run(t, junk) => if InProd(c.threads[t]) then StepProd(c, t, junk) else StepCons(c, t, junk)
  }

  /** What x_ring_create leaves: all indices zero, every buffer as large as its `size`. */
  ghost predicate ConcInit(c: Conc) {
    && RingShape(c.ring)
    && c.ring.prodHead == 0 && c.ring.prodTail == 0 && c.ring.consHead == 0 && c.ring.consTail == 0
    && (forall j :: 0 <= j < c.ring.size ==> |c.ring.slots[j].data| == c.ring.slots[j].size)
    && (forall t :: 0 <= t < |c.threads| ==> c.threads[t] == Idle)
    && !c.fault
  }

  /**
   The free-running side: ph, pt, ch, ct count the claims and releases ever made; sent[k] is the
   message of ticket k and received[k] what ticket k's consumer was handed; owners say who won
   which ticket; ticket[t] is the ticket behind thread t's local `prod_head` or `cons_head`.
   */
  datatype Aux = Aux(ph: nat, pt: nat, ch: nat, ct: nat,
                     sent: seq<Msg>, received: seq<Msg>,
                     pOwner: seq<nat>, cOwner: seq<nat>, ticket: seq<nat>)

  /** The message an out-parameter holds. */
  function Taken(out: Entry): Msg {
    if 0 <= out.contentLength <= |out.data| then out.data[..out.contentLength] else []
  }

  predicate ClaimSucceeds(c: Conc, t: nat)
    requires t < |c.threads|
  {
    match c.threads[t]
    case PClaim(_, h) => c.cfg.multiProd ==> c.ring.prodHead == h
    case CClaim(_, h) => c.cfg.multiCons ==> c.ring.consHead == h
    case _ => false
  }

  function AuxStep(c: Conc, x: Aux, a: Action): Aux
    requires a.t < |c.threads| == |x.ticket|
  {
    if !a.Run? then x else
    var t := a.t;
    match c.threads[t]
    case PLoad(_) => x.(ticket := x.ticket[t := x.ph])
    case CLoad(_) => x.(ticket := x.ticket[t := x.ch])
    case PClaim(msg, _) =>
      if ClaimSucceeds(c, t) then
        x.(ticket := x.ticket[t := x.ph], ph := x.ph + 1, sent := x.sent + [msg], pOwner := x.pOwner + [t])
      else x
    case CClaim(_, _) =>
      if ClaimSucceeds(c, t) then
        x.(ticket := x.ticket[t := x.ch], ch := x.ch + 1, cOwner := x.cOwner + [t])
      else x
    case PPub(_, _) => x.(pt := x.pt + 1)
    case CPub(out, _) => x.(ct := x.ct + 1, received := x.received + [Taken(out)])
    case _ => x
  }

  datatype Sys = Sys(c: Conc, x: Aux)

  ghost predicate WellFormed(s: Sys) {
    Shape(s.c) && |s.x.ticket| == |s.c.threads|
  }

  ghost function Step(s: Sys, a: Action): (s': Sys)
    requires WellFormed(s) && Enabled(s.c, a)
    ensures WellFormed(s') && s'.c.cfg == s.c.cfg && s'.c.ring.size == s.c.ring.size
    ensures |s'.c.threads| == |s.c.threads|
    ensures forall u :: 0 <= u < |s.c.threads| && u != a.t ==>
              s'.c.threads[u] == s.c.threads[u] && s'.x.ticket[u] == s.x.ticket[u]
  {
    Sys(ConcStep(s.c, a), AuxStep(s.c, s.x, a))
  }

  ghost predicate Init(s: Sys) {
    && ConcInit(s.c)
    && |s.x.ticket| == |s.c.threads|
    && s.x.ph == 0 && s.x.pt == 0 && s.x.ch == 0 && s.x.ct == 0
    && s.x.sent == [] && s.x.received == [] && s.x.pOwner == [] && s.x.cOwner == []
  }

  /** A finite run: states ss joined by the actions acts. */
  ghost predicate IsRun(ss: seq<Sys>, acts: seq<Action>) {
    && |ss| == |acts| + 1 && Init(ss[0])
    && forall i :: 0 <= i < |acts| ==> IsStep(ss[i], acts[i], ss[i + 1])
  }

  ghost predicate IsStep(s: Sys, a: Action, s': Sys) {
    WellFormed(s) && Enabled(s.c, a) && s' == Step(s, a)
  }
}

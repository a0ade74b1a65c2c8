/**
 x_ring.c as an object, its entry points run one call at a time. The ghost record of tickets is the
 one of the transition system, and Valid is that system's invariant with no call in progress, so
 Contents is the queue of RingTheorems.
 */
module XRing {
  import opened Prelude
  import opened RingIndex
  import opened RingProtocol
  import opened RingInvariant
  import opened RingTheorems
  import Bits

  /** malloc: a buffer whose contents the caller knows nothing about. */
  method Allocate(n: nat) returns (b: seq<Byte>)
    ensures |b| == n
  {
    b := seq(n, _ => 0);
  }

  /** memcpy(dst, src, n), defined only while n bytes fit in both. */
  function MemCopy(dst: seq<Byte>, src: seq<Byte>, n: nat): (r: seq<Byte>)
    requires n <= |dst| && n <= |src|
    ensures |r| == |dst| && r[..n] == src[..n] && r[n..] == dst[n..]
  {
    src[..n] + dst[n..]
  }

  const IDLE_CFG := Config(true, true, 0, 0)

  class XRing {
    var prodHead: nat
    var prodTail: nat
    var consHead: nat
    var consTail: nat
    const size: nat
    const mask: nat
    const ring: array<Entry>
    ghost var x: Aux

    ghost function View(): Ring
      reads this, ring
    {
      Ring(prodHead, prodTail, consHead, consTail, size, mask, ring[..])
    }

    ghost function System(): Sys
      reads this, ring
    {
      Sys(Conc(View(), IDLE_CFG, [], false), x)
    }

    ghost predicate Valid()
      reads this, ring
    {
      ring.Length == size && Inv(System())
    }

    /** The messages in the ring, oldest first. */
    ghost function Contents(): seq<Msg>
      reads this, ring
      requires Valid()
    {
      Queue(System())
    }

    constructor (count: nat, bufSize: nat)
      requires count < TWO32
      ensures fresh(ring) && ring.Length == size
      ensures 1 <= count <= 0x8000_0000 ==> Valid() && Contents() == [] && Bits.LeastPow2From(count, size)
      ensures forall j :: 0 <= j < size ==> ring[j].size == bufSize
      ensures count == 0 || count > 0x8000_0000 ==> size == 0 && mask == TWO32 - 1
    {
      var n := count;
      Bits.PowerOfTwoTestIsExact(count);
      if !Bits.PowerOfTwoTest(count) {
        var r := Bits.RoundupPowerOfTwo(count);
        n := r % TWO32;
        if count > 0 { RoundedWraps(count, r); }
      } else {
        Bits.AtMostTopBit(count);
        RoundedWraps(count, count);
      }
      if 1 <= count <= 0x8000_0000 { RoundedFits(count, n); }
      prodHead, prodTail, consHead, consTail := 0, 0, 0, 0;
      size, mask := n, (n - 1) % TWO32;
      x := Aux(0, 0, 0, 0, [], [], [], [], []);
      var slots := new Entry[n](_ => Entry(0, 0, []));
      ring := slots;
      new;
      var i := 0;
      while i < size
        invariant i <= size == ring.Length
        invariant fresh(ring)
        invariant forall j :: 0 <= j < i ==> ring[j].size == bufSize == |ring[j].data|
        invariant prodHead == prodTail == consHead == consTail == 0
        invariant x == Aux(0, 0, 0, 0, [], [], [], [], [])
        modifies ring
      {
        var buf := Allocate(bufSize);
        ring[i] := ring[i].(size := bufSize, data := buf);
        i := i + 1;
      }
    }

    /** lock cmpxchg on prod.head: store src only if the stored value is exp. */
    method CmpSetProdHead(exp: nat, src: nat) returns (res: bool)
      modifies this`prodHead
      ensures res == (old(prodHead) == exp)
      ensures prodHead == if old(prodHead) == exp then src else old(prodHead)
    {
      res := prodHead == exp;
      if res { prodHead := src; }
    }

    method CmpSetConsHead(exp: nat, src: nat) returns (res: bool)
      modifies this`consHead
      ensures res == (old(consHead) == exp)
      ensures consHead == if old(consHead) == exp then src else old(consHead)
    {
      res := consHead == exp;
      if res { consHead := src; }
    }

    /** Grow the claimed slot's buffer if it is too small, copy the message, set its length. */
    method FillSlot(h: nat, data: Msg)
      requires h < ring.Length && |ring[h].data| == ring[h].size
      modifies ring
      ensures Holds(ring[h], data) && |ring[h].data| == ring[h].size
      ensures ring[h].size == if old(ring[h].size) < |data| then |data| else old(ring[h].size)
      ensures forall j :: 0 <= j < ring.Length && j != h ==> ring[j] == old(ring[j])
    {
      if ring[h].size < |data| {
        var buf := Allocate(|data|);
        ring[h] := ring[h].(data := buf);
        ring[h] := ring[h].(size := |data|);
      }
      ring[h] := ring[h].(data := MemCopy(ring[h].data, data, |data|));
      ring[h] := ring[h].(contentLength := |data|);
    }

    /** Copy the claimed slot out, into a larger buffer if the caller's is too small. */
    method CopySlotOut(h: nat, out: Entry) returns (res: Entry)
      requires h < ring.Length && |ring[h].data| == ring[h].size
      requires 0 <= ring[h].contentLength <= |ring[h].data| && out.size <= |out.data|
      ensures Taken(res) == Taken(ring[h]) && res.contentLength == ring[h].contentLength
      ensures res.size == out.size <= |res.data|
      ensures if out.size < ring[h].contentLength then |res.data| == ring[h].size
              else |res.data| == |out.data| && res.data[res.contentLength..] == out.data[res.contentLength..]
    {
      res := out;
      if out.size < ring[h].contentLength {
        var buf := Allocate(ring[h].size);
        res := res.(data := buf);
      }
      res := res.(data := MemCopy(res.data, ring[h].data, ring[h].contentLength));
      res := res.(contentLength := ring[h].contentLength);
    }

    method SpEnqueue(data: Msg) returns (ret: int)
      requires Valid()
      modifies this, ring
      ensures Valid()
      ensures |old(Contents())| == size - 1 ==> ret == -1 && View() == old(View())
      ensures |old(Contents())| < size - 1 ==> ret == 0
      ensures Contents() == if ret == 0 then old(Contents()) + [data] else old(Contents())
    {
      RoomMeansNotFull(System());
      QuietTickets();
      var h := prodHead;
      var ct := consTail;
      NextIndexIsAdvance(h, size);
      var next := NextIndex(h, mask);
      if next == ct {
        return NOSPACE;
      }
      prodHead := next;
      FillSlot(h, data);
      prodTail := next;
      x := x.(ph := x.ph + 1, pt := x.pt + 1, sent := x.sent + [data], pOwner := x.pOwner + [0]);
      FillKeepsInv(old(System()), System(), data);
      return SUCCESS;
    }

    method MpEnqueue(data: Msg) returns (ret: int)
      requires Valid()
      modifies this, ring
      ensures Valid()
      ensures |old(Contents())| == size - 1 ==> ret == -1 && View() == old(View())
      ensures |old(Contents())| < size - 1 ==> ret == 0
      ensures Contents() == if ret == 0 then old(Contents()) + [data] else old(Contents())
    {
      RoomMeansNotFull(System());
      QuietTickets();
      var res := false;
      var h, next := 0, 0;
      NextIndexIsAdvance(prodHead, size);
      while !res
        invariant !res ==> System() == old(System())
        invariant res ==>
          && h == old(prodHead) && next == Advance(h, size) && prodHead == next != consTail
          && View() == old(View()).(prodHead := next) && x == old(x)
        decreases !res
      {
        h := prodHead;
        next := NextIndex(h, mask);
        if next == consTail {
          return NOSPACE;
        }
        res := CmpSetProdHead(h, next);
      }
      FillSlot(h, data);
      // The wait for the tail: no other call is in progress, so its first test ends it.
      if prodTail != h {
        assert false;
      }
      prodTail := next;
      x := x.(ph := x.ph + 1, pt := x.pt + 1, sent := x.sent + [data], pOwner := x.pOwner + [0]);
      FillKeepsInv(old(System()), System(), data);
      return SUCCESS;
    }

    method ScDequeue(out: Entry) returns (ret: int, res: Entry)
      requires Valid() && out.size <= |out.data|
      modifies this
      ensures Valid() && res.size == out.size <= |res.data|
      ensures old(Contents()) == [] ==> ret == -2 && View() == old(View()) && res == out && Contents() == []
      ensures old(Contents()) != [] ==>
                ret == 0 && old(Contents()) == [Taken(res)] + Contents()
    {
      EntryMeansNotEmpty(System());
      QuietTickets();
      var h := consHead;
      var pt := prodTail;
      if h == pt {
        return NOENT, out;
      }
      NextIndexIsAdvance(h, size);
      var next := NextIndex(h, mask);
      consHead := next;
      res := CopySlotOut(h, out);
      consTail := next;
      x := x.(ch := x.ch + 1, ct := x.ct + 1, received := x.received + [Taken(res)], cOwner := x.cOwner + [0]);
      TakeKeepsInv(old(System()), System(), res);
      return SUCCESS, res;
    }

    method McDequeue(out: Entry) returns (ret: int, res: Entry)
      requires Valid() && out.size <= |out.data|
      modifies this
      ensures Valid() && res.size == out.size <= |res.data|
      ensures old(Contents()) == [] ==> ret == -2 && View() == old(View()) && res == out && Contents() == []
      ensures old(Contents()) != [] ==>
                ret == 0 && old(Contents()) == [Taken(res)] + Contents()
    {
      EntryMeansNotEmpty(System());
      QuietTickets();
      var won := false;
      var h, next := 0, 0;
      NextIndexIsAdvance(consHead, size);
      while !won
        invariant !won ==> System() == old(System())
        invariant won ==>
          && h == old(consHead) != prodTail && next == Advance(h, size)
          && View() == old(View()).(consHead := next) && x == old(x)
        decreases !won
      {
        h := consHead;
        var pt := prodTail;
        if h == pt {
          return NOENT, out;
        }
        next := NextIndex(h, mask);
        won := CmpSetConsHead(h, next);
      }
      res := CopySlotOut(h, out);
      if consTail != h {
        assert false;
      }
      consTail := next;
      x := x.(ch := x.ch + 1, ct := x.ct + 1, received := x.received + [Taken(res)], cOwner := x.cOwner + [0]);
      TakeKeepsInv(old(System()), System(), res);
      return SUCCESS, res;
    }

    method Full() returns (b: bool)
      requires Valid()
      ensures b <==> |Contents()| == size - 1
    {
      ObserversMatchQueue(System());
      b := Bits.And((consTail - prodTail - 1) % TWO32, mask) == 0;
    }

    method Empty() returns (b: bool)
      requires Valid()
      ensures b <==> Contents() == []
    {
      ObserversMatchQueue(System());
      b := consTail == prodTail;
    }

    method Count() returns (n: nat)
      requires Valid()
      ensures n == |Contents()|
    {
      ObserversMatchQueue(System());
      n := Bits.And((prodTail - consTail) % TWO32, mask);
    }

    method FreeCount() returns (n: nat)
      requires Valid()
      ensures n == size - 1 - |Contents()|
    {
      ObserversMatchQueue(System());
      n := Bits.And((consTail - prodTail - 1) % TWO32, mask);
    }

    /** x_ring_print: dequeue at most `size` times into one buffer, stopping at the first failure. */
    method Print() returns (i: nat, ghost printed: seq<Msg>)
      requires Valid()
      modifies this
      ensures Valid() && Contents() == []
      ensures i == |old(Contents())| && printed == old(Contents())
    {
      var buf := Allocate(1024);
      var entry := Entry(1024, 0, buf);
      ghost var start := Contents();
      ContentsFit();
      i := 0;
      printed := [];
      while i < size
        invariant Valid() && i <= size && i == |printed| && entry.size <= |entry.data|
        invariant start == printed + Contents()
      {
        ghost var before := Contents();
        var ret;
        ret, entry := McDequeue(entry);
        if ret < 0 {
          break;
        }
        MoveAcross(printed, before, Taken(entry), Contents());
        printed := printed + [Taken(entry)];
        i := i + 1;
      }
    }

    lemma ContentsFit()
      requires Valid()
      ensures |Contents()| < size
    {
    }

    /** With no call in progress nothing is pending. */
    lemma QuietTickets()
      requires Valid()
      ensures x.ph == x.pt && x.ch == x.ct
      ensures prodHead == prodTail && consHead == consTail
    {
      assert x.pt < x.ph ==> PendingProd(System(), x.pt);
      assert x.ct < x.ch ==> PendingCons(System(), x.ct);
    }
  }

  lemma MoveAcross<T>(done: seq<T>, before: seq<T>, t: T, after: seq<T>)
    requires before == [t] + after
    ensures done + before == (done + [t]) + after
  {
  }

  /** Rounding up a 32-bit count above 2^31 gives 2^32, which is 0 as an unsigned int. */
  lemma RoundedWraps(count: nat, r: nat)
    requires 1 <= count < TWO32 && Bits.LeastPow2From(count, r)
    ensures r % TWO32 == if count <= 0x8000_0000 then r else 0
  {
    Bits.Pow2Of63();
    assert Bits.Pow2(32) == 2 * Bits.Pow2(31) == TWO32;
    assert Bits.IsPow2(Bits.Pow2(31)) && Bits.IsPow2(Bits.Pow2(32));
    if count > 0x8000_0000 {
      var k: nat :| r == Bits.Pow2(k);
      if k > 32 { Bits.Pow2Strict(32, k); }
      if k < 32 { Bits.Pow2Strict(k, 32); }
    }
  }

  lemma RoundedFits(count: nat, n: nat)
    requires 1 <= count <= 0x8000_0000 && Bits.LeastPow2From(count, n)
    ensures RingSize(n) && (n - 1) % TWO32 == n - 1
  {
    Bits.Pow2Of63();
    assert Bits.IsPow2(0x8000_0000);
  }

  /** The whole effect of one enqueue on a quiet ring. */
  lemma FillKeepsInv(s: Sys, s': Sys, data: Msg)
    requires Inv(s) && s.c.threads == [] && s.x.ph == s.x.pt && s.x.ch == s.x.ct
    requires s.x.ph + 1 < s.x.ct + s.c.ring.size
    requires var h := s.c.ring.prodHead; var n := Advance(h, s.c.ring.size);
             && |s'.c.ring.slots| == s.c.ring.size
             && s'.c == s.c.(ring := s.c.ring.(prodHead := n, prodTail := n, slots := s'.c.ring.slots))
             && Holds(s'.c.ring.slots[h], data)
             && |s'.c.ring.slots[h].data| == s'.c.ring.slots[h].size
             && forall j :: 0 <= j < s.c.ring.size && j != h ==> s'.c.ring.slots[j] == s.c.ring.slots[j]
    requires s'.x == s.x.(ph := s.x.ph + 1, pt := s.x.pt + 1, sent := s.x.sent + [data],
                          pOwner := s.x.pOwner + [0])
    ensures Inv(s') && Queue(s') == Queue(s) + [data]
  {
    var n := s.c.ring.size;
    forall k | s'.x.ct <= k < s'.x.pt && k < s'.x.ph
      ensures Holds(s'.c.ring.slots[Slot(k, n)], s'.x.sent[k])
    {
      if k < s.x.ph { SlotInjective(k, s.x.ph, n); }
    }
    assert s'.x.sent[s'.x.ct..s'.x.pt] == s.x.sent[s.x.ct..s.x.pt] + [data];
  }

  lemma TakeKeepsInv(s: Sys, s': Sys, res: Entry)
    requires Inv(s) && s.c.threads == [] && s.x.ph == s.x.pt && s.x.ch == s.x.ct < s.x.pt
    requires Taken(res) == Taken(s.c.ring.slots[s.c.ring.consHead])
    requires var n := Advance(s.c.ring.consHead, s.c.ring.size);
             s'.c == s.c.(ring := s.c.ring.(consHead := n, consTail := n))
    requires s'.x == s.x.(ch := s.x.ch + 1, ct := s.x.ct + 1, received := s.x.received + [Taken(res)],
                          cOwner := s.x.cOwner + [0])
    ensures Inv(s') && Queue(s) == [Taken(res)] + Queue(s')
  {
    assert Holds(s.c.ring.slots[Slot(s.x.ct, s.c.ring.size)], s.x.sent[s.x.ct]);
    assert Taken(res) == s.x.sent[s.x.ct];
    assert s.x.sent[..s.x.ct + 1] == s.x.sent[..s.x.ct] + [s.x.sent[s.x.ct]];
  }
}

/**
 Ring indices: the masked index arithmetic of x_ring.c against free-running tickets.
 Ticket k is the k-th claim ever made; Slot(k, n) is the slot number it falls into.
 */
module RingIndex {
  import opened Prelude
  import opened Bits

  /** A legal ring size: what x_ring_create stores in `size`. */
  ghost predicate RingSize(n: nat) {
    IsPow2(n) && n <= 0x8000_0000
  }

  /** `(h + 1) & mask` on 32-bit unsigned integers. */
  function NextIndex(h: nat, mask: nat): nat {
    And((h + 1) % TWO32, mask)
  }

  /** The slot after h in a ring of n slots. */
  function Advance(h: nat, n: nat): (r: nat)
    requires h < n
    ensures r < n
  {
    if h + 1 == n then 0 else h + 1
  }

  lemma MaskWord(x: nat, n: nat)
    requires RingSize(n)
    ensures And(x, n - 1) == x % n
  {
    var e: nat :| n == Pow2(e);
    MaskIsRemainder(x, e);
  }

  lemma NextIndexIsAdvance(h: nat, n: nat)
    requires RingSize(n) && h < n
    ensures NextIndex(h, n - 1) == Advance(h, n)
  {
    MaskWord(h + 1, n);
    RemainderUnique(h + 1, TWO32, 0, h + 1);
    if h + 1 == n {
      RemainderUnique(h + 1, n, 1, 0);
    } else {
      RemainderUnique(h + 1, n, 0, h + 1);
    }
  }

  /** The slot of ticket k, by stepping round the ring k times. */
  function Slot(k: nat, n: nat): (r: nat)
    requires n > 0
    ensures r < n
  {
    if k == 0 then 0 else Advance(Slot(k - 1, n), n)
  }

  lemma {:induction false} SlotIsRemainder(k: nat, n: nat)
    requires n > 0
    ensures Slot(k, n) == k % n
  {
    if k > 0 {
      SlotIsRemainder(k - 1, n);
      var q, r := (k - 1) / n, (k - 1) % n;
      assert k - 1 == q * n + r;
      if r + 1 == n {
        assert k == (q + 1) * n + 0;
        RemainderUnique(k, n, q + 1, 0);
      } else {
        RemainderUnique(k, n, q, r + 1);
      }
    } else {
      RemainderUnique(0, n, 0, 0);
    }
  }

  /** Two tickets less than one lap apart share a slot only if they are the same ticket. */
  lemma SlotInjective(j: nat, k: nat, n: nat)
    requires n > 0 && j <= k < j + n
    ensures Slot(j, n) == Slot(k, n) <==> j == k
  {
    if Slot(j, n) == Slot(k, n) {
      SlotIsRemainder(j, n);
      SlotIsRemainder(k, n);
      assert k - j == (k / n - j / n) * n;
      MultipleBelow(k / n - j / n, n);
    }
  }

  lemma RemainderLap(k: nat, n: nat)
    requires n > 0
    ensures (k + n) % n == k % n
  {
    var q, r := k / n, k % n;
    assert k == q * n + r;
    assert (q + 1) * n == q * n + n;
    RemainderUnique(k + n, n, q + 1, r);
  }

  /** The slot one whole lap later is the same slot. */
  lemma SlotLap(k: nat, n: nat)
    requires n > 0
    ensures Slot(k + n, n) == Slot(k, n)
  {
    SlotIsRemainder(k, n);
    SlotIsRemainder(k + n, n);
    RemainderLap(k, n);
  }

  /**
   The header's design lets indices run freely over 32 bits and masks them on access; masking the
   wrapped index gives the slot of the ticket, because the size divides 2^32.
   */
  lemma WrappedIndexMasksToSlot(k: nat, n: nat)
    requires RingSize(n)
    ensures And(k % TWO32, n - 1) == Slot(k, n)
  {
    MaskWord(k % TWO32, n);
    SlotIsRemainder(k, n);
    var c := DividesWord(n);
    RemainderOfWrapped(k, n, c);
  }

  lemma DividesWord(n: nat) returns (c: nat)
    requires RingSize(n)
    ensures c * n == TWO32
  {
    var e: nat :| n == Pow2(e);
    Pow2Of63();
    if e > 31 { Pow2Strict(31, e); }
    c := Pow2(32 - e);
    Pow2Add(32 - e, e);
  }

  lemma DoubleProduct(x: int, y: int)
    ensures (2 * x) * y == 2 * (x * y)
  {
  }

  lemma {:induction false} Pow2Add(a: nat, b: nat)
    ensures Pow2(a) * Pow2(b) == Pow2(a + b)
  {
    if a > 0 {
      Pow2Add(a - 1, b);
      DoubleProduct(Pow2(a - 1), Pow2(b));
    }
  }

  /** Reducing modulo a multiple of n first does not change the remainder modulo n. */
  lemma RemainderOfWrapped(k: int, n: nat, c: nat)
    requires n > 0 && c * n == TWO32
    ensures k % TWO32 % n == k % n
  {
    var w := k % TWO32;
    var q := k / TWO32;
    assert k == q * TWO32 + w;
    assert q * (c * n) == (q * c) * n;
    assert w == (w / n) * n + w % n;
    assert k == (q * c + w / n) * n + w % n;
    RemainderUnique(k, n, q * c + w / n, w % n);
  }

  /** `(a - b) & mask` on 32-bit unsigned slot numbers recovers a ticket difference below one lap. */
  lemma MaskedDifference(j: nat, k: nat, n: nat)
    requires RingSize(n) && j <= k < j + n
    ensures And((Slot(k, n) - Slot(j, n)) % TWO32, n - 1) == k - j
  {
    var d: int := Slot(k, n) - Slot(j, n);
    var c := DividesWord(n);
    MaskWord(d % TWO32, n);
    RemainderOfWrapped(d, n, c);
    SlotIsRemainder(j, n);
    SlotIsRemainder(k, n);
    RemainderDifference(j, k, n);
  }

  lemma RemainderDifference(j: nat, k: nat, n: nat)
    requires n > 0 && j <= k < j + n
    ensures (k % n - j % n) % n == k - j
  {
    var a, b := k / n, j / n;
    assert k == a * n + k % n && j == b * n + j % n;
    assert (b - a) * n == b * n - a * n;
    RemainderUnique(k % n - j % n, n, b - a, k - j);
  }
}

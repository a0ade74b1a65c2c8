/**
 Bitwise conjunction on natural numbers, and the three facts about powers of two
 that the ring relies on: the power-of-two test, rounding up, and masking as remainder.
 */
module Bits {

  /** The bitwise AND of two unsigned integers of any width. */
  function And(a: nat, b: nat): nat {
    if a == 0 || b == 0 then 0
    else 2 * And(a / 2, b / 2) + (if a % 2 == 1 && b % 2 == 1 then 1 else 0)
  }

  function Pow2(k: nat): (r: nat)
    ensures r >= 1
    ensures k > 0 ==> r >= 2
  {
    if k == 0 then 1 else 2 * Pow2(k - 1)
  }

  ghost predicate IsPow2(n: nat) {
    exists k: nat :: n == Pow2(k)
  }

  /** x_ring.c's is_power_of_2. */
  predicate PowerOfTwoTest(n: nat) {
    n != 0 && And(n, n - 1) == 0
  }

  lemma {:induction false} AndSelf(a: nat)
    ensures And(a, a) == a
  {
    if a != 0 { AndSelf(a / 2); }
  }

  lemma {:induction false} AndPredecessorIffPow2(n: nat)
    requires n > 0
    ensures And(n, n - 1) == 0 <==> IsPow2(n)
  {
    if n == 1 {
      assert n == Pow2(0);
    } else if n % 2 == 1 {
      AndSelf(n / 2);
      assert (n - 1) / 2 == n / 2;
      forall k: nat ensures n != Pow2(k) {
        assert k > 0 ==> Pow2(k) == 2 * Pow2(k - 1);
      }
    } else {
      var m := n / 2;
      AndPredecessorIffPow2(m);
      assert (n - 1) / 2 == m - 1 && (n - 1) % 2 == 1;
      assert And(n, n - 1) == 2 * And(m, m - 1);
      if IsPow2(m) {
        var k: nat :| m == Pow2(k);
        assert n == Pow2(k + 1);
      }
      if IsPow2(n) {
        var k: nat :| n == Pow2(k);
        assert k > 0 && m == Pow2(k - 1);
      }
    }
  }

  /** is_power_of_2 answers exactly "is a power of two", for every argument including 0. */
  lemma {:induction false} PowerOfTwoTestIsExact(n: nat)
    ensures PowerOfTwoTest(n) <==> IsPow2(n)
  {
    if n > 0 {
      AndPredecessorIffPow2(n);
    }
  }

  /** Masking with a power of two minus one is the remainder. */
  lemma {:induction false} MaskIsRemainder(x: nat, k: nat)
    ensures And(x, Pow2(k) - 1) == x % Pow2(k)
  {
    var n := Pow2(k);
    if k == 0 {
    } else {
      var m := Pow2(k - 1);
      MaskIsRemainder(x / 2, k - 1);
      assert (n - 1) / 2 == m - 1 && (n - 1) % 2 == 1;
      DoubleRemainder(x, m);
      if x == 0 {
        assert x % n == 0;
      }
    }
  }

  lemma DoubleRemainder(x: nat, m: nat)
    requires m > 0
    ensures x % (2 * m) == 2 * (x / 2 % m) + x % 2
  {
    var h := x / 2;
    var q, r := h / m, h % m;
    assert h == q * m + r;
    assert x == q * (2 * m) + (2 * r + x % 2);
    RemainderUnique(x, 2 * m, q, 2 * r + x % 2);
  }

  lemma MultipleBelow(a: int, n: int)
    requires n > 0 && -n < a * n < n
    ensures a == 0
  {
    if a >= 1 {
    } else if a <= -1 {
    }
  }

  lemma RemainderUnique(x: int, n: int, q: int, r: int)
    requires n > 0 && 0 <= r < n && x == q * n + r
    ensures x % n == r && x / n == q
  {
    var q', r' := x / n, x % n;
    assert x == q' * n + r';
    assert (q - q') * n == q * n - q' * n;
    MultipleBelow(q - q', n);
  }

  /** The bit tested by `andv & n` when andv holds the single bit 2^k. */
  lemma {:induction false} AndSingleBit(k: nat, n: nat)
    ensures And(Pow2(k), n) == if n / Pow2(k) % 2 == 1 then Pow2(k) else 0
  {
    if k == 0 {
      assert And(0, n / 2) == 0;
    } else {
      AndSingleBit(k - 1, n / 2);
      HalfDivide(n, Pow2(k - 1));
    }
  }

  lemma HalfDivide(n: nat, m: nat)
    requires m > 0
    ensures n / (2 * m) == n / 2 / m
  {
    var h := n / 2;
    var q, r := h / m, h % m;
    assert h == q * m + r;
    assert n == q * (2 * m) + (2 * r + n % 2);
    RemainderUnique(n, 2 * m, q, 2 * r + n % 2);
  }

  lemma {:induction false} Pow2Strict(j: nat, k: nat)
    requires j < k
    ensures 2 * Pow2(j) <= Pow2(k)
  {
    if j + 1 < k { Pow2Strict(j, k - 1); }
  }

  /** The smallest power of two that is not below n. */
  ghost predicate LeastPow2From(n: nat, r: nat) {
    && IsPow2(r) && r >= n
    && forall p: nat :: IsPow2(p) && p >= n ==> r <= p
  }

  lemma LeastPow2Between(n: nat, k: nat)
    requires Pow2(k) < n <= Pow2(k + 1)
    ensures LeastPow2From(n, Pow2(k + 1))
  {
    forall p: nat | IsPow2(p) && p >= n ensures Pow2(k + 1) <= p {
      var j: nat :| p == Pow2(j);
      if j < k {
        Pow2Strict(j, k);
      } else if j > k + 1 {
        Pow2Strict(k + 1, j);
      }
    }
  }

  const ULONG_MAX: nat := 0xffff_ffff_ffff_ffff
  const TOP_BIT: nat := 0x8000_0000_0000_0000

  /** `~(m & (m >> 1))`, for m the all-ones word. */
  function HighestBit(m: nat): (r: int) {
    m - And(m, m / 2)
  }

  /** `a << 1` on a 64-bit word. */
  function ShiftLeft(a: nat): nat {
    a * 2 % (ULONG_MAX + 1)
  }

  /** x_ring.c's roundup_power_of_two on a 64-bit unsigned long. */
  method RoundupPowerOfTwo(n: nat) returns (r: nat)
    requires n <= ULONG_MAX
    ensures 1 <= n <= TOP_BIT ==> LeastPow2From(n, r)
    ensures n == 0 || n > TOP_BIT ==> r == 0
  {
    var predecessor := if n == 0 then ULONG_MAX else n - 1;
    if n > 0 { AndPredecessorIffPow2(n); }
    if And(n, predecessor) == 0 {
      if n > 0 { AtMostTopBit(n); }
      return n;
    }
    var maxulong := ULONG_MAX;
    Pow2Of63();
    TopBit(maxulong, 63);
    var andv := HighestBit(maxulong);
    ghost var k := 63;
    while And(andv, n) == 0
      invariant 0 <= k <= 63 && andv == Pow2(k)
      invariant n < 2 * andv
      decreases k
    {
      TopBitTest(k, n);
      andv := andv / 2;
      k := k - 1;
    }
    TopBitFound(k, n);
    r := ShiftLeft(andv);
  }

  /** With n below 2^(k+1), bit k of n is set exactly when n reaches 2^k. */
  lemma TopBitTest(k: nat, n: nat)
    requires n < 2 * Pow2(k)
    ensures And(Pow2(k), n) != 0 <==> n >= Pow2(k)
  {
    AndSingleBit(k, n);
    if n < Pow2(k) {
      RemainderUnique(n, Pow2(k), 0, n);
    } else {
      RemainderUnique(n, Pow2(k), 1, n - Pow2(k));
    }
  }

  lemma WordPow2(k: nat)
    ensures k < 63 ==> 2 * Pow2(k) <= TOP_BIT
    ensures k == 63 ==> Pow2(k) == TOP_BIT
    ensures k > 63 ==> Pow2(k) >= 2 * TOP_BIT
  {
    Pow2Of63();
    if k < 63 {
      Pow2Strict(k, 63);
    } else if k > 63 {
      Pow2Strict(63, k);
    }
  }

  lemma ShiftLeftWithoutCarry(p: nat)
    requires 2 * p <= ULONG_MAX
    ensures ShiftLeft(p) == 2 * p
  {
    RemainderUnique(p * 2, ULONG_MAX + 1, 0, p * 2);
  }

  lemma TopBitFound(k: nat, n: nat)
    requires n < 2 * Pow2(k) && And(Pow2(k), n) != 0 && !IsPow2(n) && k <= 63
    ensures n <= TOP_BIT ==> LeastPow2From(n, ShiftLeft(Pow2(k)))
    ensures n > TOP_BIT ==> ShiftLeft(Pow2(k)) == 0
  {
    WordPow2(k);
    TopBitTest(k, n);
    assert n != Pow2(k);
    if k < 63 {
      ShiftLeftWithoutCarry(Pow2(k));
      LeastPow2Between(n, k);
    }
  }

  lemma AtMostTopBit(n: nat)
    requires IsPow2(n) && n <= ULONG_MAX
    ensures n <= TOP_BIT && LeastPow2From(n, n)
  {
    var k: nat :| n == Pow2(k);
    WordPow2(k);
  }

  lemma Pow2Of63()
    ensures Pow2(63) == TOP_BIT
    ensures Pow2(31) == 0x8000_0000
  {
    assert Pow2(8) == 256;
    assert Pow2(16) == 65536;
    assert Pow2(24) == 16777216;
    assert Pow2(31) == 0x8000_0000;
    assert Pow2(40) == 0x100_0000_0000;
    assert Pow2(48) == 0x1_0000_0000_0000;
    assert Pow2(56) == 0x100_0000_0000_0000;
  }

  /** Of an all-ones word only the highest bit remains. */
  lemma TopBit(m: nat, k: nat)
    requires m == 2 * Pow2(k) - 1
    ensures HighestBit(m) == Pow2(k)
  {
    MaskIsRemainder(m, k);
    assert m / 2 == Pow2(k) - 1;
    RemainderUnique(m, Pow2(k), 1, Pow2(k) - 1);
  }
}

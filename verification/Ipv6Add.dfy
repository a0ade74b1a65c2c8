/** ipv6_add.c: adding a signed 32-bit number to a 128-bit big-endian address, in place. */
module Ipv6Add {
  import opened Prelude
  import Bits

  const B32: int := 0x1_0000_0000
  const B64: int := 0x1_0000_0000_0000_0000
  const B96: int := 0x1_0000_0000_0000_0000_0000_0000
  const B128: int := 0x1_0000_0000_0000_0000_0000_0000_0000_0000

  /** The number a big-endian byte string writes. */
  function ValueOf(s: seq<Byte>): (v: nat) {
    if s == [] then 0 else 256 * ValueOf(s[..|s| - 1]) + s[|s| - 1] as int
  }

  /** The weight of a byte with k bytes to its right. */
  function Power256(k: nat): (p: nat)
    ensures p >= 1
  {
    if k == 0 then 1 else 256 * Power256(k - 1)
  }

  /** The first byte weighs most: byte i is the digit of weight 256^(|s|-1-i). */
  lemma {:induction false} ByteOfValue(s: seq<Byte>, i: nat) returns (hi: nat, lo: nat)
    requires i < |s|
    ensures ValueOf(s) == (256 * hi + s[i] as int) * Power256(|s| - 1 - i) + lo && lo < Power256(|s| - 1 - i)
  {
    var n := |s| - 1;
    var v, b := ValueOf(s[..n]), s[n] as int;
    if i < n {
      hi, lo := ByteOfValue(s[..n], i);
      assert Power256(n - i) == 256 * Power256(n - 1 - i);
      OneByteMore(256 * hi + s[i] as int, Power256(n - 1 - i), lo, v, b);
      lo := 256 * lo + b;
    } else {
      hi, lo := v, 0;
    }
  }

  lemma OneByteMore(d: nat, p: nat, lo: nat, v: nat, b: nat)
    requires v == d * p + lo && lo < p && b < 256
    ensures 256 * v + b == d * (256 * p) + (256 * lo + b) && 256 * lo + b < 256 * p
  {
  }

  /** Byte strings of one length with one value are equal. */
  lemma {:induction false} ValueOfInjective(s: seq<Byte>, t: seq<Byte>)
    requires |s| == |t| && ValueOf(s) == ValueOf(t)
    ensures s == t
  {
    if s != [] {
      var n := |s| - 1;
      ValueOfInjective(s[..n], t[..n]);
      assert s == s[..n] + [s[n]] && t == t[..n] + [t[n]];
    }
  }

  function Word(b0: Byte, b1: Byte, b2: Byte, b3: Byte): (w: nat)
    ensures w < B32
  {
    ((b0 as int * 256 + b1 as int) * 256 + b2 as int) * 256 + b3 as int
  }

  /** Word j, in network order, of a 16-byte address. */
  function WordAt(s: seq<Byte>, j: nat): (w: nat)
    requires |s| == 16 && j < 4
    ensures w < B32
  {
    Word(s[4 * j], s[4 * j + 1], s[4 * j + 2], s[4 * j + 3])
  }

  lemma ValueSnoc(s: seq<Byte>, b: Byte)
    ensures ValueOf(s + [b]) == 256 * ValueOf(s) + b as int
  {
    assert (s + [b])[..|s|] == s;
  }

  lemma ValueAppendWord(s: seq<Byte>, b0: Byte, b1: Byte, b2: Byte, b3: Byte)
    ensures ValueOf(s + [b0, b1, b2, b3]) == ValueOf(s) * 0x1_0000_0000 + Word(b0, b1, b2, b3)
  {
    ValueSnoc(s, b0);
    ValueSnoc(s + [b0], b1);
    ValueSnoc(s + [b0] + [b1], b2);
    ValueSnoc(s + [b0] + [b1] + [b2], b3);
    assert s + [b0] + [b1] + [b2] + [b3] == s + [b0, b1, b2, b3];
  }

  ghost function Total(x: seq<nat>): nat
    requires |x| == 4
  {
    x[0] * B96 + x[1] * B64 + x[2] * B32 + x[3]
  }

  ghost function Words(s: seq<Byte>): (x: seq<nat>)
    requires |s| == 16
    ensures |x| == 4
  {
    [WordAt(s, 0), WordAt(s, 1), WordAt(s, 2), WordAt(s, 3)]
  }

  lemma WordOf(s: seq<Byte>, j: nat)
    requires |s| == 16 && j < 4
    ensures Words(s)[j] == WordAt(s, j)
  {
  }

  /** The value of an address, word by word. */
  lemma ValueIsWords(s: seq<Byte>)
    requires |s| == 16
    ensures ValueOf(s) == Total(Words(s)) < B128
  {
    assert s[..4] == [] + [s[0], s[1], s[2], s[3]];
    assert s[..8] == s[..4] + [s[4], s[5], s[6], s[7]];
    assert s[..12] == s[..8] + [s[8], s[9], s[10], s[11]];
    assert s == s[..12] + [s[12], s[13], s[14], s[15]];
    ValueAppendWord([], s[0], s[1], s[2], s[3]);
    ValueAppendWord(s[..4], s[4], s[5], s[6], s[7]);
    ValueAppendWord(s[..8], s[8], s[9], s[10], s[11]);
    ValueAppendWord(s[..12], s[12], s[13], s[14], s[15]);
  }

  /** The weight of the word handled in iteration i. */
  function Weight(i: nat): int {
    if i == 0 then 1 else if i == 1 then B32 else if i == 2 then B64 else if i == 3 then B96 else B128
  }

  /** htonl of the j-th 32-bit word in memory. */
  method LoadWord(a: array<Byte>, j: nat) returns (w: nat)
    requires a.Length == 16 && j < 4
    ensures w == WordAt(a[..], j)
  {
    w := Word(a[4 * j], a[4 * j + 1], a[4 * j + 2], a[4 * j + 3]);
  }

  /** Store the low 32 bits of v as the j-th word, in network order. */
  method StoreWord(a: array<Byte>, j: nat, v: int)
    requires a.Length == 16 && j < 4
    modifies a
    ensures WordAt(a[..], j) == v % B32
    ensures forall k :: 0 <= k < 4 && k != j ==> WordAt(a[..], k) == old(WordAt(a[..], k))
  {
    var w := v % B32;
    SplitWord(w);
    a[4 * j] := (w / 0x100_0000) as Byte;
    a[4 * j + 1] := (w / 0x1_0000 % 256) as Byte;
    a[4 * j + 2] := (w / 0x100 % 256) as Byte;
    a[4 * j + 3] := (w % 256) as Byte;
  }

  lemma SplitWord(w: nat)
    requires w < B32
    ensures w / 0x100_0000 < 256
    ensures w == ((w / 0x100_0000 * 256 + w / 0x1_0000 % 256) * 256 + w / 0x100 % 256) * 256 + w % 256
  {
  }

  lemma OneWordApart(x: seq<nat>, y: seq<nat>, i: nat)
    requires |x| == |y| == 4 && i < 4
    requires forall k :: 0 <= k < 4 && k != 3 - i ==> y[k] == x[k]
    ensures Total(y) - Total(x) == (y[3 - i] - x[3 - i]) * Weight(i)
  {
    if i == 0 {
    } else if i == 1 {
    } else if i == 2 {
    } else {
    }
  }

  /** Replacing one word changes the value by that word's weight. */
  lemma ReplaceWord(s: seq<Byte>, t: seq<Byte>, i: nat)
    requires |s| == |t| == 16 && i < 4
    requires forall k :: 0 <= k < 4 && k != 3 - i ==> WordAt(t, k) == WordAt(s, k)
    ensures ValueOf(t) - ValueOf(s) == (WordAt(t, 3 - i) - WordAt(s, 3 - i)) * Weight(i)
  {
    WordOf(s, 3 - i);
    WordOf(t, 3 - i);
    forall k | 0 <= k < 4 && k != 3 - i ensures Words(t)[k] == Words(s)[k] {
      WordOf(s, k);
      WordOf(t, k);
    }
    OneWordApart(Words(s), Words(t), i);
    ValueIsWords(s);
    ValueIsWords(t);
  }

  /** The value an address of value v has after adding n. */
  function Add(v: int, n: int): int { (v + n) % B128 }

  /** The carry out of a 32-bit word holding the sum tmp. */
  function Carry(tmp: int): int {
    if tmp < 0 then -1 else if tmp > 0xffff_ffff then 1 else 0
  }

  lemma CarryIsQuotient(tmp: int)
    requires -0x8000_0000 <= tmp < 0x1_8000_0000
    ensures tmp == Carry(tmp) * 0x1_0000_0000 + tmp % 0x1_0000_0000
    ensures tmp > 0xffff_ffff ==> tmp / 0x1_0000_0000 % 0x1_0000_0000 == 1
  {
  }

  lemma Shift(i: nat, x: int, y: int, n: int, c: int)
    requires i < 4 && x + n == c * 0x1_0000_0000 + y
    ensures (y - x) * Weight(i) + c * Weight(i + 1) == n * Weight(i)
  {
    if i == 0 {
    } else if i == 1 {
    } else if i == 2 {
    } else {
    }
  }

  /** One iteration moves what is still to be added into the next word. */
  lemma CarryStep(before: seq<Byte>, after: seq<Byte>, i: nat, n: int, tmp: int)
    requires |before| == |after| == 16 && i < 4 && -0x8000_0000 <= n < 0x8000_0000
    requires tmp == WordAt(before, 3 - i) + n && WordAt(after, 3 - i) == tmp % B32
    requires forall k :: 0 <= k < 4 && k != 3 - i ==> WordAt(after, k) == WordAt(before, k)
    ensures ValueOf(after) + Carry(tmp) * Weight(i + 1) == ValueOf(before) + n * Weight(i)
  {
    ReplaceWord(before, after, i);
    CarryIsQuotient(tmp);
    Shift(i, WordAt(before, 3 - i), WordAt(after, 3 - i), n, Carry(tmp));
  }

  method Ipv6Addition(a: array<Byte>, n0: int)
    requires a.Length == 16 && -0x8000_0000 <= n0 < 0x8000_0000
    modifies a
    ensures ValueOf(a[..]) == (ValueOf(old(a[..])) + n0) % 0x1_0000_0000_0000_0000_0000_0000_0000_0000
    ensures ValueOf(a[..]) == Add(ValueOf(old(a[..])), n0)
  {
    var n := n0;
    ghost var sum := ValueOf(a[..]) + n0;
    if n == 0 {
      InRange(a[..], sum, 0);
      return;
    }
    for i := 0 to 4
      invariant -0x8000_0000 <= n < 0x8000_0000
      invariant ValueOf(a[..]) + n * Weight(i) == sum
    {
      ghost var before := a[..];
      var tmp := LoadWord(a, 3 - i);
      tmp := tmp + n;
      CarryIsQuotient(tmp);
      if tmp < 0 {
        StoreWord(a, 3 - i, tmp);
        CarryStep(before, a[..], i, n, tmp);
        n := -1;
        continue;
      }
      var tmp2 := tmp - 0xffff_ffff;
      if tmp2 > 0 {
        StoreWord(a, 3 - i, tmp);
        CarryStep(before, a[..], i, n, tmp);
        n := tmp / 0x1_0000_0000 % 0x1_0000_0000;
      } else {
        StoreWord(a, 3 - i, tmp);
        CarryStep(before, a[..], i, n, tmp);
        InRange(a[..], sum, 0);
        return;
      }
    }
    InRange(a[..], sum, n);
  }

  lemma InRange(s: seq<Byte>, sum: int, c: int)
    requires |s| == 16 && ValueOf(s) + c * B128 == sum
    ensures ValueOf(s) == sum % B128
  {
    ValueIsWords(s);
    SmallModulus(ValueOf(s), c);
  }

  lemma SmallModulus(v: int, c: int)
    requires 0 <= v < B128
    ensures (v + c * B128) % B128 == v
  {
    Bits.RemainderUnique(v + c * B128, B128, c, v);
  }

  /** Adding n and then m is adding n + m. */
  lemma AddThenAdd(v: int, n: int, m: int)
    ensures Add(Add(v, n), m) == Add(v, n + m)
  {
    var q, r := (v + n) / B128, (v + n) % B128;
    assert v + n == q * B128 + r;
    var q', r' := (r + m) / B128, (r + m) % B128;
    Bits.RemainderUnique(v + n + m, B128, q + q', r');
  }

  /** The 16 bytes reached by adding n and then m are those reached by adding n + m at once. */
  lemma AddInSteps(s: seq<Byte>, t: seq<Byte>, u: seq<Byte>, w: seq<Byte>, n: int, m: int)
    requires |s| == |t| == |u| == |w| == 16
    requires ValueOf(t) == Add(ValueOf(s), n) && ValueOf(u) == Add(ValueOf(t), m)
    requires ValueOf(w) == Add(ValueOf(s), n + m)
    ensures u == w
  {
    AddThenAdd(ValueOf(s), n, m);
    ValueOfInjective(u, w);
  }

  /** Subtracting what was added gives back the very same 16 bytes. */
  lemma AddThenSubtract(s: seq<Byte>, t: seq<Byte>, u: seq<Byte>, n: int)
    requires |s| == |t| == |u| == 16
    requires ValueOf(t) == Add(ValueOf(s), n) && ValueOf(u) == Add(ValueOf(t), -n)
    ensures u == s
  {
    ValueIsWords(s);
    AddThenAdd(ValueOf(s), n, -n);
    SmallModulus(ValueOf(s), 0);
    ValueOfInjective(s, u);
  }
}

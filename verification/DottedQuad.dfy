/** utils.c: is_str_ip, and the split into groups it decides about. */
module DottedQuad {
  import opened CText

  const DOT: CChar := '.'

  /** The groups between the dots of s; there is always one more group than there are dots. */
  function Split(s: CString): (groups: seq<CString>)
    ensures |groups| >= 1
  {
    if s == [] then
      [[]]
    else
      var front, c := Split(s[..|s| - 1]), s[|s| - 1];
      var last := |front| - 1;
      if c == DOT then front + [[]] else front[last := front[last] + [c]]
  }

  function Join(groups: seq<CString>): CString
    requires |groups| >= 1
  {
    var last := |groups| - 1;
    if last == 0 then groups[0] else Join(groups[..last]) + [DOT] + groups[last]
  }

  ghost predicate DotFree(groups: seq<CString>) {
    forall i :: 0 <= i < |groups| ==> DOT !in groups[i]
  }

  /** Split yields dot-free groups that join back to the text. */
  lemma {:induction false} JoinSplit(s: CString)
    ensures DotFree(Split(s)) && Join(Split(s)) == s
  {
    if s != [] {
      var front, c := Split(s[..|s| - 1]), s[|s| - 1];
      var last := |front| - 1;
      JoinSplit(s[..|s| - 1]);
      if c == DOT {
        assert Split(s)[..last + 1] == front;
      } else {
        assert Split(s)[..last] == front[..last];
      }
      assert s == s[..|s| - 1] + [c];
    }
  }

  lemma {:induction false} SplitAppend(s: CString, g: CString)
    requires DOT !in g
    ensures Split(s + g) == Split(s)[|Split(s)| - 1 := Split(s)[|Split(s)| - 1] + g]
  {
    var last := |Split(s)| - 1;
    if g == [] {
      assert s + g == s && Split(s)[last] + g == Split(s)[last];
    } else {
      var n := |g| - 1;
      SplitAppend(s, g[..n]);
      assert (s + g)[..|s + g| - 1] == s + g[..n];
      assert Split(s)[last] + g[..n] + [g[n]] == Split(s)[last] + g;
    }
  }

  lemma SplitOneMore(front: CString, p: seq<CString>, g: CString)
    requires Split(front) == p && DOT !in g
    ensures Split(front + [DOT] + g) == p + [g]
  {
    assert (front + [DOT])[..|front|] == front;
    assert Split(front + [DOT]) == p + [[]];
    SplitAppend(front + [DOT], g);
    assert [] + g == g;
  }

  /** Split is the only way to cut a text at its dots. */
  lemma {:induction false} SplitJoin(groups: seq<CString>)
    requires |groups| >= 1 && DotFree(groups)
    ensures Split(Join(groups)) == groups
  {
    var last := |groups| - 1;
    if last == 0 {
      SplitAppend([], groups[0]);
      assert [] + groups[0] == groups[0];
    } else {
      SplitJoin(groups[..last]);
      SplitOneMore(Join(groups[..last]), groups[..last], groups[last]);
      assert groups == groups[..last] + [groups[last]];
    }
  }

  predicate AllDigits(g: CString) { forall i :: 0 <= i < |g| ==> IsDigit(g[i]) }

  /** The number a string of decimal digits writes. */
  function Value(g: CString): nat
    requires AllDigits(g)
  {
    if g == [] then 0 else 10 * Value(g[..|g| - 1]) + (g[|g| - 1] as int - '0' as int)
  }

  predicate IsOctet(g: CString) {
    1 <= |g| <= 3 && AllDigits(g) && Value(g) <= 255
  }

  /** Four groups of one to three decimal digits, each at most 255. */
  predicate IsDottedQuad(s: CString) {
    |Split(s)| == 4 && forall i :: 0 <= i < 4 ==> IsOctet(Split(s)[i])
  }

  /** Reading on only extends the last group or adds groups. */
  lemma {:induction false} SplitExtends(s: CString, i: nat)
    requires i <= |s|
    ensures var p, q := Split(s[..i]), Split(s);
      |p| <= |q| && p[..|p| - 1] == q[..|p| - 1] && p[|p| - 1] <= q[|p| - 1]
    decreases |s| - i
  {
    if i == |s| {
      assert s[..i] == s;
    } else {
      SplitExtends(s, i + 1);
      assert s[..i + 1][..i] == s[..i];
    }
  }

  /** A refused prefix refuses the whole text. */
  lemma BadPrefix(s: CString, i: nat)
    requires i <= |s|
    requires var p := Split(s[..i]);
      |p| > 4 || |p[|p| - 1]| > 3 || !AllDigits(p[|p| - 1])
    ensures !IsDottedQuad(s)
  {
    var p, q := Split(s[..i]), Split(s);
    var last := |p| - 1;
    SplitExtends(s, i);
    assert forall k :: 0 <= k < |p[last]| ==> p[last][k] == q[last][k];
  }

  /** What the scan has written at row j, column k once the groups read so far are p. */
  ghost function Cell(p: seq<CString>, j: nat, k: nat): CChar {
    if j < |p| && k < |p[j]| then p[j][k] else NUL
  }

  function Row(m: array2<CChar>, j: nat): CString
    requires m.Length0 == 4 && m.Length1 == 5 && j < 4
    reads m
  {
    [m[j, 0], m[j, 1], m[j, 2], m[j, 3], m[j, 4]]
  }

  function LeadingDigits(buf: CString): (d: CString)
    ensures AllDigits(d)
  {
    if buf == [] || !IsDigit(buf[0]) then [] else [buf[0]] + LeadingDigits(buf[1..])
  }

  /** atoi on a text that starts with a digit. */
  function Atoi(buf: CString): nat { Value(LeadingDigits(buf)) }

  lemma {:induction false} LeadingDigitsOfPadded(g: CString, rest: CString)
    requires AllDigits(g) && (rest == [] || !IsDigit(rest[0]))
    ensures LeadingDigits(g + rest) == g
  {
    if g == [] {
      assert g + rest == rest;
    } else {
      LeadingDigitsOfPadded(g[1..], rest);
      assert (g + rest)[1..] == g[1..] + rest;
    }
  }

  lemma AtoiOfRow(m: array2<CChar>, p: seq<CString>, j: nat)
    requires m.Length0 == 4 && m.Length1 == 5 && j < 4 && j < |p| && AllDigits(p[j]) && |p[j]| <= 3
    requires forall k :: 0 <= k < 5 ==> m[j, k] == Cell(p, j, k)
    ensures Atoi(Row(m, j)) == Value(p[j])
  {
    var g, row := p[j], Row(m, j);
    assert row[..|g|] == g;
    assert row == g + row[|g|..];
    LeadingDigitsOfPadded(g, row[|g|..]);
  }

  /** The buffer holds the groups p, none longer than three digits. */
  ghost predicate Holds(m: array2<CChar>, p: seq<CString>)
    requires m.Length0 == 4 && m.Length1 == 5
    reads m
  {
    && 1 <= |p| <= 4
    && (forall j :: 0 <= j < |p| ==> AllDigits(p[j]) && |p[j]| <= 3)
    && forall j, k :: 0 <= j < 4 && 0 <= k < 5 ==> m[j, k] == Cell(p, j, k)
  }

  /** Writing c after the last of the groups p. */
  method Put(m: array2<CChar>, ghost p: seq<CString>, dNum: nat, ipI: nat, c: CChar)
    requires m.Length0 == 4 && m.Length1 == 5 && Holds(m, p)
    requires dNum == |p| - 1 && ipI == |p[dNum]|
    modifies m
    ensures c == NUL ==> Holds(m, p)
    ensures IsDigit(c) && ipI < 3 ==> Holds(m, p[dNum := p[dNum] + [c]])
  {
    m[dNum, ipI] := c;
    ghost var q := p[dNum := p[dNum] + [c]];
    assert forall j, k :: 0 <= j < 4 && 0 <= k < 5 ==> m[j, k] == if j == dNum && k == ipI then c else Cell(p, j, k);
    assert forall j, k :: 0 <= j < 4 && 0 <= k < 5 && !(j == dNum && k == ipI) ==> Cell(q, j, k) == Cell(p, j, k);
  }

  lemma NextGroup(m: array2<CChar>, p: seq<CString>)
    requires m.Length0 == 4 && m.Length1 == 5 && Holds(m, p) && |p| < 4
    ensures Holds(m, p + [[]])
  {
    assert forall j, k :: 0 <= j < 4 && 0 <= k < 5 ==> Cell(p + [[]], j, k) == Cell(p, j, k);
  }

  lemma SplitNext(s: CString, i: nat)
    requires i < |s|
    ensures var p := Split(s[..i]);
      Split(s[..i + 1]) == if s[i] == DOT then p + [[]] else p[|p| - 1 := p[|p| - 1] + [s[i]]]
  {
    assert s[..i + 1][..i] == s[..i];
  }

  /** A fifth group, a fourth digit or any other character ends the scan with a refusal. */
  lemma Refused(s: CString, i: nat)
    requires i < |s|
    requires var p := Split(s[..i]); var g := p[|p| - 1];
      if s[i] == DOT then |p| >= 4 else if IsDigit(s[i]) then |g| >= 3 else true
    ensures !IsDottedQuad(s)
  {
    SplitNext(s, i);
    var p, q := Split(s[..i]), Split(s[..i + 1]);
    if s[i] != DOT {
      assert q[|p| - 1][|p[|p| - 1]|] == s[i];
    }
    BadPrefix(s, i + 1);
  }

  /** The buffer and the two counters describe the groups of the first i characters. */
  ghost predicate Scanned(m: array2<CChar>, s: CString, i: nat, dNum: nat, ipI: nat)
    requires m.Length0 == 4 && m.Length1 == 5 && i <= |s|
    reads m
  {
    var p := Split(s[..i]);
    Holds(m, p) && |p| == dNum + 1 && |p[dNum]| == ipI
  }

  /** The body of the first loop: read one character, or refuse the text. */
  method ScanChar(m: array2<CChar>, ghost s: CString, ghost i: nat, c: CChar, dNum0: nat, ipI0: nat)
      returns (ok: bool, dNum: nat, ipI: nat)
    requires m.Length0 == 4 && m.Length1 == 5
    requires i < |s| && s[i] == c && Scanned(m, s, i, dNum0, ipI0)
    modifies m
    ensures if ok then Scanned(m, s, i + 1, dNum, ipI) else !IsDottedQuad(s)
  {
    ok, dNum, ipI := true, dNum0, ipI0;
    ghost var p := Split(s[..i]);
    SplitNext(s, i);
    if c == '.' {
      Put(m, p, dNum, ipI, NUL);
      ipI := 0;
      dNum := dNum + 1;
      if dNum >= 4 {
        Refused(s, i);
        ok := false;
      } else {
        NextGroup(m, p);
      }
    } else if 0x30 <= c as int <= 0x39 {
      Put(m, p, dNum, ipI, c);
      ipI := ipI + 1;
      if ipI >= 4 {
        Refused(s, i);
        ok := false;
      }
    } else {
      Refused(s, i);
      ok := false;
    }
  }

  method IsStrIp(ip: array<CChar>) returns (r: int)
    requires NUL in ip[..]
    ensures r == if IsDottedQuad(Text(ip[..])) then 0 else -1
  {
    ghost var s := Text(ip[..]);
    var i, ipI, dNum := 0, 0, 0;
    var ipTmp := new CChar[4, 5]((_, _) => NUL);
    while ip[i] != NUL
      invariant 0 <= i <= |s| && ipI >= 0 && dNum >= 0
      invariant Scanned(ipTmp, s, i, dNum, ipI)
      decreases |s| - i
    {
      var ok;
      ok, dNum, ipI := ScanChar(ipTmp, s, i, ip[i], dNum, ipI);
      if !ok {
        return -1;
      }
      i := i + 1;
    }
    assert s[..i] == s;
    r := CheckGroups(ipTmp, Split(s));
  }

  /** The second loop of is_str_ip. */
  method CheckGroups(ipTmp: array2<CChar>, ghost p: seq<CString>) returns (r: int)
    requires ipTmp.Length0 == 4 && ipTmp.Length1 == 5 && Holds(ipTmp, p)
    ensures r == if |p| == 4 && (forall j :: 0 <= j < 4 ==> IsOctet(p[j])) then 0 else -1
  {
    var i := 0;
    while i < 4
      invariant 0 <= i <= 4
      invariant i <= |p| && forall j :: 0 <= j < i ==> IsOctet(p[j])
    {
      assert ipTmp[i, 0] == Cell(p, i, 0);
      if 0x30 <= ipTmp[i, 0] as int <= 0x39 {
        AtoiOfRow(ipTmp, p, i);
        var tmp := Atoi(Row(ipTmp, i));
        if tmp > 255 || tmp < 0 {
          return -1;
        }
      } else {
        return -1;
      }
      i := i + 1;
    }
    return 0;
  }

  /** The decimal digits of v, without leading zeros. */
  function Decimal(v: nat): (g: CString) {
    if v < 10 then [('0' as int + v) as char] else Decimal(v / 10) + [('0' as int + v % 10) as char]
  }

  lemma {:induction false} DecimalValue(v: nat)
    ensures AllDigits(Decimal(v)) && Value(Decimal(v)) == v && |Decimal(v)| >= 1
  {
    if v >= 10 {
      DecimalValue(v / 10);
      assert Decimal(v)[..|Decimal(v)| - 1] == Decimal(v / 10);
    }
  }

  /** The decimal printing of every four octets is accepted, and splits back into those octets. */
  lemma PrintedQuadAccepted(octets: seq<nat>)
    requires |octets| == 4 && forall i :: 0 <= i < 4 ==> octets[i] <= 255
    ensures var s := Join(seq(4, i requires 0 <= i < 4 => Decimal(octets[i])));
      IsDottedQuad(s) && forall i :: 0 <= i < 4 ==> Value(Split(s)[i]) == octets[i]
  {
    var groups := seq(4, i requires 0 <= i < 4 => Decimal(octets[i]));
    forall i | 0 <= i < 4
      ensures IsOctet(groups[i]) && Value(groups[i]) == octets[i] && DOT !in groups[i]
    {
      DecimalValue(octets[i]);
      ThreeDigits(octets[i]);
    }
    SplitJoin(groups);
  }

  lemma ThreeDigits(v: nat)
    requires v < 1000
    ensures |Decimal(v)| <= 3
  {
    assert v / 10 / 10 < 10;
    assert |Decimal(v / 10 / 10)| == 1;
    assert |Decimal(v / 10)| <= 2;
  }

  // ---------------------------------------------------------------- the accepted texts, once more

  /** Digit by digit: what one to three decimal digits write, and when that is an octet. */
  lemma OctetByPlaces(g: CString)
    requires forall i :: 0 <= i < |g| ==> 48 <= g[i] as int <= 57
    ensures |g| == 1 ==> IsOctet(g) && Value(g) == g[0] as int - 48
    ensures |g| == 2 ==> IsOctet(g) && Value(g) == 10 * (g[0] as int - 48) + (g[1] as int - 48)
    ensures |g| == 3 ==>
              && Value(g) == 100 * (g[0] as int - 48) + 10 * (g[1] as int - 48) + (g[2] as int - 48)
              && (IsOctet(g) <==> Value(g) <= 255)
  {
    assert |g| == 2 ==> g[..1][..0] == [];
    if |g| == 3 {
      assert g[..2][..1] == g[..1] && g[..1][..0] == [];
    }
  }

  /** n zeros. */
  function Zeros(n: nat): (z: CString)
    ensures |z| == n && AllDigits(z)
  {
    if n == 0 then [] else Zeros(n - 1) + ['0']
  }

  lemma {:induction false} ValueOfZeros(n: nat)
    ensures Value(Zeros(n)) == 0
  {
    if n > 0 {
      ValueOfZeros(n - 1);
      assert Zeros(n)[..n - 1] == Zeros(n - 1);
    }
  }

  /** Leading zeros do not change the value. */
  lemma {:induction false} ValueOfPadded(n: nat, g: CString)
    requires AllDigits(g)
    ensures AllDigits(Zeros(n) + g) && Value(Zeros(n) + g) == Value(g)
  {
    var p := Zeros(n) + g;
    if g == [] {
      assert p == Zeros(n);
      ValueOfZeros(n);
    } else {
      var k := |g| - 1;
      ValueOfPadded(n, g[..k]);
      assert p[..|p| - 1] == Zeros(n) + g[..k];
    }
  }

  /** Every string of digits is the decimal printing of its value behind some zeros. */
  lemma {:induction false} DigitsArePadded(g: CString) returns (n: nat)
    requires AllDigits(g) && g != []
    ensures g == Zeros(n) + Decimal(Value(g))
  {
    var k := |g| - 1;
    var front, d := g[..k], g[k] as int - '0' as int;
    assert g == front + [g[k]];
    if k == 0 {
      n := 0;
      assert front == [];
    } else {
      n := DigitsArePadded(front);
      var v := Value(front);
      if v == 0 {
        assert Decimal(0) == ['0'];
        assert front == Zeros(n + 1);
        n := n + 1;
      } else {
        assert (10 * v + d) / 10 == v && (10 * v + d) % 10 == d;
        assert Decimal(10 * v + d) == Decimal(v) + [g[k]];
      }
    }
  }

  /** Four numbers up to 255, each printed in decimal behind so many zeros that at most three digits result. */
  ghost predicate Prints(s: CString, octets: seq<nat>, zeros: seq<nat>) {
    && |octets| == |zeros| == 4
    && (forall i :: 0 <= i < 4 ==> octets[i] <= 255 && zeros[i] + |Decimal(octets[i])| <= 3)
    && s == Join(seq(4, i requires 0 <= i < 4 => Zeros(zeros[i]) + Decimal(octets[i])))
  }

  /** The accepted texts are exactly these printings. */
  lemma AcceptedIffPrinted(s: CString)
    ensures IsDottedQuad(s) <==> exists octets: seq<nat>, zeros: seq<nat> :: Prints(s, octets, zeros)
  {
    if octets: seq<nat>, zeros: seq<nat> :| Prints(s, octets, zeros) {
      PrintedIsAccepted(s, octets, zeros);
    }
    if IsDottedQuad(s) {
      var octets, zeros := AcceptedIsPrinted(s);
    }
  }

  lemma PrintedIsAccepted(s: CString, octets: seq<nat>, zeros: seq<nat>)
    requires Prints(s, octets, zeros)
    ensures IsDottedQuad(s) && forall i :: 0 <= i < 4 ==> Value(Split(s)[i]) == octets[i]
  {
    var groups := seq(4, i requires 0 <= i < 4 => Zeros(zeros[i]) + Decimal(octets[i]));
    forall i | 0 <= i < 4
      ensures IsOctet(groups[i]) && Value(groups[i]) == octets[i] && DOT !in groups[i]
    {
      DecimalValue(octets[i]);
      ValueOfPadded(zeros[i], Decimal(octets[i]));
    }
    SplitJoin(groups);
  }

  lemma PaddedOctet(g: CString) returns (n: nat)
    requires IsOctet(g)
    ensures g == Zeros(n) + Decimal(Value(g)) && n + |Decimal(Value(g))| <= 3
  {
    n := DigitsArePadded(g);
  }

  lemma {:induction false} Paddings(p: seq<CString>) returns (octets: seq<nat>, zeros: seq<nat>)
    requires forall i :: 0 <= i < |p| ==> IsOctet(p[i])
    ensures |octets| == |zeros| == |p|
    ensures forall i :: 0 <= i < |p| ==>
              && octets[i] <= 255 && zeros[i] + |Decimal(octets[i])| <= 3
              && p[i] == Zeros(zeros[i]) + Decimal(octets[i])
  {
    if p == [] {
      octets, zeros := [], [];
    } else {
      var k := |p| - 1;
      octets, zeros := Paddings(p[..k]);
      var n := PaddedOctet(p[k]);
      octets, zeros := octets + [Value(p[k])], zeros + [n];
    }
  }

  lemma AcceptedIsPrinted(s: CString) returns (octets: seq<nat>, zeros: seq<nat>)
    requires IsDottedQuad(s)
    ensures Prints(s, octets, zeros)
  {
    var p := Split(s);
    JoinSplit(s);
    octets, zeros := Paddings(p);
    SameGroups(p, octets, zeros);
  }

  lemma SameGroups(p: seq<CString>, octets: seq<nat>, zeros: seq<nat>)
    requires |p| == |octets| == |zeros| == 4
    requires forall i :: 0 <= i < 4 ==> p[i] == Zeros(zeros[i]) + Decimal(octets[i])
    ensures p == seq(4, i requires 0 <= i < 4 => Zeros(zeros[i]) + Decimal(octets[i]))
  {
  }
}

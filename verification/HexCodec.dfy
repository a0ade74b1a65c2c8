/** utils.c: str2bytes, bytes2strH, isxdigitstr and str2upper. */
module HexCodec {
  import opened Prelude
  import opened CText

  /** The base 16 alphabet, table 5 of RFC 4648. */
  const ALPHABET: seq<CChar> := "0123456789ABCDEF"

  /** What str2bytes adds for one character, before truncation to 8 bits. */
  function Nibble(c: CChar): int {
    if '0' <= c <= '9' then c as int - '0' as int else ToLower(c) as int - 'a' as int + 10
  }

  /** For a character that is no hexadecimal digit too: letters count on from 'a' or 'A'. */
  lemma NibbleOfAnyCharacter(c: CChar)
    ensures 48 <= c as int <= 57 ==> Nibble(c) == c as int - 48
    ensures 65 <= c as int <= 90 ==> Nibble(c) == c as int - 55
    ensures !(48 <= c as int <= 57 || 65 <= c as int <= 90) ==> Nibble(c) == c as int - 87
  {
  }

  /** The octet str2bytes stores for a pair of characters, valid digits or not. */
  function Pair(hi: CChar, lo: CChar): Byte {
    ((Nibble(hi) * 16 + Nibble(lo)) % 256) as Byte
  }

  function Decode(s: CString): (d: seq<Byte>)
    ensures |d| == |s| / 2
  {
    seq(|s| / 2, i requires 0 <= i < |s| / 2 => Pair(s[2 * i], s[2 * i + 1]))
  }

  /** RFC 4648, section 8: two characters for each octet, high half first. */
  function Encode(d: seq<Byte>): (s: CString)
    ensures |s| == 2 * |d|
  {
    seq(2 * |d|, i requires 0 <= i < 2 * |d| =>
      ALPHABET[if i % 2 == 0 then d[i / 2] as int / 16 else d[i / 2] as int % 16])
  }

  function Upper(s: CString): (u: CString)
    ensures |u| == |s|
  {
    seq(|s|, i requires 0 <= i < |s| => ToUpper(s[i]))
  }

  /** What isxdigitstr accepts. */
  predicate IsHexText(s: CString) {
    |s| % 2 == 0 && forall i :: 0 <= i < |s| ==> IsXdigit(s[i])
  }

  /** sprintf(dst, "%02X", b): two digits and a NUL. */
  method FormatByte(dst: array<CChar>, at: nat, b: Byte)
    requires at + 2 < dst.Length
    modifies dst
    ensures dst[..] == old(dst[..])[at := ALPHABET[b as int / 16]][at + 1 := ALPHABET[b as int % 16]][at + 2 := NUL]
  {
    var hi, lo := b as int / 16, b as int % 16;
    dst[at] := if hi < 10 then ('0' as int + hi) as char else ('A' as int + hi - 10) as char;
    dst[at + 1] := if lo < 10 then ('0' as int + lo) as char else ('A' as int + lo - 10) as char;
    dst[at + 2] := NUL;
    DigitChar(hi);
    DigitChar(lo);
  }

  lemma DigitChar(v: nat)
    requires v < 16
    ensures ALPHABET[v] == if v < 10 then ('0' as int + v) as char else ('A' as int + v - 10) as char
  {
  }

  /** The value of each alphabet character, and back; lower case letters count like upper case ones. */
  lemma NibbleOfDigit(v: nat)
    requires v < 16
    ensures IsXdigit(ALPHABET[v]) && Nibble(ALPHABET[v]) == v && ALPHABET[v] != NUL
  {
    DigitChar(v);
  }

  lemma DigitOfNibble(c: CChar)
    requires IsXdigit(c)
    ensures 0 <= Nibble(c) < 16 && ALPHABET[Nibble(c)] == ToUpper(c)
  {
    if 0 <= Nibble(c) < 16 {
      DigitChar(Nibble(c));
    }
  }

  /** bytes2strH: the encoding, then a NUL; nothing at all is written when there are no octets. */
  method Bytes2StrH(data: array<Byte>, dataLen: int, str: array<CChar>) returns (n: int)
    requires dataLen <= data.Length
    requires dataLen > 0 ==> 2 * dataLen < str.Length
    modifies str
    ensures dataLen <= 0 ==> n == 0 && str[..] == old(str[..])
    ensures dataLen > 0 ==> n == dataLen
    ensures dataLen > 0 ==> str[..2 * dataLen] == Encode(data[..dataLen]) && str[2 * dataLen] == NUL
    ensures dataLen > 0 ==> str[2 * dataLen + 1..] == old(str[2 * dataLen + 1..])
  {
    var i := 0;
    var at := 0;
    n := 0;
    while i < dataLen
      invariant 0 <= i && (dataLen > 0 ==> i <= dataLen) && n == i && at == 2 * i
      invariant dataLen <= 0 ==> i == 0
      invariant i == 0 ==> str[..] == old(str[..])
      invariant i > 0 ==> str[2 * i] == NUL
      invariant forall k :: 0 <= k < 2 * i ==> str[k] == Encode(data[..dataLen])[k]
      invariant i > 0 ==> forall k :: 2 * i < k < str.Length ==> str[k] == old(str[k])
      decreases dataLen - i
    {
      FormatByte(str, at, data[i]);
      at := at + 2;
      n := n + 1;
      i := i + 1;
    }
  }

  /** str2bytes: 0 and no write for an odd length or a small buffer, the decoded octets otherwise. */
  method Str2Bytes(str: array<CChar>, data: array<Byte>, dataLen: nat) returns (n: nat)
    requires NUL in str[..] && dataLen <= data.Length
    modifies data
    ensures var s := Text(str[..]);
      if |s| % 2 != 0 || dataLen < |s| / 2 then
        n == 0 && data[..] == old(data[..])
      else
        n == |s| / 2 && data[..n] == Decode(s) && data[n..] == old(data[n..])
  {
    n := 0;
    var len := StrLen(str);
    if len % 2 != 0 {
      return;
    }
    if dataLen < len / 2 {
      return;
    }
    ghost var s := Text(str[..]);
    var p := 0;
    for i := 0 to len / 2
      invariant n == i && p == 2 * i
      invariant forall k :: 0 <= k < i ==> data[k] == Decode(s)[k]
      invariant forall k :: i <= k < data.Length ==> data[k] == old(data[k])
    {
      assert str[p] == s[2 * i] && str[p + 1] == s[2 * i + 1];
      StoreNibble(data, i, 0, str[p]);
      data[i] := (data[i] as int * 16 % 256) as Byte;
      p := p + 1;
      StoreNibble(data, i, data[i], str[p]);
      Truncation(Nibble(s[2 * i]), Nibble(s[2 * i + 1]));
      p := p + 1;
      n := n + 1;
    }
  }

  /** One branch pair of str2bytes: data[i] becomes base plus the value of c, in 8 bits. */
  method StoreNibble(data: array<Byte>, i: nat, base: Byte, c: CChar)
    requires i < data.Length
    modifies data
    ensures data[..] == old(data[..])[i := ((base as int + Nibble(c)) % 256) as Byte]
  {
    if '0' <= c <= '9' {
      data[i] := ((base as int + (c as int - '0' as int)) % 256) as Byte;
    } else {
      data[i] := ((base as int + (ToLower(c) as int - 'a' as int + 10)) % 256) as Byte;
    }
  }

  /** Truncating after every step is truncating once. */
  lemma Truncation(hi: int, lo: int)
    ensures (hi % 256 * 16 % 256 + lo) % 256 == (hi * 16 + lo) % 256
  {
  }

  /** isxdigitstr. */
  method IsXdigitStr(str: array<CChar>) returns (ret: int)
    requires NUL in str[..]
    ensures ret == if IsHexText(Text(str[..])) then 1 else 0
  {
    ret := 1;
    var strLen := StrLen(str);
    if strLen % 2 != 0 {
      return 0;
    }
    ghost var s := Text(str[..]);
    var i := 0;
    while i < strLen
      invariant 0 <= i <= strLen && ret == 1
      invariant forall k :: 0 <= k < i ==> IsXdigit(s[k])
    {
      assert str[i] == s[i];
      if !IsXdigit(str[i]) {
        ret := 0;
        break;
      }
      i := i + 1;
    }
  }

  /** str2upper, in place. */
  method Str2Upper(str: array<CChar>)
    requires NUL in str[..]
    modifies str
    ensures NUL in str[..] && Text(str[..]) == Upper(old(Text(str[..])))
    ensures forall i :: |Text(str[..])| <= i < str.Length ==> str[i] == old(str[i])
  {
    ghost var len := Length(str[..]);
    ghost var s := Text(str[..]);
    var p := 0;
    while str[p] != NUL
      invariant 0 <= p <= len
      invariant forall k :: 0 <= k < p ==> str[k] == Upper(s)[k]
      invariant forall k :: p <= k < str.Length ==> str[k] == old(str[k])
      decreases len - p
    {
      str[p] := ToUpper(str[p]);
      p := p + 1;
    }
    TextOfPrefix(str[..], Upper(s));
  }

  /** The two digits of an octet denote it, and the octet two digits denote has those digits. */
  lemma PairOfDigits(b: Byte)
    ensures Pair(ALPHABET[b as int / 16], ALPHABET[b as int % 16]) == b
  {
    NibbleOfDigit(b as int / 16);
    NibbleOfDigit(b as int % 16);
  }

  lemma DigitsOfPair(hi: CChar, lo: CChar)
    requires IsXdigit(hi) && IsXdigit(lo)
    ensures ALPHABET[Pair(hi, lo) as int / 16] == ToUpper(hi)
    ensures ALPHABET[Pair(hi, lo) as int % 16] == ToUpper(lo)
  {
    HalvesOfPair(hi, lo);
    DigitOfNibble(hi);
    DigitOfNibble(lo);
  }

  lemma HalvesOfPair(hi: CChar, lo: CChar)
    requires IsXdigit(hi) && IsXdigit(lo)
    ensures Pair(hi, lo) as int / 16 == Nibble(hi) && Pair(hi, lo) as int % 16 == Nibble(lo)
  {
    NibbleIsSmall(hi);
    NibbleIsSmall(lo);
    Halves(Nibble(hi), Nibble(lo));
  }

  lemma NibbleIsSmall(c: CChar)
    requires IsXdigit(c)
    ensures 0 <= Nibble(c) < 16
  {
  }

  lemma EncodeAt(d: seq<Byte>, j: nat)
    requires j < |d|
    ensures Encode(d)[2 * j] == ALPHABET[d[j] as int / 16]
    ensures Encode(d)[2 * j + 1] == ALPHABET[d[j] as int % 16]
  {
    assert 2 * j / 2 == j && 2 * j % 2 == 0;
    assert (2 * j + 1) / 2 == j && (2 * j + 1) % 2 == 1;
  }

  /** Decoding what was encoded gives the octets back. */
  lemma DecodeEncode(d: seq<Byte>)
    ensures NUL !in Encode(d) && IsHexText(Encode(d)) && Decode(Encode(d)) == d
  {
    var s := Encode(d);
    forall i | 0 <= i < |s|
      ensures IsXdigit(s[i]) && s[i] != NUL
    {
      EncodedIsDigit(d, i);
    }
    forall j | 0 <= j < |d|
      ensures Decode(s)[j] == d[j]
    {
      EncodeAt(d, j);
      PairOfDigits(d[j]);
      assert Decode(s)[j] == Pair(s[2 * j], s[2 * j + 1]);
    }
  }

  lemma EncodedIsDigit(d: seq<Byte>, i: nat)
    requires i < 2 * |d|
    ensures IsXdigit(Encode(d)[i]) && Encode(d)[i] != NUL
  {
    EncodeAt(d, i / 2);
    NibbleOfDigit(d[i / 2] as int / 16);
    NibbleOfDigit(d[i / 2] as int % 16);
    assert i == 2 * (i / 2) || i == 2 * (i / 2) + 1;
  }

  /** The buffer bytes2strH leaves for at least one octet is one str2bytes turns back into the octets. */
  lemma EncodedBufferDecodes(buf: seq<CChar>, d: seq<Byte>)
    requires 2 * |d| < |buf| && buf[..2 * |d|] == Encode(d) && buf[2 * |d|] == NUL
    ensures NUL in buf && IsHexText(Text(buf)) && Decode(Text(buf)) == d
  {
    DecodeEncode(d);
    TextOfPrefix(buf, Encode(d));
  }

  /** Encoding what was decoded gives the text in upper case, for the accepted texts and no others. */
  lemma EncodeDecode(s: CString)
    ensures Encode(Decode(s)) == Upper(s) <==> IsHexText(s)
  {
    if IsHexText(s) {
      forall i | 0 <= i < |s|
        ensures Encode(Decode(s))[i] == Upper(s)[i]
      {
        EncodedCharacter(s, i);
      }
    } else if Encode(Decode(s)) == Upper(s) {
      DecodeEncode(Decode(s));
      UpperHex(s);
    }
  }

  lemma EncodedCharacter(s: CString, i: nat)
    requires IsHexText(s) && i < |s|
    ensures Encode(Decode(s))[i] == ToUpper(s[i])
  {
    var j := i / 2;
    assert i == 2 * j || i == 2 * j + 1;
    DecodedPair(s, j);
    EncodeAt(Decode(s), j);
  }

  lemma DecodedPair(s: CString, j: nat)
    requires IsHexText(s) && 2 * j + 1 < |s|
    ensures j < |Decode(s)|
    ensures ALPHABET[Decode(s)[j] as int / 16] == ToUpper(s[2 * j])
    ensures ALPHABET[Decode(s)[j] as int % 16] == ToUpper(s[2 * j + 1])
  {
    DigitsOfPair(s[2 * j], s[2 * j + 1]);
    assert Decode(s)[j] == Pair(s[2 * j], s[2 * j + 1]);
  }

  lemma Halves(hi: nat, lo: nat)
    requires hi < 16 && lo < 16
    ensures (hi * 16 + lo) % 256 == hi * 16 + lo
    ensures (hi * 16 + lo) / 16 == hi && (hi * 16 + lo) % 16 == lo
  {
  }

  lemma UpperHex(s: CString)
    ensures IsHexText(Upper(s)) <==> IsHexText(s)
  {
    forall i | 0 <= i < |s|
      ensures IsXdigit(Upper(s)[i]) <==> IsXdigit(s[i])
    {
    }
    assert IsHexText(Upper(s)) ==> forall i :: 0 <= i < |s| ==> IsXdigit(Upper(s)[i]);
  }
}

/** NUL-terminated character buffers, as the functions of utils.c read them. */
module CText {

  /** One 8-bit C character. */
  type CChar = c: char | c as int < 256

  type CString = seq<CChar>

  const NUL: CChar := '\0'

  /** The position of the first NUL: what strlen returns. */
  function Length(buf: seq<CChar>): (n: nat)
    requires NUL in buf
    ensures n < |buf| && buf[n] == NUL
    ensures forall i :: 0 <= i < n ==> buf[i] != NUL
  {
    if buf[0] == NUL then 0 else 1 + Length(buf[1..])
  }

  /** The characters before the first NUL. */
  function Text(buf: seq<CChar>): (s: CString)
    requires NUL in buf
    ensures NUL !in s && |s| < |buf|
  {
    buf[..Length(buf)]
  }

  /** A buffer that starts with s and a NUL holds the text s. */
  lemma TextOfPrefix(buf: seq<CChar>, s: CString)
    requires NUL !in s && |s| < |buf| && buf[..|s|] == s && buf[|s|] == NUL
    ensures NUL in buf && Text(buf) == s
  {
    assert forall i :: 0 <= i < |s| ==> buf[i] == s[i];
    assert Length(buf) == |s|;
  }

  method StrLen(str: array<CChar>) returns (n: nat)
    requires NUL in str[..]
    ensures n == |Text(str[..])| < str.Length
  {
    n := 0;
    while str[n] != NUL
      invariant n <= Length(str[..])
      decreases str.Length - n
    {
      n := n + 1;
    }
  }

  predicate IsDigit(c: CChar) { '0' <= c <= '9' }

  /** isxdigit in the C locale. */
  predicate IsXdigit(c: CChar) { IsDigit(c) || 'a' <= c <= 'f' || 'A' <= c <= 'F' }

  /** tolower in the C locale. */
  function ToLower(c: CChar): CChar {
    if 'A' <= c <= 'Z' then (c as int + 32) as char else c
  }

  /** toupper in the C locale. */
  function ToUpper(c: CChar): (u: CChar)
    ensures u == NUL <==> c == NUL
  {
    if 'a' <= c <= 'z' then (c as int - 32) as char else c
  }

  /** The 26 letters of one case go, in order, to those of the other; nothing else changes. */
  lemma CasesOfCharacters(c: CChar)
    ensures 97 <= c as int <= 122 ==> ToUpper(c) as int == 65 + (c as int - 97)
    ensures 65 <= c as int <= 90 ==> ToLower(c) as int == 97 + (c as int - 65)
    ensures !(97 <= c as int <= 122) ==> ToUpper(c) == c
    ensures !(65 <= c as int <= 90) ==> ToLower(c) == c
  {
  }

  /** The two conversions undo each other on letters. */
  lemma CasesUndo(c: CChar)
    ensures ToLower(ToUpper(c)) == ToLower(c) && ToUpper(ToLower(c)) == ToUpper(c)
  {
  }
}

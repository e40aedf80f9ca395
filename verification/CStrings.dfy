/** NUL-terminated strings and the character classes of lib/ctype.c. */
module CStrings {
  /** The character at position i of a string stored with its terminating NUL. */
  function Peek(s: string, i: nat): char
    requires i <= |s|
  {
    if i < |s| then s[i] else '\0'
  }

  predicate IsSpace(c: char) {
    '\t' <= c <= '\r' || c == ' '
  }

  predicate IsDecimal(c: char) {
    '0' <= c <= '9'
  }

  predicate IsUpper(c: char) {
    'A' <= c <= 'Z'
  }

  predicate IsLower(c: char) {
    'a' <= c <= 'z'
  }

  /** Value of a letter or digit in bases up to 36; -1 for any other character. */
  function DigitValue(c: char): int {
    if IsDecimal(c) then c as int - '0' as int
    else if IsUpper(c) then c as int - 'A' as int + 10
    else if IsLower(c) then c as int - 'a' as int + 10
    else -1
  }

  predicate IsDigitIn(c: char, base: nat) {
    0 <= DigitValue(c) < base
  }

  predicate AllDigits(t: string, base: nat) {
    forall i :: 0 <= i < |t| ==> IsDigitIn(t[i], base)
  }

  /** Positional value of a digit string, most significant digit first. */
  function ValueOf(t: string, base: nat): (v: nat)
    requires AllDigits(t, base)
  {
    if t == "" then 0
    else
      assert IsDigitIn(t[|t|-1], base);
      ValueOf(t[..|t|-1], base) * base + DigitValue(t[|t|-1])
  }

  lemma ValueOfAppend(t: string, c: char, base: nat)
    requires AllDigits(t, base) && IsDigitIn(c, base)
    ensures AllDigits(t + [c], base)
    ensures ValueOf(t + [c], base) == ValueOf(t, base) * base + DigitValue(c)
  {
    assert (t + [c])[..|t|] == t;
  }

  function Repeat(c: char, n: int): (t: string)
    ensures |t| == (if n < 0 then 0 else n)
    ensures forall i :: 0 <= i < |t| ==> t[i] == c
  {
    if n <= 0 then "" else Repeat(c, n - 1) + [c]
  }

  const SMALL := "0123456789abcdefghijklmnopqrstuvwxyz"
  const CAPITALS := "0123456789ABCDEFGHIJKLMNOPQRSTUVWXYZ"

  /** White space is blank, tab, newline, vertical tab, form feed and carriage return. */
  lemma WhiteSpace(c: char)
    ensures IsSpace(c) <==> c in {' ', '\t', '\n', 11 as char, 12 as char, '\r'}
  {
  }

  lemma PlaceOfLetter(v: nat)
    requires v < 36
    ensures SMALL[v] == if v < 10 then (48 + v) as char else (87 + v) as char
    ensures CAPITALS[v] == if v < 10 then (48 + v) as char else (55 + v) as char
  {
  }

  /** The digits up to base 36 go on with the letters, in either case. */
  lemma DigitCharacters(c: char, v: nat)
    requires v < 36
    ensures DigitValue(c) == v <==> c == SMALL[v] || c == CAPITALS[v]
    ensures DigitValue(c) < 36 && (DigitValue(c) < 0 <==> DigitValue(c) == -1)
  {
    PlaceOfLetter(v);
  }
}

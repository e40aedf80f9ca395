/** lib/strtoul.c and lib/strtoull.c, and the conversion that section 7.20.1.4 of
    ISO/IEC 9899:1999 asks for. */
module Strtoul {
  import opened Machine
  import opened CStrings

  /** What a call returns, where it leaves `*endptr` (as a position in the string), and whether
      it sets errno to ERANGE.  Otherwise errno is left alone. */
  datatype Outcome = Outcome(value: nat, end: nat, erange: bool)

  /** First position from i on that is not white space. */
  function SkipSpace(s: string, i: nat): (w: nat)
    requires i <= |s|
    ensures i <= w <= |s|
    ensures forall k :: i <= k < w ==> IsSpace(s[k])
    ensures w < |s| ==> !IsSpace(s[w])
    decreases |s| - i
  {
    if i < |s| && IsSpace(s[i]) then SkipSpace(s, i + 1) else i
  }

  /** End of the longest run of digits of `base` that starts at i. */
  function RunEnd(s: string, i: nat, base: nat): (r: nat)
    requires i <= |s|
    ensures i <= r <= |s|
    ensures AllDigits(s[i..r], base)
    ensures r < |s| ==> !IsDigitIn(s[r], base)
    decreases |s| - i
  {
    if i < |s| && IsDigitIn(s[i], base) then
      var r := RunEnd(s, i + 1, base);
      assert s[i..r] == [s[i]] + s[i + 1..r];
      r
    else i
  }

  predicate IsSign(c: char) {
    c == '+' || c == '-'
  }

  predicate HexPrefix(s: string, d: nat, base: nat)
    requires d <= |s|
  {
    (base == 0 || base == 16) && Peek(s, d) == '0' && (Peek(s, d + 1) == 'x' || Peek(s, d + 1) == 'X')
  }

  function EffectiveBase(s: string, d: nat, base: nat): nat
    requires d <= |s|
  {
    if HexPrefix(s, d, base) then 16
    else if base == 0 then (if Peek(s, d) == '0' then 8 else 10)
    else base
  }

  /** Where the digits start, given where the text after the sign starts. */
  function DigitsStart(s: string, d: nat, base: nat): (p: nat)
    requires d <= |s|
    ensures d <= p <= |s|
  {
    if HexPrefix(s, d, base) then d + 2 else d
  }

  function SignEnd(s: string, w: nat): (d: nat)
    requires w <= |s|
    ensures w <= d <= |s|
  {
    if IsSign(Peek(s, w)) then w + 1 else w
  }

  /** The value of magnitude v in a word whose largest value is max: saturated when too large,
      otherwise negated modulo the word size after a minus sign. */
  function InWord(v: nat, neg: bool, end: nat, max: nat): Outcome {
    if v > max then Outcome(max, end, true)
    else if neg then Outcome((max + 1 - v) % (max + 1), end, false)
    else Outcome(v, end, false)
  }

  /** What the code computes. */
  function Parse(s: string, base: nat, max: nat): Outcome {
    var w := SkipSpace(s, 0);
    var d := SignEnd(s, w);
    var b := EffectiveBase(s, d, base);
    var p := DigitsStart(s, d, base);
    var r := RunEnd(s, p, b);
    if r == p then Outcome(0, 0, false)
    else InWord(ValueOf(s[p..r], b), Peek(s, w) == '-', r, max)
  }

  /** The test against cutoff and cutlim is exactly the overflow test. */
  lemma CutoffIsOverflow(acc: nat, c: nat, base: nat, max: nat)
    requires base > 0 && c < base
    ensures (acc > max / base || (acc == max / base && c > max % base)) <==> acc * base + c > max
  {
    var q, r := max / base, max % base;
    assert max == q * base + r;
    if acc > q {
      assert acc * base >= (q + 1) * base == q * base + base;
    } else if acc < q {
      assert (acc + 1) * base <= q * base;
      assert (acc + 1) * base == acc * base + base;
    }
  }

  /** The state of the digit loop after the digits t: `any` is 0 before the first digit, positive
      while the value fits, negative once it does not. */
  ghost predicate Accumulated(t: string, base: nat, max: nat, any: int, acc: nat) {
    && AllDigits(t, base)
    && (any == 0 <==> t == "")
    && (any == 0 ==> acc == 0)
    && (any > 0 ==> acc == ValueOf(t, base) <= max)
    && (any < 0 ==> acc == max < ValueOf(t, base))
  }

  lemma NothingAccumulated(base: nat, max: nat)
    ensures Accumulated("", base, max, 0, 0)
  {
  }

  function Cutoff(base: nat, max: nat): nat
    requires base > 0
  {
    max / base
  }

  function Cutlim(base: nat, max: nat): nat
    requires base > 0
  {
    max % base
  }

  function Scaled(acc: nat, base: nat, digit: nat): nat {
    acc * base + digit
  }

  /** One round of the digit loop. */
  lemma AccumulateDigit(t: string, c: char, base: nat, max: nat, any: int, acc: nat)
    requires base > 0 && Accumulated(t, base, max, any, acc) && IsDigitIn(c, base)
    ensures any < 0 ==> Accumulated(t + [c], base, max, any, acc)
    ensures any >= 0 ==>
      if acc > Cutoff(base, max) || (acc == Cutoff(base, max) && DigitValue(c) > Cutlim(base, max))
      then Accumulated(t + [c], base, max, -1, max)
      else Scaled(acc, base, DigitValue(c)) <= max && Accumulated(t + [c], base, max, 1, Scaled(acc, base, DigitValue(c)))
  {
    var v := ValueOf(t, base);
    ValueOfAppend(t, c, base);
    CutoffIsOverflow(acc, DigitValue(c), base, max);
    if any < 0 {
      ScalingGrows(v, base);
    }
  }

  lemma ScalingGrows(v: nat, base: nat)
    requires base > 0
    ensures v * base >= v
  {
  }

  /** After the loop the code returns what `Parse` says. */
  lemma DigitsDone(s: string, base0: nat, max: nat, p: nat, neg: bool, any: int, acc: nat)
    requires var w := SkipSpace(s, 0);
      var d := SignEnd(s, w);
      var start := DigitsStart(s, d, base0);
      var base := EffectiveBase(s, d, base0);
      && neg == (Peek(s, w) == '-')
      && start <= p <= |s| && !IsDigitIn(Peek(s, p), base) && base > 0
      && Accumulated(s[start..p], base, max, any, acc)
    ensures any != 0 ==> acc <= max
    ensures Parse(s, base0, max) ==
      Outcome(if neg && any > 0 then (max + 1 - acc) % (max + 1) else acc, if any != 0 then p else 0, any < 0)
  {
    hide SkipSpace, SignEnd, DigitsStart, EffectiveBase, ValueOf, RunEnd;
    var d := SignEnd(s, SkipSpace(s, 0));
    RunEndIs(s, DigitsStart(s, d, base0), p, EffectiveBase(s, d, base0));
  }

  /** unsigned long strtoul(str, endptr, base) */
  method Strtoul(str: string, base0: nat) returns (out: Outcome)
    ensures out == Parse(str, base0, UINT32_MAX)
  {
    hide Accumulated, ValueOf, Parse, RunEnd, SkipSpace, AllDigits, Cutoff, Cutlim, Scaled;
    var p: nat, neg, base: nat := ReadPrefix(str, base0);
    var start := p;
    var c := Peek(str, p);
    var cutoff, cutlim := Cutoff(base, UINT32_MAX), Cutlim(base, UINT32_MAX);
    var acc: uint32, any := 0, 0;
    NothingAccumulated(base, UINT32_MAX);
    assert str[start..p] == "";
    while IsDigitIn(c, base)
      invariant start <= p <= |str| && c == Peek(str, p)
      invariant Accumulated(str[start..p], base, UINT32_MAX, any, acc)
      decreases |str| - p
    {
      var digit: nat := DigitValue(c);
      AccumulateDigit(str[start..p], c, base, UINT32_MAX, any, acc);
      assert str[start..p] + [c] == str[start..p + 1];
      if any >= 0 {
        if acc > cutoff || (acc == cutoff && digit > cutlim) {
          any, acc := -1, UINT32_MAX;
        } else {
          any, acc := 1, Scaled(acc, base, digit);
        }
      }
      p := p + 1;
      c := Peek(str, p);
    }
    DigitsDone(str, base0, UINT32_MAX, p, neg, any, acc);
    if neg && any > 0 {
      acc := (0x1_0000_0000 - acc) % 0x1_0000_0000;
    }
    out := Outcome(acc, if any != 0 then p else 0, any < 0);
  }

  /** unsigned long long strtoull(str, endptr, base): the cutoffs are constants, given for the
      bases 8, 10 and 16 only. */
  method Strtoull(str: string, base0: nat) returns (out: Outcome)
    requires base0 in {0, 8, 10, 16}
    ensures out == Parse(str, base0, UINT64_MAX)
  {
    hide Accumulated, ValueOf, Parse, RunEnd, SkipSpace, AllDigits, Cutoff, Cutlim, Scaled, EffectiveBase, DigitsStart, SignEnd;
    KnownBase(str, SignEnd(str, SkipSpace(str, 0)), base0);
    var p: nat, neg, base: nat := ReadPrefix(str, base0);
    var start := p;
    var c := Peek(str, p);
    var cutoff: uint64, cutlim := 0x0fff_ffff_ffff_ffff, 0xf;
    if base == 8 {
      cutoff, cutlim := 0x1fff_ffff_ffff_ffff, 7;
    } else if base == 10 {
      cutoff, cutlim := 0x1999_9999_9999_9999, 5;
    }
    CutoffConstants();
    var acc: uint64, any := 0, 0;
    NothingAccumulated(base, UINT64_MAX);
    assert str[start..p] == "";
    while IsDigitIn(c, base)
      invariant start <= p <= |str| && c == Peek(str, p)
      invariant Accumulated(str[start..p], base, UINT64_MAX, any, acc)
      decreases |str| - p
    {
      var digit: nat := DigitValue(c);
      AccumulateDigit(str[start..p], c, base, UINT64_MAX, any, acc);
      assert str[start..p] + [c] == str[start..p + 1];
      if any >= 0 {
        if acc > cutoff || (acc == cutoff && digit > cutlim) {
          any, acc := -1, UINT64_MAX;
        } else {
          any, acc := 1, Scaled(acc, base, digit);
        }
      }
      p := p + 1;
      c := Peek(str, p);
    }
    DigitsDone(str, base0, UINT64_MAX, p, neg, any, acc);
    if neg && any > 0 {
      acc := (0x1_0000_0000_0000_0000 - acc) % 0x1_0000_0000_0000_0000;
    }
    out := Outcome(acc, if any != 0 then p else 0, any < 0);
  }

  lemma CutoffConstants()
    ensures Cutoff(8, UINT64_MAX) == 0x1fff_ffff_ffff_ffff && Cutlim(8, UINT64_MAX) == 7
    ensures Cutoff(10, UINT64_MAX) == 0x1999_9999_9999_9999 && Cutlim(10, UINT64_MAX) == 5
    ensures Cutoff(16, UINT64_MAX) == 0x0fff_ffff_ffff_ffff && Cutlim(16, UINT64_MAX) == 0xf
  {
  }

  lemma KnownBase(s: string, d: nat, base: nat)
    requires d <= |s| && base in {0, 8, 10, 16}
    ensures EffectiveBase(s, d, base) in {8, 10, 16}
  {
  }

  /** White space, sign and base prefix, read the same way by both functions. */
  method ReadPrefix(str: string, base0: nat) returns (p: nat, neg: bool, base: nat)
    ensures var w := SkipSpace(str, 0);
      var d := SignEnd(str, w);
      p == DigitsStart(str, d, base0) && neg == (Peek(str, w) == '-') && base == EffectiveBase(str, d, base0)
    ensures p <= |str| && base > 0
  {
    p := 0;
    while IsSpace(Peek(str, p))
      invariant p <= |str| && SkipSpace(str, p) == SkipSpace(str, 0)
      decreases |str| - p
    {
      p := p + 1;
    }
    neg := false;
    if Peek(str, p) == '-' {
      neg := true;
      p := p + 1;
    } else if Peek(str, p) == '+' {
      p := p + 1;
    }
    base := base0;
    if (base == 0 || base == 16) && Peek(str, p) == '0' && (Peek(str, p + 1) == 'x' || Peek(str, p + 1) == 'X') {
      p := p + 2;
      base := 16;
    }
    if base == 0 {
      base := if Peek(str, p) == '0' then 8 else 10;
    }
  }

  lemma {:induction false} RunEndIs(s: string, i: nat, r: nat, base: nat)
    requires i <= r <= |s| && AllDigits(s[i..r], base) && (r < |s| ==> !IsDigitIn(s[r], base))
    ensures RunEnd(s, i, base) == r
    decreases r - i
  {
    if i < r {
      assert s[i..r][0] == s[i];
      assert s[i + 1..r] == s[i..r][1..];
      RunEndIs(s, i + 1, r, base);
    }
  }

  // ---------- the standard's definition ----------

  function Unsigned(t: string): string {
    if t != "" && IsSign(t[0]) then t[1..] else t
  }

  predicate IsHexLiteral(u: string) {
    |u| > 2 && u[0] == '0' && (u[1] == 'x' || u[1] == 'X') && AllDigits(u[2..], 16)
  }

  /** What may follow the sign: at least one digit of the base, with an optional hexadecimal prefix
      for base 16; for base 0 a decimal, octal or hexadecimal constant. */
  predicate IsConstant(u: string, base: nat) {
    || (base != 0 && u != "" && AllDigits(u, base))
    || ((base == 0 || base == 16) && IsHexLiteral(u))
    || (base == 0 && u != "" && AllDigits(u, if u[0] == '0' then 8 else 10))
  }

  /** A text of the form the standard expects. */
  predicate IsSubject(t: string, base: nat) {
    IsConstant(Unsigned(t), base)
  }

  /** s[w..e] is the longest subject text that starts at w. */
  ghost predicate IsLongestSubject(s: string, base: nat, w: nat, e: nat) {
    && w < e <= |s| && IsSubject(s[w..e], base)
    && forall e' :: e < e' <= |s| ==> !IsSubject(s[w..e'], base)
  }

  /** Value of a subject text. */
  function SubjectOutcome(t: string, base: nat, max: nat, end: nat): Outcome
    requires IsSubject(t, base)
  {
    var u := Unsigned(t);
    var neg := t != "" && t[0] == '-';
    if (base == 0 || base == 16) && IsHexLiteral(u) then InWord(ValueOf(u[2..], 16), neg, end, max)
    else if base == 0 then InWord(ValueOf(u, if u[0] == '0' then 8 else 10), neg, end, max)
    else InWord(ValueOf(u, base), neg, end, max)
  }

  /** A magnitude that fits is the value, or after a minus sign what it takes to reach the word size; one that
      does not fit gives the largest value and a range error. */
  lemma ValueInWord(v: nat, neg: bool, end: nat, max: nat)
    ensures var o := InWord(v, neg, end, max);
      && o.end == end && o.value <= max && (o.erange <==> v > max)
      && (v > max ==> o.value == max)
      && (v <= max && !neg ==> o.value == v)
      && (v <= max && neg ==> o.value + v == if v == 0 then 0 else max + 1)
  {
  }

  /** The standard's result: the value of the longest subject text that starts at the first
      non-space character, or no conversion when there is none. */
  ghost predicate Conforms(s: string, base: nat, max: nat, out: Outcome) {
    var w := SkipSpace(s, 0);
    if exists e :: w < e <= |s| && IsSubject(s[w..e], base) then
      && IsLongestSubject(s, base, w, out.end)
      && out == SubjectOutcome(s[w..out.end], base, max, out.end)
    else
      out == Outcome(0, 0, false)
  }

  /** The text after the sign is a hexadecimal prefix that no hexadecimal digit follows. */
  predicate BarePrefix(s: string, base: nat) {
    var d := SignEnd(s, SkipSpace(s, 0));
    HexPrefix(s, d, base) && !IsDigitIn(Peek(s, d + 2), 16)
  }

  lemma UnsignedSlice(s: string, w: nat, e: nat)
    requires w < e <= |s|
    ensures Unsigned(s[w..e]) == s[SignEnd(s, w)..e]
  {
  }

  lemma DigitsUpTo(s: string, i: nat, e: nat, base: nat)
    requires i <= e <= |s|
    ensures AllDigits(s[i..e], base) <==> e <= RunEnd(s, i, base)
  {
    var r := RunEnd(s, i, base);
    if e <= r {
      forall k | 0 <= k < e - i ensures IsDigitIn(s[i..e][k], base) {
        assert s[i..e][k] == s[i..r][k];
      }
    } else {
      assert s[i..e][r - i] == s[r];
    }
  }

  /** Without a prefix the constants that start at d are exactly the non-empty digit runs. */
  lemma PlainConstants(s: string, base: nat, d: nat, e: nat)
    requires d <= e <= |s| && !HexPrefix(s, d, base)
    ensures IsConstant(s[d..e], base) <==> d < e <= RunEnd(s, d, EffectiveBase(s, d, base))
    ensures d < e ==> !((base == 0 || base == 16) && IsHexLiteral(s[d..e]))
  {
    DigitsUpTo(s, d, e, EffectiveBase(s, d, base));
  }

  /** With a prefix they are the "0" alone and the prefix with a digit run. */
  lemma PrefixedConstants(s: string, base: nat, d: nat, e: nat)
    requires d <= e <= |s| && HexPrefix(s, d, base)
    ensures IsConstant(s[d..e], base) <==> e == d + 1 || d + 2 < e <= RunEnd(s, d + 2, 16)
    ensures e > d + 2 ==> (IsHexLiteral(s[d..e]) <==> e <= RunEnd(s, d + 2, 16))
  {
    var u := s[d..e];
    if e >= d + 2 {
      assert u[1] == s[d + 1] && !IsDigitIn(u[1], 16);
      assert u[2..] == s[d + 2..e];
      DigitsUpTo(s, d + 2, e, 16);
    }
  }

  lemma PlainConforms(s: string, base: nat, max: nat)
    requires !HexPrefix(s, SignEnd(s, SkipSpace(s, 0)), base)
    ensures Conforms(s, base, max, Parse(s, base, max))
  {
    hide IsHexLiteral, IsConstant, Unsigned, AllDigits, ValueOf, RunEnd, SkipSpace;
    var w := SkipSpace(s, 0);
    var d := SignEnd(s, w);
    var b := EffectiveBase(s, d, base);
    var r := RunEnd(s, d, b);
    forall e | w < e <= |s|
      ensures d <= e && (IsSubject(s[w..e], base) <==> d < e <= r)
    {
      UnsignedSlice(s, w, e);
      PlainConstants(s, base, d, e);
    }
    if r > d {
      assert w < r <= |s| && IsSubject(s[w..r], base);
      assert IsLongestSubject(s, base, w, r);
      UnsignedSlice(s, w, r);
      PlainConstants(s, base, d, r);
    }
  }

  lemma PrefixedConforms(s: string, base: nat, max: nat)
    requires HexPrefix(s, SignEnd(s, SkipSpace(s, 0)), base)
    ensures Conforms(s, base, max, Parse(s, base, max)) <==> !BarePrefix(s, base)
  {
    hide IsHexLiteral, IsConstant, Unsigned, AllDigits, ValueOf, SkipSpace;
    var w := SkipSpace(s, 0);
    var d := SignEnd(s, w);
    var r := RunEnd(s, d + 2, 16);
    forall e | w < e <= |s|
      ensures d <= e && (IsSubject(s[w..e], base) <==> e == d + 1 || d + 2 < e <= r)
    {
      UnsignedSlice(s, w, e);
      PrefixedConstants(s, base, d, e);
    }
    assert w < d + 1 <= |s| && IsSubject(s[w..d + 1], base);
    if r > d + 2 {
      assert IsLongestSubject(s, base, w, r);
      UnsignedSlice(s, w, r);
      PrefixedConstants(s, base, d, r);
      assert s[d..r][2..] == s[d + 2..r];
    }
  }

  /** The code conforms to the standard on exactly the texts that do not have a bare prefix. */
  lemma ConformsUnlessBarePrefix(s: string, base: nat, max: nat)
    requires base == 0 || 2 <= base <= 36
    ensures Conforms(s, base, max, Parse(s, base, max)) <==> !BarePrefix(s, base)
  {
    if HexPrefix(s, SignEnd(s, SkipSpace(s, 0)), base) {
      PrefixedConforms(s, base, max);
    } else {
      PlainConforms(s, base, max);
    }
  }

  /** "0x" has the subject text "0", but nothing is converted. */
  lemma BarePrefixConvertsNothing()
    ensures Parse("0x", 16, UINT32_MAX) == Outcome(0, 0, false)
    ensures !Conforms("0x", 16, UINT32_MAX, Parse("0x", 16, UINT32_MAX))
  {
    hide Conforms;
    ConformsUnlessBarePrefix("0x", 16, UINT32_MAX);
  }
}

/** What the formatter of lib/doprntx.c prints for the parts of a format given by their characters. */
module PrintLayout {
  import opened Machine
  import opened CStrings
  import opened Printf
  import opened PrintParse
  import opened PrintDeparts

  // ---------- text outside conversions ----------

  /** Each newline as carriage return and line feed. */
  function WithReturns(t: string): string {
    if t == "" then "" else (if t[0] == '\n' then "\r\n" else [t[0]]) + WithReturns(t[1..])
  }

  /** Text without a '%' prints itself, with its newlines as carriage return and line feed. */
  lemma {:induction false} PlainText(fmt: string, i: nat, j: nat, args: Args, used: nat, strs: Strings, upper: bool, count: nat)
    requires i <= j <= |fmt| && forall k :: i <= k < j ==> fmt[k] != '%' && fmt[k] != '\0'
    ensures var t := WithReturns(fmt[i..j]);
      Render(fmt, i, args, used, strs, upper, count) == Then(t, [], Render(fmt, j, args, used, strs, upper, count + |t|))
    decreases j - i
  {
    hide Render, Gather, Convert;
    if i == j {
      assert "" + Render(fmt, j, args, used, strs, upper, count).text == Render(fmt, j, args, used, strs, upper, count).text;
    } else {
      var t, rest := Literal(fmt[i]), WithReturns(fmt[i + 1..j]);
      RenderStep(fmt, i, args, used, strs, upper, count);
      PlainText(fmt, i + 1, j, args, used, strs, upper, count + |t|);
      assert fmt[i..j][1..] == fmt[i + 1..j];
      var r := Render(fmt, j, args, used, strs, upper, count + |t| + |rest|);
      assert t + (rest + r.text) == (t + rest) + r.text;
    }
  }

  /** A format without a '%' is printed as it is. */
  lemma NoConversion(fmt: string, args: Args, strs: Strings)
    requires forall k :: 0 <= k < |fmt| ==> fmt[k] != '%' && fmt[k] != '\0'
    ensures Render(fmt, 0, args, 0, strs, false, 0) == Rendered(WithReturns(fmt), [])
  {
    hide Render, Gather, Convert, WithReturns;
    PlainText(fmt, 0, |fmt|, args, 0, strs, false, 0);
    RenderStep(fmt, |fmt|, args, 0, strs, false, |WithReturns(fmt)|);
    assert fmt[0..|fmt|] == fmt && WithReturns(fmt) + "" == WithReturns(fmt);
  }

  // ---------- flags, width and precision ----------

  predicate StandsAt(fmt: string, i: nat, t: string) {
    i + |t| <= |fmt| && forall k :: 0 <= k < |t| ==> fmt[i + k] == t[k]
  }

  predicate AreFlags(f: string) {
    forall k :: 0 <= k < |f| ==> f[k] in " #-+0hlL"
  }

  /** The specification with more flags: each counts wherever it stands, and '+' outdoes a blank. */
  function WithFlags(sp: Spec, f: string): Spec {
    Spec(sp.alt || '#' in f, sp.ladjust || '-' in f, sp.zeropad || '0' in f, sp.short || 'h' in f, sp.long || 'l' in f,
         sp.width, sp.prec, if '+' in f then '+' else if sp.sign == '\0' && ' ' in f then ' ' else sp.sign)
  }

  lemma {:induction false} FlagsTaken(fmt: string, i: nat, f: string, args: Args, used: nat, sp: Spec)
    requires AreFlags(f) && StandsAt(fmt, i, f)
    ensures Gather(fmt, i, args, used, sp) == Gather(fmt, i + |f|, args, used, WithFlags(sp, f))
    decreases |f|
  {
    hide Gather, FlagStep, WithFlags;
    NoFlags(sp);
    if f != "" {
      assert fmt[i + 0] == f[0] && f[0] in " #-+0hlL";
      GatherStep(fmt, i, args, used, sp);
      OneFlag(fmt, i, args, used, sp);
      FlagsTaken(fmt, i + 1, f[1..], args, used, WithFlags(sp, [f[0]]));
      assert [f[0]] + f[1..] == f;
      FlagsTogether(sp, f[0], f[1..]);
    }
  }

  lemma NoFlags(sp: Spec)
    ensures WithFlags(sp, "") == sp
  {
  }

  lemma OneFlag(fmt: string, i: nat, args: Args, used: nat, sp: Spec)
    requires i < |fmt| && fmt[i] in " #-+0hlL"
    ensures FlagStep(fmt, i, args, used, sp) == Flag(i + 1, used, WithFlags(sp, [fmt[i]]))
  {
  }

  lemma FlagsTogether(sp: Spec, c: char, f: string)
    ensures WithFlags(WithFlags(sp, [c]), f) == WithFlags(sp, [c] + f)
  {
    assert forall d :: d in [c] + f <==> d == c || d in f;
  }

  lemma {:induction false} NumberEndIs(fmt: string, i: nat, j: nat)
    requires i <= j <= |fmt| && (forall k :: i <= k < j ==> IsDecimal(fmt[k])) && !IsDecimal(Peek(fmt, j))
    ensures NumberEnd(fmt, i) == j
    decreases j - i
  {
    if i < j {
      NumberEndIs(fmt, i + 1, j);
    }
  }

  /** A width: nothing, or digits of which the first is not 0. */
  predicate IsWidth(w: string) {
    AllDigits(w, 10) && (w != "" ==> w[0] != '0')
  }

  /** A precision: nothing, or a dot and digits, of which there may be none. */
  predicate IsPrecision(p: string) {
    p != "" ==> p[0] == '.' && AllDigits(p[1..], 10)
  }

  function WidthOf(w: string): nat
    requires IsWidth(w)
  {
    ValueOf(w, 10)
  }

  function PrecisionOf(p: string): int
    requires IsPrecision(p)
  {
    if p == "" then -1 else ValueOf(p[1..], 10)
  }

  lemma DigitsAreDecimal(t: string)
    requires AllDigits(t, 10)
    ensures forall k :: 0 <= k < |t| ==> IsDecimal(t[k])
  {
    forall k | 0 <= k < |t| ensures IsDecimal(t[k]) {
      assert IsDigitIn(t[k], 10);
    }
  }

  lemma WidthTaken(fmt: string, i: nat, w: string, args: Args, used: nat, sp: Spec)
    requires IsWidth(w) && w != "" && StandsAt(fmt, i, w) && !IsDecimal(Peek(fmt, i + |w|))
    ensures Gather(fmt, i, args, used, sp) == Gather(fmt, i + |w|, args, used, sp.(width := WidthOf(w)))
  {
    hide Gather, ValueOf;
    DigitsAreDecimal(w);
    forall k | i <= k < i + |w| ensures IsDecimal(fmt[k]) {
      assert fmt[i + (k - i)] == w[k - i];
    }
    NumberEndIs(fmt, i, i + |w|);
    assert fmt[i..i + |w|] == w;
    assert fmt[i + 0] == w[0];
    GatherStep(fmt, i, args, used, sp);
  }

  lemma PrecisionTaken(fmt: string, i: nat, p: string, args: Args, used: nat, sp: Spec)
    requires IsPrecision(p) && p != "" && StandsAt(fmt, i, p) && !IsDecimal(Peek(fmt, i + |p|)) && Peek(fmt, i + |p|) != '*'
    ensures Gather(fmt, i, args, used, sp) == Gather(fmt, i + |p|, args, used, sp.(prec := PrecisionOf(p)))
  {
    hide Gather, ValueOf;
    var n := p[1..];
    DigitsAreDecimal(n);
    assert fmt[i + 0] == p[0];
    forall k | i + 1 <= k < i + |p| ensures IsDecimal(fmt[k]) && fmt[k] == n[k - i - 1] {
      assert fmt[i + (k - i)] == p[k - i];
    }
    NumberEndIs(fmt, i + 1, i + |p|);
    assert fmt[i + 1..i + |p|] == n;
    GatherStep(fmt, i, args, used, sp);
  }

  /** A width or a precision given as an argument: a negative width adjusts to the left, a negative
      precision is none. */
  lemma StarTaken(fmt: string, i: nat, args: Args, used: nat, sp: Spec)
    requires i < |fmt|
    ensures var n := if args(used) < 0x8000_0000 then args(used) else args(used) - 0x1_0000_0000;
      && (fmt[i] == '*' ==>
            Gather(fmt, i, args, used, sp) ==
            Gather(fmt, i + 1, args, used + 1,
                   sp.(width := if n < 0 then -n else n, ladjust := sp.ladjust || n < 0)))
      && (StandsAt(fmt, i, ".*") ==>
            Gather(fmt, i, args, used, sp) == Gather(fmt, i + 2, args, used + 1, sp.(prec := if n < 0 then -1 else n)))
  {
    hide Gather;
    GatherStep(fmt, i, args, used, sp);
    if StandsAt(fmt, i, ".*") {
      assert fmt[i + 0] == ".*"[0] && fmt[i + 1] == ".*"[1];
    }
  }

  /** The part of a format between '%' and the conversion character. */
  datatype Shape = Shape(flags: string, width: string, prec: string)

  predicate IsShape(s: Shape) {
    AreFlags(s.flags) && IsWidth(s.width) && IsPrecision(s.prec)
  }

  /** A character that ends it. */
  predicate Converts(c: char) {
    c != '\0' && c !in " #-+0hlL.*" && !IsDecimal(c)
  }

  function SpecOf(s: Shape): Spec
    requires IsShape(s)
  {
    Spec('#' in s.flags, '-' in s.flags, '0' in s.flags, 'h' in s.flags, 'l' in s.flags, WidthOf(s.width), PrecisionOf(s.prec),
         if '+' in s.flags then '+' else if ' ' in s.flags then ' ' else '\0')
  }

  function PartText(s: Shape, c: char): string {
    "%" + s.flags + s.width + s.prec + [c]
  }

  lemma SpecGathered(fmt: string, i: nat, s: Shape, c: char, args: Args, used: nat)
    requires IsShape(s) && Converts(c) && StandsAt(fmt, i, PartText(s, c))
    ensures fmt[i] == '%' && i + |PartText(s, c)| <= |fmt|
    ensures Gather(fmt, i + 1, args, used, NoSpec) == Gathered(SpecOf(s), i + |PartText(s, c)| - 1, used)
    ensures fmt[i + |PartText(s, c)| - 1] == c
  {
    hide Gather, ValueOf, FlagStep, WithFlags, NumberEnd, IsWidth, IsPrecision, WidthOf, PrecisionOf, Converts;
    PartsStand(fmt, i, s.flags, s.width, s.prec, c);
    var a := i + 1 + |s.flags|;
    var b := a + |s.width|;
    var d := b + |s.prec|;
    var sp := WithFlags(NoSpec, s.flags);
    NothingDenotes();
    FlagsTaken(fmt, i + 1, s.flags, args, used, NoSpec);
    NoDigitBehind(fmt, b, s.prec, c);
    if s.width != "" {
      WidthTaken(fmt, a, s.width, args, used, sp);
    }
    var sp' := sp.(width := WidthOf(s.width));
    if s.prec != "" {
      PrecisionTaken(fmt, b, s.prec, args, used, sp');
    }
    ConversionEnds(fmt, d, args, used, sp'.(prec := PrecisionOf(s.prec)));
    SpecIs(s);
  }

  lemma SpecIs(s: Shape)
    requires IsShape(s)
    ensures WithFlags(NoSpec, s.flags).(width := WidthOf(s.width)).(prec := PrecisionOf(s.prec)) == SpecOf(s)
    ensures WithFlags(NoSpec, s.flags).width == 0 && WithFlags(NoSpec, s.flags).prec == -1
  {
    hide ValueOf;
  }

  lemma NothingDenotes()
    ensures IsWidth("") && WidthOf("") == 0 && IsPrecision("") && PrecisionOf("") == -1
  {
    NoDigits();
  }

  /** Behind a width, and behind a precision, stands no digit. */
  lemma NoDigitBehind(fmt: string, b: nat, p: string, c: char)
    requires IsPrecision(p) && Converts(c) && b + |p| < |fmt| && StandsAt(fmt, b, p) && fmt[b + |p|] == c
    ensures !IsDecimal(Peek(fmt, b)) && !IsDecimal(Peek(fmt, b + |p|)) && Peek(fmt, b + |p|) != '*'
  {
    if p != "" {
      assert fmt[b + 0] == p[0];
    }
  }

  lemma ConversionEnds(fmt: string, d: nat, args: Args, used: nat, sp: Spec)
    requires d < |fmt| && Converts(fmt[d])
    ensures Gather(fmt, d, args, used, sp) == Gathered(sp, d, used)
  {
    hide Gather;
    GatherStep(fmt, d, args, used, sp);
  }

  lemma NoDigits()
    ensures AllDigits("", 10) && ValueOf("", 10) == 0
  {
  }

  lemma PartsStand(fmt: string, i: nat, f: string, w: string, p: string, c: char)
    requires StandsAt(fmt, i, "%" + f + w + p + [c])
    ensures var a := i + 1 + |f|;
      var b := a + |w|;
      var d := b + |p|;
      && d < |fmt| && fmt[i] == '%' && fmt[d] == c && d == i + |"%" + f + w + p + [c]| - 1
      && StandsAt(fmt, i + 1, f) && StandsAt(fmt, a, w) && StandsAt(fmt, b, p)
  {
    var t := "%" + f + w + p + [c];
    assert fmt[i + 0] == t[0] && fmt[i + (|t| - 1)] == t[|t| - 1];
    forall k | 0 <= k < |f| ensures fmt[i + 1 + k] == f[k] {
      assert fmt[i + (1 + k)] == t[1 + k];
    }
    forall k | 0 <= k < |w| ensures fmt[i + 1 + |f| + k] == w[k] {
      assert fmt[i + (1 + |f| + k)] == t[1 + |f| + k];
    }
    forall k | 0 <= k < |p| ensures fmt[i + 1 + |f| + |w| + k] == p[k] {
      assert fmt[i + (1 + |f| + |w| + k)] == t[1 + |f| + |w| + k];
    }
  }

  // ---------- strings and characters ----------

  /** A text in a field: behind or in front of blanks, or behind zeros. */
  function Placed(t: string, width: nat, left: bool, zeros: bool): string {
    if left then t + Repeat(' ', width - |t|)
    else if zeros then Repeat('0', width - |t|) + t
    else Repeat(' ', width - |t|) + t
  }

  lemma FieldPlaced(sp: Spec, t: string)
    ensures Field(sp, sp.zeropad, "", 0, t) == Placed(t, sp.width, sp.ladjust, sp.zeropad)
  {
    hide Field;
    FieldParts(sp, sp.zeropad, "", 0, t);
    NoPadding('0', 0 - |t|);
    SixParts(t, Repeat(' ', sp.width - |t|));
    SixParts(t, Repeat('0', sp.width - |t|));
  }

  lemma SixParts(t: string, pad: string)
    ensures "" + "" + "" + "" + t + pad == t + pad
    ensures "" + "" + pad + "" + t + "" == pad + t
    ensures pad + "" + "" + "" + t + "" == pad + t
  {
  }

  /** The string that %s shows: that of its argument, or "(null)" for 0; no more of it than the precision. */
  function StringShown(w: uint32, strs: Strings, prec: int): string {
    var t := if w == 0 then "(null)" else strs(w);
    if prec < 0 || |t| <= prec then t else t[..prec]
  }

  lemma StringClipped(w: uint32, strs: Strings, prec: int)
    ensures StringShown(w, strs, prec) == Clipped(if w == 0 then "(null)" else strs(w), prec)
  {
  }

  /** A part of a format that prints a string, a character, or a character that converts nothing: it prints
      that, placed in its field, and the format goes on with the next argument, or with the same one. */
  lemma TextPart(fmt: string, i: nat, s: Shape, c: char, args: Args, used: nat, strs: Strings, upper: bool, count: nat)
    requires IsShape(s) && Converts(c) && StandsAt(fmt, i, PartText(s, c))
    ensures var j, w, sp := i + |PartText(s, c)|, args(used), SpecOf(s);
      var r := Render(fmt, i, args, used, strs, upper, count);
      && (c == 's' ==>
            var t := Placed(StringShown(w, strs, sp.prec), sp.width, sp.ladjust, sp.zeropad);
            r == Then(t, [], Render(fmt, j, args, used + 1, strs, upper, count + |t|)))
      && (c == 'c' ==>
            var t := Placed([(w % 256) as char], sp.width, sp.ladjust, sp.zeropad);
            r == Then(t, [], Render(fmt, j, args, used + 1, strs, upper, count + |t|)))
      && (c !in "cdiDnoOpsuUxX" ==> r == Then([c], [], Render(fmt, j, args, used, strs, upper, count + 1)))
      && (c == 'n' ==>
            var n := if sp.short && !sp.long then count % 0x1_0000 else count % 0x1_0000_0000;
            r == Then("", [Store(w, sp.short && !sp.long, n)], Render(fmt, j, args, used + 1, strs, upper, count)))
  {
    hide Render, Gather, Field, Placed, StringShown, SpecOf, PartText, NumberField, SignedField, HexField;
    SpecGathered(fmt, i, s, c, args, used);
    RenderStep(fmt, i, args, used, strs, upper, count);
    StringClipped(args(used), strs, SpecOf(s).prec);
    FieldPlaced(SpecOf(s), StringShown(args(used), strs, SpecOf(s).prec));
    FieldPlaced(SpecOf(s), [(args(used) % 256) as char]);
  }

  /** "%s" alone prints the string of its argument. */
  lemma StringPrinted(args: Args, strs: Strings)
    ensures Render("%s", 0, args, 0, strs, false, 0).text == if args(0) == 0 then "(null)" else strs(args(0))
  {
    hide Gather, Convert;
    var s := Shape("", "", "");
    NoDigits();
    TextPart("%s", 0, s, 's', args, 0, strs, false, 0);
    var t := StringShown(args(0), strs, -1);
    assert Repeat(' ', 0 - |t|) == "" && "" + t == t && t + "" == t;
  }

  // ---------- numbers ----------

  /** Digits of a number in that base: no leading zero but for zero itself, letters in one case. */
  predicate IsNumeral(t: string, v: nat, base: nat, upper: bool) {
    && base in {8, 10, 16} && t != "" && AllDigits(t, base) && ValueOf(t, base) == v
    && (t[0] == '0' ==> |t| == 1)
    && forall k :: 0 <= k < |t| ==> IsDecimal(t[k]) || (if upper then 'A' <= t[k] <= 'F' else 'a' <= t[k] <= 'f')
  }

  lemma {:induction false} DigitsAreNumeral(v: nat, base: nat, upper: bool)
    requires base in {8, 10, 16}
    ensures IsNumeral(Digits(v, base, upper), v, base, upper)
    ensures v > 0 ==> Digits(v, base, upper)[0] != '0'
    decreases v
  {
    DigitsDenote(v, base, upper);
    if v >= base {
      Quotient(v, base);
      DigitsAreNumeral(v / base, base, upper);
    }
  }

  /** What stands in front of the digits: a sign for signed numbers, the base for alternate hexadecimal
      ones other than zero. */
  function PrefixOf(c: char, sp: Spec, v: uint32): string {
    if c in "diD" then
      if v >= 0x8000_0000 then "-" else if sp.sign == '+' then "+" else if sp.sign == ' ' then " " else ""
    else if c in "xX" && sp.alt && v != 0 then ['0', c]
    else ""
  }

  function MagnitudeOf(c: char, v: uint32): nat {
    if c in "diD" && v >= 0x8000_0000 then 0x1_0000_0000 - v else v
  }

  function BaseOf(c: char): nat {
    if c in "oO" then 8 else if c in "xXp" then 16 else 10
  }

  /** The word a conversion prints: an 'h' takes the low half, sign-extended, except for %p. */
  function WordOf(c: char, sp: Spec, w: uint32): uint32 {
    if c == 'p' || !sp.short then w else if w % 0x1_0000 < 0x8000 then w % 0x1_0000 else w % 0x1_0000 + 0xffff_0000
  }

  /** The text of a number: blanks, prefix, zeros, digits and blanks. */
  predicate IsNumberText(text: string, c: char, sp: Spec, w: uint32, upper: bool, digits: string) {
    var v := WordOf(c, sp, w);
    var prefix := PrefixOf(c, sp, v);
    var padded := sp.zeropad && sp.prec < 0;
    var zeros := Max(0, if padded && !sp.ladjust then sp.width - |prefix + digits| else sp.prec - |prefix + digits|);
    var blanks := Max(0, sp.width - |prefix + digits| - Max(0, sp.prec - |prefix + digits|));
    && (if v == 0 && sp.prec == 0 then digits == ""
        else if c in "oO" && sp.alt && v != 0 then digits != "" && digits[0] == '0' && IsNumeral(digits[1..], v, 8, upper)
        else IsNumeral(digits, MagnitudeOf(c, v), BaseOf(c), upper))
    && text == Repeat(' ', if sp.ladjust || padded then 0 else blanks) + prefix + Repeat('0', zeros) + digits
               + Repeat(' ', if sp.ladjust then blanks else 0)
  }

  lemma NumeralDigits(v: nat, base: nat, sp: Spec, upper: bool)
    requires base in {8, 10, 16}
    ensures var t := Numeral(v, base, sp, upper);
      if v == 0 && sp.prec == 0 then t == ""
      else if base == 8 && sp.alt && v != 0 then t != "" && t[0] == '0' && IsNumeral(t[1..], v, 8, upper)
      else IsNumeral(t, v, base, upper)
  {
    hide Digits, ValueOf, AllDigits;
    DigitsAreNumeral(v, base, upper);
    var t := Digits(v, base, upper);
    assert ("0" + t)[1..] == t;
    if v == 0 {
      ZeroDigits(base, upper);
    }
  }

  lemma ZeroDigits(base: nat, upper: bool)
    requires base in {8, 10, 16}
    ensures Digits(0, base, upper) == "0"
  {
  }

  /** Every number conversion prints the number of its argument, laid out as its flags, width and precision
      ask. The letters of a hexadecimal number are capitals for %X, and where they have been left so. */
  lemma NumberLaidOut(c: char, sp: Spec, args: Args, used: nat, strs: Strings, upper: bool, count: nat) returns (digits: string)
    requires c in "diDoOuUxXp" && IsSignFlag(sp.sign)
    ensures var piece := Convert(c, sp, args, used, strs, upper, count);
      && IsNumberText(piece.text, c, sp, args(used), upper || c == 'X', digits)
      && piece.used == used + 1 && piece.stores == []
  {
    hide Field, Numeral, IsNumeral, Repeat, Max, Convert, PrefixOf, WordOf;
    var v := WordOf(c, sp, args(used));
    var prefix := PrefixOf(c, sp, v);
    digits := Numeral(MagnitudeOf(c, v), BaseOf(c), sp, upper || c == 'X');
    NumeralDigits(MagnitudeOf(c, v), BaseOf(c), sp, upper || c == 'X');
    PieceIsField(c, sp, args, used, strs, upper, count);
    FieldIsText(sp, prefix, digits);
  }

  lemma PieceIsField(c: char, sp: Spec, args: Args, used: nat, strs: Strings, upper: bool, count: nat)
    requires c in "diDoOuUxXp" && IsSignFlag(sp.sign)
    ensures var v := WordOf(c, sp, args(used));
      var piece := Convert(c, sp, args, used, strs, upper, count);
      && piece.text == Field(sp, sp.zeropad && sp.prec < 0, PrefixOf(c, sp, v), sp.prec,
                             Numeral(MagnitudeOf(c, v), BaseOf(c), sp, upper || c == 'X'))
      && piece.used == used + 1 && piece.stores == []
  {
    hide Field, Numeral;
    var w := args(used);
    assert WordOf(c, sp, w) == if c == 'p' then w else Argument(w, sp.short);
    if c in "diD" {
      assert IsSignedConversion(c);
    } else if c in "xX" {
      assert IsHexConversion(c);
    }
  }

  lemma FieldIsText(sp: Spec, prefix: string, digits: string)
    ensures var padded := sp.zeropad && sp.prec < 0;
      var zeros := Max(0, if padded && !sp.ladjust then sp.width - |prefix + digits| else sp.prec - |prefix + digits|);
      var blanks := Max(0, sp.width - |prefix + digits| - Max(0, sp.prec - |prefix + digits|));
      Field(sp, padded, prefix, sp.prec, digits) ==
      Repeat(' ', if sp.ladjust || padded then 0 else blanks) + prefix + Repeat('0', zeros) + digits
      + Repeat(' ', if sp.ladjust then blanks else 0)
  {
    hide Field, Repeat, Max, RealSize;
    var n, pad := |prefix + digits|, sp.width - RealSize(prefix, sp.prec, digits);
    var blanks, zeros, more := Repeat(' ', pad), Repeat('0', pad), Repeat('0', sp.prec - n);
    FieldParts(sp, sp.zeropad && sp.prec < 0, prefix, sp.prec, digits);
    Amounts(sp, prefix, digits);
    if sp.ladjust {
      SkipThird("", prefix, more, digits, blanks);
    } else if sp.zeropad && sp.prec < 0 {
      SkipThird("", prefix, zeros, digits, "");
    } else {
      SkipThird(blanks, prefix, more, digits, "");
    }
  }

  /** How many blanks and zeros there are. */
  lemma Amounts(sp: Spec, prefix: string, digits: string)
    ensures var n, pad := |prefix + digits|, sp.width - RealSize(prefix, sp.prec, digits);
      && n == |prefix| + |digits|
      && Repeat('0', Max(0, sp.prec - n)) == Repeat('0', sp.prec - n)
      && Repeat(' ', Max(0, sp.width - n - Max(0, sp.prec - n))) == Repeat(' ', pad)
      && (sp.prec < 0 ==> Repeat('0', Max(0, sp.width - n)) == Repeat('0', pad) && Repeat('0', sp.prec - n) == "")
      && Repeat(' ', 0) == ""
  {
  }

  lemma SkipThird(a: string, b: string, c: string, d: string, e: string)
    ensures a + b + "" + c + d + e == a + b + c + d + e && a + b + c + "" + d + e == a + b + c + d + e
  {
  }

  /** A number conversion in a format: its text, and the format goes on with the next argument. */
  lemma NumberPart(fmt: string, i: nat, s: Shape, c: char, args: Args, used: nat, strs: Strings, upper: bool, count: nat)
    returns (text: string, digits: string)
    requires IsShape(s) && c in "diDoOuUxXp" && StandsAt(fmt, i, PartText(s, c))
    ensures var j, sp := i + |PartText(s, c)|, SpecOf(s);
      && IsNumberText(text, c, sp, args(used), upper || c == 'X', digits)
      && Render(fmt, i, args, used, strs, upper, count) ==
         Then(text, [], Render(fmt, j, args, used + 1, strs,
                               (upper || c == 'X') && digits == "", count + |text|))
  {
    hide Render, Gather, Field, IsNumberText, Convert;
    SpecGathered(fmt, i, s, c, args, used);
    RenderStep(fmt, i, args, used, strs, upper, count);
    digits := NumberLaidOut(c, SpecOf(s), args, used, strs, upper, count);
    text := Convert(c, SpecOf(s), args, used, strs, upper, count).text;
    CaseLeft(c, SpecOf(s), args, used, strs, upper, count, digits);
  }

  /** Capitals stay selected only where no digits have been printed. */
  lemma CaseLeft(c: char, sp: Spec, args: Args, used: nat, strs: Strings, upper: bool, count: nat, digits: string)
    requires c in "diDoOuUxXp" && IsNumberText(Convert(c, sp, args, used, strs, upper, count).text, c, sp, args(used), upper || c == 'X', digits)
    ensures Convert(c, sp, args, used, strs, upper, count).upper <==> (upper || c == 'X') && digits == ""
  {
    hide Field, Numeral, Repeat;
    assert WordOf(c, sp, args(used)) == if c == 'p' then args(used) else Argument(args(used), sp.short);
    if c in "diD" {
      assert IsSignedConversion(c);
    } else if c in "xX" {
      assert IsHexConversion(c);
    }
  }
}

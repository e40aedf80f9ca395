/** Where the formatter of lib/doprntx.c departs from the standard's, and exactly when it does not. */
module PrintDeparts {
  import opened Machine
  import opened CStrings
  import opened Strtoul
  import opened Printf
  import opened PrintParse

  // ---------- the parts of a number ----------

  function NumberBase(c: char): (b: nat)
    ensures b in {8, 10, 16}
  {
    if IsOctalConversion(c) then 8 else if IsHexConversion(c) then 16 else 10
  }

  function NumberPrefix(c: char, sp: Spec, v: uint32): string {
    if IsSignedConversion(c) then (if AsInt(v) < 0 then "-" else SignText(sp.sign))
    else if IsHexConversion(c) && sp.alt && v != 0 then ['0', c]
    else ""
  }

  function NumberValue(c: char, v: uint32): nat {
    if IsSignedConversion(c) && AsInt(v) < 0 then -AsInt(v) else v
  }

  function NumberText(c: char, sp: Spec, v: uint32, upper: bool): string {
    Numeral(NumberValue(c, v), NumberBase(c), sp, upper || c == 'X')
  }

  lemma ConvertIsField(c: char, sp: Spec, args: Args, used: nat, strs: Strings, upper: bool, count: nat)
    requires IsNumberConversion(c)
    ensures var v := Argument(args(used), sp.short);
      Convert(c, sp, args, used, strs, upper, count).text ==
      Field(sp, sp.zeropad && sp.prec < 0, NumberPrefix(c, sp, v), sp.prec, NumberText(c, sp, v, upper))
  {
    hide Field, Numeral, Argument;
  }

  // ---------- precision ----------

  /** The digits that stand behind blanks and the sign or prefix of a text. */
  function DigitCount(text: string, base: nat): nat {
    var p := DigitsStart(text, SignEnd(text, SkipSpace(text, 0)), base);
    RunEnd(text, p, base) - p
  }

  /** The digits printed for a precision: the numeral, or the precision less the sign or prefix. */
  lemma PrecisionDigits(c: char, sp: Spec, args: Args, used: nat, strs: Strings, upper: bool, count: nat)
    requires IsNumberConversion(c) && sp.prec >= 0 && IsSignFlag(sp.sign)
    requires Argument(args(used), sp.short) != 0 || sp.prec != 0
    ensures var v := Argument(args(used), sp.short);
      DigitCount(Convert(c, sp, args, used, strs, upper, count).text, NumberBase(c)) ==
      Max(|NumberText(c, sp, v, upper)|, sp.prec - |NumberPrefix(c, sp, v)|)
  {
    hide Convert, Field, Numeral, Argument, ValueOf, DigitCount, AllDigits;
    var v := Argument(args(used), sp.short);
    ConvertIsField(c, sp, args, used, strs, upper, count);
    NumeralDenotes(NumberValue(c, v), NumberBase(c), sp, upper || c == 'X');
    FieldDigits(sp, NumberPrefix(c, sp, v), NumberText(c, sp, v, upper), NumberBase(c));
  }

  lemma FieldDigits(sp: Spec, prefix: string, body: string, b: nat)
    requires sp.prec >= 0 && b in {8, 10, 16} && body != "" && AllDigits(body, b)
    requires prefix in {"", "+", "-", " "} || (b == 16 && IsHexIntro(prefix))
    ensures DigitCount(Field(sp, false, prefix, sp.prec, body), b) == Max(|body|, sp.prec - |prefix|)
  {
    hide Field, ValueOf, DigitCount, AllDigits;
    var lead, zeros, tail := FieldSplits(sp, false, prefix, sp.prec, body);
    ZerosDenoteNothing(zeros, body, b);
    var lead' := if prefix == " " then lead + " " else lead;
    var mid := if prefix == " " then "" else prefix;
    assert lead' + mid == lead + prefix;
    ComposedCount(lead', mid, zeros + body, tail, b);
  }

  lemma ComposedCount(lead: string, mid: string, digs: string, tail: string, b: nat)
    requires b in {8, 10, 16} && Composed(lead, mid, digs, tail, b, b)
    ensures DigitCount(lead + mid + digs + tail, b) == |digs|
  {
    ComposedRun(lead, mid, digs, tail, b, b);
  }

  /** A precision asks for a minimum number of digits. The code counts the sign or prefix among them, so
      it prints that many exactly when there is no sign or prefix, or the numeral is long enough anyway. */
  lemma PrecisionHonouredExactly(c: char, sp: Spec, args: Args, used: nat, strs: Strings, upper: bool, count: nat)
    requires IsNumberConversion(c) && sp.prec >= 0 && IsSignFlag(sp.sign)
    ensures var v := Argument(args(used), sp.short);
      DigitCount(Convert(c, sp, args, used, strs, upper, count).text, NumberBase(c)) >= sp.prec <==>
      NumberPrefix(c, sp, v) == "" || sp.prec <= |NumberText(c, sp, v, upper)|
  {
    hide Convert, Numeral, Argument, DigitCount, NumberText;
    if Argument(args(used), sp.short) != 0 || sp.prec != 0 {
      PrecisionDigits(c, sp, args, used, strs, upper, count);
    }
  }

  /** A format that starts with a one-digit precision and a conversion character. */
  lemma GatherPrecision(fmt: string, args: Args)
    requires |fmt| > 3 && fmt[1] == '.' && IsDecimal(fmt[2]) && fmt[3] in {'d', 'u', 'o', 'x', 'X'}
    ensures Gather(fmt, 1, args, 0, NoSpec) == Gathered(NoSpec.(prec := DigitValue(fmt[2])), 3, 0)
  {
    assert NumberEnd(fmt, 2) == 3;
    assert fmt[2..3] == "" + [fmt[2]];
    ValueOfAppend("", fmt[2], 10);
    GatherPlain(fmt, args, 0, NoSpec.(prec := DigitValue(fmt[2])), 3);
  }

  lemma SmallNumerals()
    ensures Digits(12, 10, false) == "12"
    ensures Digits(0xAB, 16, true) == "AB" && Digits(0xAB, 16, false) == "ab"
  {
    assert Digits(1, 10, false) == "1";
    assert Digits(0xA, 16, true) == "A" && Digits(0xA, 16, false) == "a";
  }

  /** "%.3d" of -12 prints two digits. */
  lemma PrecisionShortfall()
    ensures Printed("%.3d", _ => 0xFFFF_FFF4) == "-12"
  {
    hide Field, Gather, Digits, Render;
    var fmt, args: Args := "%.3d", _ => 0xFFFF_FFF4;
    var sp := NoSpec.(prec := 3);
    GatherPrecision(fmt, args);
    SmallNumerals();
    BareField(sp, false, "-", "12");
    assert Convert('d', sp, args, 0, NoStrings, false, 0) == Piece("-12", 1, false, []);
    RenderStep(fmt, 0, args, 0, NoStrings, false, 0);
    RenderStep(fmt, 4, args, 1, NoStrings, false, 3);
    assert "-12" + "" == "-12";
  }

  // ---------- the alternate octal form ----------

  /** Behind blanks the text has digits, and the first is 0. */
  predicate StartsWithZero(text: string) {
    var p := DigitsStart(text, SignEnd(text, SkipSpace(text, 0)), 8);
    RunEnd(text, p, 8) > p && text[p] == '0'
  }

  lemma ComposedZero(lead: string, digs: string, tail: string)
    requires Composed(lead, "", digs, tail, 8, 8) && digs[0] == '0'
    ensures StartsWithZero(lead + digs + tail)
  {
    assert lead + "" + digs + tail == lead + digs + tail;
    ComposedRun(lead, "", digs, tail, 8, 8);
  }

  lemma BlanksHaveNoDigit(text: string)
    requires IsBlank(text)
    ensures !StartsWithZero(text)
  {
    SkipSpaceIs(text, 0, |text|);
  }

  /** The alternate octal form asks for a number whose first digit is 0. It is printed exactly when the
      value or the precision is not 0. */
  lemma AlternateOctalExactly(c: char, sp: Spec, args: Args, used: nat, strs: Strings, upper: bool, count: nat)
    requires IsOctalConversion(c) && sp.alt
    ensures StartsWithZero(Convert(c, sp, args, used, strs, upper, count).text) <==>
            Argument(args(used), sp.short) != 0 || sp.prec != 0
  {
    hide Convert, Field, Numeral, Argument, ValueOf, StartsWithZero, AllDigits;
    var v := Argument(args(used), sp.short);
    if v != 0 || sp.prec != 0 {
      var body := NumberText(c, sp, v, upper);
      ConvertIsField(c, sp, args, used, strs, upper, count);
      NumeralDenotes(v, 8, sp, upper || c == 'X');
      var lead, zeros, tail := FieldSplits(sp, sp.zeropad && sp.prec < 0, "", sp.prec, body);
      ZerosDenoteNothing(zeros, body, 8);
      assert lead + "" + (zeros + body) + tail == lead + (zeros + body) + tail;
      ComposedZero(lead, zeros + body, tail);
    } else {
      NothingPrintsBlanks(c, sp, args, used, strs, upper, count);
      BlanksHaveNoDigit(Convert(c, sp, args, used, strs, upper, count).text);
    }
  }

  /** "%#.0o" of 0 prints nothing. */
  lemma AlternateOctalFails()
    ensures Printed("%#.0o", _ => 0) == ""
  {
    hide Field, Gather, Render;
    var fmt, args: Args := "%#.0o", _ => 0;
    var sp := NoSpec.(alt := true, prec := 0);
    GatherAlternate(fmt, args);
    BareField(sp, false, "", "");
    assert Convert('o', sp, args, 0, NoStrings, false, 0) == Piece("", 1, false, []);
    RenderStep(fmt, 0, args, 0, NoStrings, false, 0);
    RenderStep(fmt, 5, args, 1, NoStrings, false, 0);
    assert "" + "" == "";
  }

  lemma GatherAlternate(fmt: string, args: Args)
    requires fmt == "%#.0o"
    ensures Gather(fmt, 1, args, 0, NoSpec) == Gathered(NoSpec.(alt := true, prec := 0), 4, 0)
  {
    assert NumberEnd(fmt, 3) == 4;
    assert fmt[3..4] == "" + [fmt[3]];
    ValueOfAppend("", fmt[3], 10);
    GatherPlain(fmt, args, 0, NoSpec.(alt := true, prec := 0), 4);
    GatherStep(fmt, 2, args, 0, NoSpec.(alt := true));
    GatherStep(fmt, 1, args, 0, NoSpec);
  }

  // ---------- short unsigned conversions ----------

  predicate IsBlank(text: string) {
    forall k :: 0 <= k < |text| ==> text[k] == ' '
  }

  lemma BlanksReadAsZero(text: string, rbase: nat)
    requires IsBlank(text)
    ensures Parse(text, rbase, UINT32_MAX).value == 0
  {
    SkipSpaceIs(text, 0, |text|);
  }

  lemma NothingPrintsBlanks(c: char, sp: Spec, args: Args, used: nat, strs: Strings, upper: bool, count: nat)
    requires IsNumberConversion(c) && !IsSignedConversion(c)
    requires Argument(args(used), sp.short) == 0 && sp.prec == 0
    ensures IsBlank(Convert(c, sp, args, used, strs, upper, count).text)
  {
    hide Convert, Field, Argument;
    ConvertIsField(c, sp, args, used, strs, upper, count);
    var lead, zeros, tail := FieldSplits(sp, sp.zeropad && sp.prec < 0, "", sp.prec, "");
  }

  lemma ShortArgument(w: uint32)
    ensures Argument(w, true) == w % 0x1_0000 <==> w % 0x1_0000 < 0x8000
    ensures Argument(w, true) == 0 ==> w % 0x1_0000 == 0
  {
  }

  /** What a short unsigned, octal or hexadecimal conversion prints reads back as the low 16 bits of the
      word exactly when their sign bit is clear. */
  lemma ShortUnsignedExactly(c: char, sp: Spec, args: Args, used: nat, strs: Strings, upper: bool, count: nat, rbase: nat)
    requires IsNumberConversion(c) && !IsSignedConversion(c) && sp.short
    requires ReadingBase(c, sp, rbase) && IsSignFlag(sp.sign)
    ensures var text := Convert(c, sp, args, used, strs, upper, count).text;
      var low := args(used) % 0x1_0000;
      Parse(text, rbase, UINT32_MAX).value == low <==> low < 0x8000
  {
    hide Convert, Parse, Argument;
    ShortArgument(args(used));
    if Argument(args(used), true) != 0 || sp.prec != 0 {
      ConversionReadsBack(c, sp, args, used, strs, upper, count, rbase);
    } else {
      NothingPrintsBlanks(c, sp, args, used, strs, upper, count);
      BlanksReadAsZero(Convert(c, sp, args, used, strs, upper, count).text, rbase);
    }
  }

  lemma TenDigits()
    ensures Digits(0xFFFF_8000, 10, false) == "4294934528"
  {
    assert Digits(4, 10, false) == "4";
    assert Digits(42, 10, false) == "42";
    assert Digits(429, 10, false) == "429";
    assert Digits(4294, 10, false) == "4294";
    assert Digits(42949, 10, false) == "42949";
    assert Digits(429493, 10, false) == "429493";
    assert Digits(4294934, 10, false) == "4294934";
    assert Digits(42949345, 10, false) == "42949345";
    assert Digits(429493452, 10, false) == "429493452";
  }

  lemma SignExtendedPrints(args: Args)
    requires args(0) == 0x8000
    ensures Convert('u', NoSpec.(short := true), args, 0, NoStrings, false, 0) == Piece("4294934528", 1, false, [])
  {
    hide Field, Digits;
    TenDigits();
    BareField(NoSpec.(short := true), false, "", "4294934528");
  }

  /** "%hu" of 0x8000 prints 4294934528, not 32768. */
  lemma ShortUnsignedFails()
    ensures Printed("%hu", _ => 0x8000) == "4294934528"
  {
    hide Gather, Convert, Render;
    var fmt, args: Args := "%hu", _ => 0x8000;
    GatherPlain(fmt, args, 0, NoSpec.(short := true), 2);
    GatherShort(fmt, args);
    SignExtendedPrints(args);
    RenderStep(fmt, 0, args, 0, NoStrings, false, 0);
    RenderStep(fmt, 3, args, 1, NoStrings, false, 10);
    assert "4294934528" + "" == "4294934528";
  }

  lemma GatherShort(fmt: string, args: Args)
    requires |fmt| > 1 && fmt[1] == 'h'
    ensures Gather(fmt, 1, args, 0, NoSpec) == Gather(fmt, 2, args, 0, NoSpec.(short := true))
  {
  }
}

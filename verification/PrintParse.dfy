/** Printing a word and reading it back. */
module PrintParse {
  import opened Machine
  import opened CStrings
  import opened Printf
  import opened Strtoul

  // ---------- values of digit strings ----------

  lemma {:induction false} DigitsDenote(v: nat, base: nat, upper: bool)
    requires 2 <= base <= 16
    ensures ValueOf(Digits(v, base, upper), base) == v
  {
    if v < base {
      assert Digits(v, base, upper)[..0] == "";
    } else {
      Quotient(v, base);
      DigitsDenote(v / base, base, upper);
      ValueOfAppend(Digits(v / base, base, upper), DigitChar(v % base, upper), base);
    }
  }

  lemma {:induction false} ZerosDenoteNothing(z: string, t: string, base: nat)
    requires base >= 2 && AllDigits(t, base) && forall i :: 0 <= i < |z| ==> z[i] == '0'
    ensures AllDigits(z + t, base) && ValueOf(z + t, base) == ValueOf(t, base)
    decreases |t|, |z|
  {
    if t != "" {
      var t', c := t[..|t| - 1], t[|t| - 1];
      assert IsDigitIn(c, base);
      assert t == t' + [c] && z + t == z + t' + [c];
      ZerosDenoteNothing(z, t', base);
      ValueOfAppend(z + t', c, base);
    } else if z != "" {
      var z' := z[..|z| - 1];
      assert z == z' + "0" && z + t == z' + "0" && z' + "" == z';
      ZerosDenoteNothing(z', "", base);
      ValueOfAppend(z', '0', base);
    } else {
      assert z + t == t;
    }
  }

  // ---------- reading a composed text ----------

  lemma {:induction false} SkipSpaceIs(s: string, i: nat, w: nat)
    requires i <= w <= |s| && (forall k :: i <= k < w ==> IsSpace(s[k])) && (w < |s| ==> !IsSpace(s[w]))
    ensures SkipSpace(s, i) == w
    decreases w - i
  {
    if i < w {
      SkipSpaceIs(s, i + 1, w);
    }
  }

  predicate IsHexIntro(mid: string) {
    mid == "0x" || mid == "0X"
  }

  /** Characters that end a number in any base and form. */
  predicate EndsNumber(c: char) {
    c == ' ' || c == ',' || c == '.'
  }

  /** Blanks, a sign or a hexadecimal prefix, digits, and then the end or something else. */
  ghost predicate Composed(lead: string, mid: string, digs: string, tail: string, base: nat, b: nat) {
    && (forall k :: 0 <= k < |lead| ==> lead[k] == ' ')
    && digs != "" && 2 <= b <= 16 && AllDigits(digs, b)
    && (tail != "" ==> EndsNumber(tail[0]))
    && if IsHexIntro(mid) then b == 16 && (base == 0 || base == 16)
       else mid in {"", "+", "-"} && b == (if base != 0 then base else if digs[0] == '0' then 8 else 10)
  }

  /** Sign and prefix of a composed text, found from its characters. */
  lemma IntroAt(s: string, w: nat, mid: string, digs: string, base: nat, b: nat)
    requires w + |mid| + |digs| <= |s| && digs != "" && 2 <= b <= 16 && AllDigits(digs, b)
    requires forall k :: 0 <= k < |mid| ==> s[w + k] == mid[k]
    requires forall k :: 0 <= k < |digs| ==> s[w + |mid| + k] == digs[k]
    requires w + |mid| + |digs| < |s| ==> EndsNumber(s[w + |mid| + |digs|])
    requires if IsHexIntro(mid) then b == 16 && (base == 0 || base == 16)
             else mid in {"", "+", "-"} && b == (if base != 0 then base else if digs[0] == '0' then 8 else 10)
    ensures !IsSpace(s[w]) && (s[w] == '-' <==> mid == "-")
    ensures var d := SignEnd(s, w);
      DigitsStart(s, d, base) == w + |mid| && EffectiveBase(s, d, base) == b
  {
    var m := w + |mid|;
    assert s[m] == digs[0] && IsDigitIn(digs[0], b);
    if |digs| > 1 {
      assert s[m + 1] == digs[1] && IsDigitIn(digs[1], b);
    }
    if mid != "" {
      assert s[w] == mid[0];
    }
    if IsHexIntro(mid) {
      assert s[w + 1] == mid[1];
    }
  }

  lemma ParseAt(s: string, w: nat, m: nat, r: nat, base: nat, b: nat, max: nat)
    requires w <= m < r <= |s|
    requires (forall k :: 0 <= k < w ==> IsSpace(s[k])) && !IsSpace(s[w])
    requires DigitsStart(s, SignEnd(s, w), base) == m && EffectiveBase(s, SignEnd(s, w), base) == b
    requires AllDigits(s[m..r], b) && (r < |s| ==> !IsDigitIn(s[r], b))
    ensures Parse(s, base, max) == InWord(ValueOf(s[m..r], b), s[w] == '-', r, max)
  {
    SkipSpaceIs(s, 0, w);
    RunEndIs(s, m, r, b);
  }

  /** Where the digits of a composed text start and end. */
  lemma ComposedRun(lead: string, mid: string, digs: string, tail: string, base: nat, b: nat)
    requires Composed(lead, mid, digs, tail, base, b)
    ensures var s := lead + mid + digs + tail;
      var d := SignEnd(s, SkipSpace(s, 0));
      DigitsStart(s, d, base) == |lead| + |mid| && RunEnd(s, |lead| + |mid|, b) == |lead| + |mid| + |digs|
  {
    hide SignEnd, DigitsStart, EffectiveBase, SkipSpace, RunEnd;
    var s := lead + mid + digs + tail;
    var w := |lead|;
    var m := |lead| + |mid|;
    var r := m + |digs|;
    assert forall k :: 0 <= k < w ==> s[k] == lead[k];
    assert s[m..r] == digs;
    IntroAt(s, w, mid, digs, base, b);
    SkipSpaceIs(s, 0, w);
    RunEndIs(s, m, r, b);
  }

  lemma ComposedParses(lead: string, mid: string, digs: string, tail: string, base: nat, b: nat, max: nat)
    requires Composed(lead, mid, digs, tail, base, b)
    ensures Parse(lead + mid + digs + tail, base, max) ==
      InWord(ValueOf(digs, b), mid == "-", |lead| + |mid| + |digs|, max)
  {
    hide ValueOf, InWord, Parse, SignEnd, DigitsStart, EffectiveBase;
    var s := lead + mid + digs + tail;
    var w := |lead|;
    var m := |lead| + |mid|;
    var r := m + |digs|;
    assert forall k :: 0 <= k < w ==> s[k] == lead[k];
    assert s[m..r] == digs;
    IntroAt(s, w, mid, digs, base, b);
    ParseAt(s, w, m, r, base, b, max);
  }

  // ---------- number fields ----------

  /** The bases in which a printed number can be read: its own, or 0 when the text says which. */
  predicate Readable(sp: Spec, prefix: string, v: nat, base: nat, rbase: nat) {
    || (rbase == base && (IsHexIntro(prefix) ==> base == 16))
    || (rbase == 0 && base == 8 && sp.alt && !IsHexIntro(prefix))
    || (rbase == 0 && base == 16 && IsHexIntro(prefix))
    || (rbase == 0 && base == 16 && prefix == "" && v == 0)
  }

  /** Length of the text up to the end of the number: trailing padding is not consumed. */
  function NumberLength(sp: Spec, text: string, prefix: string, body: string): nat {
    if sp.ladjust then RealSize(prefix, sp.prec, body) else |text|
  }

  lemma NumeralDenotes(v: nat, base: nat, sp: Spec, upper: bool)
    requires 2 <= base <= 16 && (v != 0 || sp.prec != 0)
    ensures var body := Numeral(v, base, sp, upper);
      body != "" && AllDigits(body, base) && ValueOf(body, base) == v
    ensures base == 8 && sp.alt ==> Numeral(v, base, sp, upper)[0] == '0'
  {
    var t := Digits(v, base, upper);
    DigitsDenote(v, base, upper);
    ZerosDenoteNothing("0", t, base);
  }

  /** A zero is printed with zeros only, so it reads as zero in any base. */
  lemma ZeroReadsAsOctal(sp: Spec, upper: bool)
    requires sp.prec != 0
    ensures Numeral(0, 16, sp, upper) == "0"
  {
  }

  /** The parts of a number field form a composed text. */
  lemma FieldComposed(p1: string, prefix: string, zeros: string, body: string, p6: string,
                      v: nat, base: nat, rbase: nat, b: nat, max: nat)
    requires (forall k :: 0 <= k < |p1| ==> p1[k] == ' ') && (forall k :: 0 <= k < |p6| ==> p6[k] == ' ')
    requires forall k :: 0 <= k < |zeros| ==> zeros[k] == '0'
    requires 2 <= b <= 16 && body != "" && AllDigits(body, b) && ValueOf(body, b) == v
    requires if IsHexIntro(prefix) then b == 16 && (rbase == 0 || rbase == 16)
             else prefix in {"", "+", "-", " "} && (rbase == b || (rbase == 0 && b == 8 && body[0] == '0'))
    ensures Parse(p1 + prefix + (zeros + body) + p6, rbase, max) ==
      InWord(v, prefix == "-", |p1| + |prefix| + |zeros| + |body|, max)
  {
    hide ValueOf, InWord, Parse;
    var lead := if prefix == " " then p1 + " " else p1;
    var mid := if prefix == " " then "" else prefix;
    ZerosDenoteNothing(zeros, body, b);
    ComposedParses(lead, mid, zeros + body, p6, rbase, b, max);
    assert lead + mid == p1 + prefix;
  }

  lemma FieldSplits(sp: Spec, zp: bool, prefix: string, dprec: int, body: string)
    returns (lead: string, zeros: string, tail: string)
    ensures Field(sp, zp, prefix, dprec, body) == lead + prefix + (zeros + body) + tail
    ensures forall k :: 0 <= k < |lead| ==> lead[k] == ' '
    ensures forall k :: 0 <= k < |zeros| ==> zeros[k] == '0'
    ensures forall k :: 0 <= k < |tail| ==> tail[k] == ' '
    ensures |lead| + |prefix| + |zeros| + |body| ==
      if sp.ladjust then RealSize(prefix, dprec, body) else |Field(sp, zp, prefix, dprec, body)|
    ensures !zp ==> |zeros| == Max(0, dprec - (|prefix| + |body|))
  {
    hide Field, RealSize;
    var pad := sp.width - RealSize(prefix, dprec, body);
    FieldParts(sp, zp, prefix, dprec, body);
    lead := PadText(!sp.ladjust && !zp, ' ', pad);
    var p3, z := PadText(zp && !sp.ladjust, '0', pad), Repeat('0', dprec - (|prefix| + |body|));
    zeros := p3 + z;
    tail := PadText(sp.ladjust, ' ', pad);
    Reassociate(lead, prefix, p3, z, body, tail);
  }

  lemma Reassociate(a: string, b: string, c: string, d: string, e: string, f: string)
    ensures a + b + c + d + e + f == a + b + (c + d + e) + f
  {
  }

  lemma NumberReadsBack(sp: Spec, prefix: string, v: nat, base: nat, upper: bool, rbase: nat, max: nat)
    requires base in {8, 10, 16} && (v != 0 || sp.prec != 0)
    requires prefix in {"", "+", "-", " ", "0x", "0X"} && Readable(sp, prefix, v, base, rbase)
    ensures var text := NumberField(sp, prefix, v, base, upper);
      Parse(text, rbase, max) ==
        InWord(v, prefix == "-", NumberLength(sp, text, prefix, Numeral(v, base, sp, upper)), max)
  {
    hide Numeral, ValueOf, InWord, Parse, Field;
    var body := Numeral(v, base, sp, upper);
    NumeralDenotes(v, base, sp, upper);
    var lead, zeros, tail := FieldSplits(sp, sp.zeropad && sp.prec < 0, prefix, sp.prec, body);
    var b := if rbase == 0 && prefix == "" && base == 16 then 8 else base;
    if b != base {
      ZeroReadsAsOctal(sp, upper);
      DigitsDenote(0, 8, false);
      assert Digits(0, 8, false) == "0";
    }
    FieldComposed(lead, prefix, zeros, body, tail, v, base, rbase, b, max);
  }

  // ---------- conversions and whole formats ----------

  predicate IsNumberConversion(c: char) {
    IsSignedConversion(c) || IsOctalConversion(c) || IsUnsignedConversion(c) || IsHexConversion(c)
  }

  /** The base strtoul must be given to read what conversion c prints: its own base, or 0 for the
      alternate octal and hexadecimal forms. */
  predicate ReadingBase(c: char, sp: Spec, rbase: nat) {
    if IsOctalConversion(c) then rbase == 8 || (rbase == 0 && sp.alt)
    else if IsHexConversion(c) then rbase == 16 || (rbase == 0 && sp.alt)
    else rbase == 10
  }

  lemma NegationCancels(v: uint32)
    requires v > 0
    ensures InWord(0x1_0000_0000 - v, true, 0, UINT32_MAX).value == v
  {
  }

  /** Whatever the flags, width and precision, a printed word reads back as itself, and all of the
      text is consumed unless it is padded on the right. */
  lemma ConversionReadsBack(c: char, sp: Spec, args: Args, used: nat, strs: Strings, upper: bool, count: nat, rbase: nat)
    requires IsNumberConversion(c) && ReadingBase(c, sp, rbase) && IsSignFlag(sp.sign)
    requires Argument(args(used), sp.short) != 0 || sp.prec != 0
    ensures var text := Convert(c, sp, args, used, strs, upper, count).text;
      var read := Parse(text, rbase, UINT32_MAX);
      && read.value == Argument(args(used), sp.short) && !read.erange
      && 0 < read.end <= |text| && (!sp.ladjust ==> read.end == |text|)
  {
    hide NumberField, Parse, Numeral, Argument;
    var v := Argument(args(used), sp.short);
    if IsSignedConversion(c) {
      if AsInt(v) < 0 {
        var end := FieldReadsBack(sp, "-", -AsInt(v), 10, upper, rbase);
        NegationCancels(v);
      } else {
        var end := FieldReadsBack(sp, SignText(sp.sign), v, 10, upper, rbase);
      }
    } else if IsOctalConversion(c) {
      var end := FieldReadsBack(sp, "", v, 8, upper, rbase);
    } else if IsHexConversion(c) {
      var end := FieldReadsBack(sp, if sp.alt && v != 0 then ['0', c] else "", v, 16, upper || c == 'X', rbase);
    } else {
      var end := FieldReadsBack(sp, "", v, 10, upper, rbase);
    }
  }

  lemma FieldReadsBack(sp: Spec, prefix: string, v: uint32, base: nat, upper: bool, rbase: nat) returns (end: nat)
    requires base in {8, 10, 16} && (v != 0 || sp.prec != 0)
    requires prefix in {"", "+", "-", " ", "0x", "0X"} && Readable(sp, prefix, v, base, rbase)
    ensures var text := NumberField(sp, prefix, v, base, upper);
      && 0 < end <= |text| && (!sp.ladjust ==> end == |text|)
      && Parse(text, rbase, UINT32_MAX) == InWord(v, prefix == "-", end, UINT32_MAX)
  {
    hide Numeral, Parse, Field;
    var body := Numeral(v, base, sp, upper);
    NumeralDenotes(v, base, sp, upper);
    NumberReadsBack(sp, prefix, v, base, upper, rbase, UINT32_MAX);
    FieldParts(sp, sp.zeropad && sp.prec < 0, prefix, sp.prec, body);
    end := NumberLength(sp, NumberField(sp, prefix, v, base, upper), prefix, body);
  }

  const NoStrings: Strings := _ => ""

  /** What sprintf makes of a format and its arguments. */
  function Printed(fmt: string, args: Args): string {
    Render(fmt, 0, args, 0, NoStrings, false, 0).text
  }

  /** The format is one conversion specification that ends in conversion character c. */
  predicate IsSingle(fmt: string, args: Args) {
    |fmt| >= 2 && fmt[0] == '%' && Gather(fmt, 1, args, 0, NoSpec).at == |fmt| - 1 && fmt[|fmt| - 1] != '\0'
  }

  /** For every format that is a single number conversion, with any flags, width and precision. */
  lemma SingleReadsBack(fmt: string, args: Args, rbase: nat)
    requires IsSingle(fmt, args)
    requires var g := Gather(fmt, 1, args, 0, NoSpec);
      var c := fmt[|fmt| - 1];
      && IsNumberConversion(c) && ReadingBase(c, g.spec, rbase)
      && (Argument(args(g.used), g.spec.short) != 0 || g.spec.prec != 0)
    ensures var g := Gather(fmt, 1, args, 0, NoSpec);
      var text := Printed(fmt, args);
      var read := Parse(text, rbase, UINT32_MAX);
      && read.value == Argument(args(g.used), g.spec.short) && !read.erange
      && (!g.spec.ladjust ==> read.end == |text|)
  {
    hide Convert, Gather, Parse, Argument;
    var g := Gather(fmt, 1, args, 0, NoSpec);
    ConversionReadsBack(fmt[|fmt| - 1], g.spec, args, g.used, NoStrings, false, 0, rbase);
    RenderStep(fmt, 0, args, 0, NoStrings, false, 0);
    var piece := Convert(fmt[|fmt| - 1], g.spec, args, g.used, NoStrings, false, 0);
    assert Render(fmt, |fmt|, args, piece.used, NoStrings, piece.upper, |piece.text|).text == "";
    assert piece.text + "" == piece.text;
  }

  /** Text printed by fmt reads back in base rbase as the first argument, completely and without error. */
  ghost predicate ReadsBack(fmt: string, w: uint32, rbase: nat) {
    var text := Printed(fmt, _ => w);
    Parse(text, rbase, UINT32_MAX) == Outcome(w, |text|, false)
  }

  lemma GatherPlain(fmt: string, args: Args, used: nat, sp: Spec, i: nat)
    requires i < |fmt| && fmt[i] in {'d', 'u', 'o', 'x', 'X'}
    ensures Gather(fmt, i, args, used, sp) == Gathered(sp, i, used)
  {
  }

  lemma PlainReadsBack(fmt: string, w: uint32, rbase: nat)
    requires (fmt, rbase) in {("%u", 10), ("%o", 8), ("%d", 10), ("%x", 16), ("%X", 16)}
    ensures ReadsBack(fmt, w, rbase)
  {
    hide Parse, Printed;
    GatherPlain(fmt, _ => w, 0, NoSpec, 1);
    SingleReadsBack(fmt, _ => w, rbase);
  }

  lemma AlternateReadsBack(fmt: string, w: uint32, rbase: nat)
    requires (fmt, rbase) in {("%#x", 16), ("%#x", 0), ("%#o", 8), ("%#o", 0)}
    ensures ReadsBack(fmt, w, rbase)
  {
    hide Parse, Printed, Gather;
    var args: Args := _ => w;
    GatherPlain(fmt, args, 0, NoSpec.(alt := true), 2);
    GatherStep(fmt, 1, args, 0, NoSpec);
    SingleReadsBack(fmt, args, rbase);
  }

  lemma PaddedReadsBack(w: uint32)
    ensures ReadsBack("%08x", w, 16)
  {
    hide Parse, Printed, Gather;
    var padded, args: Args := "%08x", _ => w;
    assert NumberEnd(padded, 2) == 3;
    assert padded[2..3] == "8" && ValueOf("8", 10) == 8;
    GatherPlain(padded, args, 0, NoSpec.(zeropad := true, width := 8), 3);
    GatherStep(padded, 2, args, 0, NoSpec.(zeropad := true));
    GatherStep(padded, 1, args, 0, NoSpec);
    SingleReadsBack(padded, args, 16);
  }

  /** The formats used throughout: %u, %o, %x, %X, %d, %#x, %#o and %08x. */
  lemma EveryWordReadsBack(w: uint32)
    ensures ReadsBack("%u", w, 10) && ReadsBack("%o", w, 8) && ReadsBack("%d", w, 10)
    ensures ReadsBack("%x", w, 16) && ReadsBack("%X", w, 16) && ReadsBack("%08x", w, 16)
    ensures ReadsBack("%#x", w, 16) && ReadsBack("%#x", w, 0)
    ensures ReadsBack("%#o", w, 8) && ReadsBack("%#o", w, 0)
  {
    hide ReadsBack;
    PlainReadsBack("%u", w, 10);
    PlainReadsBack("%o", w, 8);
    PlainReadsBack("%d", w, 10);
    PlainReadsBack("%x", w, 16);
    PlainReadsBack("%X", w, 16);
    PaddedReadsBack(w);
    AlternateReadsBack("%#x", w, 16);
    AlternateReadsBack("%#x", w, 0);
    AlternateReadsBack("%#o", w, 8);
    AlternateReadsBack("%#o", w, 0);
  }

  // ---------- decimal numbers inside other text ----------

  /** What "%d" prints. */
  function Decimal(w: uint32): string {
    SignedField(NoSpec, w, false)
  }

  /** A decimal number that something else follows is read back up to there. */
  lemma DecimalReadsBack(w: uint32, tail: string)
    requires tail != "" ==> EndsNumber(tail[0])
    ensures Parse(Decimal(w) + tail, 10, UINT32_MAX) == Outcome(w, |Decimal(w)|, false)
    ensures Decimal(w) != "" && Decimal(w)[0] != ' '
  {
    hide Digits, ValueOf, Parse, Field;
    var mid, v: nat := if AsInt(w) < 0 then "-" else "", if AsInt(w) < 0 then -AsInt(w) else w;
    var digs := Digits(v, 10, false);
    DigitsDenote(v, 10, false);
    BareField(NoSpec, false, mid, digs);
    ComposedParses("", mid, digs, tail, 10, 10, UINT32_MAX);
    assert "" + mid + digs + tail == Decimal(w) + tail;
    assert IsDigitIn(digs[0], 10);
    if AsInt(w) < 0 {
      NegationCancels(w);
    }
  }

  /** Without width or needed zeros a field is its prefix and body. */
  lemma BareField(sp: Spec, zp: bool, prefix: string, body: string)
    requires sp.width == 0 && sp.prec <= |prefix| + |body|
    ensures Field(sp, zp, prefix, sp.prec, body) == prefix + body
  {
  }
}

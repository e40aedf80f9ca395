/** The case of the hexadecimal digits that the formatter of lib/doprntx.c prints: it selects upper-case
    digits for %X and goes back to lower-case ones only when digits have been generated. */
module PrintCase {
  import opened Machine
  import opened CStrings
  import opened Printf
  import opened PrintParse
  import opened PrintDeparts

  // ---------- one conversion ----------

  /** The conversion that leaves the upper-case digits behind: %X of zero with precision zero. */
  predicate LeavesUpper(c: char, sp: Spec, w: uint32) {
    c == 'X' && Argument(w, sp.short) == 0 && sp.prec == 0
  }

  /** With lower-case digits selected, a conversion leaves upper-case ones exactly in that case. */
  lemma LeavesUpperExactly(c: char, sp: Spec, args: Args, used: nat, strs: Strings, count: nat)
    ensures Convert(c, sp, args, used, strs, false, count).upper <==> LeavesUpper(c, sp, args(used))
  {
    hide Field, Numeral, Argument;
  }

  /** Whether the upper-case digits are selected behind a conversion. */
  predicate UpperAfter(c: char, sp: Spec, w: uint32, upper: bool) {
    if IsNumberConversion(c) then (upper || c == 'X') && Argument(w, sp.short) == 0 && sp.prec == 0
    else if c == 'p' then upper && w == 0 && sp.prec == 0
    else upper
  }

  function UsedAfter(c: char, used: nat): nat {
    if IsNumberConversion(c) || c in {'c', 'n', 'p', 's'} then used + 1 else used
  }

  /** The number has a hexadecimal digit that is a letter. */
  predicate HasLetter(v: nat) {
    v % 16 >= 10 || (v >= 16 && HasLetter(v / 16))
  }

  lemma {:induction false} LettersShow(v: nat)
    ensures |Digits(v, 16, true)| == |Digits(v, 16, false)|
    ensures Digits(v, 16, true) == Digits(v, 16, false) <==> !HasLetter(v)
  {
    if v >= 16 {
      Quotient(v, 16);
      LettersShow(v / 16);
      LastCharacter(Digits(v / 16, 16, true), Digits(v / 16, 16, false), DigitChar(v % 16, true), DigitChar(v % 16, false));
    }
  }

  lemma LastCharacter(a: string, b: string, c: char, d: char)
    requires |a| == |b|
    ensures a + [c] == b + [d] <==> a == b && c == d
  {
    if a + [c] == b + [d] {
      assert a == (a + [c])[..|a|] && b == (b + [d])[..|b|];
      assert (a + [c])[|a|] == c && (b + [d])[|b|] == d;
    }
  }

  lemma {:induction false} DecimalHasNoLetter(v: nat, base: nat)
    requires 2 <= base <= 10
    ensures Digits(v, base, true) == Digits(v, base, false)
  {
    if v >= base {
      Quotient(v, base);
      DecimalHasNoLetter(v / base, base);
    }
  }

  /** Upper-case digits that are selected show in what a conversion prints. */
  predicate Shows(c: char, sp: Spec, w: uint32, upper: bool) {
    upper && ((c == 'x' && HasLetter(Argument(w, sp.short))) || (c == 'p' && HasLetter(w)))
  }

  lemma NumeralCase(v: nat, base: nat, sp: Spec, upper: bool)
    requires base in {8, 10, 16}
    ensures var u, l := Numeral(v, base, sp, upper), Numeral(v, base, sp, false);
      |u| == |l| && (u == l <==> !(upper && base == 16 && HasLetter(v)))
  {
    if base == 16 {
      LettersShow(v);
    } else {
      DecimalHasNoLetter(v, base);
    }
  }

  /** A field differs exactly where its body does. */
  lemma FieldBody(sp: Spec, zp: bool, prefix: string, dprec: int, a: string, b: string)
    requires |a| == |b|
    ensures var f, g := Field(sp, zp, prefix, dprec, a), Field(sp, zp, prefix, dprec, b);
      |f| == |g| && (f == g <==> a == b)
  {
    hide Repeat;
    var pad := sp.width - RealSize(prefix, dprec, a);
    var front := PadText(!sp.ladjust && !zp, ' ', pad) + prefix + PadText(zp && !sp.ladjust, '0', pad)
      + Repeat('0', dprec - (|prefix| + |a|));
    Surrounded(front, a, b, PadText(sp.ladjust, ' ', pad));
  }

  lemma Surrounded(front: string, a: string, b: string, back: string)
    requires |a| == |b|
    ensures |front + a + back| == |front + b + back| && (front + a + back == front + b + back <==> a == b)
  {
    if front + a + back == front + b + back {
      assert a == (front + a + back)[|front|..|front| + |a|];
      assert b == (front + b + back)[|front|..|front| + |b|];
    }
  }

  lemma NumberCase(sp: Spec, prefix: string, v: nat, base: nat, upper: bool)
    requires base in {8, 10, 16}
    ensures var f, g := NumberField(sp, prefix, v, base, upper), NumberField(sp, prefix, v, base, false);
      |f| == |g| && (f == g <==> !(upper && base == 16 && HasLetter(v)))
  {
    hide Field, Numeral, HasLetter;
    NumeralCase(v, base, sp, upper);
    FieldBody(sp, sp.zeropad && sp.prec < 0, prefix, sp.prec, Numeral(v, base, sp, upper), Numeral(v, base, sp, false));
  }

  /** The selected case changes nothing but letters, and those only for %x and %p. */
  lemma ConvertCase(c: char, sp: Spec, args: Args, used: nat, strs: Strings, upper: bool, count: nat)
    ensures var u, l := Convert(c, sp, args, used, strs, upper, count), Convert(c, sp, args, used, strs, false, count);
      && u.used == l.used == UsedAfter(c, used) && u.stores == l.stores
      && u.upper == UpperAfter(c, sp, args(used), upper)
      && |u.text| == |l.text| && (u.text == l.text <==> !Shows(c, sp, args(used), upper))
  {
    hide NumberField, Field, Argument, HasLetter, Clipped, CountStore;
    var w, v := args(used), Argument(args(used), sp.short);
    if IsSignedConversion(c) {
      if AsInt(v) < 0 {
        NumberCase(sp, "-", -AsInt(v), 10, upper);
      } else {
        NumberCase(sp, SignText(sp.sign), v, 10, upper);
      }
    } else if IsOctalConversion(c) {
      NumberCase(sp, "", v, 8, upper);
    } else if c == 'p' {
      NumberCase(sp, "", w, 16, upper);
    } else if IsUnsignedConversion(c) {
      NumberCase(sp, "", v, 10, upper);
    } else if c == 'x' {
      NumberCase(sp, if sp.alt && v != 0 then ['0', c] else "", v, 16, upper);
    }
  }

  // ---------- whole formats ----------

  /** What the format would print if the lower-case digits were selected before every conversion. */
  function RenderReset(fmt: string, i: nat, args: Args, used: nat, strs: Strings, count: nat): Rendered
    requires i <= |fmt|
    decreases |fmt| - i
  {
    var ch := Peek(fmt, i);
    if ch == '\0' then Rendered("", [])
    else if ch != '%' then
      Then(Literal(ch), [], RenderReset(fmt, i + 1, args, used, strs, count + |Literal(ch)|))
    else
      var g := Gather(fmt, i + 1, args, used, NoSpec);
      var c := Peek(fmt, g.at);
      if c == '\0' then Rendered("", [])
      else
        var piece := Convert(c, g.spec, args, g.used, strs, false, count);
        Then(piece.text, piece.stores, RenderReset(fmt, g.at + 1, args, piece.used, strs, count + |piece.text|))
  }

  /** Upper-case digits left behind by some %X show in a later conversion. */
  predicate Leaks(fmt: string, i: nat, args: Args, used: nat, upper: bool)
    requires i <= |fmt|
    decreases |fmt| - i
  {
    var ch := Peek(fmt, i);
    if ch == '\0' then false
    else if ch != '%' then Leaks(fmt, i + 1, args, used, upper)
    else
      var g := Gather(fmt, i + 1, args, used, NoSpec);
      var c := Peek(fmt, g.at);
      c != '\0' &&
      (Shows(c, g.spec, args(g.used), upper) ||
       Leaks(fmt, g.at + 1, args, UsedAfter(c, g.used), UpperAfter(c, g.spec, args(g.used), upper)))
  }

  lemma ThenCase(t: string, t': string, stores: seq<Store>, r: Rendered, r': Rendered)
    requires |t| == |t'|
    ensures Then(t, stores, r) == Then(t', stores, r') <==> t == t' && r == r'
  {
    var a, b := Then(t, stores, r), Then(t', stores, r');
    assert a.text[..|t|] == t && b.text[..|t|] == t';
    assert a.text[|t|..] == r.text && b.text[|t|..] == r'.text;
    assert a.stores[|stores|..] == r.stores && b.stores[|stores|..] == r'.stores;
  }

  /** For every format and argument list, from every position and with either case selected: the output
      is that of a formatter that selects the lower-case digits before every conversion, exactly when no
      upper-case digits left behind show. */
  lemma {:induction false} LowerCaseExactly(fmt: string, i: nat, args: Args, used: nat, strs: Strings, upper: bool, count: nat)
    requires i <= |fmt|
    ensures Render(fmt, i, args, used, strs, upper, count) == RenderReset(fmt, i, args, used, strs, count) <==>
            !Leaks(fmt, i, args, used, upper)
    decreases |fmt| - i
  {
    hide Gather, Convert, Literal, Then, Shows, UpperAfter, UsedAfter;
    var ch := Peek(fmt, i);
    if ch == '\0' {
    } else if ch != '%' {
      var n := count + |Literal(ch)|;
      LowerCaseExactly(fmt, i + 1, args, used, strs, upper, n);
      ThenCase(Literal(ch), Literal(ch), [],
               Render(fmt, i + 1, args, used, strs, upper, n), RenderReset(fmt, i + 1, args, used, strs, n));
    } else {
      var g := Gather(fmt, i + 1, args, used, NoSpec);
      var c := Peek(fmt, g.at);
      if c != '\0' {
        var u, l := Convert(c, g.spec, args, g.used, strs, upper, count), Convert(c, g.spec, args, g.used, strs, false, count);
        ConvertCase(c, g.spec, args, g.used, strs, upper, count);
        var n := count + |u.text|;
        LowerCaseExactly(fmt, g.at + 1, args, u.used, strs, u.upper, n);
        ThenCase(u.text, l.text, u.stores, Render(fmt, g.at + 1, args, u.used, strs, u.upper, n),
                 RenderReset(fmt, g.at + 1, args, u.used, strs, n));
      }
    }
  }

  /** No conversion of the format is a %X of zero with precision zero. */
  predicate NeverLeavesUpper(fmt: string, i: nat, args: Args, used: nat)
    requires i <= |fmt|
    decreases |fmt| - i
  {
    var ch := Peek(fmt, i);
    if ch == '\0' then true
    else if ch != '%' then NeverLeavesUpper(fmt, i + 1, args, used)
    else
      var g := Gather(fmt, i + 1, args, used, NoSpec);
      var c := Peek(fmt, g.at);
      c != '\0' ==>
      !LeavesUpper(c, g.spec, args(g.used)) && NeverLeavesUpper(fmt, g.at + 1, args, UsedAfter(c, g.used))
  }

  lemma {:induction false} NothingLeaks(fmt: string, i: nat, args: Args, used: nat)
    requires i <= |fmt| && NeverLeavesUpper(fmt, i, args, used)
    ensures !Leaks(fmt, i, args, used, false)
    decreases |fmt| - i
  {
    hide Gather, Argument;
    var ch := Peek(fmt, i);
    if ch == '%' {
      var g := Gather(fmt, i + 1, args, used, NoSpec);
      var c := Peek(fmt, g.at);
      if c != '\0' {
        NothingLeaks(fmt, g.at + 1, args, UsedAfter(c, g.used));
      }
    } else if ch != '\0' {
      NothingLeaks(fmt, i + 1, args, used);
    }
  }

  /** A format without such a conversion prints every number in the case it asks for. */
  lemma LowerCaseWithoutZeroX(fmt: string, args: Args, strs: Strings)
    requires NeverLeavesUpper(fmt, 0, args, 0)
    ensures Render(fmt, 0, args, 0, strs, false, 0) == RenderReset(fmt, 0, args, 0, strs, 0)
  {
    NothingLeaks(fmt, 0, args, 0);
    LowerCaseExactly(fmt, 0, args, 0, strs, false, 0);
  }

  /** Behind such a conversion the next hexadecimal one prints the upper-case field, which differs from
      the one it should print exactly when the number has a letter among its digits. */
  lemma NextHexIsUpper(sp: Spec, args: Args, used: nat, strs: Strings, count: nat)
    ensures var v := Argument(args(used), sp.short);
      var text := Convert('x', sp, args, used, strs, true, count).text;
      && text == NumberField(sp, if sp.alt && v != 0 then "0x" else "", v, 16, true)
      && (text != Convert('x', sp, args, used, strs, false, count).text <==> HasLetter(v))
  {
    hide NumberField, Field, Argument, HasLetter;
    ConvertCase('x', sp, args, used, strs, true, count);
  }

  const LEAK_FORMAT := "%.0X%x"

  const LEAK_ARGS: Args := i => if i == 0 then 0 else 0xAB

  lemma ZeroPrintsNothing()
    ensures Convert('X', NoSpec.(prec := 0), LEAK_ARGS, 0, NoStrings, false, 0) == Piece("", 1, true, [])
  {
    hide Field;
    BareField(NoSpec.(prec := 0), false, "", "");
  }

  lemma LettersPrint(upper: bool)
    ensures Convert('x', NoSpec, LEAK_ARGS, 1, NoStrings, upper, 0) == Piece(if upper then "AB" else "ab", 2, false, [])
  {
    hide Field, Digits;
    SmallNumerals();
    BareField(NoSpec, false, "", if upper then "AB" else "ab");
  }

  lemma LeakGathered()
    ensures Gather(LEAK_FORMAT, 1, LEAK_ARGS, 0, NoSpec) == Gathered(NoSpec.(prec := 0), 3, 0)
    ensures Gather(LEAK_FORMAT, 5, LEAK_ARGS, 1, NoSpec) == Gathered(NoSpec, 5, 1)
  {
    hide Gather;
    GatherPrecision(LEAK_FORMAT, LEAK_ARGS);
    GatherPlain(LEAK_FORMAT, LEAK_ARGS, 1, NoSpec, 5);
  }

  lemma LeakPrinted()
    ensures Printed(LEAK_FORMAT, LEAK_ARGS) == "AB"
  {
    hide Gather, Convert, Render;
    LeakGathered();
    ZeroPrintsNothing();
    LettersPrint(true);
    RenderStep(LEAK_FORMAT, 0, LEAK_ARGS, 0, NoStrings, false, 0);
    RenderStep(LEAK_FORMAT, 4, LEAK_ARGS, 1, NoStrings, true, 0);
    RenderStep(LEAK_FORMAT, 6, LEAK_ARGS, 2, NoStrings, false, 2);
    assert "" + ("AB" + "") == "AB";
  }

  lemma LeakAvoided()
    ensures RenderReset(LEAK_FORMAT, 0, LEAK_ARGS, 0, NoStrings, 0).text == "ab"
  {
    hide Gather, Convert, RenderReset;
    LeakGathered();
    ZeroPrintsNothing();
    LettersPrint(false);
    ResetStep(LEAK_FORMAT, 0, LEAK_ARGS, 0, NoStrings, 0);
    ResetStep(LEAK_FORMAT, 4, LEAK_ARGS, 1, NoStrings, 0);
    ResetStep(LEAK_FORMAT, 6, LEAK_ARGS, 2, NoStrings, 2);
    assert "" + ("ab" + "") == "ab";
  }

  /** A zero printed by "%.0X" makes a later "%x" print upper-case digits. */
  lemma UpperCaseLeaks()
    ensures Printed("%.0X%x", LEAK_ARGS) == "AB" && RenderReset("%.0X%x", 0, LEAK_ARGS, 0, NoStrings, 0).text == "ab"
  {
    LeakPrinted();
    LeakAvoided();
  }

  lemma ResetStep(fmt: string, i: nat, args: Args, used: nat, strs: Strings, count: nat)
    requires i <= |fmt|
    ensures var r := RenderReset(fmt, i, args, used, strs, count);
      var ch := Peek(fmt, i);
      if ch == '\0' then r == Rendered("", [])
      else if ch != '%' then
        r == Then(Literal(ch), [], RenderReset(fmt, i + 1, args, used, strs, count + |Literal(ch)|))
      else
        var g := Gather(fmt, i + 1, args, used, NoSpec);
        if Peek(fmt, g.at) == '\0' then r == Rendered("", [])
        else
          var piece := Convert(Peek(fmt, g.at), g.spec, args, g.used, strs, false, count);
          r == Then(piece.text, piece.stores,
                    RenderReset(fmt, g.at + 1, args, piece.used, strs, count + |piece.text|))
  {
    hide Gather, Convert, Literal, Then;
  }
}

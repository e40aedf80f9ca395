/** The formatter of lib/doprntx.c. */
module Printf {
  import opened Machine
  import opened Wrappers
  import opened CStrings

  // Size of the buffer in which digits are generated from the end.
  const BUF := 32

  /** The variable arguments, word by word, and the strings that argument words point to.
      Word 0 is the null pointer. */
  type Args = nat -> uint32
  type Strings = uint32 -> string

  /** The flags, width, precision and sign character gathered after a '%'. */
  datatype Spec = Spec(alt: bool, ladjust: bool, zeropad: bool, short: bool, long: bool, width: nat, prec: int, sign: char)

  const NoSpec := Spec(false, false, false, false, false, 0, -1, '\0')

  /** What %n stores: the pointer, whether it is a short, and the count so far, cut to its size. */
  datatype Store = Store(ptr: uint32, short: bool, value: uint32)

  /** A long is stored when both sizes are given, and it has 32 bits like an int. */
  function CountStore(ptr: uint32, sp: Spec, count: nat): Store {
    var short := sp.short && !sp.long;
    Store(ptr, short, count % if short then 0x1_0000 else WORD)
  }

  function AsInt(w: uint32): int {
    if w >= 0x8000_0000 then w - 0x1_0000_0000 else w
  }

  /** ARG(): a short argument is sign-extended from its low 16 bits. */
  function Argument(w: uint32, short: bool): uint32 {
    if !short then w
    else if w % 0x1_0000 >= 0x8000 then w % 0x1_0000 + 0xFFFF_0000
    else w % 0x1_0000
  }

  // ---------- the flag machine ----------

  /** First position from i on that holds no decimal digit. */
  function NumberEnd(fmt: string, i: nat): (j: nat)
    requires i <= |fmt|
    ensures i <= j <= |fmt| && AllDigits(fmt[i..j], 10)
    decreases |fmt| - i
  {
    if IsDecimal(Peek(fmt, i)) then
      var j := NumberEnd(fmt, i + 1);
      assert fmt[i..j] == [fmt[i]] + fmt[i + 1..j];
      j
    else i
  }

  function Number(fmt: string, i: nat): nat
    requires i <= |fmt|
  {
    ValueOf(fmt[i..NumberEnd(fmt, i)], 10)
  }

  /** The sign characters that the flag machine sets. */
  predicate IsSignFlag(c: char) {
    c == '\0' || c == '+' || c == ' '
  }

  /** One character, or number, that the flag machine takes: where it goes on, the arguments used and
      the specification so far; or none. */
  datatype Flag = NoFlag | Flag(at: nat, used: nat, spec: Spec)

  function FlagStep(fmt: string, i: nat, args: Args, used: nat, sp: Spec): (f: Flag)
    requires i <= |fmt|
    ensures f.Flag? ==> i < f.at <= |fmt| && f.used >= used
    ensures f.Flag? && IsSignFlag(sp.sign) ==> IsSignFlag(f.spec.sign)
  {
    var c := Peek(fmt, i);
    if c == ' ' then Flag(i + 1, used, if sp.sign == '\0' then sp.(sign := ' ') else sp)
    else if c == '#' then Flag(i + 1, used, sp.(alt := true))
    else if c == '*' then
      var n := AsInt(args(used));
      Flag(i + 1, used + 1, if n >= 0 then sp.(width := n) else sp.(width := -n, ladjust := true))
    else if c == '-' then Flag(i + 1, used, sp.(ladjust := true))
    else if c == '+' then Flag(i + 1, used, sp.(sign := '+'))
    else if c == '.' then
      if Peek(fmt, i + 1) == '*' then
        var n := AsInt(args(used));
        Flag(i + 2, used + 1, sp.(prec := if n < 0 then -1 else n))
      else
        Flag(NumberEnd(fmt, i + 1), used, sp.(prec := Number(fmt, i + 1)))
    else if c == '0' then Flag(i + 1, used, sp.(zeropad := true))
    else if '1' <= c <= '9' then
      NumberAdvances(fmt, i);
      Flag(NumberEnd(fmt, i), used, sp.(width := Number(fmt, i)))
    else if c == 'L' then Flag(i + 1, used, sp)
    else if c == 'l' then Flag(i + 1, used, sp.(long := true))
    else if c == 'h' then Flag(i + 1, used, sp.(short := true))
    else NoFlag
  }

  /** Where the flag machine stops: the gathered specification, the position of the conversion
      character and the number of arguments used. */
  datatype Gathered = Gathered(spec: Spec, at: nat, used: nat)

  function Gather(fmt: string, i: nat, args: Args, used: nat, sp: Spec): (g: Gathered)
    requires i <= |fmt|
    ensures i <= g.at <= |fmt| && g.used >= used
    ensures IsSignFlag(sp.sign) ==> IsSignFlag(g.spec.sign)
    decreases |fmt| - i
  {
    match FlagStep(fmt, i, args, used, sp)
    case NoFlag => Gathered(sp, i, used)
    case Flag(at, used', sp') => Gather(fmt, at, args, used', sp')
  }

  lemma GatherStep(fmt: string, i: nat, args: Args, used: nat, sp: Spec)
    requires i <= |fmt|
    ensures Gather(fmt, i, args, used, sp) ==
            match FlagStep(fmt, i, args, used, sp) {
              case NoFlag => Gathered(sp, i, used)
              case Flag(at, used', sp') => Gather(fmt, at, args, used', sp')
            }
  {
    hide FlagStep;
  }

  lemma EmptyNumber(fmt: string, i: nat)
    requires i <= |fmt|
    ensures AllDigits(fmt[i..i], 10) && ValueOf(fmt[i..i], 10) == 0
  {
  }

  lemma ExtendSlice(fmt: string, i: nat, j: nat)
    requires i <= j < |fmt|
    ensures fmt[i..j + 1] == fmt[i..j] + [fmt[j]]
  {
  }

  lemma NumberAdvances(fmt: string, i: nat)
    requires i <= |fmt| && IsDecimal(Peek(fmt, i))
    ensures NumberEnd(fmt, i) > i
  {
  }

  // ---------- fields ----------

  function DigitChar(d: nat, upper: bool): (c: char)
    requires d < 16
    ensures DigitValue(c) == d
  {
    if d < 10 then (d + '0' as int) as char
    else if upper then (d - 10 + 'A' as int) as char
    else (d - 10 + 'a' as int) as char
  }

  lemma Quotient(v: nat, base: nat)
    requires 2 <= base <= v
    ensures 0 < v / base < v && 0 <= v % base < base
    ensures v == v / base * base + v % base
  {
    var q, r := v / base, v % base;
    assert v == q * base + r;
    ProductGrows(q, base, 2);
  }

  lemma ProductGrows(q: nat, base: nat, b: nat)
    requires base >= b
    ensures q * base >= q * b
    ensures q == 0 ==> q * base == 0
  {
  }

  /** The digits of v, most significant first, at least one. */
  function Digits(v: nat, base: nat, upper: bool): (t: string)
    requires 2 <= base <= 16
    ensures t != "" && AllDigits(t, base)
  {
    if v < base then [DigitChar(v, upper)]
    else
      Quotient(v, base);
      Digits(v / base, base, upper) + [DigitChar(v % base, upper)]
  }

  /** The digits of a number field: none for a zero value with precision zero, and a leading zero
      for the alternate octal form. */
  function Numeral(v: nat, base: nat, sp: Spec, upper: bool): string
    requires 2 <= base <= 16
  {
    if v == 0 && sp.prec == 0 then ""
    else
      var t := Digits(v, base, upper);
      if sp.alt && base == 8 && t[0] != '0' then "0" + t else t
  }

  /** Size of a field before padding: `dprec` counts the prefix. */
  function RealSize(prefix: string, dprec: int, body: string): nat {
    Max(dprec, |prefix| + |body|)
  }

  function PadText(on: bool, c: char, n: int): string {
    if on then Repeat(c, n) else ""
  }

  /** The text of a field: blanks, prefix, zeros, body, blanks. */
  function Field(sp: Spec, zeropad: bool, prefix: string, dprec: int, body: string): string {
    var pad := sp.width - RealSize(prefix, dprec, body);
    PadText(!sp.ladjust && !zeropad, ' ', pad)
    + prefix
    + PadText(zeropad && !sp.ladjust, '0', pad)
    + Repeat('0', dprec - (|prefix| + |body|))
    + body
    + PadText(sp.ladjust, ' ', pad)
  }

  function SignText(c: char): string {
    if c == '\0' then "" else [c]
  }

  function NumberField(sp: Spec, prefix: string, v: nat, base: nat, upper: bool): string
    requires 2 <= base <= 16
  {
    Field(sp, sp.zeropad && sp.prec < 0, prefix, sp.prec, Numeral(v, base, sp, upper))
  }

  function SignedField(sp: Spec, w: uint32, upper: bool): string {
    if AsInt(w) < 0 then NumberField(sp, "-", -AsInt(w), 10, upper)
    else NumberField(sp, SignText(sp.sign), w, 10, upper)
  }

  function HexField(sp: Spec, c: char, w: uint32, upper: bool): string {
    NumberField(sp, if sp.alt && w != 0 then ['0', c] else "", w, 16, upper)
  }

  /** At most `prec` characters of a string when a precision is given. */
  function Clipped(t: string, prec: int): string {
    if 0 <= prec < |t| then t[..prec] else t
  }

  /** One conversion: its text, the arguments used so far, whether upper-case digits stay selected
      for the next conversion, and what it stores. */
  datatype Piece = Piece(text: string, used: nat, upper: bool, stores: seq<Store>)

  predicate IsSignedConversion(c: char) {
    c == 'd' || c == 'i' || c == 'D'
  }

  predicate IsOctalConversion(c: char) {
    c == 'o' || c == 'O'
  }

  predicate IsUnsignedConversion(c: char) {
    c == 'u' || c == 'U'
  }

  predicate IsHexConversion(c: char) {
    c == 'x' || c == 'X'
  }

  /** `digs` is reset to the lower-case digits only when digits are generated. */
  predicate StaysUpper(upper: bool, v: nat, sp: Spec) {
    upper && v == 0 && sp.prec == 0
  }

  function Convert(c: char, sp: Spec, args: Args, used: nat, strs: Strings, upper: bool, count: nat): Piece {
    var w := args(used);
    var v := Argument(w, sp.short);
    if c == 'c' then Piece(Field(sp, sp.zeropad, "", 0, [(w % 256) as char]), used + 1, upper, [])
    else if IsSignedConversion(c) then Piece(SignedField(sp, v, upper), used + 1, StaysUpper(upper, v, sp), [])
    else if c == 'n' then Piece("", used + 1, upper, [CountStore(w, sp, count)])
    else if IsOctalConversion(c) then Piece(NumberField(sp, "", v, 8, upper), used + 1, StaysUpper(upper, v, sp), [])
    else if c == 'p' then Piece(NumberField(sp, "", w, 16, upper), used + 1, StaysUpper(upper, w, sp), [])
    else if c == 's' then
      Piece(Field(sp, sp.zeropad, "", 0, Clipped(if w == 0 then "(null)" else strs(w), sp.prec)), used + 1, upper, [])
    else if IsUnsignedConversion(c) then Piece(NumberField(sp, "", v, 10, upper), used + 1, StaysUpper(upper, v, sp), [])
    else if IsHexConversion(c) then
      Piece(HexField(sp, c, v, upper || c == 'X'), used + 1, StaysUpper(upper || c == 'X', v, sp), [])
    else Piece([c], used, upper, [])
  }

  // ---------- whole formats ----------

  datatype Rendered = Rendered(text: string, stores: seq<Store>)

  /** A newline in the format goes out as carriage return and line feed. */
  function Literal(c: char): string {
    if c == '\n' then "\r\n" else [c]
  }

  function Render(fmt: string, i: nat, args: Args, used: nat, strs: Strings, upper: bool, count: nat): Rendered
    requires i <= |fmt|
    decreases |fmt| - i
  {
    var ch := Peek(fmt, i);
    if ch == '\0' then Rendered("", [])
    else if ch != '%' then
      var rest := Render(fmt, i + 1, args, used, strs, upper, count + |Literal(ch)|);
      Then(Literal(ch), [], rest)
    else
      var g := Gather(fmt, i + 1, args, used, NoSpec);
      var c := Peek(fmt, g.at);
      if c == '\0' then Rendered("", [])
      else
        var piece := Convert(c, g.spec, args, g.used, strs, upper, count);
        var rest := Render(fmt, g.at + 1, args, piece.used, strs, piece.upper, count + |piece.text|);
        Then(piece.text, piece.stores, rest)
  }

  /** One step of the formatter's main loop. */
  lemma RenderStep(fmt: string, i: nat, args: Args, used: nat, strs: Strings, upper: bool, count: nat)
    requires i <= |fmt|
    ensures var r := Render(fmt, i, args, used, strs, upper, count);
      var ch := Peek(fmt, i);
      if ch == '\0' then r == Rendered("", [])
      else if ch != '%' then
        r == Then(Literal(ch), [], Render(fmt, i + 1, args, used, strs, upper, count + |Literal(ch)|))
      else
        var g := Gather(fmt, i + 1, args, used, NoSpec);
        if Peek(fmt, g.at) == '\0' then r == Rendered("", [])
        else
          var piece := Convert(Peek(fmt, g.at), g.spec, args, g.used, strs, upper, count);
          r == Then(piece.text, piece.stores,
                    Render(fmt, g.at + 1, args, piece.used, strs, piece.upper, count + |piece.text|))
  {
    hide Gather, Convert, Literal, Then;
  }

  function Then(text: string, stores: seq<Store>, rest: Rendered): Rendered {
    Rendered(text + rest.text, stores + rest.stores)
  }

  /** What has gone out, with what is still to come, makes up the whole. */
  ghost predicate Pending(all: Rendered, text: string, stored: seq<Store>, rest: Rendered) {
    Then(text, stored, rest) == all
  }

  lemma PendingStart(all: Rendered)
    ensures Pending(all, "", [], all)
  {
    assert "" + all.text == all.text && [] + all.stores == all.stores;
  }

  lemma PendingStep(all: Rendered, text: string, stored: seq<Store>, t: string, s: seq<Store>, rest: Rendered)
    ensures Pending(all, text, stored, Then(t, s, rest)) ==> Pending(all, text + t, stored + s, rest)
  {
    assert text + (t + rest.text) == text + t + rest.text;
    assert stored + (s + rest.stores) == stored + s + rest.stores;
  }

  lemma PendingEnd(all: Rendered, text: string, stored: seq<Store>)
    requires Pending(all, text, stored, Rendered("", []))
    ensures text == all.text && stored == all.stores
  {
  }

  // ---------- field sizes ----------

  /** A field is as wide as asked for, or as its text needs. */
  lemma FieldLength(sp: Spec, zeropad: bool, prefix: string, dprec: int, body: string)
    ensures |Field(sp, zeropad, prefix, dprec, body)| == Max(sp.width, RealSize(prefix, dprec, body))
  {
  }

  lemma FieldParts(sp: Spec, zeropad: bool, prefix: string, dprec: int, body: string)
    ensures RealSize(prefix, dprec, body) == (if dprec > |prefix| + |body| then dprec else |prefix| + |body|)
    ensures var pad := sp.width - RealSize(prefix, dprec, body);
      Field(sp, zeropad, prefix, dprec, body) ==
        PadText(!sp.ladjust && !zeropad, ' ', pad) + prefix + PadText(zeropad && !sp.ladjust, '0', pad)
        + Repeat('0', dprec - (|prefix| + |body|)) + body + PadText(sp.ladjust, ' ', pad)
    ensures |Field(sp, zeropad, prefix, dprec, body)| == Max(sp.width, RealSize(prefix, dprec, body))
  {
    FieldLength(sp, zeropad, prefix, dprec, body);
  }

  lemma NoPadding(c: char, n: int)
    ensures n <= 0 ==> Repeat(c, n) == ""
  {
  }

  /** The six parts of a field go out one by one behind what is there. */
  lemma PartsAppend(o: string, a: string, b: string, c: string, d: string, e: string, f: string)
    ensures o + a + b + c + d + e + f == o + (a + b + c + d + e + f)
  {
    Regroup(o, a, b);
    Regroup(o, a + b, c);
    Regroup(o, a + b + c, d);
    Regroup(o, a + b + c + d, e);
    Regroup(o, a + b + c + d + e, f);
  }

  function Pow8(k: nat): nat {
    if k == 0 then 1 else 8 * Pow8(k - 1)
  }

  lemma QuotientBound(v: nat, base: nat, b: nat)
    requires 8 <= base <= v < 8 * b
    ensures v / base < b
  {
    Quotient(v, base);
    ProductGrows(v / base, base, 8);
  }

  lemma {:induction false} DigitsBound(v: nat, base: nat, upper: bool, k: nat)
    requires 8 <= base <= 16 && k > 0 && v < Pow8(k)
    ensures |Digits(v, base, upper)| <= k
    decreases k
  {
    if v >= base {
      Quotient(v, base);
      QuotientBound(v, base, Pow8(k - 1));
      DigitsBound(v / base, base, upper, k - 1);
    }
  }

  /** Eleven octal digits hold any word, so digits never run past the front of the buffer. */
  lemma DigitsFitBuffer(v: uint32, base: nat, upper: bool)
    requires 8 <= base <= 16
    ensures |Digits(v, base, upper)| <= 11
  {
    assert Pow8(11) == 0x2_0000_0000;
    DigitsBound(v, base, upper, 11);
  }

  lemma {:induction false} LeadingZero(v: nat, base: nat, upper: bool)
    requires 2 <= base <= 16
    ensures Digits(v, base, upper)[0] == '0' <==> v == 0
  {
    if v >= base {
      Quotient(v, base);
      LeadingZero(v / base, base, upper);
    }
  }

  /** Putting a character in front of the text at the end of a buffer. */
  lemma SlicePrepend(buf: seq<char>, t: nat, c: char)
    requires t < |buf|
    ensures buf[t := c][t..] == [c] + buf[t + 1..]
  {
  }

  function LastDigit(v: nat, base: nat): nat
    requires base > 0
  {
    v % base
  }

  function OtherDigits(v: nat, base: nat): nat
    requires base > 0
  {
    v / base
  }

  /** One round of the generation loop, with `tail` already in the buffer. */
  lemma DigitStep(ul: nat, base: nat, upper: bool, tail: string)
    requires 2 <= base <= 16
    ensures var d, r := LastDigit(ul, base), OtherDigits(ul, base);
      && d < 16 && (r > 0 ==> r < ul)
      && Digits(ul, base, upper) + tail ==
         if r == 0 then [DigitChar(d, upper)] + tail else Digits(r, base, upper) + ([DigitChar(d, upper)] + tail)
  {
    if ul >= base {
      Quotient(ul, base);
    } else {
      SmallQuotient(ul, base);
    }
  }

  lemma SmallQuotient(v: nat, base: nat)
    requires v < base
    ensures v / base == 0 && v % base == v
  {
  }

  lemma NumeralIs(v: nat, base: nat, sp: Spec, upper: bool, t: string)
    requires 2 <= base <= 16
    requires v == 0 && sp.prec == 0 ==> t == ""
    requires v != 0 || sp.prec != 0 ==>
      var d := Digits(v, base, upper);
      t == if sp.alt && base == 8 && d[0] != '0' then "0" + d else d
    ensures t == Numeral(v, base, sp, upper)
  {
  }

  class Printer {
    // Everything handed to putc so far, and everything stored by %n.
    var out: string
    var stores: seq<Store>

    constructor ()
      ensures out == "" && stores == []
    {
      out, stores := "", [];
    }

    method Putc(c: char)
      modifies this`out
      ensures out == old(out) + [c]
    {
      out := out + [c];
    }

    method Puts(t: string)
      modifies this`out
      ensures out == old(out) + t
    {
      var i := 0;
      while i < |t|
        invariant i <= |t| && out == old(out) + t[..i]
      {
        Putc(t[i]);
        i := i + 1;
        assert t[..i] == t[..i-1] + [t[i-1]];
      }
      assert t[..i] == t;
    }

    /** for( n = from; n < to; n++ ) putc( c ) */
    method Pad(c: char, from: int, to: int)
      modifies this`out
      ensures out == old(out) + Repeat(c, to - from)
    {
      var n := from;
      while n < to
        invariant from <= n && (n <= to || n == from) && out == old(out) + Repeat(c, n - from)
      {
        Putc(c);
        n := n + 1;
      }
    }

    /** Emits a field and returns its contribution to the count. */
    method PutField(sp: Spec, zeropad: bool, prefix: string, dprec: int, body: string) returns (n: nat)
      modifies this`out
      ensures out == old(out) + Field(sp, zeropad, prefix, dprec, body)
      ensures n == |Field(sp, zeropad, prefix, dprec, body)|
    {
      hide Repeat, Field, RealSize;
      var fieldsz := |prefix| + |body|;
      var realsz := if dprec > fieldsz then dprec else fieldsz;
      ghost var out0 := out;
      FieldParts(sp, zeropad, prefix, dprec, body);
      PadIf(!sp.ladjust && !zeropad && sp.width != 0, ' ', realsz, sp.width);
      Puts(prefix);
      PadIf(zeropad && !sp.ladjust, '0', realsz, sp.width);
      Pad('0', fieldsz, dprec);
      Puts(body);
      PadIf(sp.ladjust, ' ', realsz, sp.width);
      NoPadding(' ', sp.width - realsz);
      PartsAppend(out0, PadText(!sp.ladjust && !zeropad, ' ', sp.width - realsz), prefix,
                  PadText(zeropad && !sp.ladjust, '0', sp.width - realsz), Repeat('0', dprec - fieldsz), body,
                  PadText(sp.ladjust, ' ', sp.width - realsz));
      n := if sp.width > realsz then sp.width else realsz;
    }

    method PadIf(on: bool, c: char, from: int, to: int)
      modifies this`out
      ensures out == old(out) + PadText(on, c, to - from)
    {
      if on {
        Pad(c, from, to);
      }
    }

    /** Generates the digits of a number backwards from the end of a buffer. */
    method Generate(v: uint32, base: nat, sp: Spec, upper: bool) returns (body: string)
      requires base in {8, 10, 16}
      ensures body == Numeral(v, base, sp, upper)
    {
      hide Numeral, Digits, DigitChar, AllDigits, DigitValue, LastDigit, OtherDigits;
      var buf := new char[BUF];
      var t: nat := BUF;
      ghost var gen := "";
      DigitsFitBuffer(v, base, upper);
      if v != 0 || sp.prec != 0 {
        ghost var all := Digits(v, base, upper);
        var ul: nat := v;
        var first := true;
        while first || ul != 0
          invariant t <= BUF && buf[..][t..] == gen && t + |gen| == BUF && |gen| <= 11
          invariant first ==> ul == v && gen == ""
          invariant all == (if ul == 0 && !first then gen else Digits(ul, base, upper) + gen)
          decreases first, ul
        {
          DigitStep(ul, base, upper, gen);
          var c := DigitChar(LastDigit(ul, base), upper);
          t := t - 1;
          SlicePrepend(buf[..], t, c);
          buf[t] := c;
          gen := [c] + gen;
          ul := OtherDigits(ul, base);
          first := false;
        }
        LeadingZero(v, base, upper);
        if sp.alt && base == 8 && buf[t] != '0' {
          t := t - 1;
          SlicePrepend(buf[..], t, '0');
          buf[t] := '0';
          gen := "0" + gen;
        }
      }
      NumeralIs(v, base, sp, upper, gen);
      body := buf[t..];
    }

    /** Decimal digits of a width or precision. */
    method ReadNumber(fmt: string, i: nat) returns (n: nat, j: nat)
      requires i <= |fmt|
      ensures j == NumberEnd(fmt, i) && n == Number(fmt, i)
    {
      hide ValueOf, AllDigits;
      n, j := 0, i;
      EmptyNumber(fmt, i);
      while IsDecimal(Peek(fmt, j))
        invariant i <= j <= |fmt| && NumberEnd(fmt, j) == NumberEnd(fmt, i)
        invariant AllDigits(fmt[i..j], 10) && n == ValueOf(fmt[i..j], 10)
        decreases |fmt| - j
      {
        ExtendSlice(fmt, i, j);
        ValueOfAppend(fmt[i..j], fmt[j], 10);
        n := 10 * n + DigitValue(fmt[j]);
        j := j + 1;
      }
    }

    /** The flag machine: reads flags, width and precision up to the conversion character. */
    method GatherSpec(fmt: string, i: nat, args: Args, used0: nat) returns (sp: Spec, at: nat, used: nat)
      requires i <= |fmt|
      ensures Gather(fmt, i, args, used0, NoSpec) == Gathered(sp, at, used)
    {
      hide NumberEnd, Number, Gather;
      sp, at, used := NoSpec, i, used0;
      var done := false;
      while !done
        invariant i <= at <= |fmt|
        invariant Gather(fmt, i, args, used0, NoSpec) == Gather(fmt, at, args, used, sp)
        invariant done ==> FlagStep(fmt, at, args, used, sp) == NoFlag
        decreases !done, |fmt| - at
      {
        GatherStep(fmt, at, args, used, sp);
        var c := Peek(fmt, at);
        if c == ' ' {
          if sp.sign == '\0' {
            sp := sp.(sign := ' ');
          }
          at := at + 1;
        } else if c == '#' {
          sp, at := sp.(alt := true), at + 1;
        } else if c == '*' {
          var n := AsInt(args(used));
          sp := if n >= 0 then sp.(width := n) else sp.(width := -n, ladjust := true);
          at, used := at + 1, used + 1;
        } else if c == '-' {
          sp, at := sp.(ladjust := true), at + 1;
        } else if c == '+' {
          sp, at := sp.(sign := '+'), at + 1;
        } else if c == '.' {
          if Peek(fmt, at + 1) == '*' {
            var n := AsInt(args(used));
            sp := sp.(prec := if n < 0 then -1 else n);
            at, used := at + 2, used + 1;
          } else {
            var n: nat, j := ReadNumber(fmt, at + 1);
            sp, at := sp.(prec := n), j;
          }
        } else if c == '0' {
          sp, at := sp.(zeropad := true), at + 1;
        } else if '1' <= c <= '9' {
          NumberAdvances(fmt, at);
          var n: nat, j := ReadNumber(fmt, at);
          sp, at := sp.(width := n), j;
        } else if c == 'L' {
          at := at + 1;
        } else if c == 'l' {
          sp, at := sp.(long := true), at + 1;
        } else if c == 'h' {
          sp, at := sp.(short := true), at + 1;
        } else {
          done := true;
        }
      }
      GatherStep(fmt, at, args, used, sp);
    }

    /** One conversion specification, from its conversion character on. */
    method PutConversion(c: char, sp: Spec, args: Args, used0: nat, strs: Strings, upper0: bool, cnt0: nat)
      returns (cnt: nat, used: nat, upper: bool)
      modifies this
      ensures var piece := Convert(c, sp, args, used0, strs, upper0, cnt0);
        && out == old(out) + piece.text && stores == old(stores) + piece.stores
        && cnt == cnt0 + |piece.text| && used == piece.used && upper == piece.upper
    {
      hide Field, Numeral, Clipped, NumberField, StaysUpper, Argument;
      cnt, used, upper := cnt0, used0, upper0;
      var w := args(used0);
      var v := Argument(w, sp.short);
      var n: nat := 0;
      if c == 'c' {
        used := used + 1;
        n := PutField(sp, sp.zeropad, "", 0, [(w % 256) as char]);
      } else if c == 'n' {
        used := used + 1;
        stores := stores + [CountStore(w, sp, cnt)];
      } else if c == 's' {
        used := used + 1;
        n := PutField(sp, sp.zeropad, "", 0, Clipped(if w == 0 then "(null)" else strs(w), sp.prec));
      } else if IsSignedConversion(c) {
        used := used + 1;
        if AsInt(v) < 0 {
          n := PutNumber(sp, "-", (0x1_0000_0000 - v) % 0x1_0000_0000, 10, upper);
        } else {
          n := PutNumber(sp, SignText(sp.sign), v, 10, upper);
        }
        upper := StaysUpper(upper, v, sp);
      } else if IsOctalConversion(c) {
        used := used + 1;
        n := PutNumber(sp, "", v, 8, upper);
        upper := StaysUpper(upper, v, sp);
      } else if c == 'p' {
        used := used + 1;
        n := PutNumber(sp, "", w, 16, upper);
        upper := StaysUpper(upper, w, sp);
      } else if IsUnsignedConversion(c) {
        used := used + 1;
        n := PutNumber(sp, "", v, 10, upper);
        upper := StaysUpper(upper, v, sp);
      } else if IsHexConversion(c) {
        used := used + 1;
        if c == 'X' {
          upper := true;
        }
        n := PutNumber(sp, if sp.alt && v != 0 then ['0', c] else "", v, 16, upper);
        upper := StaysUpper(upper, v, sp);
      } else {
        Putc(c);
        n := 1;
      }
      cnt := cnt + n;
    }

    method PutNumber(sp: Spec, prefix: string, v: uint32, base: nat, upper: bool) returns (n: nat)
      requires base in {8, 10, 16}
      modifies this`out
      ensures out == old(out) + NumberField(sp, prefix, v, base, upper)
      ensures n == |NumberField(sp, prefix, v, base, upper)|
    {
      hide Field, Numeral;
      var body := Generate(v, base, sp, upper);
      n := PutField(sp, sp.zeropad && sp.prec < 0, prefix, sp.prec, body);
    }

    /** The formatter.  It returns exactly the number of characters it has emitted. */
    method Doprntx(fmt: string, args: Args, strs: Strings) returns (cnt: nat)
      modifies this
      ensures var r := Render(fmt, 0, args, 0, strs, false, 0);
        out == old(out) + r.text && cnt == |r.text| && stores == old(stores) + r.stores
    {
      hide Gather, Convert, Literal, Render, Pending;
      ghost var all := Render(fmt, 0, args, 0, strs, false, 0);
      ghost var text, stored := "", [];
      PendingStart(all);
      var i: nat, used: nat, upper := 0, 0, false;
      cnt := 0;
      var done := false;
      while !done
        invariant i <= |fmt| && cnt == |text|
        invariant out == old(out) + text && stores == old(stores) + stored
        invariant Pending(all, text, stored, if done then Rendered("", []) else Render(fmt, i, args, used, strs, upper, cnt))
        decreases !done, |fmt| - i
      {
        var ch := Peek(fmt, i);
        RenderStep(fmt, i, args, used, strs, upper, cnt);
        if ch == '\0' {
          done := true;
        } else if ch != '%' {
          PendingStep(all, text, stored, Literal(ch), [], Render(fmt, i + 1, args, used, strs, upper, cnt + |Literal(ch)|));
          Puts(Literal(ch));
          cnt := cnt + |Literal(ch)|;
          text := text + Literal(ch);
          assert stored + [] == stored;
          i := i + 1;
        } else {
          var sp, at: nat, n: nat := GatherSpec(fmt, i + 1, args, used);
          var c := Peek(fmt, at);
          if c == '\0' {
            done := true;
          } else {
            ghost var piece := Convert(c, sp, args, n, strs, upper, cnt);
            PendingStep(all, text, stored, piece.text, piece.stores,
                        Render(fmt, at + 1, args, piece.used, strs, piece.upper, cnt + |piece.text|));
            cnt, used, upper := PutConversion(c, sp, args, n, strs, upper, cnt);
            text, stored := text + piece.text, stored + piece.stores;
            i := at + 1;
          }
        }
      }
      PendingEnd(all, text, stored);
    }
  }
}

/** Environment variables as text: the CPU configuration and IP addresses (env/env.c). */
module EnvText {
  import opened Machine
  import opened Wrappers
  import opened CStrings
  import opened Strtoul
  import opened Printf
  import opened PrintParse

  /** The decoded CPU configuration. */
  datatype Cpu = Cpu(iBpw: uint32, iAssoc: uint32, dBpw: uint32, dAssoc: uint32, tlb: bool)

  /** What can be configured, which cache settings there are, and the settings of now. */
  datatype Hardware = Hardware(cache: bool, mmu: bool, iBpws: seq<uint32>, iAssocs: seq<uint32>,
                               dBpws: seq<uint32>, dAssocs: seq<uint32>, current: Cpu)

  predicate CacheSupported(hw: Hardware, icache: bool, bpw: uint32, assoc: uint32) {
    if icache then bpw in hw.iBpws && assoc in hw.iAssocs else bpw in hw.dBpws && assoc in hw.dAssocs
  }

  predicate Supported(hw: Hardware, c: Cpu) {
    hw.cache ==> CacheSupported(hw, true, c.iBpw, c.iAssoc) && CacheSupported(hw, false, c.dBpw, c.dAssoc)
  }

  /** A number and the text behind it. */
  datatype Number = Number(value: uint32, rest: string)

  /** A number, a comma and then anything but a blank; the text behind the comma. */
  function ReadField(s: string): Option<Number> {
    var o := Parse(s, 10, UINT32_MAX);
    EndInside(s);
    if Peek(s, o.end) != ',' || o.erange || Peek(s, o.end + 1) == ' ' then None
    else Some(Number(o.value, s[o.end + 1..]))
  }

  lemma EndInside(s: string)
    ensures Parse(s, 10, UINT32_MAX).end <= |s| && Parse(s, 10, UINT32_MAX).value <= UINT32_MAX
  {
  }

  /** The MMU setting. */
  function ReadMmu(s: string): Option<bool> {
    if s == "tlb" then Some(true) else if s == "fixed" then Some(false) else None
  }

  /** The last number, and the text for the MMU if that can be configured. */
  function ReadLast(s: string, mmu: bool): Option<Number> {
    if mmu then ReadField(s)
    else
      var o := Parse(s, 10, UINT32_MAX);
      EndInside(s);
      if o.erange || o.end != |s| then None else Some(Number(o.value, ""))
  }

  function ReadCaches(raw: string, mmu: bool): Option<(seq<uint32>, string)> {
    var a := ReadField(raw);
    if a.None? then None else
      var b := ReadField(a.value.rest);
      if b.None? then None else
        var c := ReadField(b.value.rest);
        if c.None? then None else
          var d := ReadLast(c.value.rest, mmu);
          if d.None? then None
          else Some(([a.value.value, b.value.value, c.value.value, d.value.value], d.value.rest))
  }

  /** validate_cpuconfig: `junk` is what the local variables hold before they are set. */
  function Validate(raw: string, hw: Hardware, junk: Cpu): Option<Cpu> {
    if raw == "" then Some(hw.current)
    else if hw.cache then
      var r := ReadCaches(raw, hw.mmu);
      if r.None? || |r.value.0| != 4 then None
      else
        var v := r.value.0;
        if !CacheSupported(hw, true, v[0], v[1]) || !CacheSupported(hw, false, v[2], v[3]) then None
        else if !hw.mmu then Some(Cpu(v[0], v[1], v[2], v[3], junk.tlb))
        else if ReadMmu(r.value.1).None? then None
        else Some(Cpu(v[0], v[1], v[2], v[3], ReadMmu(r.value.1).value))
    else if hw.mmu then
      if ReadMmu(raw).None? then None else Some(junk.(tlb := ReadMmu(raw).value))
    else Some(junk)
  }

  /** The loop over the settings there are. */
  method Search(value: uint32, settings: seq<uint32>) returns (found: bool)
    ensures found <==> value in settings
  {
    var i := 0;
    while i < |settings| && value != settings[i]
      invariant i <= |settings| && value !in settings[..i]
    {
      i := i + 1;
    }
    found := i != |settings|;
  }

  method ValidateCache(hw: Hardware, icache: bool, bpw: uint32, assoc: uint32) returns (ok: bool)
    ensures ok <==> CacheSupported(hw, icache, bpw, assoc)
  {
    ok := Search(bpw, if icache then hw.iBpws else hw.dBpws);
    if ok {
      ok := Search(assoc, if icache then hw.iAssocs else hw.dAssocs);
    }
  }

  /** strtoul, the tests behind it, and the step over the comma. */
  method TakeField(raw: string) returns (f: Option<Number>)
    ensures f == ReadField(raw)
  {
    hide Parse;
    EndInside(raw);
    var out := Strtoul.Strtoul(raw, 10);
    if Peek(raw, out.end) != ',' || out.erange || Peek(raw, out.end + 1) == ' ' {
      f := None;
    } else {
      f := Some(Number(out.value, raw[out.end + 1..]));
    }
  }

  method ValidateCpuconfig(raw: string, hw: Hardware, junk: Cpu) returns (decoded: Option<Cpu>)
    ensures decoded == Validate(raw, hw, junk)
  {
    hide Parse, ReadField, CacheSupported, ReadMmu;
    var c := junk;
    var ok := true;
    if raw == "" {
      c := hw.current;
    } else {
      var text := raw;
      if hw.cache {
        var v: seq<uint32> := [];
        ok, v, text := TakeCaches(raw, hw.mmu);
        if ok {
          ok := ValidateCache(hw, true, v[0], v[1]);
        }
        if ok {
          ok := ValidateCache(hw, false, v[2], v[3]);
        }
        if ok {
          c := Cpu(v[0], v[1], v[2], v[3], junk.tlb);
        }
      }
      if ok && hw.mmu {
        var m := ReadMmu(text);
        ok := m.Some?;
        if ok {
          c := c.(tlb := m.value);
        }
      }
    }
    decoded := if ok then Some(c) else None;
  }

  /** The four numbers. */
  method TakeCaches(raw: string, mmu: bool) returns (ok: bool, v: seq<uint32>, rest: string)
    ensures ok <==> ReadCaches(raw, mmu).Some?
    ensures ok ==> |v| == 4 && ReadCaches(raw, mmu).value == (v, rest)
  {
    hide Parse, ReadField;
    ok, v, rest := false, [], raw;
    var a := TakeField(raw);
    if a.Some? {
      var b := TakeField(a.value.rest);
      if b.Some? {
        var c := TakeField(b.value.rest);
        if c.Some? {
          var d: Option<Number>;
          if mmu {
            d := TakeField(c.value.rest);
          } else {
            EndInside(c.value.rest);
            var out := Strtoul.Strtoul(c.value.rest, 10);
            d := if out.erange || out.end != |c.value.rest| then None else Some(Number(out.value, ""));
          }
          if d.Some? {
            ok, v, rest := true, [a.value.value, b.value.value, c.value.value, d.value.value], d.value.rest;
          }
        }
      }
    }
  }

  // ---------- the text of a configuration ----------

  function MmuText(tlb: bool): string {
    if tlb then "tlb" else "fixed"
  }

  function CachesText(c: Cpu, tail: string): string {
    Decimal(c.iBpw) + ("," + (Decimal(c.iAssoc) + ("," + (Decimal(c.dBpw) + ("," + (Decimal(c.dAssoc) + tail))))))
  }

  /** env_setup_cpuconfig */
  function Text(hw: Hardware, c: Cpu): string {
    var m := if hw.mmu then MmuText(c.tlb) else "";
    if hw.cache then CachesText(c, if hw.mmu then "," + m else "") else m
  }

  function FourArgs(c: Cpu): Args {
    i => CacheSetting(c, i)
  }

  function CacheSetting(c: Cpu, i: nat): uint32 {
    if i == 0 then c.iBpw else if i == 1 then c.iAssoc else if i == 2 then c.dBpw else c.dAssoc
  }

  lemma DecimalStep(fmt: string, i: nat, args: Args, used: nat, count: nat)
    requires i + 1 < |fmt| && fmt[i] == '%' && fmt[i + 1] == 'd'
    ensures Render(fmt, i, args, used, NoStrings, false, count).text ==
            Decimal(args(used)) + Render(fmt, i + 2, args, used + 1, NoStrings, false, count + |Decimal(args(used))|).text
  {
    hide SignedField, Gather, Render;
    GatherPlain(fmt, args, used, NoSpec, i + 1);
    RenderStep(fmt, i, args, used, NoStrings, false, count);
  }

  lemma CommaStep(fmt: string, i: nat, args: Args, used: nat, count: nat)
    requires i < |fmt| && fmt[i] in {',', '.'}
    ensures Render(fmt, i, args, used, NoStrings, false, count).text ==
            [fmt[i]] + Render(fmt, i + 1, args, used, NoStrings, false, count + 1).text
  {
    hide Gather, Render, Convert;
    RenderStep(fmt, i, args, used, NoStrings, false, count);
  }

  const CACHE_FORMAT := "%d,%d,%d,%d"

  lemma FormatPrints(c: Cpu)
    ensures Printed(CACHE_FORMAT, FourArgs(c)) == CachesText(c, "")
  {
    hide Render, SignedField;
    var args := FourArgs(c);
    var n1 := |Decimal(args(0))|;
    var n2 := n1 + 1 + |Decimal(args(1))|;
    var n3 := n2 + 1 + |Decimal(args(2))|;
    var n4 := n3 + 1 + |Decimal(args(3))|;
    DecimalStep(CACHE_FORMAT, 0, args, 0, 0);
    CommaStep(CACHE_FORMAT, 2, args, 1, n1);
    DecimalStep(CACHE_FORMAT, 3, args, 1, n1 + 1);
    CommaStep(CACHE_FORMAT, 5, args, 2, n2);
    DecimalStep(CACHE_FORMAT, 6, args, 2, n2 + 1);
    CommaStep(CACHE_FORMAT, 8, args, 3, n3);
    DecimalStep(CACHE_FORMAT, 9, args, 3, n3 + 1);
    RenderStep(CACHE_FORMAT, 11, args, 4, NoStrings, false, n4);
  }

  method SetupCpuconfig(hw: Hardware, c: Cpu) returns (s: string)
    ensures s == Text(hw, c)
  {
    hide Render, SignedField, FourArgs;
    s := "";
    if hw.cache {
      var printer := new Printer();
      var n := printer.Doprntx(CACHE_FORMAT, FourArgs(c), NoStrings);
      s := printer.out;
      FormatPrints(c);
      assert "" + CachesText(c, "") == CachesText(c, "");
      if hw.mmu {
        s := s + ",";
        CachesTextTail(c, "", ",");
      }
    }
    if hw.mmu {
      s := s + MmuText(c.tlb);
      CachesTextTail(c, ",", MmuText(c.tlb));
    }
  }

  lemma CachesTextTail(c: Cpu, a: string, b: string)
    ensures CachesText(c, a) + b == CachesText(c, a + b)
  {
    hide SignedField;
    var d1 := Decimal(c.dAssoc) + a;
    assert d1 + b == Decimal(c.dAssoc) + (a + b);
    var d2 := Decimal(c.dBpw) + ("," + d1);
    assert d2 + b == Decimal(c.dBpw) + ("," + (d1 + b));
    var d3 := Decimal(c.iAssoc) + ("," + d2);
    assert d3 + b == Decimal(c.iAssoc) + ("," + (d2 + b));
    assert (Decimal(c.iBpw) + ("," + d3)) + b == Decimal(c.iBpw) + ("," + (d3 + b));
  }

  // ---------- round trip ----------

  /** A printed number with a comma and more text behind it is one field. */
  lemma FieldReadsBack(w: uint32, rest: string)
    requires rest != "" && rest[0] != ' '
    ensures ReadField(Decimal(w) + ("," + rest)) == Some(Number(w, rest))
  {
    hide SignedField, Parse;
    var s := Decimal(w) + ("," + rest);
    DecimalReadsBack(w, "," + rest);
    assert s[|Decimal(w)|] == ',' && s[|Decimal(w)| + 1] == rest[0];
    assert s[|Decimal(w)| + 1..] == rest;
  }

  lemma CachesReadBack(c: Cpu, mmu: bool, rest: string)
    requires if mmu then rest != "" && rest[0] != ' ' else rest == ""
    ensures ReadCaches(CachesText(c, if mmu then "," + rest else ""), mmu) ==
            Some(([c.iBpw, c.iAssoc, c.dBpw, c.dAssoc], rest))
  {
    hide SignedField, Parse, ReadField;
    var t4 := Decimal(c.dAssoc) + if mmu then "," + rest else "";
    var t3 := Decimal(c.dBpw) + ("," + t4);
    var t2 := Decimal(c.iAssoc) + ("," + t3);
    FirstOfDecimal(c.dAssoc, if mmu then "," + rest else "");
    FirstOfDecimal(c.dBpw, "," + t4);
    FirstOfDecimal(c.iAssoc, "," + t3);
    FieldReadsBack(c.iBpw, t2);
    FieldReadsBack(c.iAssoc, t3);
    FieldReadsBack(c.dBpw, t4);
    if mmu {
      FieldReadsBack(c.dAssoc, rest);
    } else {
      DecimalReadsBack(c.dAssoc, "");
      assert t4 == Decimal(c.dAssoc);
    }
  }

  lemma FirstOfDecimal(w: uint32, tail: string)
    ensures var t := Decimal(w) + tail; t != "" && t[0] != ' '
  {
    hide SignedField, Parse;
    DecimalReadsBack(w, "");
  }

  /** The text of a configuration is accepted exactly when its cache settings are supported, and then
      reads back as every setting that it says. */
  lemma ConfigurationReadsBack(hw: Hardware, c: Cpu, junk: Cpu)
    ensures Validate(Text(hw, c), hw, junk).Some? <==> Supported(hw, c)
    ensures Supported(hw, c) ==>
              Validate(Text(hw, c), hw, junk) == Some(
                if !hw.cache && !hw.mmu then hw.current
                else if !hw.cache then junk.(tlb := c.tlb)
                else if !hw.mmu then c.(tlb := junk.tlb)
                else c)
  {
    hide SignedField, ReadCaches, CachesText, CacheSupported;
    if hw.cache {
      var rest := if hw.mmu then MmuText(c.tlb) else "";
      CachesReadBack(c, hw.mmu, rest);
      CachesNotEmpty(c, if hw.mmu then "," + rest else "");
    }
  }

  /** What the unset local variables hold does not matter exactly when the text is empty or rejected, or
      both parts can be configured. */
  lemma JunkMattersExactly(raw: string, hw: Hardware)
    ensures (forall j, j' :: Validate(raw, hw, j) == Validate(raw, hw, j')) <==>
            raw == "" || Validate(raw, hw, hw.current).None? || (hw.cache && hw.mmu)
  {
    hide ReadCaches, ReadMmu;
    var j, j' := Cpu(0, 0, 0, 0, false), Cpu(1, 0, 0, 0, true);
    if raw != "" && Validate(raw, hw, hw.current).Some? && !(hw.cache && hw.mmu) {
      assert Validate(raw, hw, j) != Validate(raw, hw, j');
    }
  }

  /** With only the MMU configurable, "tlb" delivers cache settings that nobody has set. */
  lemma JunkShows(junk: Cpu, hw: Hardware)
    requires !hw.cache && hw.mmu
    ensures Validate("tlb", hw, junk) == Some(junk.(tlb := true))
  {
  }

  /** Every accepted text decodes to supported settings, and the text written for these decodes to them
      again: what the user typed and what the monitor writes back mean the same. */
  lemma DecodingIsStable(raw: string, hw: Hardware, junk: Cpu)
    requires raw != "" && (hw.cache || hw.mmu) && Validate(raw, hw, junk).Some?
    ensures var c := Validate(raw, hw, junk).value; Supported(hw, c) && Validate(Text(hw, c), hw, junk) == Some(c)
  {
    hide ReadCaches, Text, CacheSupported, ReadMmu;
    ConfigurationReadsBack(hw, Validate(raw, hw, junk).value, junk);
  }

  lemma CachesNotEmpty(c: Cpu, tail: string)
    ensures CachesText(c, tail) != ""
  {
    hide SignedField;
    FirstOfDecimal(c.iBpw, "," + (Decimal(c.iAssoc) + ("," + (Decimal(c.dBpw) + ("," + (Decimal(c.dAssoc) + tail))))));
  }

  // ---------- IP addresses ----------

  /** The octets from the i-th on: the address they make with `value` before them, and whether the text
      ends behind the last. None if there is no address. */
  function Octets(s: string, i: nat, value: nat): Option<(nat, bool)>
    requires i < 4
    decreases 4 - i
  {
    var o := Parse(s, 10, UINT32_MAX);
    EndInside(s);
    if o.erange || o.value > 255 || o.end == 0 then None
    else if i == 3 then Some((value * 256 + o.value, o.end == |s|))
    else if Peek(s, o.end) != '.' then None
    else Octets(s[o.end + 1..], i + 1, value * 256 + o.value)
  }

  /** env_ip_s2num: whether the text is an address; the address is delivered (in network byte order)
      even when something follows it. */
  method IpS2Num(raw: string, decoded0: nat) returns (ok: bool, decoded: nat)
    ensures ok <==> Octets(raw, 0, 0).Some? && Octets(raw, 0, 0).value.1
    ensures decoded == if Octets(raw, 0, 0).Some? then Octets(raw, 0, 0).value.0 else decoded0
  {
    hide Parse;
    decoded := decoded0;
    ok := true;
    var value: nat, i, s := 0, 0, raw;
    var atEnd := false;
    while i < 4 && ok
      invariant i <= 4
      invariant ok && i < 4 ==> Octets(raw, 0, 0) == Octets(s, i, value)
      invariant ok && i == 4 ==> Octets(raw, 0, 0) == Some((value, atEnd))
      invariant !ok ==> Octets(raw, 0, 0) == None
      decreases 4 - i, ok
    {
      EndInside(s);
      var out := Strtoul.Strtoul(s, 10);
      if out.erange || out.value > 255 || out.end == 0 {
        ok := false;
      } else {
        value := value * 256 + out.value;
        if i != 3 {
          if Peek(s, out.end) != '.' {
            ok := false;
          } else {
            s := s[out.end + 1..];
          }
        } else {
          atEnd := out.end == |s|;
        }
        if ok {
          i := i + 1;
        }
      }
    }
    if ok {
      decoded := value;
      ok := atEnd;
    }
  }

  function IpText(a: byte, b: byte, c: byte, d: byte): string {
    Decimal(a) + ("." + (Decimal(b) + ("." + (Decimal(c) + ("." + Decimal(d))))))
  }

  function Address(a: nat, b: nat, c: nat, d: nat): nat {
    ((a * 256 + b) * 256 + c) * 256 + d
  }

  lemma OctetReadsBack(w: uint32, rest: string, i: nat, value: nat)
    requires i < 3 && w < 256
    ensures Octets(Decimal(w) + ("." + rest), i, value) == Octets(rest, i + 1, value * 256 + w)
  {
    hide Decimal, Parse;
    var n, s := |Decimal(w)|, Decimal(w) + ("." + rest);
    DecimalReadsBack(w, "." + rest);
    assert s[n] == '.';
    assert s[n + 1..] == rest;
  }

  /** The four octets printed in decimal with dots between them read back as the address. */
  lemma AddressReadsBack(a: byte, b: byte, c: byte, d: byte)
    ensures Octets(IpText(a, b, c, d), 0, 0) == Some((Address(a, b, c, d), true))
  {
    hide SignedField, Parse, Octets;
    OctetReadsBack(a, Decimal(b) + ("." + (Decimal(c) + ("." + Decimal(d)))), 0, 0);
    OctetReadsBack(b, Decimal(c) + ("." + Decimal(d)), 1, Shift(0, a));
    OctetReadsBack(c, Decimal(d), 2, Shift(Shift(0, a), b));
    LastOctet(d, Shift(Shift(Shift(0, a), b), c));
  }

  function Shift(value: nat, w: nat): nat {
    value * 256 + w
  }

  lemma LastOctet(w: uint32, value: nat)
    requires w < 256
    ensures Octets(Decimal(w), 3, value) == Some((value * 256 + w, true))
  {
    hide SignedField, Parse;
    DecimalReadsBack(w, "");
    assert Decimal(w) + "" == Decimal(w);
  }
}

/** Exactly which texts are IP addresses and CPU configurations, and what they say (env/env.c). */
module EnvTextExact {
  import opened Machine
  import opened Wrappers
  import opened CStrings
  import opened Strtoul
  import opened Printf
  import opened PrintParse
  import opened EnvText

  // ---------- IP addresses ----------

  /** The whole text is read as a number of at most 255. */
  predicate IsOctet(t: string, v: nat) {
    t != "" && Parse(t, 10, UINT32_MAX) == Outcome(v, |t|, false) && v <= 255
  }

  predicate NoDigitFirst(t: string) {
    t != "" ==> !IsDecimal(t[0])
  }

  /** Four numbers with dots between them, and what stands behind. */
  predicate IsAddress(s: string, a: string, b: string, c: string, d: string, rest: string) {
    s == a + "." + (b + "." + (c + "." + (d + rest))) && NoDigitFirst(rest)
  }

  lemma ParseTen(s: string)
    ensures var w := SkipSpace(s, 0);
      var p := SignEnd(s, w);
      var r := RunEnd(s, p, 10);
      Parse(s, 10, UINT32_MAX) ==
      if r == p then Outcome(0, 0, false) else InWord(ValueOf(s[p..r], 10), Peek(s, w) == '-', r, UINT32_MAX)
  {
  }

  /** What is read does not depend on what comes behind it. */
  lemma ParseFront(t: string, rest: string)
    requires NoDigitFirst(rest) && Parse(t, 10, UINT32_MAX).end == |t| > 0
    ensures Parse(t + rest, 10, UINT32_MAX) == Parse(t, 10, UINT32_MAX)
  {
    hide Parse, ValueOf, InWord;
    var s := t + rest;
    ParseTen(t);
    ParseTen(s);
    EndOf(t);
    var w := SkipSpace(t, 0);
    var p := SignEnd(t, w);
    var r := RunEnd(t, p, 10);
    assert r == |t| && p < r;
    assert forall k :: 0 <= k < |t| ==> s[k] == t[k];
    assert IsDigitIn(t[p..r][0], 10);
    SkipSpaceIs(s, 0, w);
    assert s[p..r] == t[p..r];
    RunEndIs(s, p, r, 10);
  }

  lemma EndOf(t: string)
    ensures var w := SkipSpace(t, 0);
      var p := SignEnd(t, w);
      var r := RunEnd(t, p, 10);
      Parse(t, 10, UINT32_MAX).end == if r == p then 0 else r
  {
    hide ValueOf;
  }

  /** And what is read is read when nothing comes behind it. */
  lemma ParseCut(s: string)
    requires Parse(s, 10, UINT32_MAX).end > 0
    ensures var n := Parse(s, 10, UINT32_MAX).end;
      n <= |s| && Parse(s[..n], 10, UINT32_MAX) == Parse(s, 10, UINT32_MAX) && NoDigitFirst(s[n..])
  {
    hide Parse, ValueOf, InWord, IsSpace;
    ParseTen(s);
    EndOf(s);
    var w := SkipSpace(s, 0);
    var p := SignEnd(s, w);
    var r := RunEnd(s, p, 10);
    var t := s[..r];
    ParseTen(t);
    assert IsDigitIn(s[p..r][0], 10);
    assert forall k :: 0 <= k < r ==> t[k] == s[k];
    SkipSpaceIs(t, 0, w);
    assert t[p..r] == s[p..r];
    RunEndIs(t, p, r, 10);
  }

  /** A number that is no octet gives no address, and neither does an octet that is not the last without a dot
      behind it. */
  lemma OctetTaken(s: string, i: nat, value: nat, t: string, v: nat, rest: string)
    requires i < 4 && s == t + rest && IsOctet(t, v) && NoDigitFirst(rest)
    ensures Octets(s, i, value) ==
            if i == 3 then Some((value * 256 + v, rest == ""))
            else if rest == "" || rest[0] != '.' then None
            else Octets(rest[1..], i + 1, value * 256 + v)
  {
    hide Parse;
    ParseFront(t, rest);
    if rest != "" {
      assert s[|t|] == rest[0] && s[|t| + 1..] == rest[1..];
    }
  }

  lemma OctetNeeded(s: string, i: nat, value: nat) returns (t: string, v: nat, rest: string)
    requires i < 4 && Octets(s, i, value).Some?
    ensures s == t + rest && IsOctet(t, v) && NoDigitFirst(rest)
    ensures i < 3 ==> rest != "" && rest[0] == '.' && Octets(rest[1..], i + 1, value * 256 + v) == Octets(s, i, value)
    ensures i == 3 ==> Octets(s, i, value) == Some((value * 256 + v, rest == ""))
  {
    hide Parse;
    var o := Parse(s, 10, UINT32_MAX);
    ParseCut(s);
    t, v, rest := s[..o.end], o.value, s[o.end..];
    OctetTaken(s, i, value, t, v, rest);
  }

  /** Four octets with dots between them are an address; it is delivered even if something follows. */
  lemma AddressTaken(s: string, a: string, b: string, c: string, d: string, rest: string, va: nat, vb: nat, vc: nat, vd: nat)
    requires IsAddress(s, a, b, c, d, rest) && IsOctet(a, va) && IsOctet(b, vb) && IsOctet(c, vc) && IsOctet(d, vd)
    ensures Octets(s, 0, 0) == Some((va * 0x100_0000 + vb * 0x1_0000 + vc * 0x100 + vd, rest == ""))
  {
    hide Parse, Octets, IsOctet;
    var s3 := d + rest;
    var s2 := c + "." + s3;
    var s1 := b + "." + s2;
    DotBehind(a, s1);
    DotBehind(b, s2);
    DotBehind(c, s3);
    OctetTaken(s, 0, 0, a, va, "." + s1);
    OctetTaken(s1, 1, va, b, vb, "." + s2);
    OctetTaken(s2, 2, va * 256 + vb, c, vc, "." + s3);
    OctetTaken(s3, 3, (va * 256 + vb) * 256 + vc, d, vd, rest);
  }

  lemma DotBehind(t: string, rest: string)
    ensures t + "." + rest == t + ("." + rest) && ("." + rest)[1..] == rest && ("." + rest)[0] == '.' && NoDigitFirst("." + rest)
  {
  }

  /** And nothing else is: an address has four octets with dots between them. */
  lemma AddressNeeded(s: string)
    returns (a: string, b: string, c: string, d: string, rest: string, va: nat, vb: nat, vc: nat, vd: nat)
    requires Octets(s, 0, 0).Some?
    ensures IsAddress(s, a, b, c, d, rest) && IsOctet(a, va) && IsOctet(b, vb) && IsOctet(c, vc) && IsOctet(d, vd)
  {
    hide Parse, Octets, IsOctet;
    var r1, r2, r3;
    a, va, r1 := OctetNeeded(s, 0, 0);
    b, vb, r2 := OctetNeeded(r1[1..], 1, 0 * 256 + va);
    c, vc, r3 := OctetNeeded(r2[1..], 2, (0 * 256 + va) * 256 + vb);
    d, vd, rest := OctetNeeded(r3[1..], 3, ((0 * 256 + va) * 256 + vb) * 256 + vc);
    assert r3 == "." + r3[1..] && r2 == "." + r2[1..] && r1 == "." + r1[1..];
    DotBehind(a, r1[1..]);
    DotBehind(b, r2[1..]);
    DotBehind(c, r3[1..]);
  }

  /** A number above 255, a missing dot and too few numbers make a text that is not an address. */
  lemma NoAddress(w: uint32, tail: string, i: nat, value: nat)
    requires i < 4 && w < 0x8000_0000 && (tail == "" || EndsNumber(tail[0]))
    ensures w > 255 ==> Octets(Decimal(w) + tail, i, value) == None
    ensures i < 3 && (tail == "" || tail[0] != '.') ==> Octets(Decimal(w) + tail, i, value) == None
    ensures Octets("", i, value) == None
  {
    hide SignedField, Parse;
    DecimalReadsBack(w, tail);
    var s := Decimal(w) + tail;
    if tail != "" {
      assert s[|Decimal(w)|] == tail[0];
    }
    NothingRead();
  }

  lemma NothingRead()
    ensures Parse("", 10, UINT32_MAX).end == 0
  {
  }

  // ---------- CPU configurations ----------

  /** The whole text is read as a number; no text at all is read as 0. */
  predicate IsNumber(t: string, v: uint32) {
    if t == "" then v == 0 else Parse(t, 10, UINT32_MAX) == Outcome(v, |t|, false)
  }

  predicate NoBlankFirst(t: string) {
    t != "" ==> t[0] != ' '
  }

  lemma ParseUpToComma(t: string, rest: string)
    requires t == "" || Parse(t, 10, UINT32_MAX).end == |t|
    ensures Parse(t + ("," + rest), 10, UINT32_MAX) == if t == "" then Outcome(0, 0, false) else Parse(t, 10, UINT32_MAX)
  {
    hide Parse, ValueOf;
    if t == "" {
      assert t + ("," + rest) == "," + rest;
      EndOf("," + rest);
      ParseTen("," + rest);
    } else {
      ParseFront(t, "," + rest);
    }
  }

  /** A field is a number, a comma, and then anything but a blank. */
  lemma FieldTaken(t: string, v: uint32, rest: string)
    requires IsNumber(t, v) && NoBlankFirst(rest)
    ensures ReadField(t + ("," + rest)) == Some(Number(v, rest))
  {
    hide Parse;
    ParseUpToComma(t, rest);
    var s := t + ("," + rest);
    assert s[|t|] == ',' && s[|t| + 1..] == rest;
    assert rest != "" ==> s[|t| + 1] == rest[0];
  }

  lemma FieldNeeded(s: string) returns (t: string)
    requires ReadField(s).Some?
    ensures var f := ReadField(s).value; s == t + ("," + f.rest) && IsNumber(t, f.value) && NoBlankFirst(f.rest)
  {
    hide Parse;
    var o := Parse(s, 10, UINT32_MAX);
    EndInside(s);
    t := s[..o.end];
    var rest := s[o.end + 1..];
    assert s == t + ("," + rest);
    if o.end > 0 {
      ParseCut(s);
    } else {
      NoEnd(s);
    }
    assert rest != "" ==> rest[0] == s[o.end + 1];
  }

  lemma NoEnd(s: string)
    ensures Parse(s, 10, UINT32_MAX).end == 0 ==> Parse(s, 10, UINT32_MAX) == Outcome(0, 0, false)
  {
    hide ValueOf;
  }

  /** The last number, if nothing is to follow. */
  lemma LastExactly(s: string, v: uint32)
    ensures ReadLast(s, false) == Some(Number(v, "")) <==> IsNumber(s, v)
  {
    hide Parse;
    NoEnd(s);
    EndInside(s);
    if s == "" {
      NothingRead();
    }
  }

  /** Four numbers with commas between them, and if the MMU can be configured a fifth part. No part but the first
      starts with a blank. */
  predicate IsConfiguration(raw: string, mmu: bool, a: string, b: string, c: string, d: string, m: string) {
    && raw == a + ("," + (b + ("," + (c + ("," + if mmu then d + ("," + m) else d)))))
    && NoBlankFirst(b + ",") && NoBlankFirst(c + ",") && NoBlankFirst(if mmu then d + "," else d) && (mmu ==> NoBlankFirst(m))
  }

  /** Such a text gives its numbers, and the text behind them. */
  lemma CachesTaken(raw: string, mmu: bool, a: string, b: string, c: string, d: string, m: string,
                    va: uint32, vb: uint32, vc: uint32, vd: uint32)
    requires IsConfiguration(raw, mmu, a, b, c, d, m)
    requires IsNumber(a, va) && IsNumber(b, vb) && IsNumber(c, vc) && IsNumber(d, vd)
    ensures ReadCaches(raw, mmu) == Some(([va, vb, vc, vd], if mmu then m else ""))
  {
    hide Parse, ReadField, IsNumber;
    var s3 := if mmu then d + ("," + m) else d;
    var s2 := c + ("," + s3);
    var s1 := b + ("," + s2);
    BlankFirst(b, "," + s2);
    BlankFirst(c, "," + s3);
    if mmu {
      BlankFirst(d, "," + m);
      FieldTaken(d, vd, m);
    } else {
      LastExactly(d, vd);
    }
    FieldTaken(a, va, s1);
    FieldTaken(b, vb, s2);
    FieldTaken(c, vc, s3);
  }

  lemma BlankFirst(t: string, rest: string)
    requires rest != "" && rest[0] == ','
    ensures NoBlankFirst(t + ",") <==> NoBlankFirst(t + rest)
  {
    if t != "" {
      assert (t + ",")[0] == t[0] && (t + rest)[0] == t[0];
    }
  }

  /** And no other text does: it has four numbers in these places. */
  lemma CachesNeeded(raw: string, mmu: bool) returns (a: string, b: string, c: string, d: string)
    requires ReadCaches(raw, mmu).Some?
    ensures var (v, m) := ReadCaches(raw, mmu).value;
      && |v| == 4 && IsConfiguration(raw, mmu, a, b, c, d, m) && (!mmu ==> m == "")
      && IsNumber(a, v[0]) && IsNumber(b, v[1]) && IsNumber(c, v[2]) && IsNumber(d, v[3])
  {
    hide Parse, ReadField, IsNumber, ReadLast;
    var fa := ReadField(raw);
    a := FieldNeeded(raw);
    var fb := ReadField(fa.value.rest);
    b := FieldNeeded(fa.value.rest);
    var fc := ReadField(fb.value.rest);
    c := FieldNeeded(fb.value.rest);
    d := LastNeeded(fc.value.rest, mmu);
    var m := ReadLast(fc.value.rest, mmu).value.rest;
    BlankFirst(b, "," + fb.value.rest);
    BlankFirst(c, "," + fc.value.rest);
    if mmu {
      BlankFirst(d, "," + m);
    }
  }

  lemma LastNeeded(s: string, mmu: bool) returns (d: string)
    requires ReadLast(s, mmu).Some?
    ensures var f := ReadLast(s, mmu).value;
      && IsNumber(d, f.value) && s == (if mmu then d + ("," + f.rest) else d)
      && (mmu ==> NoBlankFirst(f.rest)) && (!mmu ==> f.rest == "")
  {
    hide Parse, ReadField;
    if mmu {
      d := FieldNeeded(s);
    } else {
      d := s;
      LastExactly(s, ReadLast(s, false).value.value);
    }
  }

  /** The MMU is said by one of two words. */
  lemma MmuWords(s: string)
    ensures ReadMmu(s) == Some(true) <==> s == "tlb"
    ensures ReadMmu(s) == Some(false) <==> s == "fixed"
  {
  }

  predicate CachesKnown(hw: Hardware, a: uint32, b: uint32, c: uint32, d: uint32) {
    a in hw.iBpws && b in hw.iAssocs && c in hw.dBpws && d in hw.dAssocs
  }

  /** Bytes per way and associativity of the instruction cache, then of the data cache, then the MMU: a text of
      that form is accepted exactly when the caches can have these settings, and says them. */
  lemma FieldsInOrder(hw: Hardware, a: uint32, b: uint32, c: uint32, d: uint32, mmu: string, junk: Cpu)
    requires hw.cache && mmu in {"tlb", "fixed"}
    ensures var caches := Decimal(a) + ("," + (Decimal(b) + ("," + (Decimal(c) + ("," + Decimal(d))))));
      && (hw.mmu ==>
            Validate(caches + ("," + mmu), hw, junk) ==
            if CachesKnown(hw, a, b, c, d) then Some(Cpu(a, b, c, d, mmu == "tlb")) else None)
      && (!hw.mmu ==>
            Validate(caches, hw, junk) ==
            if CachesKnown(hw, a, b, c, d) then Some(Cpu(a, b, c, d, junk.tlb)) else None)
  {
    hide SignedField, ReadCaches, CachesText, Parse;
    var cpu := Cpu(a, b, c, d, mmu == "tlb");
    var caches := Decimal(a) + ("," + (Decimal(b) + ("," + (Decimal(c) + ("," + Decimal(d))))));
    assert caches + "" == caches;
    CachesAre(cpu, "," + mmu);
    CachesAre(cpu, "");
    CachesReadBack(cpu, hw.mmu, if hw.mmu then mmu else "");
    CachesNotEmpty(cpu, "," + mmu);
    CachesNotEmpty(cpu, "");
  }

  lemma CachesAre(c: Cpu, tail: string)
    ensures CachesText(c, tail) ==
            (Decimal(c.iBpw) + ("," + (Decimal(c.iAssoc) + ("," + (Decimal(c.dBpw) + ("," + Decimal(c.dAssoc))))))) + tail
  {
    hide SignedField;
    CachesTextTail(c, "", tail);
    assert Decimal(c.dAssoc) + "" == Decimal(c.dAssoc) && "" + tail == tail;
  }

  /** The text that is written says the settings in the same order. */
  lemma TextSays(hw: Hardware, c: Cpu)
    ensures var caches := Decimal(c.iBpw) + ("," + (Decimal(c.iAssoc) + ("," + (Decimal(c.dBpw) + ("," + Decimal(c.dAssoc))))));
      var mmu := if c.tlb then "tlb" else "fixed";
      Text(hw, c) == if hw.cache && hw.mmu then caches + ("," + mmu) else if hw.cache then caches
                     else if hw.mmu then mmu else ""
  {
    hide SignedField;
    CachesAre(c, "," + MmuText(c.tlb));
    CachesAre(c, "");
  }
}

/** Which setting each part of a serial port text selects (env/env_tty.c, include/serial_api.h). */
module ModettyTexts {
  import opened Machine
  import opened Wrappers
  import opened Modetty

  // The names of the settings by their number; a setting that no text selects has none.
  const RATE_NAMES := ["", "75", "110", "150", "300", "600", "1200", "1800", "2400", "4800", "7200", "9600",
                       "14400", "19200", "38400", "57600", "115200", "230400", "460800"]
  const PARITY_NAMES := ["", "n", "o", "e"]
  const DATABITS_NAMES := ["", "7", "8"]
  const STOPBITS_NAMES := ["", "1", "", "2"]
  const FLOWCTRL_NAMES := ["", "none", "hw"]

  predicate Selects(s: string, names: seq<string>, n: byte) {
    s != "" && n < |names| && names[n] == s
  }

  /** The table has exactly the names, each with its number. */
  predicate Lists(pairs: seq<Pair>, names: seq<string>) {
    && (forall i :: 0 <= i < |pairs| ==> Selects(pairs[i].s, names, pairs[i].number))
    && (forall n :: 0 <= n < |names| && names[n] != "" ==> HasPair(pairs, n, names[n]))
  }

  predicate HasPair(pairs: seq<Pair>, n: nat, s: string) {
    exists i :: 0 <= i < |pairs| && pairs[i].number == n && pairs[i].s == s
  }

  lemma SearchSelects(s: string, pairs: seq<Pair>, names: seq<string>, n: byte)
    requires Lists(pairs, names) && OneToOne(pairs)
    ensures S2Num(s, pairs) == Some(n) <==> Selects(s, names, n)
  {
    var k := Find(s, pairs, 0);
    if k < |pairs| {
      assert Selects(pairs[k].s, names, pairs[k].number);
    }
    if Selects(s, names, n) {
      var i :| 0 <= i < |pairs| && pairs[i].number == n && pairs[i].s == names[n];
    }
  }

  lemma RatesListed()
    ensures Lists(BAUDRATES, RATE_NAMES)
  {
    var t := BAUDRATES;
    forall n | 0 <= n < |RATE_NAMES| && RATE_NAMES[n] != "" ensures HasPair(t, n, RATE_NAMES[n]) {
      RateAt(n);
      assert t[n - 1].number == n && t[n - 1].s == RATE_NAMES[n];
    }
    forall i | 0 <= i < |t| ensures Selects(t[i].s, RATE_NAMES, t[i].number) {
      RateAt(i + 1);
    }
  }

  lemma RateAt(n: nat)
    requires 0 < n < |RATE_NAMES|
    ensures n - 1 < |BAUDRATES| == 18 && BAUDRATES[n - 1] == Pair(n, RATE_NAMES[n]) && RATE_NAMES[n] != ""
  {
    if n <= 5 {
      assert BAUDRATES[n - 1] == RATES_TO_600[n - 1];
    } else if n <= 11 {
      assert BAUDRATES[n - 1] == RATES_TO_9600[n - 6];
    } else {
      assert BAUDRATES[n - 1] == RATES_TO_460800[n - 12];
    }
  }

  lemma SmallTablesListed()
    ensures Lists(PARITIES, PARITY_NAMES) && Lists(DATABITS, DATABITS_NAMES)
    ensures Lists(STOPBITS, STOPBITS_NAMES) && Lists(FLOWCTRLS, FLOWCTRL_NAMES)
  {
    assert PARITIES[0] == Pair(1, "n") && PARITIES[1] == Pair(2, "o") && PARITIES[2] == Pair(3, "e");
    assert DATABITS[0] == Pair(1, "7") && DATABITS[1] == Pair(2, "8");
    assert STOPBITS[0] == Pair(1, "1") && STOPBITS[1] == Pair(3, "2");
    assert FLOWCTRLS[0] == Pair(2, "hw") && FLOWCTRLS[1] == Pair(1, "none");
  }

  /** Baud rate, parity, data bits, stop bits and flow control, in this order. */
  predicate SelectAll(ts: seq<string>, p: Parts) {
    && |ts| == 5
    && Selects(ts[0], RATE_NAMES, p.baudrate) && Selects(ts[1], PARITY_NAMES, p.parity)
    && Selects(ts[2], DATABITS_NAMES, p.databits) && Selects(ts[3], STOPBITS_NAMES, p.stopbits)
    && Selects(ts[4], FLOWCTRL_NAMES, p.flowctrl)
  }

  /** A text of at most 23 characters is accepted, with exactly the settings that its five parts select, if
      the port supports the rate; every other text is refused. */
  lemma TextSelects(raw: string, verify: Option<byte -> bool>, p: Parts)
    ensures Decode(raw, verify) == Some(p) <==>
            |raw| <= 23 && SelectAll(Split(raw), p) && (verify.Some? ==> verify.value(p.baudrate))
  {
    hide Decode, Split, S2Num, OneToOne, Lists, Selects;
    var ts := Split(raw);
    DecodeParts(raw, verify, p);
    RatesListed();
    SmallTablesListed();
    TablesAreOneToOne();
    if |ts| == 5 {
      PartSelects(ts[0], BAUDRATES, RATE_NAMES);
      PartSelects(ts[1], PARITIES, PARITY_NAMES);
      PartSelects(ts[2], DATABITS, DATABITS_NAMES);
      PartSelects(ts[3], STOPBITS, STOPBITS_NAMES);
      PartSelects(ts[4], FLOWCTRLS, FLOWCTRL_NAMES);
    }
  }

  lemma DecodeParts(raw: string, verify: Option<byte -> bool>, p: Parts)
    ensures var ts := Split(raw);
      Decode(raw, verify) == Some(p) <==>
      && |raw| <= 23 && |ts| == 5 && (verify.Some? ==> verify.value(p.baudrate))
      && S2Num(ts[0], BAUDRATES) == Some(p.baudrate) && S2Num(ts[1], PARITIES) == Some(p.parity)
      && S2Num(ts[2], DATABITS) == Some(p.databits) && S2Num(ts[3], STOPBITS) == Some(p.stopbits)
      && S2Num(ts[4], FLOWCTRLS) == Some(p.flowctrl)
  {
    hide Split, S2Num;
  }

  lemma PartSelects(s: string, pairs: seq<Pair>, names: seq<string>)
    requires Lists(pairs, names) && OneToOne(pairs)
    ensures forall n: byte :: S2Num(s, pairs) == Some(n) <==> Selects(s, names, n)
  {
    hide S2Num, Lists, OneToOne, Selects;
    forall n: byte ensures S2Num(s, pairs) == Some(n) <==> Selects(s, names, n) {
      SearchSelects(s, pairs, names, n);
    }
  }

  /** The word that the settings are packed into: rate, parity and data bits in the bytes from the lowest,
      stop bits and flow control in the two halves of the highest. */
  lemma PackedWord(p: Parts)
    requires p.stopbits < 16 && p.flowctrl < 16
    ensures Pack(p) == p.baudrate + 0x100 * p.parity + 0x1_0000 * p.databits + 0x100_0000 * p.stopbits
                       + 0x1000_0000 * p.flowctrl
  {
  }
}

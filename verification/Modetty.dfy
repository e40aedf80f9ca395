/** Serial port settings as text, like "9600,n,8,1,hw" (env/env_tty.c). */
module Modetty {
  import opened Machine
  import opened Wrappers

  datatype Pair = Pair(number: byte, s: string)

  const RATES_TO_600: seq<Pair> := [
    Pair(1, "75"), Pair(2, "110"), Pair(3, "150"), Pair(4, "300"), Pair(5, "600")]
  const RATES_TO_9600: seq<Pair> := [
    Pair(6, "1200"), Pair(7, "1800"), Pair(8, "2400"), Pair(9, "4800"), Pair(10, "7200"), Pair(11, "9600")]
  const RATES_TO_460800: seq<Pair> := [
    Pair(12, "14400"), Pair(13, "19200"), Pair(14, "38400"), Pair(15, "57600"), Pair(16, "115200"),
    Pair(17, "230400"), Pair(18, "460800")]
  const BAUDRATES := RATES_TO_600 + RATES_TO_9600 + RATES_TO_460800
  const DATABITS: seq<Pair> := [Pair(1, "7"), Pair(2, "8")]
  const PARITIES: seq<Pair> := [Pair(1, "n"), Pair(2, "o"), Pair(3, "e")]
  const FLOWCTRLS: seq<Pair> := [Pair(2, "hw"), Pair(1, "none")]
  const STOPBITS: seq<Pair> := [Pair(1, "1"), Pair(3, "2")]

  const NUMTOKENS := 5
  // Size of the local copy, with its NUL.
  const RAW_SIZE := 24

  datatype Parts = Parts(baudrate: byte, parity: byte, databits: byte, stopbits: byte, flowctrl: byte)

  // ---------- the tables ----------

  function Find(s: string, pairs: seq<Pair>, i: nat): (k: nat)
    requires i <= |pairs|
    ensures i <= k <= |pairs|
    ensures k < |pairs| ==> pairs[k].s == s
    ensures forall j :: i <= j < k ==> pairs[j].s != s
    decreases |pairs| - i
  {
    if i == |pairs| || pairs[i].s == s then i else Find(s, pairs, i + 1)
  }

  function FindNumber(n: byte, pairs: seq<Pair>, i: nat): (k: nat)
    requires i <= |pairs|
    ensures i <= k <= |pairs|
    ensures k < |pairs| ==> pairs[k].number == n
    ensures forall j :: i <= j < k ==> pairs[j].number != n
    decreases |pairs| - i
  {
    if i == |pairs| || pairs[i].number == n then i else FindNumber(n, pairs, i + 1)
  }

  function S2Num(s: string, pairs: seq<Pair>): Option<byte> {
    var k := Find(s, pairs, 0);
    if k < |pairs| then Some(pairs[k].number) else None
  }

  function Num2S(n: byte, pairs: seq<Pair>): Option<string> {
    var k := FindNumber(n, pairs, 0);
    if k < |pairs| then Some(pairs[k].s) else None
  }

  /** search_s2num */
  method SearchS2Num(raw: string, pairs: seq<Pair>) returns (decoded: Option<byte>)
    ensures decoded == S2Num(raw, pairs)
  {
    var i := 0;
    while i < |pairs| && raw != pairs[i].s
      invariant i <= |pairs| && Find(raw, pairs, 0) == Find(raw, pairs, i)
    {
      i := i + 1;
    }
    decoded := if i == |pairs| then None else Some(pairs[i].number);
  }

  /** search_num2s */
  method SearchNum2S(param: byte, pairs: seq<Pair>) returns (s: Option<string>)
    ensures s == Num2S(param, pairs)
  {
    var i := 0;
    while i < |pairs| && param != pairs[i].number
      invariant i <= |pairs| && FindNumber(param, pairs, 0) == FindNumber(param, pairs, i)
    {
      i := i + 1;
    }
    s := if i == |pairs| then None else Some(pairs[i].s);
  }

  predicate OneToOne(pairs: seq<Pair>) {
    forall i, j :: 0 <= i < j < |pairs| ==> pairs[i].number != pairs[j].number && pairs[i].s != pairs[j].s
  }

  /** A table without repetitions is a one-to-one mapping: the two searches undo each other. */
  lemma SearchesUndo(pairs: seq<Pair>, n: byte, s: string)
    requires OneToOne(pairs)
    ensures S2Num(s, pairs) == Some(n) <==> Num2S(n, pairs) == Some(s)
  {
    var k, l := Find(s, pairs, 0), FindNumber(n, pairs, 0);
    if k < |pairs| && pairs[k].number == n {
      assert l == k;
    }
    if l < |pairs| && pairs[l].s == s {
      assert k == l;
    }
  }

  predicate PlainText(s: string) {
    |s| <= 6 && forall i :: 0 <= i < |s| ==> s[i] != ',' && s[i] != '\0'
  }

  predicate PlainTable(pairs: seq<Pair>, width: nat, limit: nat) {
    forall i :: 0 <= i < |pairs| ==> PlainText(pairs[i].s) && |pairs[i].s| <= width && pairs[i].number < limit
  }

  /** Numbers from `lo` up to but not including `hi`, and texts of one range of lengths. */
  predicate Band(pairs: seq<Pair>, lo: nat, hi: nat, short: nat, long: nat) {
    forall i :: 0 <= i < |pairs| ==> lo <= pairs[i].number < hi && short <= |pairs[i].s| <= long
  }

  lemma AppendOneToOne(a: seq<Pair>, b: seq<Pair>, lo: nat, mid: nat, hi: nat, short: nat, long: nat, longer: nat)
    requires lo <= mid <= hi && short <= long
    requires OneToOne(a) && OneToOne(b) && Band(a, lo, mid, short, long) && Band(b, mid, hi, long + 1, longer)
    ensures OneToOne(a + b) && Band(a + b, lo, hi, short, if longer > long then longer else long)
  {
  }

  lemma SlowRates()
    ensures OneToOne(RATES_TO_600) && Band(RATES_TO_600, 1, 6, 2, 3)
  {
  }

  lemma SlowRatesArePlain()
    ensures PlainTable(RATES_TO_600, 6, 256)
  {
  }

  lemma MiddleRates()
    ensures OneToOne(RATES_TO_9600) && Band(RATES_TO_9600, 6, 12, 4, 4)
  {
  }

  lemma MiddleRatesArePlain()
    ensures PlainTable(RATES_TO_9600, 6, 256)
  {
  }

  lemma FastRates()
    ensures OneToOne(RATES_TO_460800) && Band(RATES_TO_460800, 12, 19, 5, 6)
  {
  }

  lemma FastRatesArePlain()
    ensures PlainTable(RATES_TO_460800, 6, 256)
  {
    assert PlainTable(RATES_TO_460800[..4], 6, 256);
    assert PlainTable(RATES_TO_460800[4..], 6, 256);
  }

  lemma BaudratesOneToOne()
    ensures OneToOne(BAUDRATES)
  {
    hide OneToOne, Band, PlainTable;
    SlowRates();
    MiddleRates();
    FastRates();
    AppendOneToOne(RATES_TO_600, RATES_TO_9600, 1, 6, 12, 2, 3, 4);
    AppendOneToOne(RATES_TO_600 + RATES_TO_9600, RATES_TO_460800, 1, 12, 19, 2, 4, 6);
  }

  lemma SmallTablesOneToOne()
    ensures OneToOne(DATABITS) && OneToOne(PARITIES) && OneToOne(FLOWCTRLS) && OneToOne(STOPBITS)
  {
  }

  lemma TablesAreOneToOne()
    ensures OneToOne(BAUDRATES) && OneToOne(DATABITS) && OneToOne(PARITIES)
    ensures OneToOne(FLOWCTRLS) && OneToOne(STOPBITS)
  {
    hide OneToOne;
    BaudratesOneToOne();
    SmallTablesOneToOne();
  }

  lemma AppendPlain(a: seq<Pair>, b: seq<Pair>, width: nat, limit: nat)
    requires PlainTable(a, width, limit) && PlainTable(b, width, limit)
    ensures PlainTable(a + b, width, limit)
  {
  }

  lemma BaudratesArePlain()
    ensures PlainTable(BAUDRATES, 6, 256)
  {
    hide PlainTable;
    SlowRatesArePlain();
    MiddleRatesArePlain();
    FastRatesArePlain();
    AppendPlain(RATES_TO_600, RATES_TO_9600, 6, 256);
    AppendPlain(RATES_TO_600 + RATES_TO_9600, RATES_TO_460800, 6, 256);
  }

  lemma SmallTablesArePlain()
    ensures PlainTable(DATABITS, 1, 256) && PlainTable(PARITIES, 1, 256)
    ensures PlainTable(FLOWCTRLS, 4, 16) && PlainTable(STOPBITS, 1, 16)
  {
  }

  lemma TablesArePlain()
    ensures PlainTable(BAUDRATES, 6, 256) && PlainTable(DATABITS, 1, 256) && PlainTable(PARITIES, 1, 256)
    ensures PlainTable(FLOWCTRLS, 4, 16) && PlainTable(STOPBITS, 1, 16)
  {
    hide PlainTable;
    BaudratesArePlain();
    SmallTablesArePlain();
  }

  // ---------- tokens ----------

  /** The parts of a text between its commas. */
  function Split(s: string): (ts: seq<string>)
    ensures ts != []
  {
    if s == "" then [""]
    else if s[0] == ',' then [""] + Split(s[1..])
    else var ts := Split(s[1..]); [[s[0]] + ts[0]] + ts[1..]
  }

  function Join(ts: seq<string>): string
    requires ts != []
  {
    if |ts| == 1 then ts[0] else ts[0] + "," + Join(ts[1..])
  }

  predicate NoComma(s: string) {
    forall i :: 0 <= i < |s| ==> s[i] != ','
  }

  lemma {:induction false} SplitPlain(s: string)
    requires NoComma(s)
    ensures Split(s) == [s]
  {
    if s != "" {
      SplitPlain(s[1..]);
      assert [s[0]] + s[1..] == s;
    }
  }

  lemma {:induction false} SplitAtComma(t: string, rest: string)
    requires NoComma(t)
    ensures Split(t + "," + rest) == [t] + Split(rest)
  {
    var s := t + "," + rest;
    if t == "" {
      assert s[1..] == rest;
    } else {
      SplitAtComma(t[1..], rest);
      assert s[1..] == t[1..] + "," + rest;
      assert s[0] == t[0] && [t[0]] + t[1..] == t;
    }
  }

  /** Splitting and joining undo each other. */
  lemma {:induction false} JoinSplit(s: string)
    ensures Join(Split(s)) == s
  {
    if s != "" {
      JoinSplit(s[1..]);
      var ts := Split(s[1..]);
      if s[0] == ',' {
        assert Split(s)[1..] == ts;
        assert "" + "," + Join(ts) == s;
      } else {
        assert Split(s)[1..] == ts[1..];
        if |ts| == 1 {
          assert [s[0]] + ts[0] == s;
        } else {
          assert ([s[0]] + ts[0]) + "," + Join(ts[1..]) == [s[0]] + Join(ts);
          assert [s[0]] + s[1..] == s;
        }
      }
    }
  }

  lemma {:induction false} SplitJoin(ts: seq<string>)
    requires ts != [] && forall i :: 0 <= i < |ts| ==> NoComma(ts[i])
    ensures Split(Join(ts)) == ts
  {
    if |ts| == 1 {
      SplitPlain(ts[0]);
    } else {
      SplitJoin(ts[1..]);
      SplitAtComma(ts[0], Join(ts[1..]));
      assert [ts[0]] + ts[1..] == ts;
    }
  }

  /** The string that starts at position i of a buffer. */
  function StringAt(buf: seq<char>, i: nat): string
    requires i <= |buf|
    decreases |buf| - i
  {
    if i == |buf| || buf[i] == '\0' then "" else [buf[i]] + StringAt(buf, i + 1)
  }

  lemma {:induction false} StringAtIs(buf: seq<char>, i: nat, t: string)
    requires i + |t| < |buf| && buf[i + |t|] == '\0'
    requires forall k :: 0 <= k < |t| ==> buf[i + k] == t[k] != '\0'
    ensures StringAt(buf, i) == t
    decreases |t|
  {
    if t != "" {
      assert buf[i + 0] == t[0];
      forall k | 0 <= k < |t| - 1 ensures buf[i + 1 + k] == t[1..][k] {
        assert buf[i + (k + 1)] == t[k + 1];
      }
      StringAtIs(buf, i + 1, t[1..]);
      assert [t[0]] + t[1..] == t;
    }
  }

  predicate IsCString(s: string) {
    forall i :: 0 <= i < |s| ==> s[i] != '\0'
  }

  /** The copy of a string after its commas before position p have been overwritten. */
  ghost predicate Cut(buf: seq<char>, raw: string, p: nat)
    requires |raw| < |buf|
  {
    && buf[|raw|] == '\0'
    && forall j :: 0 <= j < |raw| ==> buf[j] == if j < p && raw[j] == ',' then '\0' else raw[j]
  }

  /** The tokens that start at the given positions and end before position p. */
  ghost predicate Tokens(raw: string, starts: seq<nat>, done: seq<string>, p: nat) {
    && |starts| == |done| + 1 && starts[|done|] <= p <= |raw|
    && NoComma(raw[starts[|done|]..p])
    && (forall k :: 0 <= k < |done| ==> IsToken(raw, starts[k], done[k], p))
    && Split(raw) == done + Split(raw[starts[|done|]..])
  }

  predicate IsToken(raw: string, i: nat, t: string, p: nat) {
    i + |t| < p <= |raw| && raw[i..i + |t|] == t && NoComma(t) && raw[i + |t|] == ','
  }

  lemma NextToken(raw: string, starts: seq<nat>, done: seq<string>, p: nat)
    requires Tokens(raw, starts, done, p) && p < |raw| && raw[p] == ','
    ensures Tokens(raw, starts + [p + 1], done + [raw[starts[|done|]..p]], p + 1)
  {
    hide Split;
    var n := |done|;
    var start := starts[n];
    var t := raw[start..p];
    SplitAtComma(t, raw[p + 1..]);
    assert raw[start..] == t + "," + raw[p + 1..];
    assert done + ([t] + Split(raw[p + 1..])) == (done + [t]) + Split(raw[p + 1..]);
    forall k | 0 <= k < n ensures IsToken(raw, (starts + [p + 1])[k], (done + [t])[k], p + 1) {
      assert IsToken(raw, starts[k], done[k], p);
    }
    assert IsToken(raw, start, t, p + 1);
  }

  lemma LongerToken(raw: string, starts: seq<nat>, done: seq<string>, p: nat)
    requires Tokens(raw, starts, done, p) && p < |raw| && raw[p] != ','
    ensures Tokens(raw, starts, done, p + 1)
  {
    var start := starts[|done|];
    assert raw[start..p + 1] == raw[start..p] + [raw[p]];
    forall k | 0 <= k < |done| ensures IsToken(raw, starts[k], done[k], p + 1) {
      assert IsToken(raw, starts[k], done[k], p);
    }
  }

  lemma TokenIs(buf: seq<char>, raw: string, starts: seq<nat>, done: seq<string>, k: nat)
    requires |raw| < |buf| && IsCString(raw) && Cut(buf, raw, |raw|) && Tokens(raw, starts, done, |raw|) && k <= |done|
    ensures starts[k] <= |buf| && k < |Split(raw)| && StringAt(buf, starts[k]) == Split(raw)[k]
    ensures |Split(raw)| == |done| + 1
  {
    hide Split, StringAt;
    var n := |done|;
    SplitPlain(raw[starts[n]..]);
    assert raw[starts[n]..|raw|] == raw[starts[n]..];
    if k < n {
      assert IsToken(raw, starts[k], done[k], |raw|);
      forall j | 0 <= j < |done[k]| ensures buf[starts[k] + j] == done[k][j] {
        assert raw[starts[k]..starts[k] + |done[k]|][j] == done[k][j];
      }
      StringAtIs(buf, starts[k], done[k]);
    } else {
      StringAtIs(buf, starts[n], raw[starts[n]..]);
    }
  }

  /** Cuts the copy at its commas; false if there are more than five parts or fewer. */
  method Tokenize(myraw: array<char>, raw: string) returns (ok: bool, myarg: seq<nat>)
    requires |raw| < myraw.Length && IsCString(raw) && Cut(myraw[..], raw, 0)
    modifies myraw
    ensures ok <==> |Split(raw)| == NUMTOKENS
    ensures ok ==> |myarg| == NUMTOKENS
    ensures ok ==> forall k :: 0 <= k < NUMTOKENS ==> TokenAt(myraw[..], myarg[k], Split(raw)[k])
  {
    hide Split, Tokens, StringAt;
    ok, myarg := true, [0];
    var n, p := 0, 0;
    ghost var done: seq<string> := [];
    StartTokens(raw);
    while ok && myraw[p] != '\0'
      invariant p <= |raw| && Cut(myraw[..], raw, p) && |myarg| == n + 1 == |done| + 1 <= NUMTOKENS
      invariant ok ==> Tokens(raw, myarg, done, p)
      invariant !ok ==> |Split(raw)| > NUMTOKENS
      decreases |raw| - p, ok
    {
      var c := myraw[p];
      CurrentToken(raw, myarg, done, p);
      if c == ',' {
        if n == NUMTOKENS - 1 {
          ok := false;
          NextToken(raw, myarg, done, p);
          TokenCount(raw, myarg + [p + 1], done + [raw[myarg[n]..p]], p + 1);
        } else {
          NextToken(raw, myarg, done, p);
          myraw[p] := '\0';
          done := done + [raw[myarg[n]..p]];
          n := n + 1;
          myarg := myarg + [p + 1];
        }
      } else {
        LongerToken(raw, myarg, done, p);
      }
      if ok {
        p := p + 1;
      }
    }
    if ok {
      assert p == |raw|;
      TokenIs(myraw[..], raw, myarg, done, 0);
      forall k | 0 <= k <= n ensures TokenAt(myraw[..], myarg[k], Split(raw)[k]) {
        TokenIs(myraw[..], raw, myarg, done, k);
      }
      ok := n == NUMTOKENS - 1;
    }
  }

  predicate TokenAt(buf: seq<char>, i: nat, t: string) {
    i <= |buf| && StringAt(buf, i) == t
  }

  lemma StartTokens(raw: string)
    ensures Tokens(raw, [0], [], 0)
  {
    assert raw[0..] == raw;
  }

  lemma CurrentToken(raw: string, starts: seq<nat>, done: seq<string>, p: nat)
    requires Tokens(raw, starts, done, p)
    ensures |starts| == |done| + 1 && starts[|done|] <= p <= |raw|
  {
  }

  lemma TokenCount(raw: string, starts: seq<nat>, done: seq<string>, p: nat)
    requires Tokens(raw, starts, done, p)
    ensures |Split(raw)| > |done|
  {
  }

  // ---------- settings ----------

  /** The settings a text stands for, if it is accepted. */
  function Decode(raw: string, verify: Option<byte -> bool>): Option<Parts> {
    var ts := Split(raw);
    if |raw| > RAW_SIZE - 1 || |ts| != NUMTOKENS then None
    else
      var b, p, d := S2Num(ts[0], BAUDRATES), S2Num(ts[1], PARITIES), S2Num(ts[2], DATABITS);
      var s, f := S2Num(ts[3], STOPBITS), S2Num(ts[4], FLOWCTRLS);
      if b.None? || (verify.Some? && !verify.value(b.value)) || p.None? || d.None? || s.None? || f.None? then None
      else Some(Parts(b.value, p.value, d.value, s.value, f.value))
  }

  function Pack(p: Parts): uint32 {
    FourBytes(p.baudrate, p.parity, p.databits, p.stopbits % 16 + p.flowctrl % 16 * 16)
  }

  function FourBytes(a: nat, b: nat, c: nat, d: nat): (w: nat)
    requires a < 256 && b < 256 && c < 256 && d < 256
    ensures w < WORD
    ensures w % 256 == a && w / 0x100 % 256 == b && w / 0x100 / 0x100 % 256 == c && w / 0x100 / 0x100 / 0x100 == d
  {
    LowByte(c, d);
    LowByte(b, c + 256 * d);
    LowByte(a, b + 256 * (c + 256 * d));
    a + 256 * (b + 256 * (c + 256 * d))
  }

  lemma LowByte(a: nat, x: nat)
    requires a < 256
    ensures (a + 256 * x) % 256 == a && (a + 256 * x) / 256 == x
  {
  }

  function Unpack(w: uint32): Parts {
    Parts(w % 256, w / 0x100 % 256, w / 0x1_0000 % 256, w / 0x100_0000 % 16, w / 0x1000_0000 % 16)
  }

  lemma UnpackPack(p: Parts)
    requires p.stopbits < 16 && p.flowctrl < 16
    ensures Unpack(Pack(p)) == p
  {
    hide FourBytes;
    Shifts(Pack(p));
  }

  lemma Shifts(w: nat)
    ensures w / 0x1_0000 == w / 0x100 / 0x100 && w / 0x100_0000 == w / 0x100 / 0x100 / 0x100
    ensures w / 0x1000_0000 == w / 0x100_0000 / 16
  {
  }

  /** modetty_s2num: `mode` is what *decoded holds, and is left alone unless the text is accepted. */
  method ModettyS2Num(verify: Option<byte -> bool>, raw: string, mode0: uint32) returns (ok: bool, mode: uint32)
    requires IsCString(raw)
    ensures ok <==> Decode(raw, verify).Some?
    ensures mode == if ok then Pack(Decode(raw, verify).value) else mode0
  {
    hide Split, S2Num, Pack, StringAt;
    mode := mode0;
    ok := |raw| <= RAW_SIZE - 1;
    if ok {
      var myraw := new char[RAW_SIZE](i => if 0 <= i < |raw| then raw[i] else '\0');
      var myarg;
      ok, myarg := Tokenize(myraw, raw);
      if ok {
        ghost var ts := Split(raw);
        assert forall k :: 0 <= k < NUMTOKENS ==> TokenAt(myraw[..], myarg[k], ts[k]);
        var b := SearchS2Num(StringAt(myraw[..], myarg[0]), BAUDRATES);
        ok := b.Some? && (verify.None? || verify.value(b.value));
        if ok {
          var p := SearchS2Num(StringAt(myraw[..], myarg[1]), PARITIES);
          var d := SearchS2Num(StringAt(myraw[..], myarg[2]), DATABITS);
          var s := SearchS2Num(StringAt(myraw[..], myarg[3]), STOPBITS);
          var f := SearchS2Num(StringAt(myraw[..], myarg[4]), FLOWCTRLS);
          ok := p.Some? && d.Some? && s.Some? && f.Some?;
          if ok {
            mode := Pack(Parts(b.value, p.value, d.value, s.value, f.value));
          }
        }
      }
    }
  }

  /** env_modetty_string2parts: `mode` is what the local variable holds before the call. */
  method String2Parts(raw: string, mode0: uint32) returns (parts: Parts)
    requires IsCString(raw)
    ensures parts == PartsOf(raw, mode0)
  {
    hide Pack, Unpack, Decode;
    var ok, mode := ModettyS2Num(None, raw, mode0);
    parts := Unpack(mode);
    if ok {
      DecodedUnpacks(raw, None);
    }
  }

  /** The settings of an accepted text; for any other text, whatever was there. */
  function PartsOf(raw: string, mode0: uint32): Parts {
    if Decode(raw, None).Some? then Decode(raw, None).value else Unpack(mode0)
  }

  /** What was on the stack does not matter exactly for the texts that can be decoded. */
  lemma StackMattersExactly(raw: string)
    ensures (forall m: uint32, m': uint32 :: PartsOf(raw, m) == PartsOf(raw, m')) <==> Decode(raw, None).Some?
  {
    hide Decode;
    assert Unpack(0).baudrate == 0 && Unpack(1).baudrate == 1;
    if Decode(raw, None).None? {
      assert PartsOf(raw, 0) != PartsOf(raw, 1);
    }
  }

  /** "9600" has too few parts: it gives baud rate 0 or 1 with 0 or 1 on the stack. */
  lemma StackShows()
    ensures Decode("9600", None).None?
    ensures PartsOf("9600", 0) == Parts(0, 0, 0, 0, 0) && PartsOf("9600", 1) == Parts(1, 0, 0, 0, 0)
  {
    SplitPlain("9600");
  }

  lemma DecodedUnpacks(raw: string, verify: Option<byte -> bool>)
    requires Decode(raw, verify).Some?
    ensures Unpack(Pack(Decode(raw, verify).value)) == Decode(raw, verify).value
  {
    hide Pack, Unpack, S2Num;
    var ts := Split(raw);
    TablesArePlain();
    InTable(ts[3], STOPBITS, 1, 16);
    InTable(ts[4], FLOWCTRLS, 4, 16);
    UnpackPack(Decode(raw, verify).value);
  }

  lemma InTable(s: string, pairs: seq<Pair>, width: nat, limit: nat)
    requires PlainTable(pairs, width, limit) && S2Num(s, pairs).Some?
    ensures S2Num(s, pairs).value < limit
  {
  }

  // ---------- and back ----------

  function Texts(p: Parts): seq<Option<string>> {
    [Num2S(p.baudrate, BAUDRATES), Num2S(p.parity, PARITIES), Num2S(p.databits, DATABITS),
     Num2S(p.stopbits, STOPBITS), Num2S(p.flowctrl, FLOWCTRLS)]
  }

  predicate Known(p: Parts) {
    forall i :: 0 <= i < NUMTOKENS ==> Texts(p)[i].Some?
  }

  /** The text of settings that are all in the tables. */
  function Encode(p: Parts): string
    requires Known(p)
  {
    var ts := Texts(p);
    Join([ts[0].value, ts[1].value, ts[2].value, ts[3].value, ts[4].value])
  }

  lemma NumberText(n: byte, pairs: seq<Pair>, width: nat, limit: nat)
    requires PlainTable(pairs, width, limit) && Num2S(n, pairs).Some?
    ensures var s := Num2S(n, pairs).value; PlainText(s) && |s| <= width && n < limit
  {
  }

  lemma KnownIs(p: Parts, a: Option<string>, b: Option<string>, c: Option<string>, d: Option<string>, e: Option<string>)
    requires Texts(p) == [a, b, c, d, e]
    ensures Known(p) <==> a.Some? && b.Some? && c.Some? && d.Some? && e.Some?
  {
    var o := Texts(p);
    assert o[0] == a && o[1] == b && o[2] == c && o[3] == d && o[4] == e;
  }

  /** env_modetty_parts2string: fails exactly when a setting is in no table; the text always fits. */
  method Parts2String(p: Parts) returns (s: Option<string>)
    ensures s.Some? <==> Known(p)
    ensures s.Some? ==> s.value == Encode(p)
  {
    hide Num2S;
    TablesArePlain();
    s := None;
    var b := SearchNum2S(p.baudrate, BAUDRATES);
    var par := SearchNum2S(p.parity, PARITIES);
    var d := SearchNum2S(p.databits, DATABITS);
    var st := SearchNum2S(p.stopbits, STOPBITS);
    var f := SearchNum2S(p.flowctrl, FLOWCTRLS);
    KnownIs(p, b, par, d, st, f);
    if b.Some? && par.Some? && d.Some? && st.Some? && f.Some? {
      var n := |b.value| + 1;
      NumberText(p.baudrate, BAUDRATES, 6, 256);
      NumberText(p.parity, PARITIES, 1, 256);
      NumberText(p.databits, DATABITS, 1, 256);
      NumberText(p.stopbits, STOPBITS, 1, 16);
      NumberText(p.flowctrl, FLOWCTRLS, 4, 16);
      var myraw := b.value + ",";
      n := n + |par.value| + 1;
      myraw := myraw + par.value + ",";
      n := n + |d.value| + 1;
      myraw := myraw + d.value + ",";
      n := n + |st.value| + 1;
      myraw := myraw + st.value + ",";
      n := n + |f.value|;
      assert n <= RAW_SIZE - 1;
      myraw := myraw + f.value;
      JoinFive(b.value, par.value, d.value, st.value, f.value);
      s := Some(myraw);
    }
  }

  lemma JoinFive(a: string, b: string, c: string, d: string, e: string)
    ensures Join([a, b, c, d, e]) == a + "," + b + "," + c + "," + d + "," + e
  {
    JoinMore(d, [e]);
    JoinMore(c, [d, e]);
    JoinMore(b, [c, d, e]);
    JoinMore(a, [b, c, d, e]);
    var x := d + "," + e;
    Append(a + ",", b, c + "," + x);
    Append(a + "," + b + ",", c, x);
    Append(a + "," + b + "," + c + ",", d, e);
  }

  lemma JoinMore(t: string, ts: seq<string>)
    requires ts != []
    ensures Join([t] + ts) == t + "," + Join(ts)
    ensures |ts| == 1 ==> Join(ts) == ts[0]
  {
    assert ([t] + ts)[1..] == ts;
  }

  lemma Append(pre: string, t: string, rest: string)
    ensures pre + (t + "," + rest) == pre + t + "," + rest
  {
  }

  // ---------- round trips ----------

  /** Every accepted text is the text of the settings it stands for. */
  lemma AcceptedTextComesBack(raw: string, verify: Option<byte -> bool>)
    requires Decode(raw, verify).Some?
    ensures var p := Decode(raw, verify).value; Known(p) && Encode(p) == raw
  {
    hide Split, Join, S2Num, Num2S;
    var ts, p := Split(raw), Decode(raw, verify).value;
    TablesAreOneToOne();
    SearchesUndo(BAUDRATES, p.baudrate, ts[0]);
    SearchesUndo(PARITIES, p.parity, ts[1]);
    SearchesUndo(DATABITS, p.databits, ts[2]);
    SearchesUndo(STOPBITS, p.stopbits, ts[3]);
    SearchesUndo(FLOWCTRLS, p.flowctrl, ts[4]);
    assert Texts(p) == [Some(ts[0]), Some(ts[1]), Some(ts[2]), Some(ts[3]), Some(ts[4])];
    assert ts == [ts[0], ts[1], ts[2], ts[3], ts[4]];
    JoinSplit(raw);
  }

  /** The text of known settings is accepted and stands for them, if the port takes the baud rate. */
  lemma KnownSettingsComeBack(p: Parts, verify: Option<byte -> bool>)
    requires Known(p) && (verify.Some? ==> verify.value(p.baudrate))
    ensures IsCString(Encode(p)) && Decode(Encode(p), verify) == Some(p)
  {
    hide Split, Join, S2Num, Num2S;
    TablesAreOneToOne();
    TablesArePlain();
    var o := Texts(p);
    assert o[0].Some? && o[1].Some? && o[2].Some? && o[3].Some? && o[4].Some?;
    NumberText(p.baudrate, BAUDRATES, 6, 256);
    NumberText(p.parity, PARITIES, 1, 256);
    NumberText(p.databits, DATABITS, 1, 256);
    NumberText(p.stopbits, STOPBITS, 1, 16);
    NumberText(p.flowctrl, FLOWCTRLS, 4, 16);
    var ts := [o[0].value, o[1].value, o[2].value, o[3].value, o[4].value];
    SearchesUndo(BAUDRATES, p.baudrate, ts[0]);
    SearchesUndo(PARITIES, p.parity, ts[1]);
    SearchesUndo(DATABITS, p.databits, ts[2]);
    SearchesUndo(STOPBITS, p.stopbits, ts[3]);
    SearchesUndo(FLOWCTRLS, p.flowctrl, ts[4]);
    JoinFive(ts[0], ts[1], ts[2], ts[3], ts[4]);
    SplitJoin(ts);
  }
}

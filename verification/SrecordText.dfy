/** What the loader makes of a text: lines and files given by their characters. */
module SrecordText {
  import opened Machine
  import opened Wrappers
  import opened Srecord
  import opened SrecordCodec

  // ---------- characters ----------

  const DIGITS := "0123456789abcdef"
  const CAPITALS := "0123456789ABCDEF"

  /** The character is the digit of value v. */
  predicate IsDigit(c: byte, v: nat) {
    v < 16 && (c == DIGITS[v] as int || c == CAPITALS[v] as int)
  }

  predicate IsHexDigit(c: byte) {
    ('0' as int <= c <= '9' as int) || ('a' as int <= c <= 'f' as int) || ('A' as int <= c <= 'F' as int)
  }

  predicate IsBlank(c: byte) {
    c == 0 || c == '\t' as int || c == '\n' as int || c == '\r' as int || c == ' ' as int
  }

  /** The table tells digits, blanks and other characters apart; character 255 passes for a zero. */
  lemma CharacterKinds(c: byte)
    ensures forall v: nat :: v < 16 ==> (Char2Val(c) == v <==> IsDigit(c, v) || (c == 255 && v == 0))
    ensures Char2Val(c) == VALID_SPACE <==> IsBlank(c)
    ensures Char2Val(c) == NO_HEX <==> !IsHexDigit(c) && !IsBlank(c) && c != 255
    ensures IsHexDigit(c) ==> 0 <= Char2Val(c) < 16 && IsDigit(c, Char2Val(c))
  {
    forall v: nat | v < 16 ensures Char2Val(c) == v <==> IsDigit(c, v) || (c == 255 && v == 0) {
      DigitCharacters(v);
    }
    OtherCharacters(c);
  }

  lemma DigitCharacters(v: nat)
    requires v < 16
    ensures forall c: byte :: IsDigit(c, v) <==> if v < 10 then c == 48 + v else c == 87 + v || c == 55 + v
  {
  }

  lemma OtherCharacters(c: byte)
    ensures Char2Val(c) == VALID_SPACE <==> IsBlank(c)
    ensures Char2Val(c) == NO_HEX <==> !IsHexDigit(c) && !IsBlank(c) && c != 255
    ensures IsHexDigit(c) ==> 0 <= Char2Val(c) < 16
    ensures c != 255 && 0 <= Char2Val(c) < 16 ==> IsHexDigit(c)
  {
  }

  /** In a line a character that is neither a digit, a blank nor printable is shown as a question mark. */
  lemma ShownExactly(c: byte)
    ensures Shown(c) == if c == 0 || (!IsHexDigit(c) && !IsBlank(c) && c != 255 && !(32 <= c <= 126) && !(161 <= c <= 223))
                        then '?' as int else c
  {
    OtherCharacters(c);
  }

  /** The digits denote the bytes. */
  predicate Denotes(t: seq<byte>, bs: seq<byte>) {
    && |t| == 2 * |bs|
    && forall i :: 0 <= i < |bs| ==> IsDigit(t[2 * i], bs[i] / 16) && IsDigit(t[2 * i + 1], bs[i] % 16)
  }

  predicate AreHexDigits(t: seq<byte>) {
    forall i :: 0 <= i < |t| ==> IsHexDigit(t[i])
  }

  /** An even number of digits denotes some bytes. */
  function BytesOf(t: seq<byte>): (bs: seq<byte>)
    requires AreHexDigits(t) && |t| % 2 == 0
    ensures Denotes(t, bs)
    decreases |t|
  {
    if t == [] then []
    else
      CharacterKinds(t[0]);
      CharacterKinds(t[1]);
      var b: byte := Char2Val(t[0]) * 16 + Char2Val(t[1]);
      DenotesMore(t, b, BytesOf(t[2..]));
      [b] + BytesOf(t[2..])
  }

  lemma DenotesMore(t: seq<byte>, b: byte, bs: seq<byte>)
    requires |t| >= 2 && IsDigit(t[0], b / 16) && IsDigit(t[1], b % 16) && Denotes(t[2..], bs)
    ensures Denotes(t, [b] + bs)
  {
    var all := [b] + bs;
    forall i | 0 <= i < |all| ensures IsDigit(t[2 * i], all[i] / 16) && IsDigit(t[2 * i + 1], all[i] % 16) {
      if i > 0 {
        assert t[2 * i] == t[2..][2 * (i - 1)] && t[2 * i + 1] == t[2..][2 * (i - 1) + 1];
      }
    }
  }

  lemma DenotesRest(t: seq<byte>, bs: seq<byte>)
    requires Denotes(t, bs) && bs != []
    ensures Denotes(t[2..], bs[1..])
  {
    forall i | 0 <= i < |bs| - 1
      ensures IsDigit(t[2..][2 * i], bs[1..][i] / 16) && IsDigit(t[2..][2 * i + 1], bs[1..][i] % 16)
    {
      assert IsDigit(t[2 * (i + 1)], bs[i + 1] / 16) && IsDigit(t[2 * (i + 1) + 1], bs[i + 1] % 16);
    }
  }

  // ---------- lines ----------

  /** A line that is read without error: printable characters and a line end. */
  predicate Ends(e: byte) {
    e == LF || e == CR
  }

  lemma DigitPair(line: seq<byte>, i: nat, b: byte)
    requires i + 2 <= |line| && IsDigit(line[i], b / 16) && IsDigit(line[i + 1], b % 16)
    ensures PairsFrom(line, i) == match PairsFrom(line, i + 2)
                                  case Bad(e) => Bad(e)
                                  case Bytes(bs) => Bytes([b] + bs)
  {
    hide Char2Val, IsDigit;
    CharacterKinds(line[i]);
    CharacterKinds(line[i + 1]);
  }

  /** Digits up to the line end give their bytes. */
  lemma {:induction false} DigitsGiveBytes(line: seq<byte>, i: nat, t: seq<byte>, bs: seq<byte>)
    requires Denotes(t, bs) && |line| == i + |t| + 1 && line[i..] == t + [line[|line| - 1]]
    requires Ends(line[|line| - 1])
    ensures PairsFrom(line, i) == Bytes(bs)
    decreases |bs|
  {
    hide PairsFrom, IsDigit;
    if bs == [] {
      EndGivesNothing(line, i);
    } else {
      assert IsDigit(t[2 * 0], bs[0] / 16) && IsDigit(t[2 * 0 + 1], bs[0] % 16);
      assert line[i] == line[i..][0] == t[0] && line[i + 1] == line[i..][1] == t[1];
      DigitPair(line, i, bs[0]);
      DenotesRest(t, bs);
      assert line[i + 2..] == line[i..][2..] == t[2..] + [line[|line| - 1]];
      DigitsGiveBytes(line, i + 2, t[2..], bs[1..]);
      assert [bs[0]] + bs[1..] == bs;
    }
  }

  lemma EndGivesNothing(line: seq<byte>, i: nat)
    requires |line| == i + 1 && Ends(line[i])
    ensures PairsFrom(line, i) == Bytes([])
  {
  }

  /** The number of address bytes of a record with that type character, 0 if it has no address. */
  function AddressSize(kind: byte): nat {
    if kind == '1' as int || kind == '9' as int then 2
    else if kind == '2' as int || kind == '8' as int then 3
    else if kind == '3' as int || kind == '7' as int then 4
    else 0
  }

  predicate IsDataKind(kind: byte) {
    '1' as int <= kind <= '3' as int
  }

  /** The bytes of a record with an address: the first counts the others, there are enough of them, and in
      a termination record no more. */
  predicate CountsRight(kind: byte, bs: seq<byte>) {
    |bs| >= AddressSize(kind) + 2 && bs[0] == |bs| - 1
  }

  predicate SumsRight(bs: seq<byte>) {
    ByteSum(bs) % 256 == 0xff
  }

  /** What a line of digits means, by its type character: records 1, 2 and 3 are data, 7, 8 and 9 end the
      load, 0 and 5 are skipped whatever their digits, and every other type is refused. */
  lemma LineMeans(line: seq<byte>, t: seq<byte>, bs: seq<byte>)
    requires |line| >= 3 && line[2..] == t + [line[|line| - 1]] && Denotes(t, bs) && Ends(line[|line| - 1])
    ensures var kind, n := line[1], AddressSize(line[1]);
      if kind == '0' as int || kind == '5' as int then Decode(line) == Skipped
      else if n == 0 then Decode(line) == Rejected(ILLEGAL_FORMAT)
      else if !CountsRight(kind, bs) then Decode(line) == Rejected(ILLEGAL_FORMAT)
      else if !SumsRight(bs) then Decode(line) == Rejected(CHECKSUM)
      else if IsDataKind(kind) then Decode(line) == Data(BigEndian(bs[1..n + 1]), bs[n + 1..|bs| - 1])
      else if |bs| > n + 2 then Decode(line) == Rejected(ILLEGAL_FORMAT)
      else Decode(line) == End(BigEndian(bs[1..n + 1]))
  {
    hide ByteSum, BigEndian, PairsFrom, Srecord.Record, IsDigit;
    assert |line| == 2 + |t| + 1;
    DigitsGiveBytes(line, 2, t, bs);
    if AddressSize(line[1]) > 0 {
      BytesMean(line[1], bs);
    }
  }

  lemma BytesMean(kind: byte, bs: seq<byte>)
    requires AddressSize(kind) > 0
    ensures var n, r := AddressSize(kind), Srecord.Record(kind, AddressBytes(kind), bs);
      if !CountsRight(kind, bs) then r == Rejected(ILLEGAL_FORMAT)
      else if !SumsRight(bs) then r == Rejected(CHECKSUM)
      else if IsDataKind(kind) then r == Data(BigEndian(bs[1..n + 1]), bs[n + 1..|bs| - 1])
      else if |bs| > n + 2 then r == Rejected(ILLEGAL_FORMAT)
      else r == End(BigEndian(bs[1..n + 1]))
  {
    hide ByteSum, BigEndian;
  }

  /** A line that is not refused has one of eight type characters. */
  lemma KindsAccepted(line: seq<byte>)
    requires |line| >= 2 && !Decode(line).Rejected?
    ensures line[1] in {'0' as int, '1' as int, '2' as int, '3' as int, '5' as int, '7' as int, '8' as int, '9' as int}
    ensures Decode(line).Skipped? <==> line[1] in {'0' as int, '5' as int}
    ensures Decode(line).Data? <==> line[1] in {'1' as int, '2' as int, '3' as int}
  {
    hide PairsFrom;
  }

  /** The first character behind the digits of a record line decides: another character is illegal, a
      blank behind a single digit is a wrong format, and a blank behind pairs needs blanks up to the end. */
  lemma {:induction false} FirstOther(line: seq<byte>, i: nat, k: nat)
    requires i <= k < |line| && AreHexDigits(line[i..k]) && !IsHexDigit(line[k]) && line[k] != 255
    ensures var r := PairsFrom(line, i);
      if !IsBlank(line[k]) then r == Bad(ILLEGAL_CHARACTER)
      else if (k - i) % 2 == 1 then r == Bad(ILLEGAL_FORMAT)
      else r.Bad? <==> exists j :: k < j < |line| && !IsBlank(line[j])
    ensures IsBlank(line[k]) && PairsFrom(line, i).Bad? ==> PairsFrom(line, i) == Bad(ILLEGAL_FORMAT)
    decreases k - i
  {
    CharacterKinds(line[k]);
    if k == i {
      BlankToEnd(line, k + 1);
    } else {
      assert line[i] == line[i..k][0];
      CharacterKinds(line[i]);
      if k > i + 1 {
        assert line[i + 1] == line[i..k][1];
        CharacterKinds(line[i + 1]);
        assert line[i + 2..k] == line[i..k][2..];
        FirstOther(line, i + 2, k);
      }
    }
  }

  lemma {:induction false} BlankToEnd(line: seq<byte>, i: nat)
    requires i <= |line|
    ensures RestBlank(line, i) <==> forall j :: i <= j < |line| ==> IsBlank(line[j])
    decreases |line| - i
  {
    if i < |line| {
      CharacterKinds(line[i]);
      BlankToEnd(line, i + 1);
    }
  }

  // ---------- files ----------

  /** A line of a file, without its line end: the text of a record, or a line that is to be skipped. */
  datatype Item = Record(text: seq<byte>, rec: Rec) | Note(text: seq<byte>)

  predicate StartsRecord(t: seq<byte>) {
    2 <= |t| < MAX_LINE_SIZE && |t| % 2 == 0 && AreHexDigits(t[2..]) && (t[0] == 'S' as int || t[0] == 's' as int)
  }

  /** The digits of a record may be in either case; those of a skipped line may be any: count and checksum
      need not be right. */
  predicate IsItem(x: Item) {
    && StartsRecord(x.text)
    && match x
       case Record(t, r) => (IsData(r) || IsEnd(r)) && t[1] == r.kind && Denotes(t[2..], RecordBytes(r))
       case Note(t) => t[1] == '0' as int || t[1] == '5' as int
  }

  predicate AreItems(xs: seq<Item>) {
    forall i :: 0 <= i < |xs| ==> IsItem(xs[i])
  }

  function Text(xs: seq<Item>, eol: seq<byte>): seq<byte> {
    if xs == [] then [] else xs[0].text + eol + Text(xs[1..], eol)
  }

  /** The records among the lines. */
  function Records(xs: seq<Item>): seq<Rec> {
    if xs == [] then [] else (if xs[0].Record? then [xs[0].rec] else []) + Records(xs[1..])
  }

  /** No line ends the load. */
  predicate NoneEnds(xs: seq<Item>) {
    forall i :: 0 <= i < |xs| && xs[i].Record? ==> IsData(xs[i].rec)
  }

  /** A line of a file is read as it is, and means its record or nothing. */
  lemma ItemMeans(x: Item, e: byte)
    requires IsItem(x) && Ends(e)
    ensures var line := x.text + [e];
      && IsPlain(line) && (line[0] == 83 || line[0] == 115)
      && Decode(line) == match x
                         case Note(_) => Skipped
                         case Record(_, r) => if IsEnd(r) then End(r.addr) else Data(r.addr, r.data)
  {
    hide ByteSum, BigEndian, RecordBytes, Decode;
    var t, line := x.text, x.text + [e];
    assert forall i :: 2 <= i < |t| ==> t[i] == t[2..][i - 2];
    match x
    case Note(_) =>
      assert t[1] == line[1] && line[2..] == t[2..] + [e];
      LineMeans(line, t[2..], BytesOf(t[2..]));
    case Record(_, r) =>
      RecordLine(r, t, e);
      TypeRanges(r);
  }

  lemma TypeRanges(r: Rec)
    requires IsData(r) || IsEnd(r)
    ensures '1' as int <= r.kind <= '9' as int && (IsEnd(r) <==> r.kind > 51)
  {
  }

  lemma RecordLine(r: Rec, t: seq<byte>, e: byte)
    requires (IsData(r) || IsEnd(r)) && Ends(e) && |t| >= 2 && t[1] == r.kind && Denotes(t[2..], RecordBytes(r))
    ensures Decode(t + [e]) == if r.kind > 51 then End(r.addr) else Data(r.addr, r.data)
  {
    hide ByteSum, BigEndian, RecordBytes;
    var line := t + [e];
    assert line[2..] == t[2..] + [e] && line[1] == r.kind;
    DigitsGiveBytes(line, 2, t[2..], RecordBytes(r));
    RecordDecodes(r);
  }

  /** Where the services stand after the lines of a file: they accept its records. */
  ghost predicate Accepting(env: Env, xs: seq<Item>) {
    && (forall c :: !env.dotBreak(c))
    && (forall i, c :: 0 <= i < |xs| && xs[i].Record? ==>
          && env.rangeError(c, xs[i].rec.addr, |xs[i].rec.data|) == 0
          && env.writeError(c, xs[i].rec.addr, |xs[i].rec.data|) == 0)
  }

  /** What is left over of a line end. */
  function Left(rest: seq<byte>, xs: seq<Item>, eol: seq<byte>): seq<byte>
    requires IsEol(eol)
  {
    if xs == [] then rest else eol[1..]
  }

  /** One line that does not end the load. */
  lemma LineLoads(env: Env, pos: nat, rest: seq<byte>, x: Item, eol: seq<byte>, tail: seq<byte>,
                  count: nat, lo: nat, hi: nat, mem: Memory)
    requires IsItem(x) && (x.Record? ==> IsData(x.rec)) && IsEol(eol) && Accepting(env, [x]) && (rest == [] || rest == [LF])
    requires pos <= |env.input| && StandsAt(env.input, pos, (rest + (x.text + [eol[0]])) + tail)
    ensures var pos' := pos + |rest| + |x.text| + 1;
      var rs := if x.Record? then [x.rec] else [];
      && pos' <= |env.input| && StandsAt(env.input, pos', tail)
      && LoadNext(env, pos, count, lo, hi, mem) ==
         LoadNext(env, pos', count + 1, LeastStart(lo, rs), GreatestEnd(hi, rs), WithImage(mem, rs))
  {
    hide LoadNext, Decode, Stored, ReadFrom, StandsAt, IsPlain, IsItem, Fits, LeastStart, GreatestEnd, WithImage, Min, Max;
    var line := x.text + [eol[0]];
    ItemMeans(x, eol[0]);
    ReadsParts(env.input, env.port.PORT_NET?, pos, rest, line, tail);
    LoadNextStep(env, pos, count, lo, hi, mem);
    LineLength(line);
    LoadFromStep(env, pos + |rest| + |line|, line, count, lo, hi, mem);
    EmptyImage(lo, hi, mem);
    if x.Record? {
      assert [x][0] == x;
      NotBoth(x.rec);
      OneRecord(x.rec, lo, hi, mem);
    }
  }

  lemma OneRecord(r: Rec, lo: nat, hi: nat, mem: Memory)
    requires IsData(r)
    ensures var rs := [r];
      && LeastStart(lo, rs) == (if r.data == [] then lo else Min(lo, r.addr))
      && GreatestEnd(hi, rs) == (if r.data == [] then hi else Max(hi, r.addr + |r.data| - 1))
      && WithImage(mem, rs) == Stored(mem, r.addr, r.data)
    ensures r.data == [] ==> Stored(mem, r.addr, r.data) == mem
    ensures r.data != [] ==> (r.addr + |r.data| - 1) % WORD == r.addr + |r.data| - 1 >= r.addr
  {
    EmptyImage(if r.data == [] then lo else Min(lo, r.addr), if r.data == [] then hi else Max(hi, r.addr + |r.data| - 1),
               Stored(mem, r.addr, r.data));
    assert [r][1..] == [];
  }

  /** Lines that do not end the load put their records into memory, and loading goes on behind them. */
  lemma {:induction false} LinesLoad(env: Env, pos: nat, rest: seq<byte>, xs: seq<Item>, eol: seq<byte>, tail: seq<byte>,
                                     count: nat, lo: nat, hi: nat, mem: Memory)
    requires AreItems(xs) && NoneEnds(xs) && IsEol(eol) && Accepting(env, xs) && (rest == [] || rest == [LF])
    requires pos <= |env.input| && StandsAt(env.input, pos, rest + Text(xs, eol) + tail)
    ensures var left := Left(rest, xs, eol);
      var pos' := pos + |rest| + |Text(xs, eol)| - |left|;
      && pos <= pos' <= |env.input| && StandsAt(env.input, pos', left + tail)
      && LoadNext(env, pos, count, lo, hi, mem) ==
         LoadNext(env, pos', count + |xs|, LeastStart(lo, Records(xs)), GreatestEnd(hi, Records(xs)), WithImage(mem, Records(xs)))
    decreases |xs|
  {
    hide LoadNext, StandsAt, IsItem, LeastStart, GreatestEnd, WithImage;
    if xs == [] {
      EmptyImage(lo, hi, mem);
      assert rest + [] + tail == rest + tail;
    } else {
      var x, more := xs[0], xs[1..];
      var rs := if x.Record? then [x.rec] else [];
      TextApart(rest, x.text, eol, Text(more, eol), tail);
      LineLoads(env, pos, rest, x, eol, eol[1..] + Text(more, eol) + tail, count, lo, hi, mem);
      LinesLoad(env, pos + |rest| + |x.text| + 1, eol[1..], more, eol, tail, count + 1,
                LeastStart(lo, rs), GreatestEnd(hi, rs), WithImage(mem, rs));
      RecordsApart(rs, Records(more), lo, hi, mem);
      LeftMore(rest, xs, eol);
    }
  }

  lemma RecordsApart(rs: seq<Rec>, more: seq<Rec>, lo: nat, hi: nat, mem: Memory)
    requires |rs| <= 1
    ensures LeastStart(lo, rs + more) == LeastStart(LeastStart(lo, rs), more)
    ensures GreatestEnd(hi, rs + more) == GreatestEnd(GreatestEnd(hi, rs), more)
    ensures WithImage(mem, rs + more) == WithImage(WithImage(mem, rs), more)
  {
    if rs == [] {
      assert rs + more == more;
    } else {
      assert (rs + more)[1..] == more && rs[1..] == [];
    }
  }

  lemma LeftMore(rest: seq<byte>, xs: seq<Item>, eol: seq<byte>)
    requires IsEol(eol) && xs != []
    ensures Left(eol[1..], xs[1..], eol) == Left(rest, xs, eol)
    ensures |Text(xs, eol)| == |xs[0].text| + |eol| + |Text(xs[1..], eol)|
  {
  }

  lemma NotBoth(r: Rec)
    requires IsData(r)
    ensures !IsEnd(r)
  {
  }

  lemma LineLength(line: seq<byte>)
    requires IsPlain(line)
    ensures |line| >= 2
  {
  }

  lemma TextApart(rest: seq<byte>, text: seq<byte>, eol: seq<byte>, more: seq<byte>, tail: seq<byte>)
    requires eol != []
    ensures rest + (text + eol + more) + tail == (rest + (text + [eol[0]])) + (eol[1..] + more + tail)
  {
    assert eol == [eol[0]] + eol[1..];
    var a, b := [eol[0]], eol[1..];
    assert text + (a + b) + more == text + a + (b + more);
    assert rest + (text + a + (b + more)) + tail == rest + (text + a) + (b + more + tail);
  }

  // ---------- loads ----------

  /** The port is known, and the network layer meets no error. */
  predicate Connected(env: Env) {
    CanRead(env) && (env.port.PORT_NET? ==> env.netLastError == 0)
  }

  /** A file that starts with a line of records or a skipped one is loaded line by line. */
  lemma LoadIsLines(env: Env, xs: seq<Item>, eol: seq<byte>, tail: seq<byte>, mem: Memory)
    requires AreItems(xs) && xs != [] && IsEol(eol) && Connected(env)
    requires StandsAt(env.input, 0, Text(xs, eol) + tail)
    ensures Load(env, mem) == LoadNext(env, 0, 0, UINT32_MAX, 0, mem)
  {
    hide LoadFrom, Decode, ReadFrom, StandsAt, IsPlain, IsItem;
    var x := xs[0];
    ItemMeans(x, eol[0]);
    TextApart([], x.text, eol, Text(xs[1..], eol), tail);
    assert [] + (x.text + eol + Text(xs[1..], eol)) + tail == Text(xs, eol) + tail;
    ReadsParts(env.input, env.port.PORT_NET?, 0, [], x.text + [eol[0]], eol[1..] + Text(xs[1..], eol) + tail);
    LineLength(x.text + [eol[0]]);
    assert ([] + (x.text + [eol[0]])) == x.text + [eol[0]];
  }

  /** The lines of a file, and what comes behind them, with what the lines have done. */
  lemma FileLoads(env: Env, xs: seq<Item>, eol: seq<byte>, tail: seq<byte>, mem: Memory) returns (pos: nat)
    requires AreItems(xs) && NoneEnds(xs) && xs != [] && IsEol(eol) && Accepting(env, xs) && Connected(env)
    requires StandsAt(env.input, 0, Text(xs, eol) + tail)
    ensures pos <= |env.input| && pos == |Text(xs, eol)| - |eol[1..]| && StandsAt(env.input, pos, eol[1..] + tail)
    ensures var rs := Records(xs);
      Load(env, mem) == LoadNext(env, pos, |xs|, LeastStart(UINT32_MAX, rs), GreatestEnd(0, rs), WithImage(mem, rs))
  {
    hide Load, LoadNext, StandsAt, IsItem;
    LoadIsLines(env, xs, eol, tail, mem);
    assert [] + Text(xs, eol) + tail == Text(xs, eol) + tail;
    LinesLoad(env, 0, [], xs, eol, tail, 0, UINT32_MAX, 0, mem);
    pos := |Text(xs, eol)| - |eol[1..]|;
  }

  /** A file of data records and skipped lines in any order, then a termination record: the load succeeds
      with exactly the image, entry address and range of the records. The skipped lines change nothing. */
  lemma SkippedLinesChangeNothing(env: Env, xs: seq<Item>, end: Item, eol: seq<byte>, mem: Memory)
    requires AreItems(xs) && NoneEnds(xs) && IsItem(end) && end.Record? && IsEnd(end.rec) && IsEol(eol)
    requires Accepting(env, xs) && Connected(env)
    requires StandsAt(env.input, 0, Text(xs, eol) + end.text + eol)
    ensures var rs := Records(xs);
      Load(env, mem) == Loaded(OK, end.rec.addr, LeastStart(UINT32_MAX, rs), GreatestEnd(0, rs), WithImage(mem, rs))
  {
    hide Load, LoadNext, LoadFrom, Decode, ReadFrom, StandsAt, IsPlain, IsItem, LeastStart, GreatestEnd, WithImage;
    var line := end.text + [eol[0]];
    ItemMeans(end, eol[0]);
    LineLength(line);
    var pos: nat, rest := 0, [];
    if xs == [] {
      EmptyImage(UINT32_MAX, 0, mem);
      assert Text([end], eol) + [] == Text(xs, eol) + end.text + eol;
      LoadIsLines(env, [end], eol, [], mem);
      assert Text(xs, eol) + end.text + eol == rest + (end.text + eol);
    } else {
      assert Text(xs, eol) + end.text + eol == Text(xs, eol) + (end.text + eol);
      pos := FileLoads(env, xs, eol, end.text + eol, mem);
      rest := eol[1..];
    }
    EndApart(rest, end.text, eol);
    ReadsParts(env.input, env.port.PORT_NET?, pos, rest, line, eol[1..]);
    var rs := Records(xs);
    LoadNextStep(env, pos, |xs|, LeastStart(UINT32_MAX, rs), GreatestEnd(0, rs), WithImage(mem, rs));
    LoadFromStep(env, pos + |rest| + |line|, line, |xs|, LeastStart(UINT32_MAX, rs), GreatestEnd(0, rs), WithImage(mem, rs));
  }

  lemma EndApart(rest: seq<byte>, text: seq<byte>, eol: seq<byte>)
    requires eol != []
    ensures rest + (text + eol) == (rest + (text + [eol[0]])) + eol[1..]
  {
    assert eol == [eol[0]] + eol[1..];
  }

  /** Skipped lines put anywhere before the termination record leave what a load does as it is. */
  lemma LoadsLikeRecords(env: Env, env': Env, xs: seq<Item>, end: Item, eol: seq<byte>, recs: seq<Rec>, mem: Memory)
    requires AreItems(xs) && NoneEnds(xs) && IsItem(end) && end.Record? && IsEnd(end.rec) && IsEol(eol)
    requires Accepting(env, xs) && Connected(env) && StandsAt(env.input, 0, Text(xs, eol) + end.text + eol)
    requires recs == Records(xs) + [end.rec] && IsFile(recs) && Willing(env', recs)
    requires StandsAt(env'.input, 0, FileText(recs, eol))
    ensures Load(env, mem) == Load(env', mem)
  {
    hide Load, Text, FileText, LeastStart, GreatestEnd, WithImage, StandsAt, Accepting, Willing, IsItem;
    SkippedLinesChangeNothing(env, xs, end, eol, mem);
    LoadUndoesEncoding(env', recs, eol, mem);
    assert recs[..|recs| - 1] == Records(xs);
  }

  // ---------- loads that fail ----------

  /** The same lines without a termination record: the image is there, but the load is not complete. */
  lemma MissingEnd(env: Env, xs: seq<Item>, eol: seq<byte>, mem: Memory)
    requires AreItems(xs) && NoneEnds(xs) && xs != [] && IsEol(eol) && Accepting(env, xs) && Connected(env)
    requires StandsAt(env.input, 0, Text(xs, eol)) && |env.input| == |Text(xs, eol)|
    ensures var rs := Records(xs);
      Load(env, mem) == Loaded(NO_S7_RECORD, 0, LeastStart(UINT32_MAX, rs), GreatestEnd(0, rs), WithImage(mem, rs))
  {
    hide Load, LoadNext, LoadFrom, ReadFrom, StandsAt, IsItem, LeastStart, GreatestEnd, WithImage;
    assert Text(xs, eol) + [] == Text(xs, eol);
    var pos := FileLoads(env, xs, eol, [], mem);
    var rs := Records(xs);
    LoadNextStep(env, pos, |xs|, LeastStart(UINT32_MAX, rs), GreatestEnd(0, rs), WithImage(mem, rs));
    assert eol[1..] + [] == eol[1..];
    NothingLeft(env.input, env.port.PORT_NET?, pos, eol[1..]);
  }

  lemma NothingLeft(input: seq<Event>, net: bool, pos: nat, rest: seq<byte>)
    requires (rest == [] || rest == [LF]) && StandsAt(input, pos, rest) && pos + |rest| == |input|
    ensures ReadFrom(input, net, pos, []) == LineRead(NO_S7_RECORD, [], |input| + 1)
  {
    hide ReadFrom;
    ReadFromStep(input, net, pos, []);
    if rest == [LF] {
      assert input[pos + 0] == Char(rest[0]);
      ReadFromStep(input, net, pos + 1, []);
    }
  }

  /** A line behind them that is refused ends the load with its error; one that does not start with 'S' or
      's' is a wrong format. What came before is in memory. */
  lemma BadLineStops(env: Env, xs: seq<Item>, eol: seq<byte>, line: seq<byte>, tail: seq<byte>, mem: Memory)
    requires AreItems(xs) && NoneEnds(xs) && xs != [] && IsEol(eol) && Accepting(env, xs) && Connected(env)
    requires IsPlain(line) && (line[0] in {'S' as int, 's' as int} ==> Decode(line).Rejected?)
    requires StandsAt(env.input, 0, Text(xs, eol) + (line + tail))
    ensures var rs, e := Records(xs), if line[0] in {'S' as int, 's' as int} then Decode(line).err else ILLEGAL_FORMAT;
      Load(env, mem) == Loaded(e, 0, LeastStart(UINT32_MAX, rs), GreatestEnd(0, rs), WithImage(mem, rs))
  {
    hide Load, LoadNext, LoadFrom, ReadFrom, StandsAt, IsItem, LeastStart, GreatestEnd, WithImage, Decode;
    var pos := FileLoads(env, xs, eol, line + tail, mem);
    var rs := Records(xs);
    LineLength(line);
    Regroup(eol[1..], line, tail);
    ReadsParts(env.input, env.port.PORT_NET?, pos, eol[1..], line, tail);
    LoadNextStep(env, pos, |xs|, LeastStart(UINT32_MAX, rs), GreatestEnd(0, rs), WithImage(mem, rs));
    LoadFromStep(env, pos + |eol[1..]| + |line|, line, |xs|, LeastStart(UINT32_MAX, rs), GreatestEnd(0, rs), WithImage(mem, rs));
  }

  /** Reading one more line behind the lines of a file. */
  lemma LineReached(env: Env, xs: seq<Item>, line: seq<byte>, eol: seq<byte>, tail: seq<byte>, mem: Memory) returns (pos: nat)
    requires AreItems(xs) && NoneEnds(xs) && xs != [] && IsEol(eol) && Accepting(env, xs) && Connected(env)
    requires IsPlain(line) && line[0] in {'S' as int, 's' as int} && StandsAt(env.input, 0, Text(xs, eol) + (line + tail))
    ensures var rs := Records(xs);
      && pos <= |env.input| && |line| >= 2
      && Load(env, mem) == LoadFrom(env, pos, line, |xs|, LeastStart(UINT32_MAX, rs), GreatestEnd(0, rs), WithImage(mem, rs))
  {
    hide Load, LoadNext, LoadFrom, ReadFrom, StandsAt, IsItem, LeastStart, GreatestEnd, WithImage;
    pos := FileLoads(env, xs, eol, line + tail, mem);
    var rs := Records(xs);
    LineLength(line);
    Regroup(eol[1..], line, tail);
    ReadsParts(env.input, env.port.PORT_NET?, pos, eol[1..], line, tail);
    LoadNextStep(env, pos, |xs|, LeastStart(UINT32_MAX, rs), GreatestEnd(0, rs), WithImage(mem, rs));
    pos := pos + |eol[1..]| + |line|;
  }

  /** A record that is not taken ends the load with the code of who refuses it: a range that wraps is an
      overflow, and then the services are asked. The range reported has its addresses in it, and if the write was
      refused, memory is what that has left. */
  lemma RefusedRecordStops(env: Env, xs: seq<Item>, line: seq<byte>, eol: seq<byte>, tail: seq<byte>, mem: Memory)
    requires AreItems(xs) && NoneEnds(xs) && xs != [] && IsEol(eol) && Accepting(env, xs) && Connected(env)
    requires IsPlain(line) && line[0] in {'S' as int, 's' as int} && StandsAt(env.input, 0, Text(xs, eol) + (line + tail))
    requires Decode(line).Data? && Decode(line).data != []
    ensures var Data(addr, data) := Decode(line);
      var rs, n, top := Records(xs), |xs|, addr + |data| - 1;
      var lo, hi, m := Min(LeastStart(UINT32_MAX, rs), addr), Max(GreatestEnd(0, rs), top % 0x1_0000_0000), WithImage(mem, rs);
      var v, w := env.rangeError(n, addr, |data|), env.writeError(n, addr, |data|);
      if top >= 0x1_0000_0000 && top % 0x1_0000_0000 < addr then Load(env, mem) == Loaded(STORE(0x10012), 0, lo, hi, m)
      else if v != 0 then Load(env, mem) == Loaded(STORE(v), 0, lo, hi, m)
      else w != 0 ==> Load(env, mem) == Loaded(STORE(w), 0, lo, hi, env.refused(n, m))
  {
    hide Load, LoadFrom, LoadNext, StandsAt, IsItem, LeastStart, GreatestEnd, WithImage, Decode, Stored, Min, Max, Text, Records, Fits;
    var pos := LineReached(env, xs, line, eol, tail, mem);
    var rs := Records(xs);
    LoadFromStep(env, pos, line, |xs|, LeastStart(UINT32_MAX, rs), GreatestEnd(0, rs), WithImage(mem, rs));
  }

  /** Over the network the load stops when a break is asked for at every 512th line, counted from the first; at no
      other line, and on no other port, is it asked for. */
  lemma DotBreaks(env: Env, pos: nat, line: seq<byte>, count: nat, lo: nat, hi: nat, mem: Memory)
    requires |line| >= 2 && pos <= |env.input| && Decode(line).Rejected?
    ensures LoadFrom(env, pos, line, count, lo, hi, mem).rc ==
            if env.port.PORT_NET? && count % 512 == 0 && env.dotBreak(count) then BREAK else Decode(line).err
  {
    hide Decode;
  }

  /** Over the network the interrupt character is one as any other, and goes into the line as a question mark. */
  lemma InterruptKept(line: seq<byte>)
    requires |line| < 200
    ensures StepOn(Char(3), true, line) == More(line + ['?' as int])
    ensures StepOn(Char(3), false, line) == Finished(BREAK, line)
  {
  }

  /** A break ends the load: the interrupt character on a terminal, or a break typed while there is nothing
      to read. Over the network the character is one as any other. */
  lemma BreakStops(env: Env, xs: seq<Item>, eol: seq<byte>, tail: seq<byte>, mem: Memory)
    requires AreItems(xs) && NoneEnds(xs) && xs != [] && eol == [LF] && Accepting(env, xs) && Connected(env)
    requires StandsAt(env.input, 0, Text(xs, eol)) && |env.input| > |Text(xs, eol)|
    requires var e := env.input[|Text(xs, eol)|]; e == UserBreak || (e == Char(3) && !env.port.PORT_NET?)
    ensures var rs := Records(xs);
      Load(env, mem) == Loaded(BREAK, 0, LeastStart(UINT32_MAX, rs), GreatestEnd(0, rs), WithImage(mem, rs))
  {
    hide Load, LoadNext, LoadFrom, ReadFrom, StandsAt, IsItem, LeastStart, GreatestEnd, WithImage;
    assert Text(xs, eol) + [] == Text(xs, eol);
    var pos := FileLoads(env, xs, eol, [], mem);
    var rs := Records(xs);
    LoadNextStep(env, pos, |xs|, LeastStart(UINT32_MAX, rs), GreatestEnd(0, rs), WithImage(mem, rs));
    ReadFromStep(env.input, env.port.PORT_NET?, pos, []);
  }

  /** Reading stops with an error at the 201st character of a line. */
  lemma LongLineStops(input: seq<Event>, net: bool, pos: nat, line: seq<byte>)
    requires |line| == 201 && line[0] != 32 && forall i :: 0 <= i < |line| ==> 32 <= line[i] <= 126
    requires StandsAt(input, pos, line)
    ensures ReadFrom(input, net, pos, []) == LineRead(LINE_TOO_LONG, line[..200], pos + 201)
  {
    LongLineFrom(input, net, pos, line, 0);
  }

  lemma {:induction false} LongLineFrom(input: seq<Event>, net: bool, pos: nat, line: seq<byte>, k: nat)
    requires |line| == 201 && line[0] != 32 && (forall i :: 0 <= i < |line| ==> 32 <= line[i] <= 126) && k <= 200
    requires StandsAt(input, pos, line)
    ensures ReadFrom(input, net, pos + k, line[..k]) == LineRead(LINE_TOO_LONG, line[..200], pos + 201)
    decreases 200 - k
  {
    hide ReadFrom;
    assert input[pos + k] == Char(line[k]);
    assert line[..k] + [line[k]] == line[..k + 1];
    ReadFromStep(input, net, pos + k, line[..k]);
    if k < 200 {
      LongLineFrom(input, net, pos, line, k + 1);
    }
  }

  /** The first line tells the format: any that does not start with 'S' or 's' is unknown. A port that is
      not known, a file that could not be opened, and an error the network layer has met have their own
      codes. */
  lemma LoadRefused(env: Env, line: seq<byte>, tail: seq<byte>, mem: Memory)
    requires IsPlain(line) && StandsAt(env.input, 0, line + tail)
    ensures env.port.PORT_OTHER? ==> Load(env, mem).rc == UNSUPPORTED_PORT
    ensures env.port.PORT_NET? && env.netOpen != 0 ==>
              Load(env, mem).rc == if env.netOpen == 0xa00b then BREAK else NET
    ensures CanRead(env) && !(line[0] in {'S' as int, 's' as int}) ==>
              Load(env, mem) == Loaded(UNKNOWN_TYPE, 0, UINT32_MAX, 0, mem)
    ensures CanRead(env) && line[0] in {'S' as int, 's' as int} && env.port.PORT_NET? && env.netLastError != 0 ==>
              Load(env, mem).rc == if env.netLastError == 0xa00b then BREAK else NET
  {
    hide LoadFrom, ReadFrom, StandsAt, IsPlain;
    LineLength(line);
    assert [] + line + tail == line + tail && [] + line == line;
    ReadsParts(env.input, env.port.PORT_NET?, 0, [], line, tail);
  }
}

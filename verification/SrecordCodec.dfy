/** Writing an image as S-records, and the proof that loading undoes it. */
module SrecordCodec {
  import opened Machine
  import opened Wrappers
  import opened Srecord

  /** A record to be written: its type character, address and data. */
  datatype Rec = Rec(kind: byte, addr: nat, data: seq<byte>)

  function HexDigit(v: int): (c: byte)
    requires 0 <= v < 16
    ensures Char2Val(c) == v && c !in {0, CR, LF}
  {
    if v < 10 then 48 + v else 55 + v
  }

  function EncodePairs(bs: seq<byte>): (t: seq<byte>)
    ensures |t| == 2 * |bs|
    ensures forall i :: 0 <= i < |t| ==> IsHex(t[i]) && t[i] !in {0, CR, LF, UART_ERROR}
  {
    if bs == [] then [] else [HexDigit(bs[0] / 16), HexDigit(bs[0] % 16)] + EncodePairs(bs[1..])
  }

  /** The n low bytes of a word, most significant first. */
  function ToBytes(v: nat, n: nat): (bs: seq<byte>)
    ensures |bs| == n
  {
    if n == 0 then [] else ToBytes(v / 256, n - 1) + [v % 256]
  }

  function Pow256(n: nat): nat {
    if n == 0 then 1 else 256 * Pow256(n - 1)
  }

  /** Count, address, data: everything the checksum covers. */
  function Payload(r: Rec): (bs: seq<byte>)
    requires Fits(r)
    ensures |bs| == AddressBytes(r.kind) + |r.data| + 1
  {
    var count: byte := AddressBytes(r.kind) + |r.data| + 1;
    [count] + ToBytes(r.addr, AddressBytes(r.kind)) + r.data
  }

  function RecordBytes(r: Rec): (bs: seq<byte>)
    requires Fits(r)
    ensures |bs| == AddressBytes(r.kind) + |r.data| + 2
  {
    var check: byte := 255 - ByteSum(Payload(r)) % 256;
    Payload(r) + [check]
  }

  /** The line of a record, without its line end. */
  function LineText(r: Rec): (t: seq<byte>)
    requires Fits(r)
    ensures |t| == 2 + 2 * (AddressBytes(r.kind) + |r.data| + 2)
  {
    [83, r.kind] + EncodePairs(RecordBytes(r))
  }

  /** The record has an address, which its type can express, and its line fits the line buffer. */
  predicate Fits(r: Rec) {
    && AddressBytes(r.kind) > 0
    && r.addr < Pow256(AddressBytes(r.kind))
    && 2 + 2 * (AddressBytes(r.kind) + |r.data| + 2) + 1 <= MAX_LINE_SIZE
  }

  predicate IsEnd(r: Rec) {
    Fits(r) && r.kind > 51 && r.data == []
  }

  predicate IsData(r: Rec) {
    Fits(r) && r.kind <= 51 && r.addr + |r.data| <= WORD
  }

  // ---------- one record ----------

  lemma {:induction false} ToBytesBigEndian(v: nat, n: nat)
    requires v < Pow256(n)
    ensures BigEndian(ToBytes(v, n)) == v
  {
    if n > 0 {
      ToBytesBigEndian(v / 256, n - 1);
      assert ToBytes(v, n)[..n - 1] == ToBytes(v / 256, n - 1);
    }
  }

  lemma {:induction false} PairsDecode(line: seq<byte>, i: nat, bs: seq<byte>)
    requires i <= |line| && |line| == i + 2 * |bs| + 1
    requires line[i..i + 2 * |bs|] == EncodePairs(bs)
    requires Char2Val(line[|line| - 1]) == VALID_SPACE
    ensures PairsFrom(line, i) == Bytes(bs)
    decreases |bs|
  {
    if bs != [] {
      var t := EncodePairs(bs);
      assert line[i] == line[i..i + 2 * |bs|][0] && line[i + 1] == line[i..i + 2 * |bs|][1];
      assert line[i + 2..i + 2 * |bs|] == line[i..i + 2 * |bs|][2..];
      assert t[2..] == EncodePairs(bs[1..]);
      PairsDecode(line, i + 2, bs[1..]);
      assert bs == [bs[0]] + bs[1..];
    }
  }

  lemma RecordDecodes(r: Rec)
    requires IsEnd(r) || IsData(r)
    ensures Record(r.kind, AddressBytes(r.kind), RecordBytes(r)) ==
      (if r.kind > 51 then End(r.addr) else Data(r.addr, r.data))
  {
    hide ByteSum, BigEndian, ToBytes;
    var n, p, bs := AddressBytes(r.kind), Payload(r), RecordBytes(r);
    SumAppend(p, 255 - ByteSum(p) % 256);
    ToBytesBigEndian(r.addr, n);
    assert bs[1..n + 1] == ToBytes(r.addr, n);
    assert bs[n + 1..|bs| - 1] == r.data;
  }

  /** A line decodes to the record it was made from. */
  lemma LineDecodes(r: Rec, e: byte)
    requires (IsEnd(r) || IsData(r)) && e in {CR, LF}
    ensures Decode(LineText(r) + [e]) == (if r.kind > 51 then End(r.addr) else Data(r.addr, r.data))
  {
    var line := LineText(r) + [e];
    assert line[1] == r.kind;
    assert line[2..2 + 2 * |RecordBytes(r)|] == EncodePairs(RecordBytes(r));
    PairsDecode(line, 2, RecordBytes(r));
    RecordDecodes(r);
  }

  // ---------- reading the text ----------

  function Chars(t: seq<byte>): (es: seq<Event>)
    ensures |es| == |t| && forall i :: 0 <= i < |t| ==> es[i] == Char(t[i])
  {
    if t == [] then [] else Chars(t[..|t| - 1]) + [Char(t[|t| - 1])]
  }

  /** The characters of t stand in the input from pos on. */
  ghost predicate StandsAt(input: seq<Event>, pos: nat, t: seq<byte>) {
    pos + |t| <= |input| && forall i :: 0 <= i < |t| ==> input[pos + i] == Char(t[i])
  }

  /** A line of printable characters that does not start with a blank, with its line end. */
  ghost predicate IsPlain(line: seq<byte>) {
    && 1 < |line| <= MAX_LINE_SIZE && line[|line| - 1] in {CR, LF} && line[0] != 32
    && forall i :: 0 <= i < |line| - 1 ==> 32 <= line[i] <= 126
  }

  /** Reading stores the characters of a line and stops behind its line end. */
  lemma {:induction false} ReadsLine(input: seq<Event>, net: bool, pos: nat, line: seq<byte>, k: nat)
    requires IsPlain(line) && k < |line| && StandsAt(input, pos, line)
    ensures ReadFrom(input, net, pos + k, line[..k]) == LineRead(OK, line, pos + |line|)
    decreases |line| - k
  {
    hide ReadFrom;
    assert input[pos + k] == Char(line[k]);
    assert line[..k] + [line[k]] == line[..k + 1];
    ReadFromStep(input, net, pos + k, line[..k]);
    if k < |line| - 1 {
      assert line[k] != CR && line[k] != LF;
      ReadsLine(input, net, pos, line, k + 1);
    } else {
      assert line[..k + 1] == line;
    }
  }

  /** A line feed left over from the line before is skipped. */
  lemma ReadsNextLine(input: seq<Event>, net: bool, pos: nat, rest: seq<byte>, line: seq<byte>)
    requires rest == [] || rest == [LF]
    requires IsPlain(line) && StandsAt(input, pos, rest + line)
    ensures ReadFrom(input, net, pos, []) == LineRead(OK, line, pos + |rest| + |line|)
  {
    hide ReadFrom, IsPlain;
    StandsAtTail(input, pos, rest, line);
    assert |line| > 0 by { PlainLength(line); }
    ReadsLine(input, net, pos + |rest|, line, 0);
    assert line[..0] == [];
    if rest == [LF] {
      assert input[pos + 0] == Char(rest[0]);
      ReadFromStep(input, net, pos, []);
    }
  }

  lemma PlainLength(line: seq<byte>)
    requires IsPlain(line)
    ensures 1 < |line| <= MAX_LINE_SIZE
  {
  }

  lemma StandsAtTail(input: seq<Event>, pos: nat, a: seq<byte>, b: seq<byte>)
    requires StandsAt(input, pos, a + b)
    ensures StandsAt(input, pos, a) && StandsAt(input, pos + |a|, b)
    ensures pos + |a| + |b| <= |input|
  {
    assert forall i :: 0 <= i < |a| ==> (a + b)[i] == a[i];
    assert forall i :: 0 <= i < |b| ==> (a + b)[|a| + i] == b[i];
  }

  // ---------- a whole file ----------

  predicate IsEol(eol: seq<byte>) {
    eol == [LF] || eol == [CR] || eol == [CR, LF]
  }

  function FileText(recs: seq<Rec>, eol: seq<byte>): seq<byte>
    requires forall i :: 0 <= i < |recs| ==> Fits(recs[i])
  {
    if recs == [] then [] else LineText(recs[0]) + eol + FileText(recs[1..], eol)
  }

  /** Data records that do not pass the end of the address space, then one termination record. */
  predicate IsFile(recs: seq<Rec>) {
    && |recs| > 0 && IsEnd(recs[|recs| - 1])
    && forall i :: 0 <= i < |recs| - 1 ==> IsData(recs[i])
  }

  /** Memory with the image stored. */
  function WithImage(mem: Memory, recs: seq<Rec>): Memory
    decreases |recs|
  {
    if recs == [] then mem else WithImage(Stored(mem, recs[0].addr, recs[0].data), recs[1..])
  }

  function LeastStart(lo: nat, recs: seq<Rec>): nat
    decreases |recs|
  {
    if recs == [] then lo
    else LeastStart(if recs[0].data == [] then lo else Min(lo, recs[0].addr), recs[1..])
  }

  function GreatestEnd(hi: nat, recs: seq<Rec>): nat
    decreases |recs|
  {
    if recs == [] then hi
    else GreatestEnd(if recs[0].data == [] then hi else Max(hi, recs[0].addr + |recs[0].data| - 1), recs[1..])
  }

  /** The port is known, the services accept the records, the network layer meets no error, and nobody
      types a break. */
  ghost predicate Willing(env: Env, recs: seq<Rec>) {
    && (forall c :: !env.dotBreak(c)) && CanRead(env) && (env.port.PORT_NET? ==> env.netLastError == 0)
    && (forall i, c :: 0 <= i < |recs| ==>
          env.rangeError(c, recs[i].addr, |recs[i].data|) == 0 && env.writeError(c, recs[i].addr, |recs[i].data|) == 0)
  }

  lemma LineCharacters(r: Rec, e: byte)
    requires (IsEnd(r) || IsData(r)) && e in {CR, LF}
    ensures var line := LineText(r) + [e];
      IsPlain(line) && |line| > 1 && line[0] == 83
  {
    var line := LineText(r) + [e];
    assert forall i :: 2 <= i < |line| - 1 ==> line[i] == EncodePairs(RecordBytes(r))[i - 2];
  }

  /** The text of a record with the first character of its line end, apart from what follows. */
  lemma LineApart(a: seq<byte>, b: seq<byte>, c: seq<byte>, d: seq<byte>, e: seq<byte>)
    ensures a + (b + (c + d) + e) == (a + (b + c)) + (d + e)
  {
    Regroup(b, c, d);
    Regroup(b + c, d, e);
    Regroup(a, b + c, d + e);
  }

  /** Reading the first record of the remaining text. */
  lemma ReadsRecord(input: seq<Event>, net: bool, pos: nat, rest: seq<byte>, recs: seq<Rec>, eol: seq<byte>)
    requires IsFile(recs) && IsEol(eol) && (rest == [] || rest == [LF])
    requires StandsAt(input, pos, rest + FileText(recs, eol))
    ensures var line := LineText(recs[0]) + [eol[0]];
      var pos' := pos + |rest| + |line|;
      && pos' <= |input| && ReadFrom(input, net, pos, []) == LineRead(OK, line, pos')
      && StandsAt(input, pos', eol[1..] + FileText(recs[1..], eol))
  {
    hide LineText, StandsAt, ReadFrom, IsPlain, Fits;
    var r := recs[0];
    var text, more := LineText(r), FileText(recs[1..], eol);
    LineCharacters(r, eol[0]);
    assert eol == [eol[0]] + eol[1..];
    LineApart(rest, text, [eol[0]], eol[1..], more);
    ReadsParts(input, net, pos, rest, text + [eol[0]], eol[1..] + more);
  }

  lemma ReadsParts(input: seq<Event>, net: bool, pos: nat, rest: seq<byte>, line: seq<byte>, tail: seq<byte>)
    requires (rest == [] || rest == [LF]) && IsPlain(line) && StandsAt(input, pos, (rest + line) + tail)
    ensures var pos' := pos + |rest| + |line|;
      && pos' <= |input| && ReadFrom(input, net, pos, []) == LineRead(OK, line, pos')
      && StandsAt(input, pos', tail)
  {
    hide StandsAt, ReadFrom, IsPlain;
    StandsAtTail(input, pos, rest + line, tail);
    ReadsNextLine(input, net, pos, rest, line);
  }

  /** Loading from the line of the first record on. */
  lemma {:induction false} LoadsFile(env: Env, pos: nat, recs: seq<Rec>, eol: seq<byte>, count: nat, lo: nat, hi: nat, mem: Memory)
    requires IsFile(recs) && IsEol(eol) && Willing(env, recs) && pos <= |env.input|
    requires StandsAt(env.input, pos, eol[1..] + FileText(recs[1..], eol))
    ensures LoadFrom(env, pos, LineText(recs[0]) + [eol[0]], count, lo, hi, mem) ==
      Loaded(OK, recs[|recs| - 1].addr, LeastStart(lo, recs[..|recs| - 1]), GreatestEnd(hi, recs[..|recs| - 1]),
             WithImage(mem, recs[..|recs| - 1]))
    decreases |recs|
  {
    hide LoadFrom, LoadNext, Decode, Stored, ReadFrom, FileText, LineText, StandsAt, IsPlain, Fits, LeastStart, GreatestEnd, WithImage, Min, Max;
    var r := recs[0];
    LineDecodes(r, eol[0]);
    LoadFromStep(env, pos, LineText(r) + [eol[0]], count, lo, hi, mem);
    if |recs| == 1 {
      EmptyImage(lo, hi, mem);
      assert recs[..0] == [];
    } else {
      var more := recs[1..];
      var lo': nat := if r.data == [] then lo else Min(lo, r.addr);
      var hi': nat := if r.data == [] then hi else Max(hi, r.addr + |r.data| - 1);
      var mem' := Stored(mem, r.addr, r.data);
      NothingStored(mem, r.addr, r.data);
      LoadNextStep(env, pos, count + 1, lo', hi', mem');
      ReadsRecord(env.input, env.port.PORT_NET?, pos, eol[1..], more, eol);
      LineCharacters(more[0], eol[0]);
      LoadsFile(env, pos + |eol[1..]| + |LineText(more[0]) + [eol[0]]|, more, eol, count + 1, lo', hi', mem');
      ImageStep(recs, lo, hi, mem);
    }
  }

  /** The image in front of the termination record, one data record at a time. */
  lemma ImageStep(recs: seq<Rec>, lo: nat, hi: nat, mem: Memory)
    requires |recs| > 1
    ensures var r, image, rest := recs[0], recs[..|recs| - 1], recs[1..][..|recs| - 2];
      && LeastStart(lo, image) == LeastStart(if r.data == [] then lo else Min(lo, r.addr), rest)
      && GreatestEnd(hi, image) == GreatestEnd(if r.data == [] then hi else Max(hi, r.addr + |r.data| - 1), rest)
      && WithImage(mem, image) == WithImage(Stored(mem, r.addr, r.data), rest)
  {
    assert recs[..|recs| - 1][1..] == recs[1..][..|recs| - 2];
  }

  lemma EmptyImage(lo: nat, hi: nat, mem: Memory)
    ensures LeastStart(lo, []) == lo && GreatestEnd(hi, []) == hi && WithImage(mem, []) == mem
  {
  }

  lemma NothingStored(mem: Memory, addr: nat, data: seq<byte>)
    ensures data == [] ==> Stored(mem, addr, data) == mem
  {
  }

  /** Loading undoes encoding: whatever follows the termination record, the load succeeds, memory
      holds the image on top of what it held before, and the entry address and range are those of
      the records. */
  lemma LoadUndoesEncoding(env: Env, recs: seq<Rec>, eol: seq<byte>, mem: Memory)
    requires IsFile(recs) && IsEol(eol) && Willing(env, recs)
    requires StandsAt(env.input, 0, FileText(recs, eol))
    ensures var image := recs[..|recs| - 1];
      Load(env, mem) ==
        Loaded(OK, recs[|recs| - 1].addr, LeastStart(UINT32_MAX, image), GreatestEnd(0, image), WithImage(mem, image))
  {
    hide Load, LoadFrom, ReadFrom, FileText, LineText, Fits, StandsAt, IsPlain, Willing, LeastStart, GreatestEnd, WithImage;
    assert [] + FileText(recs, eol) == FileText(recs, eol);
    ReadsRecord(env.input, env.port.PORT_NET?, 0, [], recs, eol);
    LineCharacters(recs[0], eol[0]);
    var line := LineText(recs[0]) + [eol[0]];
    LoadStarts(env, recs, line, mem);
    LoadsFile(env, |line|, recs, eol, 0, UINT32_MAX, 0, mem);
  }

  /** With willing services and a first line that starts with 'S' a load is the load of the lines. */
  lemma LoadStarts(env: Env, recs: seq<Rec>, line: seq<byte>, mem: Memory)
    requires Willing(env, recs) && |line| >= 2 && line[0] == 83 && |line| <= |env.input|
    requires ReadFrom(env.input, env.port.PORT_NET?, 0, []) == LineRead(OK, line, |line|)
    ensures Load(env, mem) == LoadFrom(env, |line|, line, 0, UINT32_MAX, 0, mem)
  {
    hide LoadFrom, ReadFrom;
  }
}

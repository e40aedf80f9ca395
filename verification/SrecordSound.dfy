/** What a successful load has done. */
module SrecordSound {
  import opened Machine
  import opened Srecord

  function Meaning(line: seq<byte>): Line {
    if |line| >= 2 then Decode(line) else Rejected(ILLEGAL_FORMAT)
  }

  /** The lines a load treats, from `line` on. */
  function LinesFrom(env: Env, pos: nat, line: seq<byte>): (ls: seq<seq<byte>>)
    requires pos <= |env.input|
    ensures |ls| > 0 && ls[0] == line
    decreases |env.input| - pos
  {
    var r := ReadFrom(env.input, env.port.PORT_NET?, pos, []);
    if (Meaning(line).Data? || Meaning(line).Skipped?) && r.rc == OK then [line] + LinesFrom(env, r.pos, r.line)
    else [line]
  }

  /** The line stores a byte at address x. */
  predicate Covers(line: seq<byte>, x: nat) {
    match Meaning(line)
    case Data(addr, data) => addr <= x < addr + |data|
    case _ => false
  }

  function ByteFor(line: seq<byte>, x: nat): byte
    requires Covers(line, x)
  {
    var Data(addr, data) := Meaning(line);
    data[x - addr]
  }

  /** The last line that stores a byte at address x, -1 if none does. */
  function Writer(ls: seq<seq<byte>>, x: nat): (w: int)
    ensures -1 <= w < |ls|
    ensures w >= 0 ==> Covers(ls[w], x)
    ensures forall i :: w < i < |ls| ==> !Covers(ls[i], x)
  {
    if ls == [] then -1
    else
      var w := Writer(ls[1..], x);
      if w >= 0 then w + 1 else if Covers(ls[0], x) then 0 else -1
  }

  /** At address x memory holds the byte of the last line that covers it, or what was there before. */
  ghost predicate HoldsAt(mem: Memory, mem': Memory, ls: seq<seq<byte>>, x: nat) {
    var w := Writer(ls, x);
    if w >= 0 then x in mem' && mem'[x] == ByteFor(ls[w], x)
    else (x in mem' <==> x in mem) && (x in mem ==> mem'[x] == mem[x])
  }

  ghost predicate Holds(mem: Memory, mem': Memory, ls: seq<seq<byte>>) {
    forall x: nat :: HoldsAt(mem, mem', ls, x)
  }

  predicate IsNonEmptyData(line: seq<byte>) {
    Meaning(line).Data? && Meaning(line).data != []
  }

  function Start(line: seq<byte>): nat
    requires IsNonEmptyData(line)
  {
    Meaning(line).addr
  }

  function Last(line: seq<byte>): nat
    requires IsNonEmptyData(line)
  {
    Meaning(line).addr + |Meaning(line).data| - 1
  }

  /** lo' is the least of lo and all start addresses, hi' the greatest of hi and all end addresses. */
  ghost predicate Range(lo: nat, hi: nat, lo': nat, hi': nat, ls: seq<seq<byte>>) {
    && lo' <= lo && hi <= hi'
    && (forall i :: 0 <= i < |ls| && IsNonEmptyData(ls[i]) ==> lo' <= Start(ls[i]) && Last(ls[i]) <= hi')
    && (lo' == lo || exists i :: 0 <= i < |ls| && IsNonEmptyData(ls[i]) && Start(ls[i]) == lo')
    && (hi' == hi || exists i :: 0 <= i < |ls| && IsNonEmptyData(ls[i]) && Last(ls[i]) == hi')
  }

  /** All lines but the last are data or skipped, the last one gives the entry address, and no data
      line runs past the end of the address space. */
  ghost predicate WellShaped(ls: seq<seq<byte>>, entry: nat) {
    && |ls| > 0 && Meaning(ls[|ls| - 1]) == End(entry)
    && (forall i :: 0 <= i < |ls| - 1 ==> Meaning(ls[i]).Data? || Meaning(ls[i]).Skipped?)
    && (forall i :: 0 <= i < |ls| && IsNonEmptyData(ls[i]) ==> Last(ls[i]) < WORD)
  }

  lemma {:induction false} StoredAt(mem: Memory, addr: nat, data: seq<byte>, x: nat)
    ensures addr <= x < addr + |data| ==> x in Stored(mem, addr, data) && Stored(mem, addr, data)[x] == data[x - addr]
    ensures !(addr <= x < addr + |data|) ==>
      (x in Stored(mem, addr, data) <==> x in mem) && (x in mem ==> Stored(mem, addr, data)[x] == mem[x])
    decreases |data|
  {
    if data != [] {
      StoredAt(mem, addr, data[..|data| - 1], x);
    }
  }

  /** An accepted data or termination line: its digit pairs give count, address, data and checksum,
      the count is right and the bytes add up to 0xff modulo 256. */
  lemma DecodedRecord(line: seq<byte>) returns (bs: seq<byte>)
    requires Meaning(line).Data? || Meaning(line).End?
    ensures |line| >= 2 && PairsFrom(line, 2) == Bytes(bs) && bs != []
    ensures bs[0] == |bs| - 1 && ByteSum(bs) % 256 == 255
    ensures var n := AddressBytes(line[1]);
      && n in {2, 3, 4} && |bs| >= n + 2
      && (Meaning(line).Data? ==> Meaning(line) == Data(BigEndian(bs[1..n + 1]), bs[n + 1..|bs| - 1]))
      && (Meaning(line).End? ==> |bs| == n + 2 && Meaning(line) == End(BigEndian(bs[1..n + 1])))
  {
    bs := PairsFrom(line, 2).bs;
  }

  lemma ValidatedFits(env: Env, count: nat, addr: nat, n: nat)
    requires n > 0 && addr < WORD && n <= WORD && Validate(env, count, addr, n) == 0
    ensures addr + n - 1 < WORD
  {
  }

  lemma {:induction false} BigEndianBound(a: seq<byte>, k: nat)
    requires |a| <= k <= 4
    ensures BigEndian(a) < (if k == 0 then 1 else if k == 1 then 0x100 else if k == 2 then 0x1_0000 else if k == 3 then 0x100_0000 else WORD)
    decreases k
  {
    if a != [] {
      BigEndianBound(a[..|a| - 1], k - 1);
    }
  }

  lemma DataAddress(line: seq<byte>)
    requires Meaning(line).Data?
    ensures Meaning(line).addr < WORD && |Meaning(line).data| <= 255
  {
    var bs := DecodedRecord(line);
    BigEndianBound(bs[1..AddressBytes(line[1]) + 1], 4);
  }

  lemma OneLine(line: seq<byte>, entry: nat, lo: nat, hi: nat, mem: Memory)
    requires Meaning(line) == End(entry)
    ensures WellShaped([line], entry) && Range(lo, hi, lo, hi, [line]) && Holds(mem, mem, [line])
  {
  }

  lemma HoldsSkip(mem: Memory, mem': Memory, line: seq<byte>, ls: seq<seq<byte>>)
    requires Holds(mem, mem', ls) && !IsNonEmptyData(line)
    ensures Holds(mem, mem', [line] + ls)
  {
    forall x: nat ensures HoldsAt(mem, mem', [line] + ls, x) {
      hide Decode, Stored;
      assert HoldsAt(mem, mem', ls, x) && ([line] + ls)[1..] == ls;
    }
  }

  lemma HoldsData(mem: Memory, mem': Memory, line: seq<byte>, ls: seq<seq<byte>>)
    requires IsNonEmptyData(line) && Holds(Stored(mem, Meaning(line).addr, Meaning(line).data), mem', ls)
    ensures Holds(mem, mem', [line] + ls)
  {
    hide HoldsAt, Decode, Stored;
    var stored, all := Stored(mem, Meaning(line).addr, Meaning(line).data), [line] + ls;
    forall x: nat ensures HoldsAt(mem, mem', all, x) {
      assert HoldsAt(stored, mem', ls, x);
      HoldsDataAt(mem, mem', line, ls, x);
    }
  }

  lemma HoldsDataAt(mem: Memory, mem': Memory, line: seq<byte>, ls: seq<seq<byte>>, x: nat)
    requires IsNonEmptyData(line) && HoldsAt(Stored(mem, Meaning(line).addr, Meaning(line).data), mem', ls, x)
    ensures HoldsAt(mem, mem', [line] + ls, x)
  {
    hide Decode, Stored;
    var Data(addr, data) := Meaning(line);
    assert ([line] + ls)[1..] == ls;
    StoredAt(mem, addr, data, x);
  }

  lemma RangeSkip(lo: nat, hi: nat, lo': nat, hi': nat, line: seq<byte>, ls: seq<seq<byte>>)
    requires Range(lo, hi, lo', hi', ls) && !IsNonEmptyData(line)
    ensures Range(lo, hi, lo', hi', [line] + ls)
  {
    hide Decode, Stored;
    var all := [line] + ls;
    assert forall i :: 0 <= i < |ls| ==> all[i + 1] == ls[i];
  }

  lemma RangeData(lo: nat, hi: nat, lo': nat, hi': nat, line: seq<byte>, ls: seq<seq<byte>>)
    requires IsNonEmptyData(line)
    requires Range(Min(lo, Start(line)), Max(hi, Last(line)), lo', hi', ls)
    ensures Range(lo, hi, lo', hi', [line] + ls)
  {
    hide Decode, Stored;
    var all := [line] + ls;
    assert forall i :: 0 <= i < |ls| ==> all[i + 1] == ls[i];
    assert all[0] == line;
  }

  lemma ShapeStep(line: seq<byte>, ls: seq<seq<byte>>, entry: nat)
    requires WellShaped(ls, entry) && (Meaning(line).Data? || Meaning(line).Skipped?)
    requires IsNonEmptyData(line) ==> Last(line) < WORD
    ensures WellShaped([line] + ls, entry)
  {
    hide Decode, Stored;
  }

  /** After a successful load memory holds exactly the bytes of the accepted data records, later
      records over earlier ones, and the reported addresses are their exact range. */
  lemma {:induction false} LoadSound(env: Env, pos: nat, line: seq<byte>, count: nat, lo: nat, hi: nat, mem: Memory)
    requires |line| >= 2 && pos <= |env.input| && LoadFrom(env, pos, line, count, lo, hi, mem).rc == OK
    ensures var r := LoadFrom(env, pos, line, count, lo, hi, mem);
      var ls := LinesFrom(env, pos, line);
      WellShaped(ls, r.entry) && Range(lo, hi, r.lo, r.hi, ls) && Holds(mem, r.mem, ls)
    decreases |env.input| - pos
  {
    hide LoadFrom, LoadNext, ReadFrom, Decode, Holds, Range, WellShaped, Validate, Stored;
    LoadFromStep(env, pos, line, count, lo, hi, mem);
    match Decode(line)
    case Rejected(e) =>
      assert false by { RejectedFails(env, pos, line, count, lo, hi, mem); }
    case End(entry) => OneLine(line, entry, lo, hi, mem);
    case Skipped =>
      NextSound(env, pos, count + 1, lo, hi, mem);
      SoundStep(env, pos, line, lo, hi, mem, lo, hi, mem, LoadNext(env, pos, count + 1, lo, hi, mem));
    case Data(addr, data) =>
      DataAddress(line);
      if data == [] {
        NextSound(env, pos, count + 1, lo, hi, mem);
        SoundStep(env, pos, line, lo, hi, mem, lo, hi, mem, LoadNext(env, pos, count + 1, lo, hi, mem));
      } else {
        var lo', hi', mem' := Min(lo, addr), Max(hi, (addr + |data| - 1) % WORD), Stored(mem, addr, data);
        ValidatedFits(env, count, addr, |data|);
        NextSound(env, pos, count + 1, lo', hi', mem');
        SoundStep(env, pos, line, lo, hi, mem, lo', hi', mem', LoadNext(env, pos, count + 1, lo', hi', mem'));
      }
  }

  /** An error status is never OK, so a rejected line ends a load that fails. */
  lemma RejectedFails(env: Env, pos: nat, line: seq<byte>, count: nat, lo: nat, hi: nat, mem: Memory)
    requires |line| >= 2 && pos <= |env.input| && Decode(line).Rejected?
    ensures LoadFrom(env, pos, line, count, lo, hi, mem).rc != OK
  {
  }

  /** The rest of a successful load. */
  lemma NextSound(env: Env, pos: nat, count: nat, lo: nat, hi: nat, mem: Memory)
    requires pos <= |env.input| && LoadNext(env, pos, count, lo, hi, mem).rc == OK
    ensures var next := ReadFrom(env.input, env.port.PORT_NET?, pos, []);
      var r := LoadNext(env, pos, count, lo, hi, mem);
      && next.rc == OK && next.pos <= |env.input|
      && var ls := LinesFrom(env, next.pos, next.line);
         WellShaped(ls, r.entry) && Range(lo, hi, r.lo, r.hi, ls) && Holds(mem, r.mem, ls)
    decreases |env.input| - pos, 0
  {
    hide LoadFrom, ReadFrom, Holds, Range, WellShaped, LinesFrom;
    LoadNextStep(env, pos, count, lo, hi, mem);
    var next := ReadFrom(env.input, env.port.PORT_NET?, pos, []);
    LoadSound(env, next.pos, next.line, count, lo, hi, mem);
  }

  /** Putting a data or skipped line in front of the rest. */
  lemma SoundStep(env: Env, pos: nat, line: seq<byte>, lo: nat, hi: nat, mem: Memory,
                  lo': nat, hi': nat, mem': Memory, r: Loaded)
    requires |line| >= 2 && pos <= |env.input|
    requires Meaning(line).Data? || Meaning(line).Skipped?
    requires if IsNonEmptyData(line)
      then Last(line) < WORD && lo' == Min(lo, Start(line)) && hi' == Max(hi, Last(line))
           && mem' == Stored(mem, Meaning(line).addr, Meaning(line).data)
      else lo' == lo && hi' == hi && mem' == mem
    requires var next := ReadFrom(env.input, env.port.PORT_NET?, pos, []);
      && next.rc == OK && next.pos <= |env.input|
      && var ls := LinesFrom(env, next.pos, next.line);
         WellShaped(ls, r.entry) && Range(lo', hi', r.lo, r.hi, ls) && Holds(mem', r.mem, ls)
    ensures var ls := LinesFrom(env, pos, line);
      WellShaped(ls, r.entry) && Range(lo, hi, r.lo, r.hi, ls) && Holds(mem, r.mem, ls)
  {
    hide ReadFrom, Holds, Range, WellShaped, Decode, Stored;
    var next := ReadFrom(env.input, env.port.PORT_NET?, pos, []);
    var ls := LinesFrom(env, next.pos, next.line);
    assert LinesFrom(env, pos, line) == [line] + ls;
    ShapeStep(line, ls, r.entry);
    if IsNonEmptyData(line) {
      HoldsData(mem, r.mem, line, ls);
      RangeData(lo, hi, r.lo, r.hi, line, ls);
    } else {
      HoldsSkip(mem, r.mem, line, ls);
      RangeSkip(lo, hi, r.lo, r.hi, line, ls);
    }
  }

  /** The whole command. */
  lemma LoadCommandSound(env: Env, mem: Memory)
    requires Load(env, mem).rc == OK
    ensures var r := Load(env, mem);
      var first := ReadFrom(env.input, env.port.PORT_NET?, 0, []);
      && CanRead(env) && (env.port.PORT_NET? ==> env.netLastError == 0)
      && first.rc == OK && first.pos <= |env.input|
      && var ls := LinesFrom(env, first.pos, first.line);
         WellShaped(ls, r.entry) && Range(UINT32_MAX, 0, r.lo, r.hi, ls) && Holds(mem, r.mem, ls)
  {
    hide LoadFrom, ReadFrom, Holds, Range, WellShaped, LinesFrom;
    var first := ReadFrom(env.input, env.port.PORT_NET?, 0, []);
    EmptyLine();
    ReadGivesLine(env.input, env.port.PORT_NET?, 0, []);
    LoadSound(env, first.pos, first.line, 0, UINT32_MAX, 0, mem);
  }

  /** A communication error is delivered as character 255, which the table takes for the digit 0:
      reading a line never reports one. */
  lemma {:induction false} CommunicationErrorNeverReported(input: seq<Event>, net: bool, pos: nat, line: seq<byte>)
    ensures ReadFrom(input, net, pos, line).rc != UART_COMM_ERROR
    decreases |input| - pos
  {
    ReadFromStep(input, net, pos, line);
    var step := StepOn(Next(input, pos), net, line);
    if step.More? {
      CommunicationErrorNeverReported(input, net, pos + 1, step.line);
    }
  }

  /** A communication error and a line feed read as a line whose first digit is 0. */
  lemma CommunicationErrorIsADigit(net: bool)
    ensures ReadFrom([Char(UART_ERROR), Char(LF)], net, 0, []) == LineRead(OK, [UART_ERROR, LF], 2)
    ensures Char2Val(UART_ERROR) == 0
  {
    var input := [Char(UART_ERROR), Char(LF)];
    ReadFromStep(input, net, 0, []);
    assert StepOn(Next(input, 0), net, []) == More([UART_ERROR]);
    ReadFromStep(input, net, 1, [UART_ERROR]);
    assert StepOn(Next(input, 1), net, [UART_ERROR]) == Finished(OK, [UART_ERROR, LF]);
  }
}

/** Lines and records of load/loader.c: what a line of input is, and what a line means. */
module Srecord {
  import opened Machine

  const MAX_LINE_SIZE := 200
  const CTRL_C: byte := 3
  const LF: byte := 10
  const CR: byte := 13
  const QUESTION: byte := 63
  const EOF_SREC: byte := 0xFE
  const UART_ERROR: byte := 0xFF

  const NO_HEX: byte := 128
  const VALID_SPACE: byte := 129

  /** The digit and white-space table.  Its initialiser has 255 entries, so entry 255 is 0. */
  function Char2Val(c: byte): (v: byte)
    ensures v < 16 || v == NO_HEX || v == VALID_SPACE
  {
    if c in {0, 9, 10, 13, 32} then VALID_SPACE
    else if 48 <= c <= 57 then c - 48
    else if 65 <= c <= 70 then c - 55
    else if 97 <= c <= 102 then c - 87
    else if c == 255 then 0
    else NO_HEX
  }

  predicate IsHex(c: byte) {
    Char2Val(c) < 16
  }

  /** Printable in the sense of lib/ctype.c. */
  predicate IsPrint(c: byte) {
    32 <= c <= 126 || 161 <= c <= 223
  }

  datatype Status = OK | NO_S7_RECORD | BREAK | LINE_TOO_LONG | UART_COMM_ERROR
                  | NET | UNSUPPORTED_PORT | ILLEGAL_FORMAT | ILLEGAL_CHARACTER | CHECKSUM | UNKNOWN_TYPE | STORE(code: uint32)

  // ---------- reading a line ----------

  /** What polling the port delivers next: a character, or a break typed on the console. */
  datatype Event = Char(c: byte) | UserBreak

  /** After its last event the port keeps delivering the end-of-file character. */
  function Next(input: seq<Event>, pos: nat): Event {
    if pos < |input| then input[pos] else Char(EOF_SREC)
  }

  /** A character as it is stored in the line: unexpected ones become printable. */
  function Shown(c: byte): byte {
    if c == 0 || (Char2Val(c) == NO_HEX && !IsPrint(c)) then QUESTION else c
  }

  /** A line as read: completion code, characters, position in the input behind it. */
  datatype LineRead = LineRead(rc: Status, line: seq<byte>, pos: nat)

  /** What one event does to the characters stored so far: the line is finished, or reading goes on. */
  datatype Step = Finished(rc: Status, line: seq<byte>) | More(line: seq<byte>)

  function StepOn(event: Event, net: bool, line: seq<byte>): Step {
    match event
    case UserBreak => Finished(BREAK, line)
    case Char(c) =>
      var special := Char2Val(c) >= NO_HEX;
      if special && c == CTRL_C && !net then Finished(BREAK, line)
      else if special && c == EOF_SREC then Finished(NO_S7_RECORD, [])
      else if special && c == UART_ERROR then Finished(UART_COMM_ERROR, line)
      else if special && line == [] && Char2Val(Shown(c)) == VALID_SPACE then More([])
      else if |line| >= MAX_LINE_SIZE then Finished(LINE_TOO_LONG, line)
      else if c == CR || c == LF then Finished(OK, line + [c])
      else More(line + [if special then Shown(c) else c])
  }

  /** Reads on from `pos` with the characters of `line` already stored. */
  function ReadFrom(input: seq<Event>, net: bool, pos: nat, line: seq<byte>): (r: LineRead)
    ensures r.pos > pos
    ensures r.rc == OK ==> r.pos <= |input|
    decreases |input| - pos
  {
    match StepOn(Next(input, pos), net, line)
    case Finished(rc, l) => LineRead(rc, l, pos + 1)
    case More(l) => ReadFrom(input, net, pos + 1, l)
  }

  /** Number of line feeds among the events lo..hi. */
  function LineFeeds(input: seq<Event>, lo: nat, hi: nat): (n: nat)
    requires lo <= hi <= |input|
  {
    if lo == hi then 0 else LineFeeds(input, lo, hi - 1) + (if input[hi - 1] == Char(LF) then 1 else 0)
  }

  /** The characters of a stored line: no NUL, and no line end except at the end of the line. */
  predicate IsLine(line: seq<byte>) {
    && 0 < |line| <= MAX_LINE_SIZE
    && (forall i :: 0 <= i < |line| ==> line[i] != 0)
    && (forall i :: 0 <= i < |line| - 1 ==> line[i] != CR && line[i] != LF)
    && line[|line| - 1] in {CR, LF}
    && Char2Val(line[0]) != VALID_SPACE
  }

  // ---------- decoding a line ----------

  function CharAt(line: seq<byte>, i: nat): byte {
    if i < |line| then line[i] else 0
  }

  /** The bytes written by the digit pairs of a line, or the error found. */
  datatype Pairs = Bytes(bs: seq<byte>) | Bad(err: Status)

  predicate RestBlank(line: seq<byte>, i: nat)
    decreases |line| - i
  {
    i < |line| ==> Char2Val(line[i]) == VALID_SPACE && RestBlank(line, i + 1)
  }

  function PairsFrom(line: seq<byte>, i: nat): (r: Pairs)
    requires i <= |line|
    ensures r.Bytes? ==> 2 * |r.bs| <= |line| - i
    ensures r.Bad? ==> r.err in {ILLEGAL_CHARACTER, ILLEGAL_FORMAT}
    decreases |line| - i
  {
    var hi := Char2Val(CharAt(line, i));
    if hi == NO_HEX then Bad(ILLEGAL_CHARACTER)
    else if hi == VALID_SPACE then
      (if i == |line| || RestBlank(line, i + 1) then Bytes([]) else Bad(ILLEGAL_FORMAT))
    else
      var lo := Char2Val(CharAt(line, i + 1));
      if lo == NO_HEX then Bad(ILLEGAL_CHARACTER)
      else if lo == VALID_SPACE then Bad(ILLEGAL_FORMAT)
      else
        match PairsFrom(line, i + 2)
        case Bad(e) => Bad(e)
        case Bytes(bs) => Bytes([hi * 16 + lo] + bs)
  }

  function BigEndian(bs: seq<byte>): nat {
    if bs == [] then 0 else BigEndian(bs[..|bs| - 1]) * 256 + bs[|bs| - 1]
  }

  /** Bytes of address in a record of this type; 0 for the types that are skipped. */
  function AddressBytes(kind: byte): nat {
    if kind == 51 || kind == 55 then 4      // S3, S7
    else if kind == 50 || kind == 56 then 3 // S2, S8
    else if kind == 49 || kind == 57 then 2 // S1, S9
    else 0
  }

  predicate IsKind(kind: byte) {
    AddressBytes(kind) > 0 || kind == 48 || kind == 53
  }

  /** The meaning of a line. */
  datatype Line = Data(addr: nat, data: seq<byte>) | End(entry: nat) | Skipped | Rejected(err: Status)

  /** The meaning of the bytes of a record with n > 0 address bytes: count, address, data, checksum. */
  function Record(kind: byte, n: nat, bs: seq<byte>): Line {
    if bs == [] || |bs| - 1 != bs[0] then Rejected(ILLEGAL_FORMAT)
    else if |bs| < n + 2 then Rejected(ILLEGAL_FORMAT)
    else if ByteSum(bs) % 256 != 255 then Rejected(CHECKSUM)
    else
      var addr, data := BigEndian(bs[1..n + 1]), bs[n + 1..|bs| - 1];
      if kind <= 51 then Data(addr, data)
      else if data != [] then Rejected(ILLEGAL_FORMAT)
      else End(addr)
  }

  function Decode(line: seq<byte>): Line
    requires |line| >= 2
  {
    if !IsKind(line[1]) then Rejected(ILLEGAL_FORMAT)
    else
      match PairsFrom(line, 2)
      case Bad(e) => Rejected(e)
      case Bytes(bs) => if AddressBytes(line[1]) == 0 then Skipped else Record(line[1], AddressBytes(line[1]), bs)
  }

  // ---------- memory ----------

  type Memory = map<nat, byte>

  /** Memory after the bytes of `data` have been stored from `addr` up. */
  function Stored(mem: Memory, addr: nat, data: seq<byte>): Memory {
    if data == [] then mem
    else Stored(mem, addr, data[..|data| - 1])[addr + |data| - 1 := data[|data| - 1]]
  }

  // ---------- loading ----------

  datatype Port = PORT_TTY0 | PORT_TTY1 | PORT_NET | PORT_OTHER

  /** The input and the services a load depends on.  The services may answer differently each time:
      they are given the number of the line.  0 is success.  A write that is refused may leave anything
      in memory.  The network layer tells how opening the file ended, and the last error it met. */
  datatype Env = Env(input: seq<Event>, port: Port,
                     dotBreak: nat -> bool,
                     rangeError: (nat, nat, nat) -> uint32,
                     writeError: (nat, nat, nat) -> uint32,
                     refused: (nat, Memory) -> Memory,
                     netOpen: uint32,
                     netLastError: uint32)

  const COUNT_DISP_INTERVAL := 0x200
  const SHELL_ERROR_OVERFLOW: uint32 := 0x10012

  /** sys_validate_range: a range that wraps is refused before anything else is asked. */
  function Validate(env: Env, count: nat, addr: nat, n: nat): uint32 {
    if (addr + n - 1) % WORD < addr then SHELL_ERROR_OVERFLOW else env.rangeError(count, addr, n)
  }

  /** The outcome of a load: completion code, entry address, address range, memory. */
  datatype Loaded = Loaded(rc: Status, entry: nat, lo: nat, hi: nat, mem: Memory)

  /** What `load_srec` does from a line on, with the line behind which it reads on. */
  function LoadFrom(env: Env, pos: nat, line: seq<byte>, count: nat, lo: nat, hi: nat, mem: Memory): Loaded
    requires |line| >= 2 && pos <= |env.input|
    decreases |env.input| - pos, 1
  {
    if env.port.PORT_NET? && count % COUNT_DISP_INTERVAL == 0 && env.dotBreak(count) then Loaded(BREAK, 0, lo, hi, mem)
    else
      match Decode(line)
      case Rejected(e) => Loaded(e, 0, lo, hi, mem)
      case End(entry) => Loaded(OK, entry, lo, hi, mem)
      case Skipped => LoadNext(env, pos, count + 1, lo, hi, mem)
      case Data(addr, data) =>
        if data == [] then LoadNext(env, pos, count + 1, lo, hi, mem)
        else
          var lo' := Min(lo, addr);
          var hi' := Max(hi, (addr + |data| - 1) % WORD);
          var v := Validate(env, count, addr, |data|);
          if v != 0 then Loaded(STORE(v), 0, lo', hi', mem)
          else
            var w := env.writeError(count, addr, |data|);
            if w != 0 then Loaded(STORE(w), 0, lo', hi', env.refused(count, mem))
            else LoadNext(env, pos, count + 1, lo', hi', Stored(mem, addr, data))
  }

  function LoadNext(env: Env, pos: nat, count: nat, lo: nat, hi: nat, mem: Memory): Loaded
    requires pos <= |env.input|
    decreases |env.input| - pos, 0
  {
    var r := ReadFrom(env.input, env.port.PORT_NET?, pos, []);
    if r.rc != OK then Loaded(r.rc, 0, lo, hi, mem)
    else
      ReadGivesLine(env.input, env.port.PORT_NET?, pos, []);
      if r.line[0] != 83 && r.line[0] != 115 then Loaded(ILLEGAL_FORMAT, 0, lo, hi, mem)
      else LoadFrom(env, r.pos, r.line, count, lo, hi, mem)
  }

  /** There is something to read: the port is known, and a file that is to come over the net is open. */
  predicate CanRead(env: Env) {
    !env.port.PORT_OTHER? && (env.port.PORT_NET? ==> env.netOpen == 0)
  }

  const ERROR_NET_USER_BREAK: uint32 := 0xa00b

  /** The completion code for an error of the network layer. */
  function NetStatus(code: uint32): Status {
    if code == ERROR_NET_USER_BREAK then BREAK else NET
  }

  /** The records, once the first line has told the format: an error that the network layer has met
      replaces the completion code. */
  function LoadRecords(env: Env, pos: nat, line: seq<byte>, mem: Memory): Loaded
    requires |line| >= 2 && pos <= |env.input|
  {
    var r := LoadFrom(env, pos, line, 0, UINT32_MAX, 0, mem);
    if env.port.PORT_NET? && env.netLastError != 0 then r.(rc := NetStatus(env.netLastError)) else r
  }

  /** The whole command: the port must be known, the file is opened, and the first line must start with
      'S'. */
  function Load(env: Env, mem: Memory): Loaded {
    if env.port.PORT_OTHER? then Loaded(UNSUPPORTED_PORT, 0, UINT32_MAX, 0, mem)
    else if env.port.PORT_NET? && env.netOpen != 0 then Loaded(NetStatus(env.netOpen), 0, UINT32_MAX, 0, mem)
    else
      var r := ReadFrom(env.input, env.port.PORT_NET?, 0, []);
      if r.rc != OK then Loaded(r.rc, 0, UINT32_MAX, 0, mem)
      else
        ReadGivesLine(env.input, env.port.PORT_NET?, 0, []);
        if r.line[0] != 83 && r.line[0] != 115 then Loaded(UNKNOWN_TYPE, 0, UINT32_MAX, 0, mem)
        else LoadRecords(env, r.pos, r.line, mem)
  }

  /** What may be in the line buffer while a line is being read. */
  predicate IsPartialLine(line: seq<byte>) {
    && |line| <= MAX_LINE_SIZE
    && (forall i :: 0 <= i < |line| ==> line[i] != 0 && line[i] != CR && line[i] != LF)
    && (line != [] ==> Char2Val(line[0]) != VALID_SPACE)
  }

  /** One event keeps the buffer well-formed, and a finished line is well-formed. */
  lemma StepKeepsLine(event: Event, net: bool, line: seq<byte>)
    requires IsPartialLine(line)
    ensures match StepOn(event, net, line)
      case More(l) => IsPartialLine(l)
      case Finished(rc, l) =>
        && |l| <= MAX_LINE_SIZE && (forall i :: 0 <= i < |l| ==> l[i] != 0)
        && (rc == OK ==> IsLine(l) && |l| >= 2)
  {
  }

  /** A line that is read without error is well-formed and fits the buffer. */
  lemma {:induction false} ReadGivesLine(input: seq<Event>, net: bool, pos: nat, line: seq<byte>)
    requires IsPartialLine(line)
    ensures var r := ReadFrom(input, net, pos, line);
      && |r.line| <= MAX_LINE_SIZE
      && (forall i :: 0 <= i < |r.line| ==> r.line[i] != 0)
      && (r.rc == OK ==> IsLine(r.line) && |r.line| >= 2)
    decreases |input| - pos
  {
    StepKeepsLine(Next(input, pos), net, line);
    match StepOn(Next(input, pos), net, line)
    case Finished(rc, l) =>
    case More(l) => ReadGivesLine(input, net, pos + 1, l);
  }

  lemma LineFeedStep(input: seq<Event>, pos: nat)
    requires pos < |input|
    ensures LineFeeds(input, 0, pos + 1) == LineFeeds(input, 0, pos) + (if input[pos] == Char(LF) then 1 else 0)
  {
  }

  lemma ReadFromStep(input: seq<Event>, net: bool, pos: nat, line: seq<byte>)
    ensures ReadFrom(input, net, pos, line) ==
      match StepOn(Next(input, pos), net, line)
      case Finished(rc, l) => LineRead(rc, l, pos + 1)
      case More(l) => ReadFrom(input, net, pos + 1, l)
    ensures StepOn(Next(input, pos), net, line).More? ==> pos < |input|
  {
  }

  lemma EmptyLine()
    ensures IsPartialLine([])
  {
  }

  /** Line feeds before a line are counted as they are skipped; the one that ends it is not. */
  lemma CountStep(input: seq<Event>, net: bool, pos: nat, line: seq<byte>)
    requires pos <= |input| && IsPartialLine(line)
    ensures var step := StepOn(Next(input, pos), net, line);
      (step.More? || step.rc == OK) ==> pos < |input|
    ensures StepOn(Next(input, pos), net, line).More? ==>
      LineFeeds(input, 0, pos + 1) == LineFeeds(input, 0, pos) + (if Next(input, pos) == Char(LF) && line == [] then 1 else 0)
    ensures StepOn(Next(input, pos), net, line) == Finished(OK, StepOn(Next(input, pos), net, line).line) ==>
      LineFeeds(input, 0, pos + 1) == LineFeeds(input, 0, pos) + (if Next(input, pos) == Char(CR) then 0 else 1)
    ensures StepOn(Next(input, pos), net, line).Finished? ==> !(Next(input, pos) == Char(LF) && line == [])
  {
    if pos < |input| {
      LineFeedStep(input, pos);
    }
  }

  /** The bytes converted so far in front of what the rest of the line gives. */
  function Prepend(bs: seq<byte>, rest: Pairs): Pairs {
    match rest
    case Bad(e) => Bad(e)
    case Bytes(more) => Bytes(bs + more)
  }

  lemma PairStep(line: seq<byte>, i: nat, bs: seq<byte>)
    requires i <= |line|
    ensures var hi, lo := Char2Val(CharAt(line, i)), Char2Val(CharAt(line, i + 1));
      if hi == NO_HEX then Prepend(bs, PairsFrom(line, i)) == Bad(ILLEGAL_CHARACTER)
      else if hi == VALID_SPACE then
        Prepend(bs, PairsFrom(line, i)) ==
          (if i == |line| || RestBlank(line, i + 1) then Bytes(bs) else Bad(ILLEGAL_FORMAT))
      else if lo == NO_HEX then Prepend(bs, PairsFrom(line, i)) == Bad(ILLEGAL_CHARACTER)
      else if lo == VALID_SPACE then Prepend(bs, PairsFrom(line, i)) == Bad(ILLEGAL_FORMAT)
      else i + 2 <= |line| && Prepend(bs, PairsFrom(line, i)) == Prepend(bs + [hi * 16 + lo], PairsFrom(line, i + 2))
  {
    var hi, lo := Char2Val(CharAt(line, i)), Char2Val(CharAt(line, i + 1));
    if hi < 16 && lo < 16 {
      match PairsFrom(line, i + 2)
      case Bad(e) =>
      case Bytes(more) => assert bs + ([hi * 16 + lo] + more) == bs + [hi * 16 + lo] + more;
    } else {
      assert bs + [] == bs;
    }
  }

  lemma PairsStart(line: seq<byte>)
    requires |line| >= 2
    ensures Prepend([], PairsFrom(line, 2)) == PairsFrom(line, 2)
  {
    match PairsFrom(line, 2)
    case Bad(e) =>
    case Bytes(bs) => assert [] + bs == bs;
  }

  lemma AddressIs(a: seq<byte>)
    ensures |a| == 2 ==> BigEndian(a) == Word(0, 0, a[0], a[1])
    ensures |a| == 3 ==> BigEndian(a) == Word(0, a[0], a[1], a[2])
    ensures |a| == 4 ==> BigEndian(a) == Word(a[0], a[1], a[2], a[3])
  {
    if 2 <= |a| <= 4 {
      BigEndianLast(a);
      BigEndianLast(a[..|a| - 1]);
      if |a| >= 3 {
        BigEndianLast(a[..|a| - 1][..|a| - 2]);
      }
      if |a| == 4 {
        BigEndianLast(a[..3][..2][..1]);
      }
    }
  }

  lemma BigEndianLast(a: seq<byte>)
    requires a != []
    ensures BigEndian(a) == BigEndian(a[..|a| - 1]) * 256 + a[|a| - 1]
    ensures |a| == 1 ==> BigEndian(a) == a[0]
  {
  }

  lemma EmptySum()
    ensures ByteSum([]) == 0
  {
  }

  lemma LineBounds(line: seq<byte>)
    requires IsLine(line)
    ensures |line| <= MAX_LINE_SIZE && forall i :: 0 <= i < |line| ==> line[i] != 0
  {
  }

  lemma SliceOfSlice(m: seq<byte>, a: nat, b: nat, c: nat, d: nat)
    requires a <= b <= |m| && c <= d <= b - a
    ensures m[a..b][c..d] == m[a + c..a + d]
  {
    assert forall k :: 0 <= k < d - c ==> m[a..b][c..d][k] == m[a..b][c + k];
  }

  lemma LoadFromStep(env: Env, pos: nat, line: seq<byte>, count: nat, lo: nat, hi: nat, mem: Memory)
    requires |line| >= 2 && pos <= |env.input|
    ensures LoadFrom(env, pos, line, count, lo, hi, mem) ==
      if env.port.PORT_NET? && count % COUNT_DISP_INTERVAL == 0 && env.dotBreak(count) then Loaded(BREAK, 0, lo, hi, mem)
      else
        match Decode(line)
        case Rejected(e) => Loaded(e, 0, lo, hi, mem)
        case End(entry) => Loaded(OK, entry, lo, hi, mem)
        case Skipped => LoadNext(env, pos, count + 1, lo, hi, mem)
        case Data(addr, data) =>
          if data == [] then LoadNext(env, pos, count + 1, lo, hi, mem)
          else
            var lo', hi' := Min(lo, addr), Max(hi, (addr + |data| - 1) % WORD);
            if Validate(env, count, addr, |data|) != 0 then
              Loaded(STORE(Validate(env, count, addr, |data|)), 0, lo', hi', mem)
            else if env.writeError(count, addr, |data|) != 0 then
              Loaded(STORE(env.writeError(count, addr, |data|)), 0, lo', hi', env.refused(count, mem))
            else LoadNext(env, pos, count + 1, lo', hi', Stored(mem, addr, data))
  {
  }

  lemma LoadNextStep(env: Env, pos: nat, count: nat, lo: nat, hi: nat, mem: Memory)
    requires pos <= |env.input|
    ensures var r := ReadFrom(env.input, env.port.PORT_NET?, pos, []);
      && |r.line| <= MAX_LINE_SIZE && (forall i :: 0 <= i < |r.line| ==> r.line[i] != 0)
      && (r.rc == OK ==> IsLine(r.line) && |r.line| >= 2 && r.pos <= |env.input|)
    ensures var r := ReadFrom(env.input, env.port.PORT_NET?, pos, []);
      LoadNext(env, pos, count, lo, hi, mem) ==
        if r.rc != OK then Loaded(r.rc, 0, lo, hi, mem)
        else if r.line[0] != 83 && r.line[0] != 115 then Loaded(ILLEGAL_FORMAT, 0, lo, hi, mem)
        else LoadFrom(env, r.pos, r.line, count, lo, hi, mem)
  {
    EmptyLine();
    ReadGivesLine(env.input, env.port.PORT_NET?, pos, []);
  }

  /** A byte stored behind a slice makes it longer. */
  lemma SliceGrows(d: seq<byte>, a: nat, b: nat, v: byte)
    requires a <= b < |d|
    ensures d[b := v][a..b + 1] == d[a..b] + [v]
  {
  }
}

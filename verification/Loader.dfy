/** The S-record loader of load/loader.c with its line buffer and its static state. */
module Loader {
  import opened Machine
  import opened Srecord

  // Where the count, address and data of a record lie in the conversion buffer.
  const OFFSET_COUNT_37 := 3
  const OFFSET_COUNT_28 := 4
  const OFFSET_COUNT_19 := 5
  const OFFSET_ADDRESS := 4
  const OFFSET_DATA := 8

  class Loader {
    const env: Env
    const sdata: array<byte>
    var pos: nat
    var lineNumber: nat
    var eolWasCr: bool
    var mem: Memory
    // addr[0..2]: entry address, least start, greatest end
    var entry: nat
    var lo: nat
    var hi: nat

    constructor (env: Env, mem: Memory)
      ensures this.env == env && this.mem == mem && pos == 0 && lineNumber == 0 && !eolWasCr
      ensures entry == 0 && lo == UINT32_MAX && hi == 0
      ensures Valid() && fresh(sdata)
    {
      this.env, this.mem := env, mem;
      sdata := new byte[MAX_LINE_SIZE + 4](_ => 0);
      pos, lineNumber, eolWasCr := 0, 0, false;
      entry, lo, hi := 0, UINT32_MAX, 0;
    }

    ghost predicate Valid() {
      sdata.Length == MAX_LINE_SIZE + 4
    }

    /** The buffer holds the line, NUL-terminated. */
    ghost predicate Holds(line: seq<byte>)
      requires Valid()
      reads sdata
    {
      |line| <= MAX_LINE_SIZE && sdata[..|line|] == line && sdata[|line|] == 0
    }

    /** The line counter is right: counting from 1, the next line follows that many line feeds. */
    ghost predicate Counted()
      reads this
    {
      pos <= |env.input| && lineNumber + (if eolWasCr then 0 else 1) == 1 + LineFeeds(env.input, 0, pos)
    }

    /** Handles one event with `line` in the buffer.  `eol` tells of a line feed that came before the line. */
    method PutEvent(event: Event, sid0: nat, ghost line: seq<byte>) returns (rc: Status, done: bool, sid: nat, eol: bool)
      requires Valid() && sid0 <= MAX_LINE_SIZE && sdata[..sid0] == line && !eolWasCr
      modifies this`eolWasCr, sdata
      ensures var step := StepOn(event, env.port.PORT_NET?, line);
        && done == step.Finished? && rc == (if done then step.rc else OK)
        && sid == |step.line| <= MAX_LINE_SIZE && sdata[..sid] == step.line
      ensures eol == (event == Char(LF) && sid0 == 0)
      ensures eolWasCr == (rc == OK && done && event == Char(CR))
    {
      rc, done, sid, eol := OK, false, sid0, false;
      if event.UserBreak? {
        rc, done := BREAK, true;
        return;
      }
      var ch := event.c;
      if Char2Val(ch) >= NO_HEX {
        if ch == CTRL_C && !env.port.PORT_NET? {
          rc, done := BREAK, true;
          return;
        }
        if ch == EOF_SREC {
          rc, done, sid := NO_S7_RECORD, true, 0;
          return;
        }
        if ch == UART_ERROR {
          rc, done := UART_COMM_ERROR, true;
          return;
        }
        ch := Shown(ch);
        if sid == 0 {
          eol := ch == LF;
          if Char2Val(ch) == VALID_SPACE {
            return;
          }
        }
      }
      if sid >= MAX_LINE_SIZE {
        rc, done := LINE_TOO_LONG, true;
        return;
      }
      sdata[sid] := ch;
      assert sdata[..sid + 1] == line + [ch];
      sid := sid + 1;
      if ch == CR {
        eolWasCr, done := true, true;
      } else if ch == LF {
        done := true;
      }
    }

    /** Reads the next line that is not empty. */
    method ReadLine() returns (rc: Status)
      requires Valid() && Counted()
      modifies this`pos, this`lineNumber, this`eolWasCr, sdata
      ensures var r := ReadFrom(env.input, env.port.PORT_NET?, old(pos), []);
        rc == r.rc && pos == r.pos && Holds(r.line)
      ensures rc == OK ==> Counted()
      ensures 0 < pos <= |env.input| + 1 && lineNumber == 1 + LineFeeds(env.input, 0, pos - 1)
    {
      hide ReadFrom, LineFeeds, IsPartialLine, StepOn;
      if eolWasCr {
        eolWasCr := false;
      } else {
        lineNumber := lineNumber + 1;
      }
      var sid: nat := 0;
      rc := OK;
      var done := false;
      ghost var line: seq<byte> := [];
      EmptyLine();
      while !done
        invariant sid <= MAX_LINE_SIZE && sdata[..sid] == line
        invariant if done then ReadFrom(env.input, env.port.PORT_NET?, old(pos), []) == LineRead(rc, line, pos)
                  else ReadFrom(env.input, env.port.PORT_NET?, old(pos), []) == ReadFrom(env.input, env.port.PORT_NET?, pos, line)
        invariant !done ==> rc == OK && pos <= |env.input| && !eolWasCr && IsPartialLine(line)
        invariant !done ==> lineNumber == 1 + LineFeeds(env.input, 0, pos)
        invariant done ==> 0 < pos <= |env.input| + 1 && lineNumber == 1 + LineFeeds(env.input, 0, pos - 1)
        invariant done && rc == OK ==> Counted()
        decreases !done, |env.input| - pos
      {
        var event := Next(env.input, pos);
        var eol: bool;
        ReadFromStep(env.input, env.port.PORT_NET?, pos, line);
        StepKeepsLine(event, env.port.PORT_NET?, line);
        CountStep(env.input, env.port.PORT_NET?, pos, line);
        ghost var step := StepOn(event, env.port.PORT_NET?, line);
        rc, done, sid, eol := PutEvent(event, sid, line);
        line := step.line;
        if eol {
          lineNumber := lineNumber + 1;
        }
        pos := pos + 1;
      }
      sdata[sid] := 0;
    }

    /** Converts the digit pairs of the line into data[offset0..], adding them up. */
    method ConvertLine(ghost line: seq<byte>, data: array<byte>, offset0: nat)
      returns (rc: Status, offset: nat, checksum: nat)
      requires Valid() && Holds(line) && IsLine(line) && |line| >= 2
      requires data.Length == MAX_LINE_SIZE && data != sdata && offset0 <= OFFSET_COUNT_19
      modifies data
      ensures match PairsFrom(line, 2)
        case Bad(e) => rc == e
        case Bytes(bs) => rc == OK && offset == offset0 + |bs| <= MAX_LINE_SIZE && data[offset0..offset] == bs
                          && checksum == ByteSum(bs)
    {
      hide PairsFrom, ByteSum, IsLine, Char2Val, Prepend, RestBlank;
      LineBounds(line);
      rc, offset, checksum := OK, offset0, 0;
      var ix: nat := 2;
      ghost var bs: seq<byte> := [];
      PairsStart(line);
      var done := false;
      EmptySum();
      while !done
        invariant 2 <= ix <= |line| && offset == offset0 + |bs| && 2 * |bs| == ix - 2
        invariant data[..][offset0..offset] == bs && checksum == ByteSum(bs)
        invariant sdata[..] == old(sdata[..])
        invariant if done then PairsFrom(line, 2) == (if rc == OK then Bytes(bs) else Bad(rc))
                  else rc == OK && PairsFrom(line, 2) == Prepend(bs, PairsFrom(line, ix))
        decreases !done, |line| - ix
      {
        PairStep(line, ix, bs);
        var val := Char2Val(sdata[ix]);
        assert sdata[ix] == CharAt(line, ix);
        if val >= NO_HEX {
          if val == NO_HEX {
            rc := ILLEGAL_CHARACTER;
          } else if sdata[ix] != 0 {
            var blank := RestIsBlank(line, ix + 1);
            rc := if blank then OK else ILLEGAL_FORMAT;
          }
          done := true;
        } else {
          assert ix < |line|;
          var ch := Char2Val(sdata[ix + 1]);
          assert sdata[ix + 1] == CharAt(line, ix + 1);
          if ch >= NO_HEX {
            rc := if ch == NO_HEX then ILLEGAL_CHARACTER else ILLEGAL_FORMAT;
            done := true;
          } else {
            var b: byte := val * 16 + ch;
            SumAppend(bs, b);
            SliceGrows(data[..], offset0, offset, b);
            data[offset] := b;
            bs := bs + [b];
            offset := offset + 1;
            checksum := checksum + b;
            ix := ix + 2;
          }
        }
      }
    }

    /** The rest of the line, up to its NUL, must be white space. */
    method RestIsBlank(ghost line: seq<byte>, i: nat) returns (blank: bool)
      requires Valid() && Holds(line) && i <= |line| && forall k :: 0 <= k < |line| ==> line[k] != 0
      ensures blank == RestBlank(line, i)
    {
      var ix := i;
      blank := true;
      while sdata[ix] != 0
        invariant i <= ix <= |line| && blank && RestBlank(line, i) == RestBlank(line, ix)
        decreases |line| - ix
      {
        assert sdata[ix] == line[ix];
        if Char2Val(sdata[ix]) != VALID_SPACE {
          blank := false;
          return;
        }
        ix := ix + 1;
      }
      assert sdata[..|line|] == line;
    }

    /** The address, big-endian in the four bytes before the data; those that the record lacks are cleared. */
    method TakeAddress(kind: byte, offsetCount: nat, offset: nat, data: array<byte>, ghost bs: seq<byte>) returns (addr: nat)
      requires AddressBytes(kind) > 0 && offsetCount == 7 - AddressBytes(kind)
      requires data.Length == MAX_LINE_SIZE && OFFSET_DATA < offset == offsetCount + |bs| <= MAX_LINE_SIZE
      requires data[offsetCount..offset] == bs
      modifies data
      ensures addr == BigEndian(bs[1..AddressBytes(kind) + 1])
      ensures data[OFFSET_DATA..] == old(data[OFFSET_DATA..])
    {
      hide BigEndian, Word;
      ghost var n := AddressBytes(kind);
      ghost var a := bs[1..n + 1];
      AddressIs(a);
      assert forall k :: 0 <= k < n ==> a[k] == data[offsetCount..offset][k + 1];
      if kind == 50 || kind == 56 {
        data[OFFSET_ADDRESS] := 0;
      } else if kind == 49 || kind == 57 {
        data[OFFSET_ADDRESS] := 0;
        data[OFFSET_ADDRESS + 1] := 0;
      }
      assert forall k :: 0 <= k < n ==> a[k] == data[OFFSET_ADDRESS + 4 - n + k];
      addr := Word(data[OFFSET_ADDRESS], data[OFFSET_ADDRESS + 1], data[OFFSET_ADDRESS + 2], data[OFFSET_ADDRESS + 3]);
    }

    /** Checks the converted record and takes its address out of the buffer. */
    method CheckRecord(kind: byte, offsetCount: nat, offset: nat, checksum: nat, data: array<byte>, ghost bs: seq<byte>)
      returns (rc: Status, addr: nat, bytecount: nat)
      requires AddressBytes(kind) > 0 && offsetCount == 7 - AddressBytes(kind)
      requires data.Length == MAX_LINE_SIZE && offset == offsetCount + |bs| <= MAX_LINE_SIZE
      requires data[offsetCount..offset] == bs && checksum == ByteSum(bs)
      modifies data
      ensures match Record(kind, AddressBytes(kind), bs)
        case Rejected(e) => rc == e
        case Data(a, d) => rc == OK && kind <= 51 && addr == a && bytecount == |d|
                           && OFFSET_DATA + bytecount <= MAX_LINE_SIZE && data[OFFSET_DATA..OFFSET_DATA + bytecount] == d
        case End(a) => rc == OK && kind > 51 && addr == a && bytecount == 0
        case Skipped => false
    {
      hide ByteSum, BigEndian;
      addr, bytecount := 0, 0;
      // offset - offset_count - 1 wraps when no byte was converted, and then equals no byte
      if offset == offsetCount || offset - offsetCount - 1 != data[offsetCount] as int {
        rc := ILLEGAL_FORMAT;
        return;
      }
      assert data[offsetCount] == bs[0];
      if offset < OFFSET_DATA + 1 {
        rc := ILLEGAL_FORMAT;
        return;
      }
      if checksum % 0x100 != 0xff {
        rc := CHECKSUM;
        return;
      }
      ghost var d := bs[AddressBytes(kind) + 1..|bs| - 1];
      SliceOfSlice(data[..], offsetCount, offset, AddressBytes(kind) + 1, |bs| - 1);
      bytecount := offset - OFFSET_DATA - 1;
      ghost var above := data[OFFSET_DATA..];
      assert above[..bytecount] == d;
      addr := TakeAddress(kind, offsetCount, offset, data, bs);
      assert data[OFFSET_DATA..OFFSET_DATA + bytecount] == data[OFFSET_DATA..][..bytecount];
      rc := if kind > 51 && bytecount != 0 then ILLEGAL_FORMAT else OK;
    }

    /** toupper( ch ) == 'S' */
    static predicate IsS(ch: byte) {
      ch == 83 || ch == 115
    }

    /** Loads records, starting with the line in the buffer, until a termination record or an error. */
    method LoadSrec(ghost line0: seq<byte>) returns (rc: Status)
      requires Valid() && Counted() && Holds(line0) && IsLine(line0) && |line0| >= 2
      modifies this, sdata
      ensures Loaded(rc, entry, lo, hi, mem) == LoadFrom(env, old(pos), line0, 0, UINT32_MAX, 0, old(mem))
      ensures old(pos) <= pos <= |env.input| + 1 && (pos == old(pos) ==> lineNumber == old(lineNumber))
      ensures old(pos) < pos ==> lineNumber == 1 + LineFeeds(env.input, 0, pos - 1)
    {
      hide LoadFrom, LoadNext, ReadFrom, IsLine, Stored, LineFeeds, Decode, Validate, Max, Min;
      entry, lo, hi := 0, UINT32_MAX, 0;
      rc := OK;
      var data := new byte[MAX_LINE_SIZE](_ => 0);
      var count: nat := 0;
      ghost var line := line0;
      var done := false;
      ghost var all := LoadFrom(env, pos, line0, 0, UINT32_MAX, 0, mem);
      while !done
        invariant fresh(data) && data.Length == MAX_LINE_SIZE
        invariant old(pos) <= pos <= |env.input| + 1 && (pos == old(pos) ==> lineNumber == old(lineNumber))
        invariant done ==> Loaded(rc, entry, lo, hi, mem) == all
        invariant !done ==> Counted() && Holds(line) && IsLine(line) && |line| >= 2 && entry == 0
        invariant !done ==> LoadFrom(env, pos, line, count, lo, hi, mem) == all
        invariant old(pos) < pos ==> lineNumber == 1 + LineFeeds(env.input, 0, pos - 1)
        decreases !done, |env.input| - pos
      {
        LoadFromStep(env, pos, line, count, lo, hi, mem);
        if env.port.PORT_NET? && count % COUNT_DISP_INTERVAL == 0 && env.dotBreak(count) {
          rc, done := BREAK, true;
        } else {
          ghost var meaning := Decode(line);
          rc, done := DoLine(line, data, count);
          count := count + 1;
          if !done {
            rc, done, line := NextLine(count);
          }
        }
      }
    }

    /** Reads the line of the next record; if there is none the load is done. */
    method NextLine(ghost count: nat) returns (rc: Status, done: bool, ghost line: seq<byte>)
      requires Valid() && Counted() && entry == 0
      modifies this`pos, this`lineNumber, this`eolWasCr, sdata
      ensures old(pos) < pos <= |env.input| + 1 && lineNumber == 1 + LineFeeds(env.input, 0, pos - 1)
      ensures done ==> Loaded(rc, entry, lo, hi, mem) == LoadNext(env, old(pos), count, lo, hi, mem)
      ensures !done ==> rc == OK && Counted() && Holds(line) && IsLine(line) && |line| >= 2
      ensures !done ==> LoadFrom(env, pos, line, count, lo, hi, mem) == LoadNext(env, old(pos), count, lo, hi, mem)
    {
      hide LoadFrom, LoadNext, ReadFrom, IsLine, LineFeeds;
      LoadNextStep(env, pos, count, lo, hi, mem);
      line := ReadFrom(env.input, env.port.PORT_NET?, pos, []).line;
      rc := ReadLine();
      done := rc != OK;
      if !done {
        assert sdata[0] == line[0];
        if !IsS(sdata[0]) {
          rc, done := ILLEGAL_FORMAT, true;
        }
      }
    }

    /** Does what one line says.  The load goes on with the next line unless `done`. */
    method DoLine(ghost line: seq<byte>, data: array<byte>, count: nat) returns (rc: Status, done: bool)
      requires Valid() && Holds(line) && IsLine(line) && |line| >= 2
      requires data.Length == MAX_LINE_SIZE && data != sdata
      modifies this`mem, this`entry, this`lo, this`hi, data
      ensures match Decode(line)
        case Rejected(e) => done && rc == e && mem == old(mem) && entry == old(entry) && lo == old(lo) && hi == old(hi)
        case End(a) => done && rc == OK && entry == a && mem == old(mem) && lo == old(lo) && hi == old(hi)
        case Skipped => !done && mem == old(mem) && entry == old(entry) && lo == old(lo) && hi == old(hi)
        case Data(a, d) =>
          if d == [] then !done && mem == old(mem) && entry == old(entry) && lo == old(lo) && hi == old(hi)
          else
            var v, w := Validate(env, count, a, |d|), env.writeError(count, a, |d|);
            && entry == old(entry) && lo == Min(old(lo), a) && hi == Max(old(hi), (a + |d| - 1) % WORD)
            && done == (v != 0 || w != 0)
            && (done ==> rc == STORE(if v != 0 then v else w))
            && mem == if v != 0 then old(mem) else if w != 0 then env.refused(count, old(mem)) else Stored(old(mem), a, d)
    {
      hide Decode, Validate, IsLine, Stored;
      var kind, skipped, addr: nat, bytecount: nat;
      rc, kind, skipped, addr, bytecount := DecodeLine(line, data);
      done := rc != OK;
      if !done && !skipped {
        if kind > 51 {
          entry, done := addr, true;
        } else if bytecount > 0 {
          rc, done := StoreData(addr, data[OFFSET_DATA..OFFSET_DATA + bytecount], count);
        }
      }
    }

    /** Converts and checks a line. */
    method DecodeLine(ghost line: seq<byte>, data: array<byte>)
      returns (rc: Status, kind: byte, skipped: bool, addr: nat, bytecount: nat)
      requires Valid() && Holds(line) && IsLine(line) && |line| >= 2
      requires data.Length == MAX_LINE_SIZE && data != sdata
      modifies data
      ensures match Decode(line)
        case Rejected(e) => rc == e != OK
        case Skipped => rc == OK && skipped
        case End(a) => rc == OK && !skipped && kind > 51 && addr == a
        case Data(a, d) => rc == OK && !skipped && kind <= 51 && addr == a && bytecount == |d|
                           && OFFSET_DATA + bytecount <= MAX_LINE_SIZE && data[OFFSET_DATA..OFFSET_DATA + bytecount] == d
    {
      hide PairsFrom, IsLine, ByteSum, BigEndian;
      rc, kind, skipped, addr, bytecount := ILLEGAL_FORMAT, sdata[1], false, 0, 0;
      assert kind == line[1];
      if IsKind(kind) {
        var n := AddressBytes(kind);
        var offsetCount := if n == 4 then OFFSET_COUNT_37 else if n == 3 then OFFSET_COUNT_28
          else if n == 2 then OFFSET_COUNT_19 else 0;
        var offset: nat, checksum: nat;
        rc, offset, checksum := ConvertLine(line, data, offsetCount);
        if rc == OK {
          if offsetCount == 0 {
            skipped := true;
          } else {
            rc, addr, bytecount := CheckRecord(kind, offsetCount, offset, checksum, data, PairsFrom(line, 2).bs);
          }
        }
      }
    }

    /** Widens the address range and hands the bytes to the flash and RAM driver. */
    method StoreData(addr: nat, bytes: seq<byte>, count: nat) returns (rc: Status, failed: bool)
      requires bytes != []
      modifies this`mem, this`lo, this`hi
      ensures var v, w := Validate(env, count, addr, |bytes|), env.writeError(count, addr, |bytes|);
        && lo == Min(old(lo), addr) && hi == Max(old(hi), (addr + |bytes| - 1) % WORD)
        && failed == (v != 0 || w != 0)
        && rc == (if v != 0 then STORE(v) else if w != 0 then STORE(w) else OK)
        && mem == if v != 0 then old(mem) else if w != 0 then env.refused(count, old(mem)) else Stored(old(mem), addr, bytes)
    {
      rc, failed := OK, false;
      if lo > addr {
        lo := addr;
      }
      if hi < (addr + |bytes| - 1) % WORD {
        hi := (addr + |bytes| - 1) % WORD;
      }
      var v := Validate(env, count, addr, |bytes|);
      var w := env.writeError(count, addr, |bytes|);
      if v != 0 {
        rc, failed := STORE(v), true;
      } else if w != 0 {
        rc, failed := STORE(w), true;
        mem := env.refused(count, mem);
      } else {
        mem := Stored(mem, addr, bytes);
      }
    }

    /** The load command. */
    method LoaderImage() returns (rc: Status)
      requires Valid() && pos == 0 && lineNumber == 0 && !eolWasCr && entry == 0 && lo == UINT32_MAX && hi == 0
      modifies this, sdata
      ensures Loaded(rc, entry, lo, hi, mem) == Load(env, old(mem))
      ensures !CanRead(env) ==> pos == 0 && lineNumber == 0
      ensures CanRead(env) ==> 0 < pos <= |env.input| + 1 && lineNumber == 1 + LineFeeds(env.input, 0, pos - 1)
    {
      hide LoadFrom, ReadFrom;
      ghost var line := ReadFrom(env.input, env.port.PORT_NET?, 0, []).line;
      EmptyLine();
      ReadGivesLine(env.input, env.port.PORT_NET?, 0, []);
      if env.port.PORT_OTHER? {
        rc := UNSUPPORTED_PORT;
      } else if env.port.PORT_NET? && env.netOpen != 0 {
        rc := NetStatus(env.netOpen);
      } else {
        rc := ReadLine();
        if rc == OK {
          assert sdata[0] == line[0];
          if !IsS(sdata[0]) {
            rc := UNKNOWN_TYPE;
          } else {
            rc := LoadSrec(line);
            if env.port.PORT_NET? && env.netLastError != 0 {
              rc := NetStatus(env.netLastError);
            }
          }
        }
      }
    }
  }
}

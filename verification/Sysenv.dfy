/** The flash store of the environment (sysenv/sysenv.c): reading, writing, garbage collection and
    initialisation. */
module Sysenv {
  import opened Machine
  import opened Wrappers
  import opened SysenvLog

  // ---------- the checksum loop ----------

  /** The word at position k of the data, as a little-endian or a big-endian processor reads it. */
  function WordAt(data: seq<byte>, k: nat, big: bool): nat
    requires k + 4 <= |data|
  {
    if big then Word(data[k], data[k + 1], data[k + 2], data[k + 3])
    else Word(data[k + 3], data[k + 2], data[k + 1], data[k])
  }

  /** The low r bytes of the word at position p. */
  function LastBytes(data: seq<byte>, p: nat, r: nat, big: bool): seq<byte>
    requires p + 4 <= |data| && r < 4
  {
    if big then data[p + 4 - r..p + 4] else data[p..p + r]
  }

  /** The bytes that are added up: all words, and the low bytes of the last, incomplete one. */
  function Summed(data: seq<byte>, size: nat, big: bool): seq<byte>
    requires size <= |data| && |data| % 4 == 0
  {
    var r := size % 4;
    if r == 0 then data[..size] else data[..size - r] + LastBytes(data, size - r, r, big)
  }

  lemma {:induction false} SumJoins(a: seq<byte>, b: seq<byte>)
    ensures ByteSum(a + b) == ByteSum(a) + ByteSum(b)
  {
    if b == [] {
      assert a + b == a;
    } else {
      assert (a + b)[..|a + b| - 1] == a + b[..|b| - 1];
      SumJoins(a, b[..|b| - 1]);
    }
  }

  lemma FewBytes(b: seq<byte>)
    ensures |b| == 1 ==> ByteSum(b) == b[0]
    ensures |b| == 2 ==> ByteSum(b) == b[0] as int + b[1]
    ensures |b| == 3 ==> ByteSum(b) == b[0] as int + b[1] + b[2]
    ensures |b| == 4 ==> ByteSum(b) == b[0] as int + b[1] + b[2] + b[3]
  {
    assert forall j :: 0 < j < |b| ==> b[..j][..j - 1] == b[..j - 1];
    assert b[..|b|] == b;
  }

  lemma Modulo(x: int, k: int)
    ensures (x + 256 * k) % 256 == x % 256
  {
  }

  lemma Quotient(x: int) returns (q: int)
    ensures x == x % 256 + 256 * q
  {
    q := x / 256;
  }

  lemma AddModulo(sum: nat, a: nat, b: nat)
    requires a % 256 == b % 256
    ensures (sum % 256 + a) % 256 == (sum + b) % 256
  {
    hide *;
    var q := Quotient(sum);
    var qa := Quotient(a);
    var qb := Quotient(b);
    Modulo(sum % 256 + a % 256, qa);
    Modulo(sum % 256 + b % 256, q + qb);
  }

  /** Shifting a word right brings down its bytes. */
  lemma ShiftedWord(b3: byte, b2: byte, b1: byte, b0: byte)
    ensures var w := Word(b3, b2, b1, b0);
      && w % 256 == b0 && w / 0x100 % 256 == b1 && w / 0x1_0000 % 256 == b2 && w / 0x100_0000 == b3 && 0 <= w < WORD
  {
    var w := Word(b3, b2, b1, b0);
    assert w / 0x100_0000 == b3;
    assert w / 0x1_0000 == b2 + 0x100 * b3;
    assert w / 0x100 == b1 + 0x100 * b2 + 0x1_0000 * b3;
  }

  /** The four shifted words, added in 32 bits. */
  function FourShifts(w: nat): nat {
    (w / 0x100_0000 + w / 0x1_0000 + w / 0x100 + w) % WORD
  }

  lemma FourShiftsSum(w: nat)
    ensures FourShifts(w) % 256 == (w / 0x100_0000 + w / 0x1_0000 % 256 + w / 0x100 % 256 + w % 256) % 256
  {
    var s := w / 0x100_0000 + w / 0x1_0000 + w / 0x100 + w;
    var a := Quotient(w / 0x1_0000);
    var b := Quotient(w / 0x100);
    var c := Quotient(w);
    Modulo(w / 0x100_0000 + w / 0x1_0000 % 256 + w / 0x100 % 256 + w % 256, a + b + c);
    assert s == s % WORD + WORD * (s / WORD);
    Modulo(s % WORD, 0x100_0000 * (s / WORD));
  }

  /** Addition to an 8-bit checksum. */
  function Plus(c: nat, x: nat): byte {
    (c + x) % 256
  }

  lemma PlusIs(sum: nat, x: nat)
    ensures Plus(sum % 256, x) == (sum + x) % 256 == (sum + x % 256) % 256
  {
    AddModulo(sum, x, x);
    AddModulo(sum, x, x % 256);
    AddModulo(sum, x % 256, x % 256);
  }

  /** The checksum loop of SYSENV_check_inuse_record: whole words first, then the rest of the last one. */
  method CheckSum(data: seq<byte>, size: nat, big: bool) returns (checksum: byte)
    requires size <= |data| && |data| % 4 == 0
    ensures checksum == ByteSum(Summed(data, size, big)) % 256
  {
    hide FourShifts, ByteSum, WordAt, Summed, Plus;
    var rest: nat := size;
    var p: nat := 0;
    checksum := 0;
    EmptySum(data);
    while rest > 3
      invariant p + rest == size && p % 4 == 0
      invariant checksum == ByteSum(data[..p]) % 256
    {
      WholeWord(data, p, big);
      checksum := Plus(checksum, FourShifts(WordAt(data, p, big)));
      rest := rest - 4;
      p := p + 4;
    }
    if rest > 0 {
      var w := WordAt(data, p, big);
      LastWord(data, size, big);
      if rest == 3 {
        checksum := Plus(checksum, w / 0x1_0000);
      }
      if rest >= 2 {
        checksum := Plus(checksum, w / 0x100);
      }
      checksum := Plus(checksum, w);
    } else {
      NoRest(data, size, big);
    }
  }

  /** The header of a new record. */
  method FormatHeader(index: nat, data: seq<byte>) returns (head: Header)
    requires index < SLOTS && |data| <= DATA_SIZE
    ensures head == HeaderFor(index, data)
  {
    var i := 0;
    var checksum: byte := 0;
    while i < |data|
      invariant 0 <= i <= |data| && checksum == ByteSum(data[..i]) % 256
    {
      SumAppend(data[..i], data[i]);
      assert data[..i + 1] == data[..i] + [data[i]];
      AddModulo(ByteSum(data[..i]), data[i], data[i]);
      checksum := (checksum + data[i]) % 256;
      i := i + 1;
    }
    assert data[..i] == data;
    head := Header(IN_USE, checksum, index, |data|);
  }

  lemma EmptySum(data: seq<byte>)
    ensures ByteSum(data[..0]) == 0
  {
  }

  lemma NoRest(data: seq<byte>, size: nat, big: bool)
    requires size <= |data| && |data| % 4 == 0 && size % 4 == 0
    ensures Summed(data, size, big) == data[..size]
  {
  }

  lemma WholeWord(data: seq<byte>, p: nat, big: bool)
    requires p + 4 <= |data|
    ensures Plus(ByteSum(data[..p]) % 256, FourShifts(WordAt(data, p, big))) == ByteSum(data[..p + 4]) % 256
  {
    hide ByteSum, FourShifts, Word;
    var b, w := data[p..p + 4], WordAt(data, p, big);
    FewBytes(b);
    assert data[..p + 4] == data[..p] + b;
    SumJoins(data[..p], b);
    if big {
      ShiftedWord(b[0], b[1], b[2], b[3]);
    } else {
      ShiftedWord(b[3], b[2], b[1], b[0]);
    }
    FourShiftsSum(w);
    AddModulo(ByteSum(data[..p]), FourShifts(w), ByteSum(b));
  }

  /** The last word adds the low bytes, one after the other. */
  lemma LastWord(data: seq<byte>, size: nat, big: bool)
    requires size <= |data| && |data| % 4 == 0 && size % 4 != 0
    ensures var r, p, w := size % 4, size - size % 4, WordAt(data, size - size % 4, big);
      var c := ByteSum(data[..p]) % 256;
      var c' := if r == 3 then Plus(c, w / 0x1_0000) else c;
      var c'' := if r >= 2 then Plus(c', w / 0x100) else c';
      ByteSum(Summed(data, size, big)) % 256 == Plus(c'', w)
  {
    hide ByteSum, Word, Plus, WordAt;
    var r, p := size % 4, size - size % 4;
    var b := LastBytes(data, p, r, big);
    assert Summed(data, size, big) == data[..p] + b;
    SumJoins(data[..p], b);
    LastBytesSum(data, p, r, big);
    AddUp(ByteSum(data[..p]), WordAt(data, p, big), r);
  }

  lemma LastBytesSum(data: seq<byte>, p: nat, r: nat, big: bool)
    requires p + 4 <= |data| && 0 < r < 4
    ensures var w := WordAt(data, p, big);
      ByteSum(LastBytes(data, p, r, big))
      == (if r == 3 then w / 0x1_0000 % 256 else 0) + (if r >= 2 then w / 0x100 % 256 else 0) + w % 256
  {
    hide ByteSum, Word;
    FewBytes(LastBytes(data, p, r, big));
    if big {
      ShiftedWord(data[p], data[p + 1], data[p + 2], data[p + 3]);
    } else {
      ShiftedWord(data[p + 3], data[p + 2], data[p + 1], data[p]);
    }
  }

  lemma AddUp(sum: nat, w: nat, r: nat)
    requires 0 < r < 4
    ensures var c := sum % 256;
      var c' := if r == 3 then Plus(c, w / 0x1_0000) else c;
      var c'' := if r >= 2 then Plus(c', w / 0x100) else c';
      Plus(c'', w) == (sum + (if r == 3 then w / 0x1_0000 % 256 else 0) + (if r >= 2 then w / 0x100 % 256 else 0) + w % 256) % 256
  {
    hide Plus;
    var a, b := (if r == 3 then w / 0x1_0000 else 0), (if r >= 2 then w / 0x100 else 0);
    PlusIs(sum, a);
    PlusIs(sum + a % 256, b);
    PlusIs(sum + a % 256 + b % 256, w);
  }

  /** The loop adds up the data exactly on a little-endian processor, for whole words, or when the
      bytes it takes for the last ones happen to have the same sum. */
  lemma SumsDataExactly(data: seq<byte>, size: nat, big: bool)
    requires size <= |data| && |data| % 4 == 0
    ensures var r := size % 4;
      ByteSum(Summed(data, size, big)) % 256 == ByteSum(data[..size]) % 256
      <==> !big || r == 0
           || ByteSum(LastBytes(data, size - r, r, true)) % 256 == ByteSum(LastBytes(data, size - r, r, false)) % 256
  {
    hide ByteSum;
    var r := size % 4;
    if r != 0 {
      var front, last, other := data[..size - r], LastBytes(data, size - r, r, false), LastBytes(data, size - r, r, true);
      assert data[..size] == front + last;
      SumJoins(front, last);
      SumJoins(front, other);
      SameRest(ByteSum(front), ByteSum(other), ByteSum(last));
    }
  }

  lemma SameRest(sum: nat, a: nat, b: nat)
    ensures (sum + a) % 256 == (sum + b) % 256 <==> a % 256 == b % 256
  {
    if a % 256 == b % 256 {
      AddModulo(sum, a, b);
      AddModulo(sum, a, a);
    }
    if (sum + a) % 256 == (sum + b) % 256 {
      var q := Quotient(sum + a);
      var q' := Quotient(sum + b);
      Modulo(b, q - q');
    }
  }

  /** A record of one byte in erased flash: a big-endian processor adds up 0xff instead. */
  lemma BigEndianRefuses(data: seq<byte>)
    requires |data| % 4 == 0 && |data| >= 4 && data[..4] == [1, FREE, FREE, FREE]
    ensures ByteSum(Summed(data, 1, true)) % 256 == 255 && ByteSum(data[..1]) % 256 == 1
  {
    assert data[3..4] == [data[..4][3]] && data[..1] == [data[..4][0]];
    assert Summed(data, 1, true) == data[3..4];
    FewBytes(data[3..4]);
    FewBytes(data[..1]);
  }

  // ---------- the store ----------

  class Store {
    const driver: Driver
    var calls: nat
    const cells: array<Elem>
    const cache: array<Elem>
    const lookup: array<Option<nat>>
    var nextFree: nat
    var ok: bool

    /** The file flash of every board has more places than there are indices. */
    predicate Shape()
      reads this
    {
      && cells.Length > SLOTS && cache != cells
      && cache.Length == SLOTS && lookup.Length == SLOTS && nextFree <= cells.Length
    }

    ghost function View(): Contents
      reads this, cells, lookup
      requires Sound(cells[..], lookup[..], nextFree)
    {
      SysenvLog.View(cells[..], lookup[..], nextFree)
    }

    /** The log up to the next free place stands for what can be read. */
    ghost predicate Tracked()
      reads this, cells, lookup
      requires Sound(cells[..], lookup[..], nextFree)
    {
      AllGood(cells[..], nextFree) && Replay(cells[..nextFree]) == View()
    }

    /** While the store is usable, the table is sound, and unless the log is full, it is what the log
        stands for. A refused write may have stained the next free place, but none behind it. */
    ghost predicate Valid()
      reads this, cells, cache, lookup
    {
      && Shape()
      && (ok ==> Sound(cells[..], lookup[..], nextFree)
                 && (nextFree < cells.Length ==> Tracked() && ErasedFrom(cells[..], nextFree + 1)))
    }

    /** The log holds everything that can be read, and nothing lies behind it. */
    ghost predicate Durable()
      reads this, cells, cache, lookup
    {
      Shape() && ok && Sound(cells[..], lookup[..], nextFree) && Tracked() && IsLog(cells[..], nextFree)
    }

    /** What reading all indices gives. */
    ghost function Readings(): Contents
      reads this, cells, cache, lookup
      requires Valid()
    {
      if ok then View() else map[]
    }

    /** The store from outside. */
    ghost function Now(): State
      reads this, cells, cache, lookup
      requires Valid()
    {
      State(ok, Readings(), nextFree, calls)
    }

    /** Power is switched on: nothing has been read from the flash. */
    constructor (cells: array<Elem>, driver: Driver)
      requires cells.Length > SLOTS
      ensures Valid() && !ok && nextFree == 0 && this.cells == cells && this.driver == driver && calls == 0
      ensures fresh(cache) && fresh(lookup)
    {
      this.cells, this.driver, calls := cells, driver, 0;
      cache := new Elem[SLOTS](_ => Blank());
      lookup := new Option<nat>[SLOTS](_ => None);
      nextFree, ok := 0, false;
    }

    /** The driver programs a header and data into place k. */
    method Program(k: nat, head: Header, data: seq<byte>) returns (code: Code)
      requires k < cells.Length && |data| <= DATA_SIZE
      modifies this`calls, cells
      ensures calls == old(calls) + 1
      ensures var a := driver.program(old(calls));
        && code == (if a.Done? then OK else DRIVER(a.code))
        && cells[..] == old(cells[..])[k := if a.Done? then Overlaid(old(cells[k]), head, data) else a.left(k)]
    {
      var a := driver.program(calls);
      calls := calls + 1;
      match a
      case Done =>
        code, cells[k] := OK, Overlaid(cells[k], head, data);
      case Refused(c, left) =>
        code, cells[k] := DRIVER(c), left(k);
    }

    /** The driver erases the file flash. */
    method Erase() returns (code: Code)
      modifies this`calls, cells
      ensures calls == old(calls) + 1
      ensures var a := driver.erase(old(calls));
        && code == (if a.Done? then OK else DRIVER(a.code))
        && (a.Done? ==> ErasedFrom(cells[..], 0))
        && (a.Refused? ==> forall k :: 0 <= k < cells.Length ==> cells[k] == a.left(k))
    {
      var a := driver.erase(calls);
      calls := calls + 1;
      match a
      case Done =>
        code := OK;
        forall k | 0 <= k < cells.Length {
          cells[k] := Blank();
        }
      case Refused(c, left) =>
        code := DRIVER(c);
        forall k | 0 <= k < cells.Length {
          cells[k] := left(k);
        }
    }

    /** SYSENV_check_inuse_record */
    method CheckInuseRecord(k: nat, index: nat) returns (good: bool)
      requires k < cells.Length
      modifies this`ok
      ensures good == Intact(cells[k], index) && ok == (old(ok) && good)
    {
      var e := cells[k];
      good := false;
      if e.head.control == IN_USE && e.head.id == index && e.head.size <= DATA_SIZE {
        var sum := CheckSum(e.data, e.head.size, false);
        SummedAll(e.data, e.head.size);
        good := sum == e.head.sum;
      }
      if !good {
        ok := false;
      }
    }

    /** SYSENV_read */
    method Read(index: nat) returns (code: Code, data: seq<byte>)
      requires Valid()
      modifies this`ok
      ensures ok == old(ok) && Valid() && Readings() == old(Readings())
      ensures code == (if !ok then FLASH_INVALID else if index >= SLOTS then INVALID_INDEX
                       else if index in Readings() then OK else NO_VARIABLE)
      ensures data == if code == OK then Readings()[index] else []
    {
      data := [];
      if !ok {
        return FLASH_INVALID, [];
      }
      if index >= SLOTS {
        return INVALID_INDEX, [];
      }
      if lookup[index] == None {
        return NO_VARIABLE, [];
      }
      var k := lookup[index].value;
      assert Intact(cells[..][k], index);
      var good := CheckInuseRecord(k, index);
      if good {
        data := Content(cells[k]);
      }
      code := if data == [] then NO_VARIABLE else OK;
    }

    /** SYSENV_collect_garbage */
    method CollectGarbage() returns (code: Code)
      requires Valid() && ok && nextFree == cells.Length
      modifies this`calls, this`nextFree, cells, cache, lookup
      ensures Valid()
      ensures var v, first := old(View()), old(calls);
        && |v| <= SLOTS
        && (AllDone(driver, true, first, first + 1 + |v|) ==>
              && code == UPDATE_READ_REFS && calls == first + 1 + |v|
              && nextFree == |v| && Durable() && View() == v)
        && (!AllDone(driver, true, first, first + 1 + |v|) ==>
              && RefusedAt(driver, true, first, calls, code) && calls <= first + 1 + |v|
              && nextFree == (if calls == first + 1 then cells.Length else calls - first - 2)
              && Lowest(v, if calls == first + 1 then 0 else calls - first - 2, View()))
    {
      hide SysenvLog.View, Sound, Good, Erased, Intact, Replay, Kept, Cached;
      ghost var v, first := View(), calls;
      KeptAll(v);
      CacheAll(v);
      code := Erase();
      NothingReadable(cells[..], lookup[..], nextFree);
      KeptNone(v);
      if code != OK {
        assert AnswerTo(driver, true, first, first).Refused?;
        return;
      }
      nextFree := 0;
      NothingReadable(cells[..], lookup[..], 0);
      code := WriteBack(v, first);
    }

    /** The variables go to RAM, and the table no longer refers to any. */
    method CacheAll(ghost v: Contents)
      requires Valid() && ok && v == View()
      modifies cache, lookup
      ensures forall i :: 0 <= i < SLOTS ==> lookup[i] == None && Cached(cache[i], v, i)
    {
      var i := 0;
      while i < SLOTS
        invariant 0 <= i <= SLOTS
        invariant forall j :: 0 <= j < i ==> lookup[j] == None && Cached(cache[j], v, j)
        invariant forall j :: i <= j < SLOTS ==> lookup[j] == old(lookup[j])
      {
        if lookup[i].Some? {
          var k := lookup[i].value;
          assert Intact(old(cells[..])[k], i);
          CopyIs(cache[i], cells[k], i);
          cache[i] := Overlaid(cache[i], cells[k].head, Content(cells[k]));
          lookup[i] := None;
        } else {
          cache[i] := cache[i].(head := cache[i].head.(size := 0));
        }
        i := i + 1;
      }
    }

    /** A record is programmed into the next free place and entered in the table; the caller then moves
        on to the next place. */
    method Put(id: nat, head: Header, data: seq<byte>) returns (code: Code)
      requires Shape() && nextFree < cells.Length && id < SLOTS && |data| <= DATA_SIZE && head == HeaderFor(id, data)
      requires Sound(cells[..], lookup[..], nextFree) && Tracked() && ErasedFrom(cells[..], nextFree + 1)
      modifies this`calls, cells, lookup
      ensures calls == old(calls) + 1
      ensures driver.program(old(calls)).Done? ==>
        var n := nextFree + 1;
        && code == OK && lookup[..] == old(lookup[..])[id := Some(nextFree)]
        && Sound(cells[..], lookup[..], n) && SysenvLog.View(cells[..], lookup[..], n) == Applied(old(View()), id, data)
        && IsLog(cells[..], n) && Replay(cells[..n]) == SysenvLog.View(cells[..], lookup[..], n)
        && Intact(cells[nextFree], id)
      ensures var a := driver.program(old(calls));
        a.Refused? ==>
        && code == DRIVER(a.code) && lookup[..] == old(lookup[..])
        && cells[..] == old(cells[..])[nextFree := a.left(nextFree)]
        && Sound(cells[..], lookup[..], nextFree) && View() == old(View())
        && Tracked() && ErasedFrom(cells[..], nextFree + 1)
    {
      hide SysenvLog.View, Sound, Good, Erased, Intact, Replay, Overlaid, Content, ErasedFrom, AllGood, HeaderFor;
      ghost var before, table, e := cells[..], lookup[..], Overlaid(cells[nextFree], head, data);
      OverlaidIs(cells[nextFree], id, data);
      code := Program(nextFree, head, data);
      if code == OK {
        LogGrows(before, table, nextFree, e);
        lookup[id] := Some(nextFree);
        assert cells[..] == before[nextFree := e] && lookup[..] == table[id := Some(nextFree)];
      } else {
        NextStained(before, table, nextFree, cells[nextFree]);
      }
    }

    /** A record is stored in the next free place, and the place after it is the next. */
    method PutNext(id: nat, head: Header, data: seq<byte>) returns (code: Code)
      requires Shape() && nextFree < cells.Length && id < SLOTS && |data| <= DATA_SIZE && head == HeaderFor(id, data)
      requires Sound(cells[..], lookup[..], nextFree) && Tracked() && ErasedFrom(cells[..], nextFree)
      modifies this`calls, this`nextFree, cells, lookup
      ensures Shape() && calls == old(calls) + 1 && Sound(cells[..], lookup[..], nextFree) && Tracked()
      ensures driver.program(old(calls)).Done? ==>
        && code == OK && nextFree == old(nextFree) + 1 && lookup[..] == old(lookup[..])[id := Some(old(nextFree))]
        && View() == Applied(old(View()), id, data) && ErasedFrom(cells[..], nextFree)
      ensures var a := driver.program(old(calls));
        a.Refused? ==>
        && code == DRIVER(a.code) && nextFree == old(nextFree) && lookup[..] == old(lookup[..])
        && View() == old(View()) && ErasedFrom(cells[..], nextFree + 1)
    {
      hide SysenvLog.View, Sound, Good, Erased, Intact, Replay, HeaderFor, Applied, ErasedFrom, AllGood;
      StillErased(cells[..], nextFree);
      code := Put(id, head, data);
      if code == OK {
        nextFree := nextFree + 1;
      }
    }

    lemma EmptyTracked()
      requires Shape() && nextFree == 0 && Sound(cells[..], lookup[..], 0) && View() == Replay(cells[..0])
      ensures Tracked()
    {
    }

    /** A refused record may have stained the next free place. */
    lemma Stained()
      requires Shape() && ok && Sound(cells[..], lookup[..], nextFree) && Tracked() && ErasedFrom(cells[..], nextFree + 1)
      ensures Valid()
    {
    }

    /** A log that stands for what can be read, with nothing behind it. */
    lemma AllBack()
      requires Shape() && ok && Sound(cells[..], lookup[..], nextFree) && Tracked() && ErasedFrom(cells[..], nextFree)
      ensures Valid() && Durable()
    {
    }

    /** The variables go back to the erased flash, index by index. */
    method WriteBack(ghost v: Contents, ghost first: nat) returns (code: Code)
      requires Shape() && ok && nextFree == 0 && ErasedFrom(cells[..], 0)
      requires forall i :: 0 <= i < SLOTS ==> lookup[i] == None && Cached(cache[i], v, i)
      requires IsView(v) && |v| <= SLOTS && Kept(v, SLOTS) == v && calls == first + 1 && driver.erase(first).Done?
      modifies this`calls, this`nextFree, cells, lookup
      ensures Valid() && ok
      ensures AllDone(driver, true, first, first + 1 + |v|) ==>
        && code == UPDATE_READ_REFS && calls == first + 1 + |v|
        && nextFree == |v| && Durable() && View() == v
      ensures !AllDone(driver, true, first, first + 1 + |v|) ==>
        && RefusedAt(driver, true, first, calls, code) && first + 1 < calls <= first + 1 + |v|
        && Lowest(v, calls - first - 2, View()) && nextFree == calls - first - 2
    {
      hide SysenvLog.View, Sound, Good, Erased, Intact, Replay, Kept, Cached, Content, HeaderFor, ErasedFrom, AllGood, Applied,
           IsView, AllDone, AnswerTo, RefusedAt, Lowest, Store.Tracked;
      Emptied(cells[..], lookup[..], v);
      EraseDone(driver, first);
      EmptyLog(cells[..]);
      EmptyTracked();
      var i := 0;
      while i < SLOTS
        invariant 0 <= i <= SLOTS && Shape() && ok && nextFree <= i
        invariant Sound(cells[..], lookup[..], nextFree) && View() == Kept(v, i) && nextFree == |Kept(v, i)|
        invariant Tracked() && ErasedFrom(cells[..], nextFree)
        invariant calls == first + 1 + nextFree && AllDone(driver, true, first, calls)
        invariant forall j :: i <= j < SLOTS ==> lookup[j] == None
        invariant forall j :: 0 <= j < SLOTS ==> Cached(cache[j], v, j)
      {
        CachedIs(cache[i], v, i);
        OneMore(driver, v, first, i);
        if cache[i].head.size != 0 {
          code := PutNext(i, cache[i].head, Content(cache[i]));
          if code != OK {
            Stained();
            return;
          }
        } else {
          ghost var table := lookup[..];
          lookup[i] := None;
          assert lookup[..] == table;
        }
        i := i + 1;
      }
      AllBack();
      code := UPDATE_READ_REFS;
    }

    /** SYSENV_write: empty data deletes. */
    method Write(index: nat, data: seq<byte>) returns (code: Code)
      requires Valid()
      modifies this`calls, this`nextFree, this`ok, cells, cache, lookup
      ensures Valid()
      ensures WriteError(old(ok), index, data) != OK ==>
        && code == WriteError(old(ok), index, data) && calls == old(calls)
        && ok == old(ok) && nextFree == old(nextFree) && cells[..] == old(cells[..]) && lookup[..] == old(lookup[..])
      ensures WriteError(old(ok), index, data) == OK ==>
        var v, full, first := old(View()), old(nextFree == cells.Length), old(calls);
        var needed := first + Needed(v, full);
        && (AllDone(driver, full, first, needed) ==>
              && code == (if full then UPDATE_READ_REFS else OK) && calls == needed
              && Durable() && View() == Applied(v, index, data)
              && nextFree == (if full then |v| else old(nextFree)) + 1)
        && (!AllDone(driver, full, first, needed) ==>
              && RefusedAt(driver, full, first, calls, code) && calls <= needed && ok == (calls < needed)
              && (ok ==> Lowest(v, if calls == first + 1 then 0 else calls - first - 2, View()))
              && nextFree == (if !full then old(nextFree) else if calls == first + 1 then cells.Length else calls - first - 2)
              && (!full ==> cells[..] == old(cells[..])[old(nextFree) := driver.program(first).left(old(nextFree))]))
    {
      hide SysenvLog.View, Sound, Good, Erased, Intact, Replay, AllGood, ErasedFrom, AllDone, RefusedAt, Lowest, HeaderFor, Applied;
      code := WriteError(ok, index, data);
      if code != OK {
        return;
      }
      ghost var v, full, first := View(), nextFree == cells.Length, calls;
      var completion := OK;
      if nextFree == cells.Length {
        completion := CollectGarbage();
        Collected(driver, v, first, calls, completion);
        if completion != UPDATE_READ_REFS {
          return completion;
        }
        StillErased(cells[..], nextFree);
      }
      code := Append(index, data);
      OneWrite(driver, v, full, first, calls);
      if code == OK {
        code := completion;
      }
    }

    /** The end of a write: with a free place the record is stored there, or the store is given up. */
    method Append(index: nat, data: seq<byte>) returns (code: Code)
      requires Shape() && ok && nextFree < cells.Length && index < SLOTS && |data| <= DATA_SIZE
      requires Sound(cells[..], lookup[..], nextFree) && Tracked() && ErasedFrom(cells[..], nextFree + 1)
      modifies this`calls, this`nextFree, this`ok, cells, lookup
      ensures Valid() && calls == old(calls) + 1
      ensures driver.program(old(calls)).Done? ==>
        && code == OK && nextFree == old(nextFree) + 1 && Durable() && View() == Applied(old(View()), index, data)
      ensures var a := driver.program(old(calls));
        a.Refused? ==> code == DRIVER(a.code) && !ok && nextFree == old(nextFree) && cells[..] == old(cells[..])[old(nextFree) := a.left(old(nextFree))]
    {
      hide SysenvLog.View, Sound, Good, Erased, Intact, Replay, AllGood, ErasedFrom, HeaderFor, Applied;
      var head := FormatHeader(index, data);
      code := Put(index, head, data);
      if code != OK {
        ok := false;
        return;
      }
      IntactIds(cells[nextFree], index);
      var good := CheckInuseRecord(nextFree, cells[nextFree].head.id);
      nextFree := nextFree + 1;
      StillErased(cells[..], nextFree);
    }

    /** SYSENV_init; `erase` tells whether the board asks for its default settings, and `place` and `size` are
        the results of asking where the file flash is and how large. */
    method Init(erase: bool, place: nat, size: nat) returns (code: Code)
      requires Shape()
      modifies this`calls, this`nextFree, this`ok, cells, lookup
      ensures Valid()
      ensures code == if place != 0 then DRIVER(place) else if size != 0 then DRIVER(size)
                      else if ok then OK else FLASH_INVALID
      ensures !erase ==> calls == old(calls) && cells[..] == old(cells[..])
      ensures erase ==> calls == old(calls) + 1 && (driver.erase(old(calls)).Done? ==> ErasedFrom(cells[..], 0))
      ensures ok <==> place == 0 && size == 0 && Accepted(cells[..], old(nextFree))
      ensures ok ==> Durable()
    {
      hide SysenvLog.View, Sound, Good, Erased, Intact, Replay, AllGood, ErasedFrom, Accepted;
      if erase {
        var _ := Erase();
      }
      ok := false;
      ClearLookup();
      if place != 0 {
        return DRIVER(place);
      }
      if size != 0 {
        return DRIVER(size);
      }
      ghost var stale := nextFree;
      var good, free, i := ScanRecords();
      if !good {
        NotAccepted(cells[..], i, i, stale);
        return FLASH_INVALID;
      }
      var blank, k := FreeAreaIsErased();
      if !blank {
        if free {
          NotAccepted(cells[..], i, k, stale);
        } else {
          FullLog(cells[..], stale);
        }
        return FLASH_INVALID;
      }
      LogFound(cells[..], i, nextFree, stale);
      StillErased(cells[..], nextFree);
      ok := true;
      code := OK;
    }

    method ClearLookup()
      requires lookup.Length == SLOTS
      modifies lookup
      ensures forall j :: 0 <= j < SLOTS ==> lookup[j] == None
    {
      var i := 0;
      while i < SLOTS
        invariant 0 <= i <= SLOTS && forall j :: 0 <= j < i ==> lookup[j] == None
      {
        lookup[i] := None;
        i := i + 1;
      }
    }

    /** Reads records up to the first free place; without one the number of the next free place stays
        as it was. */
    method ScanRecords() returns (good: bool, free: bool, i: nat)
      requires Shape() && !ok && forall j :: 0 <= j < SLOTS ==> lookup[j] == None
      modifies this`nextFree, this`ok, lookup
      ensures Shape() && !ok && i <= cells.Length && AllGood(cells[..], i)
      ensures !good ==> i < cells.Length && !Good(cells[i]) && !Erased(cells[i])
      ensures good ==>
        && Sound(cells[..], lookup[..], i) && Replay(cells[..i]) == SysenvLog.View(cells[..], lookup[..], i)
        && (if free then nextFree == i < cells.Length && !Good(cells[i]) else nextFree == old(nextFree) && i == cells.Length)
    {
      hide SysenvLog.View, Sound, Intact, Replay, AllGood;
      EmptyLog(cells[..]);
      Emptied(cells[..], lookup[..], map[]);
      i, free := 0, false;
      while i < cells.Length && !free
        invariant i <= cells.Length && Shape() && !ok
        invariant Sound(cells[..], lookup[..], i) && AllGood(cells[..], i)
        invariant Replay(cells[..i]) == SysenvLog.View(cells[..], lookup[..], i)
        invariant if free then nextFree == i < cells.Length && cells[i].head.control == FREE else nextFree == old(nextFree)
        decreases cells.Length - i, !free
      {
        if cells[i].head.control == FREE {
          nextFree, free := i, true;
        } else {
          good := EnterRecord(i);
          if !good {
            return;
          }
          i := i + 1;
        }
      }
      good := true;
    }

    /** Looks at all places from the next free one on. */
    method FreeAreaIsErased() returns (blank: bool, k: nat)
      requires nextFree <= cells.Length
      ensures blank ==> ErasedFrom(cells[..], nextFree)
      ensures !blank ==> nextFree <= k < cells.Length && !Erased(cells[k])
    {
      k, blank := nextFree, true;
      while k < cells.Length
        invariant nextFree <= k <= cells.Length && blank
        invariant forall j :: nextFree <= j < k ==> Erased(cells[j])
      {
        blank := IsErased(k);
        if !blank {
          return;
        }
        k := k + 1;
      }
    }

    /** A place that is not free: its record is entered in the table, or taken out when it deletes. */
    method EnterRecord(i: nat) returns (good: bool)
      requires Shape() && i < cells.Length && !ok && cells[i].head.control != FREE
      requires Sound(cells[..], lookup[..], i) && AllGood(cells[..], i)
      requires Replay(cells[..i]) == SysenvLog.View(cells[..], lookup[..], i)
      modifies this`ok, lookup
      ensures !ok && good == Good(cells[i])
      ensures good ==>
        && Sound(cells[..], lookup[..], i + 1) && AllGood(cells[..], i + 1)
        && Replay(cells[..i + 1]) == SysenvLog.View(cells[..], lookup[..], i + 1)
    {
      var e := cells[i];
      if e.head.control != IN_USE || e.head.id >= SLOTS || e.head.size > DATA_SIZE {
        return false;
      }
      ghost var table := lookup[..];
      assert cells[..][i := e] == cells[..];
      ReplayStep(cells[..], i, e);
      if e.head.size == 0 {
        RecordAdded(cells[..], table, i, e, None);
        lookup[e.head.id] := None;
        assert lookup[..] == table[e.head.id := None];
        good := true;
      } else {
        lookup[e.head.id] := Some(i);
        assert lookup[..] == table[e.head.id := Some(i)];
        good := CheckInuseRecord(i, e.head.id);
        if good {
          RecordAdded(cells[..], table, i, e, Some(i));
        }
      }
    }

    /** The free place is erased, word by word. */
    method IsErased(k: nat) returns (blank: bool)
      requires k < cells.Length
      ensures blank == Erased(cells[k])
    {
      var e := cells[k];
      if e.head != Header(FREE, FREE, FREE, FREE) {
        return false;
      }
      var p := 0;
      while p < DATA_SIZE
        invariant 0 <= p <= DATA_SIZE && p % 4 == 0
        invariant forall j :: 0 <= j < p ==> e.data[j] == FREE
      {
        OnesAreFree(e.data, p);
        if WordAt(e.data, p, false) != UINT32_MAX {
          return false;
        }
        p := p + 4;
      }
      blank := true;
    }
  }

  /** A full log is accepted only with the right number of the next free place. */
  lemma FullLog(cells: seq<Elem>, stale: nat)
    requires AllGood(cells, |cells|) && stale < |cells|
    ensures !Accepted(cells, stale)
  {
    AcceptedExactly(cells, |cells|, stale);
  }

  lemma LogFound(cells: seq<Elem>, i: nat, n: nat, stale: nat)
    requires AllGood(cells, i) && ErasedFrom(cells, n) && n <= |cells|
    requires (n == i < |cells|) || (i == |cells| && n == stale)
    ensures i == n && Accepted(cells, stale) && IsLog(cells, n)
  {
    NotLonger(cells, n, i);
    assert IsLog(cells, n);
  }

  lemma OnesAreFree(data: seq<byte>, p: nat)
    requires p + 4 <= |data|
    ensures WordAt(data, p, false) == UINT32_MAX <==> forall j :: p <= j < p + 4 ==> data[j] == FREE
  {
    if WordAt(data, p, false) == UINT32_MAX {
      assert data[p + 3] == FREE;
      assert data[p + 2] == FREE;
      assert data[p + 1] == FREE;
    } else {
      assert data[p] != FREE || data[p + 1] != FREE || data[p + 2] != FREE || data[p + 3] != FREE;
    }
  }

  /** A collection that stops is where the write stops. */
  lemma Collected(d: Driver, v: Contents, first: nat, calls: nat, code: Code)
    ensures !AllDone(d, true, first, first + 1 + |v|) ==> !AllDone(d, true, first, first + Needed(v, true))
    ensures RefusedAt(d, true, first, calls, code) ==> code.DRIVER?
  {
  }

  /** The last request of a write decides. */
  lemma OneWrite(d: Driver, v: Contents, full: bool, first: nat, calls: nat)
    requires calls == first + Needed(v, full)
    requires full ==> AllDone(d, true, first, first + 1 + |v|)
    ensures AllDone(d, full, first, calls) <==> d.program(calls - 1).Done?
    ensures d.program(calls - 1).Refused? ==> RefusedAt(d, full, first, calls, DRIVER(d.program(calls - 1).code))
  {
    assert AnswerTo(d, full, first, calls - 1) == d.program(calls - 1);
  }

  /** Nothing can be read, and the erased log holds nothing. */
  lemma Emptied(cells: seq<Elem>, lookup: seq<Option<nat>>, v: Contents)
    requires |lookup| == SLOTS && forall i :: 0 <= i < SLOTS ==> lookup[i] == None
    ensures Sound(cells, lookup, 0) && SysenvLog.View(cells, lookup, 0) == Kept(v, 0) == Replay(cells[..0]) && |Kept(v, 0)| == 0
  {
    NothingReadable(cells, lookup, 0);
    KeptNone(v);
  }

  lemma EraseDone(d: Driver, first: nat)
    requires d.erase(first).Done?
    ensures AllDone(d, true, first, first + 1)
  {
  }

  /** Writing index i back: one more is done, or this is where collecting stops. */
  lemma OneMore(d: Driver, v: Contents, first: nat, i: nat)
    requires i < SLOTS && IsView(v) && Kept(v, SLOTS) == v && AllDone(d, true, first, first + 1 + |Kept(v, i)|)
    ensures var n := first + 1 + |Kept(v, i)|;
      if i in v then
        && v[i] != [] && Kept(v, i + 1) == Applied(Kept(v, i), i, v[i]) && |Kept(v, i + 1)| == |Kept(v, i)| + 1
        && (d.program(n).Done? ==> AllDone(d, true, first, n + 1))
        && (d.program(n).Refused? ==>
              && !AllDone(d, true, first, first + 1 + |v|) && n + 1 <= first + 1 + |v|
              && RefusedAt(d, true, first, n + 1, DRIVER(d.program(n).code))
              && Lowest(v, |Kept(v, i)|, Kept(v, i)))
      else Kept(v, i + 1) == Kept(v, i)
  {
    KeptStep(v, i);
    KeptGrows(v, i + 1, SLOTS);
    assert AnswerTo(d, true, first, first + 1 + |Kept(v, i)|) == d.program(first + 1 + |Kept(v, i)|);
  }

  lemma IntactIds(e: Elem, id: nat)
    requires Intact(e, id)
    ensures e.head.id == id
  {
  }

  lemma EmptyLog(cells: seq<Elem>)
    ensures AllGood(cells, 0)
  {
  }

  lemma StillErased(cells: seq<Elem>, n: nat)
    requires ErasedFrom(cells, n)
    ensures ErasedFrom(cells, n + 1)
  {
  }

  lemma CachedIs(e: Elem, v: Contents, i: nat)
    requires Cached(e, v, i) && IsView(v) && i < SLOTS
    ensures e.head.size != 0 <==> i in v
    ensures i in v ==> e.head == HeaderFor(i, v[i]) && Content(e) == v[i] && v[i] != []
  {
  }

  lemma SummedAll(data: seq<byte>, size: nat)
    requires size <= |data| && |data| % 4 == 0
    ensures Summed(data, size, false) == data[..size]
  {
  }
}

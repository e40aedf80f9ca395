/** Which handlers an interrupt calls (exception/excep.c): the events of a dispatch, told by the bits of the
    pending word and the slots of the lines. */
module DispatchCalls {
  import opened Machine
  import opened Wrappers
  import opened Bits
  import opened HandlerTable
  import opened Dispatch

  // ---------- one line ----------

  /** Slot by slot from j on, what the handlers registered there are called with. */
  function SlotCalls(slots: Slots, j: nat): seq<Event>
    decreases 4 - j
  {
    if j >= 4 then []
    else if slots[j].fn == 0 then SlotCalls(slots, j + 1)
    else [Call(slots[j].fn, slots[j].data)] + SlotCalls(slots, j + 1)
  }

  /** Some slot of the line holds a handler. */
  predicate HasHandler(s: State, k: nat) {
    k < |s.lines| && exists j :: 0 <= j < 4 && s.lines[k].slots[j].fn != 0
  }

  lemma {:induction false} ActiveCalls(slots: Slots, j: nat)
    requires j <= 4
    ensures Calls(Active(slots[j..])) == SlotCalls(slots, j)
    decreases 4 - j
  {
    if j < 4 {
      assert slots[j..][1..] == slots[j + 1..];
      ActiveCalls(slots, j + 1);
      var own := Own(slots[j]);
      if slots[j].fn != NULL {
        assert ([slots[j]] + Active(slots[j + 1..]))[1..] == Active(slots[j + 1..]);
      } else {
        assert own + Active(slots[j + 1..]) == Active(slots[j + 1..]);
      }
    }
  }

  lemma {:induction false} SomeActive(slots: Slots, j: nat)
    requires j <= 4
    ensures Active(slots[j..]) != [] <==> exists i :: j <= i < 4 && slots[i].fn != 0
    decreases 4 - j
  {
    if j < 4 {
      assert slots[j..][1..] == slots[j + 1..];
      SomeActive(slots, j + 1);
    }
  }

  lemma LineHasHandler(s: State, k: nat)
    requires Consistent(s) && k < |s.lines|
    ensures s.lines[k].size > 0 <==> HasHandler(s, k)
    ensures Calls(Active(s.lines[k].slots)) == SlotCalls(s.lines[k].slots, 0)
  {
    var slots := s.lines[k].slots;
    assert slots[0..] == slots;
    SomeActive(slots, 0);
    ActiveCalls(slots, 0);
    assert LineOk(s.lines[k]);
  }

  /** An interrupt of a CPU line calls its handlers in slot order, each with its own data; without any it
      calls the default handler; without that either the built-in handler takes over. */
  lemma CpuLineCalls(cpu: State, k: nat)
    requires Consistent(cpu) && k < |cpu.lines|
    ensures CpuEvents(cpu, k) ==
            if HasHandler(cpu, k) then SlotCalls(cpu.lines[k].slots, 0)
            else if cpu.default.fn != 0 then [Call(cpu.default.fn, cpu.default.data)]
            else [Halt]
    ensures Halts(CpuEvents(cpu, k)) <==> !HasHandler(cpu, k) && cpu.default.fn == 0
  {
    hide Active, Consistent, SlotCalls;
    LineHasHandler(cpu, k);
    NoEoi(Active(cpu.lines[k].slots));
  }

  /** An interrupt of a controller line does the same, with the data of the CPU's default handler for its
      own, and then tells the controller. */
  lemma IcLineCalls(cpu: State, ic: State, k: nat)
    requires Consistent(ic) && k < |ic.lines|
    ensures IcEvents(cpu, ic, k) ==
            if HasHandler(ic, k) then SlotCalls(ic.lines[k].slots, 0) + [Eoi(k)]
            else if ic.default.fn != 0 then [Call(ic.default.fn, cpu.default.data), Eoi(k)]
            else [Halt]
    ensures Halts(IcEvents(cpu, ic, k)) <==> !HasHandler(ic, k) && ic.default.fn == 0
  {
    hide Active, Consistent, SlotCalls;
    LineHasHandler(ic, k);
  }

  // ---------- the lines of the CPU ----------

  /** Requested and not masked. */
  predicate Requested(ip: byte, im: byte, k: nat) {
    Bit(ip, k) && Bit(im, k)
  }

  /** What the requested lines below n call, from the highest down; nothing more behind a line that has
      neither a handler nor a default one. */
  function CpuCalls(cpu: State, ip: byte, im: byte, n: nat): seq<Event>
    requires n <= |cpu.lines|
  {
    if n == 0 then []
    else
      var k := n - 1;
      if !Requested(ip, im, k) then CpuCalls(cpu, ip, im, k)
      else if HasHandler(cpu, k) then SlotCalls(cpu.lines[k].slots, 0) + CpuCalls(cpu, ip, im, k)
      else if cpu.default.fn != 0 then [Call(cpu.default.fn, cpu.default.data)] + CpuCalls(cpu, ip, im, k)
      else [Halt]
  }

  lemma {:induction false} ListCalls(cpu: State, ip: byte, im: byte, ks: seq<nat>, n: nat)
    requires Consistent(cpu) && n <= |cpu.lines| && Descending(ks)
    requires forall k: nat :: k in ks <==> k < n && Requested(ip, im, k)
    ensures CpuServed(cpu, ks) == CpuCalls(cpu, ip, im, n)
  {
    hide Consistent, Requested, CpuEvents, HasHandler, SlotCalls;
    if n > 0 {
      if Requested(ip, im, n - 1) {
        HeadIs(ks, n - 1);
        var rest := ks[1..];
        forall k: nat ensures k in rest <==> k < n - 1 && Requested(ip, im, k) {
          InRest(ks, k);
        }
        ListCalls(cpu, ip, im, rest, n - 1);
        CpuLineCalls(cpu, n - 1);
      } else {
        ListCalls(cpu, ip, im, ks, n - 1);
      }
    } else {
      FirstIsMember(ks);
    }
  }

  lemma FirstIsMember(ks: seq<nat>)
    ensures ks != [] ==> exists k: nat :: k in ks
  {
    if ks != [] {
      assert ks[0] in ks;
    }
  }

  lemma HeadIs(ks: seq<nat>, m: nat)
    requires Descending(ks) && m in ks && forall k :: k in ks ==> k <= m
    ensures ks != [] && ks[0] == m
  {
    assert ks[0] in ks;
    var i :| 0 <= i < |ks| && ks[i] == m;
  }

  lemma InRest(ks: seq<nat>, k: nat)
    requires ks != [] && Descending(ks)
    ensures k in ks[1..] <==> k in ks && k != ks[0]
    ensures Descending(ks[1..])
  {
    if k in ks && k != ks[0] {
      var i :| 0 <= i < |ks| && ks[i] == k;
      assert ks[1..][i - 1] == k;
    }
    if k in ks[1..] {
      var i :| 0 <= i < |ks[1..]| && ks[1..][i] == k;
      assert ks[i + 1] == k;
    }
  }

  /** An interrupt of the CPU calls what the requested lines call, from the highest line to the lowest. */
  lemma CpuInterruptCalls(cpu: State, ip: byte, im: byte)
    requires Consistent(cpu) && |cpu.lines| >= 8
    ensures CpuServed(cpu, Ones(Unmasked(ip, im))) == CpuCalls(cpu, ip, im, 8)
  {
    hide CpuServed, CpuCalls, Consistent, Bit, Ones;
    PendingAreUnmasked(ip, im);
    forall k: nat ensures k in Ones(Unmasked(ip, im)) <==> k < 8 && Requested(ip, im, k) {
    }
    ListCalls(cpu, ip, im, Ones(Unmasked(ip, im)), 8);
  }

  /** A requested line below n has neither a handler nor a default one. */
  predicate NobodyServes(cpu: State, ip: byte, im: byte, n: nat) {
    exists k :: 0 <= k < n && Requested(ip, im, k) && !HasHandler(cpu, k) && cpu.default.fn == 0
  }

  /** How often an event occurs. */
  function Times(es: seq<Event>, e: Event): nat {
    multiset(es)[e]
  }

  /** How often the slots from j on hold that handler. */
  function SlotTimes(slots: Slots, j: nat, e: Event): nat
    decreases 4 - j
  {
    if j >= 4 then 0
    else (if slots[j].fn != 0 && e == Call(slots[j].fn, slots[j].data) then 1 else 0) + SlotTimes(slots, j + 1, e)
  }

  /** How often the requested lines below n hold that handler, or leave it to the default one. */
  function LineTimes(cpu: State, ip: byte, im: byte, n: nat, e: Event): nat
    requires n <= |cpu.lines|
  {
    if n == 0 then 0
    else
      LineTimes(cpu, ip, im, n - 1, e) +
      if !Requested(ip, im, n - 1) then 0
      else if HasHandler(cpu, n - 1) then SlotTimes(cpu.lines[n - 1].slots, 0, e)
      else if e == Call(cpu.default.fn, cpu.default.data) then 1
      else 0
  }

  lemma {:induction false} SlotsCount(slots: Slots, j: nat, e: Event)
    requires j <= 4
    ensures Times(SlotCalls(slots, j), e) == SlotTimes(slots, j, e)
    decreases 4 - j
  {
    if j < 4 {
      SlotsCount(slots, j + 1, e);
    }
  }

  /** If every requested line has somebody who serves it, each handler is called exactly as often as it is
      registered on requested lines, the default one once for each requested line without a handler, and
      nothing else happens. Otherwise the built-in handler takes over. */
  lemma {:induction false} CalledExactly(cpu: State, ip: byte, im: byte, n: nat, e: Event)
    requires n <= |cpu.lines|
    ensures Halt in CpuCalls(cpu, ip, im, n) <==> NobodyServes(cpu, ip, im, n)
    ensures !NobodyServes(cpu, ip, im, n) ==> Times(CpuCalls(cpu, ip, im, n), e) == LineTimes(cpu, ip, im, n, e)
  {
    hide Requested, HasHandler, SlotCalls, SlotTimes;
    if n > 0 {
      CalledExactly(cpu, ip, im, n - 1, e);
      SlotsCount(cpu.lines[n - 1].slots, 0, e);
      SlotsNeverHalt(cpu.lines[n - 1].slots, 0);
    }
  }

  lemma {:induction false} SlotsNeverHalt(slots: Slots, j: nat)
    ensures Halt !in SlotCalls(slots, j)
    decreases 4 - j
  {
    if j < 4 {
      SlotsNeverHalt(slots, j + 1);
    }
  }

  // ---------- the lines of the controller ----------

  /** The line that is looked at as the m-th: bytes ascending, bits of a byte descending. */
  function LineOf(m: nat): nat {
    8 * (m / 8) + 7 - m % 8
  }

  lemma LineOfTwice(m: nat)
    ensures LineOf(LineOf(m)) == m && (m < 32 <==> LineOf(m) < 32)
  {
    var q, r := m / 8, m % 8;
    assert LineOf(m) == 8 * q + (7 - r);
    assert LineOf(m) / 8 == q && LineOf(m) % 8 == 7 - r;
  }

  /** What the pending lines call from the m-th look on; nothing more behind a line that nobody serves. */
  function IcCalls(cpu: State, ic: State, p: uint32, m: nat): seq<Event>
    requires |ic.lines| == 32
    decreases 32 - m
  {
    if m >= 32 then []
    else
      var k := LineOf(m);
      LineOfTwice(m);
      if !Bit(p, k) then IcCalls(cpu, ic, p, m + 1)
      else if HasHandler(ic, k) then SlotCalls(ic.lines[k].slots, 0) + [Eoi(k)] + IcCalls(cpu, ic, p, m + 1)
      else if ic.default.fn != 0 then [Call(ic.default.fn, cpu.default.data), Eoi(k)] + IcCalls(cpu, ic, p, m + 1)
      else [Halt]
  }

  /** In the order in which the lines are looked at. */
  ghost predicate InOrder(ks: seq<nat>) {
    forall i, j :: 0 <= i < j < |ks| ==> LineOf(ks[i]) < LineOf(ks[j])
  }

  lemma {:induction false} OrderInOrder(p: uint32, j: nat)
    requires j <= 4
    ensures InOrder(ControllerOrder(p, j))
    ensures forall i :: 0 <= i < |ControllerOrder(p, j)| ==> 8 * j <= LineOf(ControllerOrder(p, j)[i]) < 32
    decreases 4 - j
  {
    hide Ones, ByteOf;
    if j < 4 {
      OrderInOrder(p, j + 1);
      OnesAreBits(ByteOf(p, j));
      OnesInRange(ByteOf(p, j));
      ByteInOrder(Ones(ByteOf(p, j)), j);
    }
  }

  lemma ByteInOrder(ks: seq<nat>, j: nat)
    requires Descending(ks) && AreLines(ks, 8)
    ensures InOrder(Shifted(ks, 8 * j))
    ensures forall i :: 0 <= i < |ks| ==> 8 * j <= LineOf(Shifted(ks, 8 * j)[i]) < 8 * j + 8
  {
    hide LineOf;
    var r := Shifted(ks, 8 * j);
    forall i | 0 <= i < |ks| ensures LineOf(r[i]) == 8 * j + 7 - ks[i] {
      LineInByte(j, ks[i]);
    }
  }

  lemma LineInByte(j: nat, k: nat)
    requires k < 8
    ensures LineOf(k + 8 * j) == 8 * j + 7 - k
  {
    assert (k + 8 * j) / 8 == j && (k + 8 * j) % 8 == k;
  }

  lemma {:induction false} IcListCalls(cpu: State, ic: State, p: uint32, ks: seq<nat>, m: nat)
    requires Consistent(ic) && |ic.lines| == 32 && m <= 32 && InOrder(ks)
    requires forall k: nat :: k in ks <==> k < 32 && m <= LineOf(k) && Bit(p, k)
    ensures IcServed(cpu, ic, ks) == IcCalls(cpu, ic, p, m)
    decreases 32 - m
  {
    hide Consistent, Bit, IcEvents, HasHandler, SlotCalls, LineOf;
    if m < 32 {
      LineOfTwice(m);
      var k := LineOf(m);
      if Bit(p, k) {
        FirstInOrder(ks, k);
        var rest := ks[1..];
        forall l: nat ensures l in rest <==> l < 32 && m + 1 <= LineOf(l) && Bit(p, l) {
          InOrderRest(ks, l);
          LineOfTwice(l);
        }
        IcListCalls(cpu, ic, p, rest, m + 1);
        IcLineCalls(cpu, ic, k);
      } else {
        forall l: nat ensures l in ks <==> l < 32 && m + 1 <= LineOf(l) && Bit(p, l) {
          LineOfTwice(l);
        }
        IcListCalls(cpu, ic, p, ks, m + 1);
      }
    } else {
      assert ks == [] by {
        if ks != [] {
          assert ks[0] in ks;
          LineOfTwice(ks[0]);
        }
      }
    }
  }

  lemma FirstInOrder(ks: seq<nat>, k: nat)
    requires InOrder(ks) && k in ks && forall l :: l in ks ==> LineOf(k) <= LineOf(l)
    ensures ks != [] && ks[0] == k
  {
    assert ks[0] in ks;
    var i :| 0 <= i < |ks| && ks[i] == k;
  }

  lemma InOrderRest(ks: seq<nat>, l: nat)
    requires ks != [] && InOrder(ks)
    ensures l in ks[1..] <==> l in ks && l != ks[0]
    ensures l in ks[1..] ==> LineOf(ks[0]) < LineOf(l)
    ensures InOrder(ks[1..])
  {
    if l in ks && l != ks[0] {
      var i :| 0 <= i < |ks| && ks[i] == l;
      assert ks[1..][i - 1] == l;
    }
    if l in ks[1..] {
      var i :| 0 <= i < |ks[1..]| && ks[1..][i] == l;
      assert ks[i + 1] == l;
    }
  }

  /** One round of the controller calls what its pending lines call, bytes ascending and bits descending,
      and tells the controller behind each of them. */
  lemma IcRoundCalls(cpu: State, ic: State, p: uint32)
    requires Consistent(ic) && |ic.lines| == 32
    ensures IcServed(cpu, ic, ControllerOrder(p, 0)) == IcCalls(cpu, ic, p, 0)
  {
    hide IcServed, IcCalls, Consistent, Bit, ControllerOrder, LineOf;
    OrderInOrder(p, 0);
    OrderIsPending(p);
    IcListCalls(cpu, ic, p, ControllerOrder(p, 0), 0);
  }

  /** All rounds up to the first reading that shows nothing, unless the built-in handler takes over. */
  function AllCalls(cpu: State, ic: State, readings: seq<uint32>): seq<Event>
    requires |ic.lines| == 32
  {
    if readings == [] || readings[0] == 0 then []
    else
      var es := IcCalls(cpu, ic, readings[0], 0);
      if Halt in es then es else es + AllCalls(cpu, ic, readings[1..])
  }

  lemma {:induction false} HaltEnds(cpu: State, ic: State, p: uint32, m: nat)
    requires |ic.lines| == 32 && m <= 32
    ensures Halt in IcCalls(cpu, ic, p, m) <==> Halts(IcCalls(cpu, ic, p, m))
    decreases 32 - m
  {
    hide Bit, HasHandler, SlotCalls, LineOf;
    if m < 32 {
      HaltEnds(cpu, ic, p, m + 1);
      LineOfTwice(m);
      SlotsNeverHalt(ic.lines[LineOf(m)].slots, 0);
    }
  }

  lemma {:induction false} IcInterruptCalls(cpu: State, ic: State, readings: seq<uint32>)
    requires Consistent(ic) && |ic.lines| == 32
    ensures Rounds(cpu, ic, readings) == AllCalls(cpu, ic, readings)
  {
    hide IcServed, IcCalls, Consistent, ControllerOrder, Halts;
    if readings != [] && readings[0] != 0 {
      IcRoundCalls(cpu, ic, readings[0]);
      HaltEnds(cpu, ic, readings[0], 0);
      IcInterruptCalls(cpu, ic, readings[1..]);
    }
  }

  // ---------- registering ----------

  /** A registered default handler is called, with its data, for every line that has no handler, and not any
      more when it is deregistered; lines with handlers do not change. */
  lemma DefaultCalled(s: State, limit: nat, h: Handler, k: nat)
    requires Consistent(s) && limit <= |s.lines| && k < |s.lines| && h.fn != 0
    ensures var reg := Registered(s, limit, 0xffff_fff0, h);
      var gone := Deregistered(reg.state, reg.ref);
      && reg.code == OK && gone.0 == OK
      && CpuEvents(reg.state, k) == (if HasHandler(s, k) then CpuEvents(s, k) else [Call(h.fn, h.data)])
      && CpuEvents(gone.1, k) == (if HasHandler(s, k) then CpuEvents(s, k) else [Halt])
  {
    hide Active, Consistent, SlotCalls;
    LineHasHandler(s, k);
  }

  /** Registering succeeds exactly for the default handler, and for a handler of a line that is there and
      has an unused slot; every other call has the code of its first fault. */
  lemma RegisterCodes(s: State, limit: nat, line: nat, h: Handler)
    requires Consistent(s) && limit <= |s.lines|
    ensures var code := Registered(s, limit, line, h).code;
      if line == 0xffff_fff0 then code == OK
      else if line >= limit then code == ILLEGAL_INTERRUPT
      else if h.fn == 0 then code == ILLEGAL_HANDLER
      else if forall j :: 0 <= j < 4 ==> s.lines[line].slots[j].fn != 0 then code == NO_SPACE
      else code == OK
    ensures Registered(s, limit, line, h).code != OK ==> Registered(s, limit, line, h).state == s
  {
    hide Active;
    if line < limit {
      assert LineOk(s.lines[line]);
      FullExactly(s.lines[line].slots);
    }
  }

  /** Giving a handle back succeeds for the default handler and for a slot of the table, and fails, without an
      effect, for anything else. */
  lemma DeregisterCodes(s: State, r: Ref)
    ensures var (code, s') := Deregistered(s, r);
      if r.DefaultRef? || (r.SlotRef? && r.line < |s.lines| && r.slot < 4) then code == OK
      else code == ILLEGAL_HANDLER && s' == s
  {
  }

  lemma FullExactly(slots: Slots)
    ensures |Active(slots)| == 4 <==> forall j :: 0 <= j < 4 ==> slots[j].fn != 0
  {
    ActiveAt(slots, 0);
    ActiveAt(slots, 1);
    ActiveAt(slots, 2);
    ActiveAt(slots, 3);
    if forall j :: 0 <= j < 4 ==> slots[j].fn != 0 {
      AllActive(slots);
    }
  }

  /** A handler that is registered on a line is called by its interrupts, once more than before, with its
      data, and the other calls stay. */
  lemma RegisteredCalled(s: State, limit: nat, line: nat, h: Handler, e: Event)
    requires Consistent(s) && limit <= |s.lines| && line != 0xffff_fff0
    requires Registered(s, limit, line, h).code == OK
    ensures var s' := Registered(s, limit, line, h).state;
      && |s'.lines| == |s.lines| && line < |s.lines| && HasHandler(s', line)
      && SlotTimes(s'.lines[line].slots, 0, e) ==
         SlotTimes(s.lines[line].slots, 0, e) + (if e == Call(h.fn, h.data) then 1 else 0)
      && forall k :: 0 <= k < |s.lines| && k != line ==> s'.lines[k] == s.lines[k]
  {
    hide Active;
    var l := s.lines[line];
    assert LineOk(l);
    LineSize(l);
    SlotIsFree(l);
    var j := FirstFree(l.slots, 0);
    SlotPut(l.slots, 0, j, h, e);
    var s' := Registered(s, limit, line, h).state;
    assert s'.lines[line].slots[j] == h;
  }

  lemma {:induction false} SlotPut(slots: Slots, i: nat, j: nat, h: Handler, e: Event)
    requires i <= 4 && j < 4 && slots[j].fn == 0 && h.fn != 0
    ensures SlotTimes(slots[j := h], i, e) ==
            SlotTimes(slots, i, e) + if i <= j && e == Call(h.fn, h.data) then 1 else 0
    decreases 4 - i
  {
    if i < 4 {
      SlotPut(slots, i + 1, j, h, e);
    }
  }
}

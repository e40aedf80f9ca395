/** Interrupt dispatch (exception/excep.c): the CPU's lines and those of the interrupt controller. */
module Dispatch {
  import opened Machine
  import opened Wrappers
  import opened Bits
  import opened HandlerTable

  const CPU_LINES := 64
  const IC_LINES := 32

  /** What dispatching does: a handler is called, the end of an interrupt is told to the controller, or
      the built-in handler takes over, which never returns. */
  datatype Event = Call(fn: nat, data: nat) | Eoi(line: nat) | Halt

  function CallOf(h: Handler): Event {
    Call(h.fn, h.data)
  }

  function Calls(hs: seq<Handler>): (es: seq<Event>)
    ensures |es| == |hs| && forall i :: 0 <= i < |hs| ==> es[i] == CallOf(hs[i])
  {
    if hs == [] then [] else [CallOf(hs[0])] + Calls(hs[1..])
  }

  function LineAt(s: State, k: nat): Line {
    if k < |s.lines| then s.lines[k] else NoLine
  }

  /** What a CPU line's interrupt does. */
  function CpuEvents(cpu: State, line: nat): seq<Event> {
    if LineAt(cpu, line).size > 0 then Calls(Active(LineAt(cpu, line).slots))
    else if cpu.default.fn != NULL then [CallOf(cpu.default)]
    else [Halt]
  }

  /** What a controller line's interrupt does. Its default handler is given the data of the CPU's. */
  function IcEvents(cpu: State, ic: State, line: nat): seq<Event> {
    if LineAt(ic, line).size > 0 then Calls(Active(LineAt(ic, line).slots)) + [Eoi(line)]
    else if ic.default.fn != NULL then [Call(ic.default.fn, cpu.default.data), Eoi(line)]
    else [Halt]
  }

  predicate Halts(es: seq<Event>) {
    es != [] && es[|es| - 1] == Halt
  }

  /** Nothing happens any more once the built-in handler has taken over. */
  function Then(es: seq<Event>, rest: seq<Event>): seq<Event> {
    if Halts(es) then es else es + rest
  }

  /** The CPU lines served one after the other. */
  function CpuServed(cpu: State, ks: seq<nat>): seq<Event> {
    if ks == [] then [] else Then(CpuEvents(cpu, ks[0]), CpuServed(cpu, ks[1..]))
  }

  function IcServed(cpu: State, ic: State, ks: seq<nat>): seq<Event> {
    if ks == [] then [] else Then(IcEvents(cpu, ic, ks[0]), IcServed(cpu, ic, ks[1..]))
  }

  predicate AreLines(ks: seq<nat>, n: nat) {
    forall i :: 0 <= i < |ks| ==> ks[i] < n
  }

  /** The lines of byte j. */
  function Shifted(ks: seq<nat>, j: nat): (r: seq<nat>)
    ensures |r| == |ks| && forall i :: 0 <= i < |ks| ==> r[i] == ks[i] + j
  {
    if ks == [] then [] else [ks[0] + j] + Shifted(ks[1..], j)
  }

  function ByteOf(p: uint32, j: nat): byte {
    p / Pow2(8 * j) % 256
  }

  /** The pending lines of a controller word from byte j on: bytes ascending, bits descending. */
  function ControllerOrder(p: uint32, j: nat): seq<nat>
    requires j <= 4
    decreases 4 - j
  {
    if j == 4 then [] else Shifted(Ones(ByteOf(p, j)), 8 * j) + ControllerOrder(p, j + 1)
  }

  /** All rounds: the controller is read until nothing is pending. */
  function Rounds(cpu: State, ic: State, readings: seq<uint32>): seq<Event> {
    if readings == [] || readings[0] == 0 then []
    else Then(IcServed(cpu, ic, ControllerOrder(readings[0], 0)), Rounds(cpu, ic, readings[1..]))
  }

  // ---------- the order ----------

  lemma OnesInRange(p: byte)
    ensures AreLines(Ones(p), 8)
  {
    OnesAreBits(p);
    forall i | 0 <= i < |Ones(p)| ensures Ones(p)[i] < 8 {
      assert Ones(p)[i] in Ones(p);
    }
  }

  lemma {:induction false} OrderInRange(p: uint32, j: nat)
    requires j <= 4
    ensures forall i :: 0 <= i < |ControllerOrder(p, j)| ==> 8 * j <= ControllerOrder(p, j)[i] < IC_LINES
    ensures AreLines(ControllerOrder(p, j), IC_LINES)
    decreases 4 - j
  {
    hide Ones, ByteOf;
    if j < 4 {
      OrderInRange(p, j + 1);
      OnesInRange(ByteOf(p, j));
    }
  }

  ghost predicate NoneTwice(ks: seq<nat>) {
    forall i, j :: 0 <= i < j < |ks| ==> ks[i] != ks[j]
  }

  lemma NoneTwiceAppend(a: seq<nat>, b: seq<nat>, m: nat)
    requires NoneTwice(a) && NoneTwice(b)
    requires (forall i :: 0 <= i < |a| ==> a[i] < m) && (forall i :: 0 <= i < |b| ==> m <= b[i])
    ensures NoneTwice(a + b)
  {
  }

  lemma ShiftedMembers(ks: seq<nat>, j: nat, k: nat)
    ensures k in Shifted(ks, j) <==> k >= j && k - j in ks
  {
    if k in Shifted(ks, j) {
      var i :| 0 <= i < |ks| && Shifted(ks, j)[i] == k;
      assert ks[i] == k - j;
    }
    if k >= j && k - j in ks {
      var i :| 0 <= i < |ks| && ks[i] == k - j;
      assert Shifted(ks, j)[i] == k;
    }
  }

  /** The order names every pending line, and no other line. */
  lemma {:induction false} OrderMembers(p: uint32, j: nat, k: nat)
    requires j <= 4
    ensures k in ControllerOrder(p, j) <==> 8 * j <= k < IC_LINES && Bit(p, k)
    decreases 4 - j
  {
    hide Bit, Ones, ByteOf, Shifted;
    if j < 4 {
      OrderMembers(p, j + 1, k);
      OnesAreBits(ByteOf(p, j));
      ShiftedMembers(Ones(ByteOf(p, j)), 8 * j, k);
      if 8 * j <= k < 8 * j + 8 {
        ByteOfBit(p, j, k - 8 * j);
      }
    }
  }

  lemma ByteOfBit(p: uint32, j: nat, k: nat)
    requires k < 8
    ensures Bit(ByteOf(p, j), k) <==> Bit(p, 8 * j + k)
  {
    ByteBit(p, j, k);
  }

  /** No line is named twice. */
  lemma {:induction false} OrderNoneTwice(p: uint32, j: nat)
    requires j <= 4
    ensures NoneTwice(ControllerOrder(p, j))
    decreases 4 - j
  {
    hide Ones, ByteOf;
    if j < 4 {
      OrderNoneTwice(p, j + 1);
      OnesAreBits(ByteOf(p, j));
      OnesInRange(ByteOf(p, j));
      OrderInRange(p, j + 1);
      NoneTwiceAppend(Shifted(Ones(ByteOf(p, j)), 8 * j), ControllerOrder(p, j + 1), 8 * (j + 1));
    }
  }

  lemma OrderIsPending(p: uint32)
    ensures EachPendingOnce(ControllerOrder(p, 0), p)
  {
    OrderNoneTwice(p, 0);
    forall k: nat ensures k in ControllerOrder(p, 0) <==> k < IC_LINES && Bit(p, k) {
      OrderMembers(p, 0, k);
    }
  }

  /** The controller is told the end of every pending line's interrupt once, in the order served, when
      none of them has to be left to the built-in handler. */
  function EoiLines(es: seq<Event>): seq<nat> {
    if es == [] then [] else (if es[0].Eoi? then [es[0].line] else []) + EoiLines(es[1..])
  }

  lemma {:induction false} EoiSplit(a: seq<Event>, b: seq<Event>)
    ensures EoiLines(a + b) == EoiLines(a) + EoiLines(b)
  {
    if a == [] {
      assert a + b == b;
    } else {
      EoiSplit(a[1..], b);
      assert (a + b)[1..] == a[1..] + b;
      Regroup(if a[0].Eoi? then [a[0].line] else [], EoiLines(a[1..]), EoiLines(b));
    }
  }

  lemma {:induction false} NoEoi(hs: seq<Handler>)
    ensures EoiLines(Calls(hs)) == [] && !Halts(Calls(hs))
  {
    if hs != [] {
      NoEoi(hs[1..]);
      assert Calls(hs)[1..] == Calls(hs[1..]);
    }
  }

  lemma OneEoi(cpu: State, ic: State, line: nat)
    ensures !Halts(IcEvents(cpu, ic, line)) ==> EoiLines(IcEvents(cpu, ic, line)) == [line]
  {
    var es := IcEvents(cpu, ic, line);
    assert EoiLines([Eoi(line)]) == [line];
    if LineAt(ic, line).size > 0 {
      var hs := Active(LineAt(ic, line).slots);
      NoEoi(hs);
      EoiSplit(Calls(hs), [Eoi(line)]);
    } else if ic.default.fn != NULL {
      EoiSplit([Call(ic.default.fn, cpu.default.data)], [Eoi(line)]);
      assert es == [Call(ic.default.fn, cpu.default.data)] + [Eoi(line)];
    }
  }

  lemma {:induction false} ServedEois(cpu: State, ic: State, ks: seq<nat>)
    ensures !Halts(IcServed(cpu, ic, ks)) ==> EoiLines(IcServed(cpu, ic, ks)) == ks
  {
    hide Halts, IcEvents;
    if ks != [] {
      var es, rest := IcEvents(cpu, ic, ks[0]), IcServed(cpu, ic, ks[1..]);
      OneEoi(cpu, ic, ks[0]);
      ServedEois(cpu, ic, ks[1..]);
      EoiSplit(es, rest);
      ThenHalts(es, rest);
    }
  }

  lemma ThenHalts(a: seq<Event>, b: seq<Event>)
    ensures Halts(Then(a, b)) <==> Halts(a) || Halts(b)
  {
  }

  ghost predicate EachPendingOnce(ks: seq<nat>, p: uint32) {
    NoneTwice(ks) && forall k: nat :: k in ks <==> k < IC_LINES && Bit(p, k)
  }

  /** One round of the controller that comes to its end: every pending line is served exactly once, with
      one end of interrupt each. */
  lemma RoundServesPending(cpu: State, ic: State, p: uint32)
    ensures var es := IcServed(cpu, ic, ControllerOrder(p, 0)); !Halts(es) ==> EachPendingOnce(EoiLines(es), p)
  {
    hide ControllerOrder, IcServed, Halts, EoiLines, Bit;
    OrderIsPending(p);
    ServedEois(cpu, ic, ControllerOrder(p, 0));
  }

  /** The CPU lines served are those that are both requested and not masked, from the highest to the
      lowest. */
  lemma PendingAreUnmasked(ip: byte, im: byte)
    ensures And(ip, im, 8) < 256 && Descending(Ones(And(ip, im, 8)))
    ensures forall k :: k in Ones(And(ip, im, 8)) <==> k < 8 && Bit(ip, k) && Bit(im, k)
  {
    EightPowers();
    var p: byte := And(ip, im, 8);
    OnesAreBits(p);
    forall k: nat ensures k in Ones(p) <==> k < 8 && Bit(ip, k) && Bit(im, k) {
      if k < 8 {
        AndBits(ip, im, 8, k);
      }
    }
  }

  // ---------- the data of the default controller handler ----------

  /** The line has no handler of its own, so its interrupt goes to the default one. */
  predicate Defaulted(ic: State, line: nat) {
    LineAt(ic, line).size == 0 && ic.default.fn != NULL
  }

  /** The default handler is given its own data exactly when the CPU's default handler was registered
      with the same. */
  lemma OwnDataExactly(cpu: State, ic: State, line: nat)
    requires Defaulted(ic, line)
    ensures IcEvents(cpu, ic, line) == [CallOf(ic.default), Eoi(line)] <==> ic.default.data == cpu.default.data
  {
    assert IcEvents(cpu, ic, line)[0] == Call(ic.default.fn, cpu.default.data);
  }

  /** The events if every handler were given its own data: those under a CPU table whose default handler
      has the data of the controller's. */
  function OwnData(cpu: State, ic: State): State {
    cpu.(default := Handler(cpu.default.fn, ic.default.data))
  }

  predicate AnyDefaulted(ic: State, ks: seq<nat>) {
    exists i :: 0 <= i < |ks| && Defaulted(ic, ks[i])
  }

  lemma OwnEvents(cpu: State, ic: State, line: nat)
    ensures var es, own := IcEvents(cpu, ic, line), IcEvents(OwnData(cpu, ic), ic, line);
      && |es| == |own| && (Halts(es) <==> Halts(own))
      && (es == own <==> ic.default.data == cpu.default.data || !Defaulted(ic, line))
  {
    if Defaulted(ic, line) {
      OwnDataExactly(cpu, ic, line);
      OwnDataExactly(OwnData(cpu, ic), ic, line);
    }
  }

  lemma ThenSame(a: seq<Event>, b: seq<Event>, c: seq<Event>, d: seq<Event>)
    requires |a| == |b| && |c| == |d| && (Halts(a) <==> Halts(b)) && (Halts(c) <==> Halts(d))
    ensures |Then(a, c)| == |Then(b, d)| && (Halts(Then(a, c)) <==> Halts(Then(b, d)))
    ensures Then(a, c) == Then(b, d) <==> a == b && (Halts(a) || c == d)
  {
    ThenHalts(a, c);
    ThenHalts(b, d);
    if !Halts(a) {
      assert (a + c)[..|a|] == a && (b + d)[..|b|] == b;
      assert (a + c)[|a|..] == c && (b + d)[|b|..] == d;
    }
  }

  /** With a default handler nothing halts. */
  lemma {:induction false} DefaultNeverHalts(cpu: State, ic: State, ks: seq<nat>)
    requires ic.default.fn != NULL
    ensures !Halts(IcServed(cpu, ic, ks))
  {
    hide Calls, Active;
    if ks != [] {
      LineNeverHalts(cpu, ic, ks[0]);
      DefaultNeverHalts(cpu, ic, ks[1..]);
      ThenHalts(IcEvents(cpu, ic, ks[0]), IcServed(cpu, ic, ks[1..]));
    }
  }

  lemma LineNeverHalts(cpu: State, ic: State, line: nat)
    requires ic.default.fn != NULL
    ensures !Halts(IcEvents(cpu, ic, line))
  {
  }

  lemma AnyDefaultedStep(ic: State, ks: seq<nat>)
    requires ks != []
    ensures AnyDefaulted(ic, ks) <==> Defaulted(ic, ks[0]) || AnyDefaulted(ic, ks[1..])
  {
    if AnyDefaulted(ic, ks) && !Defaulted(ic, ks[0]) {
      var i :| 0 <= i < |ks| && Defaulted(ic, ks[i]);
      assert Defaulted(ic, ks[1..][i - 1]);
    }
    if AnyDefaulted(ic, ks[1..]) {
      var i :| 0 <= i < |ks[1..]| && Defaulted(ic, ks[1..][i]);
      assert Defaulted(ic, ks[i + 1]);
    }
  }

  /** Without a default handler of the controller's the CPU's does not matter. */
  lemma {:induction false} ServedWithoutDefault(cpu: State, cpu': State, ic: State, ks: seq<nat>)
    requires ic.default.fn == NULL
    ensures IcServed(cpu, ic, ks) == IcServed(cpu', ic, ks) && !AnyDefaulted(ic, ks)
  {
    if ks != [] {
      ServedWithoutDefault(cpu, cpu', ic, ks[1..]);
    }
  }

  lemma {:induction false} RoundsWithoutDefault(cpu: State, cpu': State, ic: State, readings: seq<uint32>)
    requires ic.default.fn == NULL
    ensures Rounds(cpu, ic, readings) == Rounds(cpu', ic, readings) && !DefaultedPending(ic, readings)
  {
    hide IcServed, ControllerOrder, AnyDefaulted;
    if readings != [] && readings[0] != 0 {
      ServedWithoutDefault(cpu, cpu', ic, ControllerOrder(readings[0], 0));
      RoundsWithoutDefault(cpu, cpu', ic, readings[1..]);
    }
  }

  /** Throughout a list of lines every handler is given its own data exactly when the data agree or no
      line is left to the default handler. */
  lemma {:induction false} ServedOwnData(cpu: State, ic: State, ks: seq<nat>)
    ensures var es, own := IcServed(cpu, ic, ks), IcServed(OwnData(cpu, ic), ic, ks);
      && |es| == |own|
      && (es == own <==> ic.default.data == cpu.default.data || !AnyDefaulted(ic, ks))
  {
    hide IcEvents, Then, Halts, Defaulted, OwnData, AnyDefaulted;
    if ic.default.fn == NULL {
      ServedWithoutDefault(cpu, OwnData(cpu, ic), ic, ks);
    } else if ks == [] {
      NoneDefaulted(ic);
    } else {
      var own := OwnData(cpu, ic);
      OwnEvents(cpu, ic, ks[0]);
      ServedOwnData(cpu, ic, ks[1..]);
      DefaultNeverHalts(cpu, ic, ks[1..]);
      DefaultNeverHalts(own, ic, ks[1..]);
      LineNeverHalts(cpu, ic, ks[0]);
      ThenSame(IcEvents(cpu, ic, ks[0]), IcEvents(own, ic, ks[0]), IcServed(cpu, ic, ks[1..]), IcServed(own, ic, ks[1..]));
      AnyDefaultedStep(ic, ks);
    }
  }

  lemma NoneDefaulted(ic: State)
    ensures !AnyDefaulted(ic, [])
  {
  }

  /** In some round a line is pending that is left to the default handler. */
  predicate DefaultedPending(ic: State, readings: seq<uint32>) {
    readings != [] && readings[0] != 0 &&
    (AnyDefaulted(ic, ControllerOrder(readings[0], 0)) || DefaultedPending(ic, readings[1..]))
  }

  lemma {:induction false} RoundsNeverHalt(cpu: State, ic: State, readings: seq<uint32>)
    requires ic.default.fn != NULL
    ensures !Halts(Rounds(cpu, ic, readings))
  {
    hide IcServed, ControllerOrder;
    if readings != [] && readings[0] != 0 {
      DefaultNeverHalts(cpu, ic, ControllerOrder(readings[0], 0));
      RoundsNeverHalt(cpu, ic, readings[1..]);
      ThenHalts(IcServed(cpu, ic, ControllerOrder(readings[0], 0)), Rounds(cpu, ic, readings[1..]));
    }
  }

  /** The same for all rounds of a dispatch. */
  lemma {:induction false} RoundsOwnData(cpu: State, ic: State, readings: seq<uint32>)
    ensures var es, own := Rounds(cpu, ic, readings), Rounds(OwnData(cpu, ic), ic, readings);
      && |es| == |own|
      && (es == own <==> ic.default.data == cpu.default.data || !DefaultedPending(ic, readings))
  {
    hide IcServed, Then, Halts, OwnData, AnyDefaulted, ControllerOrder;
    if ic.default.fn == NULL {
      RoundsWithoutDefault(cpu, OwnData(cpu, ic), ic, readings);
    } else if readings != [] && readings[0] != 0 {
      var own, ks := OwnData(cpu, ic), ControllerOrder(readings[0], 0);
      ServedOwnData(cpu, ic, ks);
      RoundsOwnData(cpu, ic, readings[1..]);
      DefaultNeverHalts(cpu, ic, ks);
      DefaultNeverHalts(own, ic, ks);
      RoundsNeverHalt(cpu, ic, readings[1..]);
      RoundsNeverHalt(own, ic, readings[1..]);
      ThenSame(IcServed(cpu, ic, ks), IcServed(own, ic, ks), Rounds(cpu, ic, readings[1..]), Rounds(own, ic, readings[1..]));
    }
  }

  /** A line is pending that is left to the default handler exactly when its bit is set and it has no
      handler. */
  lemma DefaultedIsPending(ic: State, p: uint32)
    ensures AnyDefaulted(ic, ControllerOrder(p, 0)) <==>
            exists k: nat :: k < IC_LINES && Bit(p, k) && Defaulted(ic, k)
  {
    hide Bit, ControllerOrder, Defaulted;
    OrderIsPending(p);
    var ks := ControllerOrder(p, 0);
    if AnyDefaulted(ic, ks) {
      var i :| 0 <= i < |ks| && Defaulted(ic, ks[i]);
      assert ks[i] in ks;
    }
    if k: nat :| k < IC_LINES && Bit(p, k) && Defaulted(ic, k) {
      assert k in ks;
      var i :| 0 <= i < |ks| && ks[i] == k;
    }
  }

  /** Default handlers 1 with data 10 for the CPU and 2 with data 20 for the controller: the interrupt of
      line 5 calls the controller's with 10. */
  lemma ForeignData()
    ensures var cpu, ic := State([], Handler(1, 10), {}), State([], Handler(2, 20), {});
      Rounds(cpu, ic, [32]) == [Call(2, 10), Eoi(5)] != Rounds(OwnData(cpu, ic), ic, [32]) == [Call(2, 20), Eoi(5)]
  {
    hide ControllerOrder;
    var cpu, ic := State([], Handler(1, 10), {}), State([], Handler(2, 20), {});
    OrderOf32();
    assert Rounds(cpu, ic, []) == [] && Rounds(OwnData(cpu, ic), ic, []) == [];
    assert [32][1..] == [] && [5][1..] == [];
    assert [Call(2, 10), Eoi(5)] + [] == [Call(2, 10), Eoi(5)];
    assert [Call(2, 20), Eoi(5)] + [] == [Call(2, 20), Eoi(5)];
    assert [Call(2, 10), Eoi(5)][0] != [Call(2, 20), Eoi(5)][0];
  }

  lemma OnesOf32()
    ensures Ones(32) == [5]
  {
    EightPowers();
    ClearsTop(32);
    MsBitIs(32);
  }

  lemma BytesOf32(j: nat)
    ensures ByteOf(32, j) == if j == 0 then 32 else 0
  {
    EightPowers();
    if j > 0 {
      PowMono(8, 8 * j);
      QuotientIs(32, 0, 32, Pow2(8 * j));
    }
  }

  lemma OrderOf32()
    ensures ControllerOrder(32, 0) == [5]
  {
    hide ByteOf, Ones;
    OnesOf32();
    NoOnes();
    BytesOf32(0);
    BytesOf32(1);
    BytesOf32(2);
    BytesOf32(3);
    assert ControllerOrder(32, 3) == [] && ControllerOrder(32, 2) == [] && ControllerOrder(32, 1) == [];
    assert Shifted([5], 0) == [5];
  }

  lemma NoOnes()
    ensures Ones(0) == []
  {
  }

  // ---------- the dispatcher ----------

  class Dispatcher {
    const cpu: Table
    const ic: Table
    const eic: bool
    // What has been done so far.
    var log: seq<Event>
    // The built-in handler has taken over.
    var halted: bool

    constructor (eic: bool, icCount: nat)
      requires icCount <= IC_LINES
      ensures Valid() && log == [] && !halted && this.eic == eic
      ensures Consistent(cpu.View()) && Consistent(ic.View())
      ensures cpu.limit == (if eic then CPU_LINES else 8) && ic.limit == icCount
    {
      this.eic := eic;
      log, halted := [], false;
      cpu := new Table(CPU_LINES, if eic then CPU_LINES else 8);
      ic := new Table(IC_LINES, icCount);
    }

    ghost predicate Valid() {
      cpu.lines.Length == CPU_LINES && ic.lines.Length == IC_LINES
    }

    /** The loop over a line's slots. */
    method CallHandlers(slots: Slots)
      modifies this`log
      ensures log == old(log) + Calls(Active(slots))
    {
      var h := 0;
      assert slots[0..] == slots;
      while h < HANDLERS_PER_LINE
        invariant h <= HANDLERS_PER_LINE
        invariant log + Calls(Active(slots[h..])) == old(log) + Calls(Active(slots))
      {
        CallsStep(slots, h, log);
        if slots[h].fn != NULL {
          log := log + [CallOf(slots[h])];
        }
        h := h + 1;
      }
      assert slots[4..] == [];
    }

    /** runhandlers */
    method RunHandlers(line: nat)
      requires Valid() && line < CPU_LINES && !halted
      modifies this`log, this`halted
      ensures log == old(log) + CpuEvents(cpu.View(), line) && halted == Halts(CpuEvents(cpu.View(), line))
    {
      NoEoi(Active(cpu.lines[line].slots));
      if cpu.lines[line].size == 0 {
        if cpu.default.fn != NULL {
          log := log + [CallOf(cpu.default)];
        } else {
          log, halted := log + [Halt], true;
        }
      } else {
        CallHandlers(cpu.lines[line].slots);
      }
    }

    /** interrupt_sr: `ripl` is the requested level in EIC mode, `ip` and `im` the pending and mask
        fields otherwise. */
    method InterruptSr(ripl: nat, ip: byte, im: byte)
      requires Valid() && ripl < CPU_LINES && !halted
      modifies this`log, this`halted
      ensures var es := if eic then CpuEvents(cpu.View(), ripl) else CpuServed(cpu.View(), Ones(Unmasked(ip, im)));
        log == old(log) + es && halted == Halts(es)
    {
      hide Halts, CpuEvents, Then, Unmasked;
      if eic {
        RunHandlers(ripl);
      } else {
        var pending: byte := Unmasked(ip, im);
        ghost var c, all := cpu.View(), CpuServed(cpu.View(), Ones(pending));
        while pending != 0 && !halted
          invariant c == cpu.View()
          invariant Remaining(old(log), all, log, CpuServed(c, Ones(pending)), halted)
          decreases pending, !halted
        {
          var index := Byte2MsBit(pending);
          ClearsTop(pending);
          ghost var es := CpuEvents(c, index);
          OneServed(old(log), all, log, es, CpuServed(c, Ones(FlipBit(pending, index))));
          RunHandlers(index);
          pending := FlipBit(pending, index);
        }
        EndRemaining(old(log), all, log, CpuServed(c, Ones(pending)), halted);
      }
    }

    /** One line of the controller. */
    method ServeLine(index: nat)
      requires Valid() && index < IC_LINES && !halted
      modifies this`log, this`halted
      ensures log == old(log) + IcEvents(cpu.View(), ic.View(), index)
      ensures halted == Halts(IcEvents(cpu.View(), ic.View(), index))
    {
      hide Active, Calls, Halts;
      ghost var l := LineAt(ic.View(), index);
      if ic.lines[index].size == 0 {
        if ic.default.fn != NULL {
          log := log + [Call(ic.default.fn, cpu.default.data)];
          EoiEnds(old(log), [Call(ic.default.fn, cpu.default.data)], index);
          assert [Call(ic.default.fn, cpu.default.data)] + [Eoi(index)] == IcEvents(cpu.View(), ic.View(), index);
        } else {
          log, halted := log + [Halt], true;
          HaltHalts();
        }
      } else {
        CallHandlers(ic.lines[index].slots);
        EoiEnds(old(log), Calls(Active(l.slots)), index);
      }
      if !halted {
        log := log + [Eoi(index)];
      }
    }

    /** The lines of one byte of a pending word, which starts at line j. */
    method ServeByte(bits: byte, j: nat)
      requires Valid() && j % 8 == 0 && j + 8 <= IC_LINES && !halted
      modifies this`log, this`halted
      ensures var es := IcServed(cpu.View(), ic.View(), Shifted(Ones(bits), j));
        log == old(log) + es && halted == Halts(es)
    {
      hide Halts, IcEvents, IcServed, Then, Ones, Shifted, FlipBit, Remaining, Byte2MsBit;
      var remaining: byte := bits;
      ghost var c, i := cpu.View(), ic.View();
      ghost var all := IcServed(c, i, Shifted(Ones(remaining), j));
      StartRemaining(log, all);
      NoBits(c, i, j);
      while remaining != 0 && !halted
        invariant c == cpu.View() && i == ic.View()
        invariant Remaining(old(log), all, log, IcServed(c, i, Shifted(Ones(remaining), j)), halted)
        decreases remaining, !halted
      {
        var index := Byte2MsBit(remaining) + j;
        ClearsTop(remaining);
        ghost var rest := Shifted(Ones(FlipBit(remaining, index % 8)), j);
        ShiftedTop(remaining, j);
        IcServedFirst(c, i, index, rest);
        OneServed(old(log), all, log, IcEvents(c, i, index), IcServed(c, i, rest));
        ServeLine(index);
        remaining := FlipBit(remaining, index % 8);
      }
      EndRemaining(old(log), all, log, IcServed(c, i, Shifted(Ones(remaining), j)), halted);
    }

    /** One round over the four bytes of a pending word. */
    method ServeRound(reading: uint32)
      requires Valid() && !halted
      modifies this`log, this`halted
      ensures var es := IcServed(cpu.View(), ic.View(), ControllerOrder(reading, 0));
        log == old(log) + es && halted == Halts(es)
    {
      hide Halts, IcServed, Then, Shifted, Ones, ByteOf, Pow2, Remaining, ControllerOrder;
      var pending, j := reading, 0;
      ghost var c, i := cpu.View(), ic.View();
      ghost var all := IcServed(c, i, ControllerOrder(reading, 0));
      StartRound(reading);
      StartRemaining(log, all);
      IcServedNothing(c, i);
      while j < IC_LINES && !halted
        invariant c == cpu.View() && i == ic.View() && j <= IC_LINES && j % 8 == 0
        invariant !halted ==> pending == reading / Pow2(j)
        invariant Remaining(old(log), all, log, IcServed(c, i, ControllerOrder(reading, j / 8)), halted)
        decreases IC_LINES - j
      {
        ghost var here := Shifted(Ones(ByteOf(reading, j / 8)), j);
        OrderStep(reading, j);
        IcServedAppend(c, i, here, ControllerOrder(reading, j / 8 + 1));
        OneServed(old(log), all, log, IcServed(c, i, here), IcServed(c, i, ControllerOrder(reading, j / 8 + 1)));
        ServeByte(pending % 256, j);
        NextByte(reading, j);
        pending := pending / 256;
        j := j + 8;
      }
      EndRemaining(old(log), all, log, IcServed(c, i, ControllerOrder(reading, j / 8)), halted);
    }

    /** controller_sr: `readings` is what the controller shows each time it is asked; it shows nothing
        after the last. */
    method ControllerSr(readings: seq<uint32>)
      requires Valid() && !halted
      modifies this`log, this`halted
      ensures var es := Rounds(cpu.View(), ic.View(), readings);
        log == old(log) + es && halted == Halts(es)
    {
      hide Halts, IcServed, Then, ControllerOrder;
      ghost var c, i := cpu.View(), ic.View();
      ghost var all := Rounds(c, i, readings);
      var n := 0;
      assert readings[0..] == readings;
      while n < |readings| && readings[n] != 0 && !halted
        invariant n <= |readings| && c == cpu.View() && i == ic.View()
        invariant Remaining(old(log), all, log, Rounds(c, i, readings[n..]), halted)
        decreases |readings| - n, !halted
      {
        assert readings[n..][1..] == readings[n + 1..];
        OneServed(old(log), all, log, IcServed(c, i, ControllerOrder(readings[n], 0)), Rounds(c, i, readings[n + 1..]));
        ServeRound(readings[n]);
        n := n + 1;
      }
      EndRemaining(old(log), all, log, Rounds(c, i, readings[n..]), halted);
    }
  }

  /** Of all events, what has been logged since `start` and what is still to come; nothing when the
      built-in handler has taken over. */
  ghost predicate Remaining(start: seq<Event>, all: seq<Event>, log: seq<Event>, rest: seq<Event>, halted: bool) {
    if halted then log == start + all && Halts(all)
    else log + rest == start + all && (Halts(rest) <==> Halts(all))
  }

  /** One more batch of events. */
  lemma OneServed(start: seq<Event>, all: seq<Event>, log: seq<Event>, es: seq<Event>, rest: seq<Event>)
    requires Remaining(start, all, log, Then(es, rest), false)
    ensures Remaining(start, all, log + es, rest, Halts(es))
  {
    if !Halts(es) {
      assert log + (es + rest) == (log + es) + rest;
      ThenHalts(es, rest);
    }
  }

  lemma EoiEnds(log: seq<Event>, es: seq<Event>, line: nat)
    ensures (log + es) + [Eoi(line)] == log + (es + [Eoi(line)]) && !Halts(es + [Eoi(line)])
  {
  }

  lemma HaltHalts()
    ensures Halts([Halt])
  {
  }

  lemma StartRemaining(log: seq<Event>, all: seq<Event>)
    ensures Remaining(log, all, log, all, false)
  {
  }

  /** With nothing to come, what has been logged is all. */
  lemma EndRemaining(start: seq<Event>, all: seq<Event>, log: seq<Event>, rest: seq<Event>, halted: bool)
    requires Remaining(start, all, log, rest, halted) && (halted || rest == [])
    ensures log == start + all && halted == Halts(all)
  {
  }

  /** The bit taken is the first of those set, and without it the others are left. */
  lemma ClearsTop(p: byte)
    requires p > 0
    ensures var k := Byte2MsBit(p);
      0 <= FlipBit(p, k) < p && Ones(p) == [k] + Ones(FlipBit(p, k))
  {
    MsBitIs(p);
  }

  lemma ShiftedTop(p: byte, j: nat)
    requires p > 0
    ensures var k := Byte2MsBit(p);
      0 <= FlipBit(p, k) < p && Shifted(Ones(p), j) == [k + j] + Shifted(Ones(FlipBit(p, k)), j)
  {
    ClearsTop(p);
  }

  lemma IcServedFirst(cpu: State, ic: State, k: nat, ks: seq<nat>)
    ensures IcServed(cpu, ic, [k] + ks) == Then(IcEvents(cpu, ic, k), IcServed(cpu, ic, ks))
  {
    assert ([k] + ks)[1..] == ks;
  }

  lemma NoBits(cpu: State, ic: State, j: nat)
    ensures IcServed(cpu, ic, Shifted(Ones(0), j)) == []
  {
  }

  lemma StartRound(p: uint32)
    ensures p / Pow2(0) == p && ControllerOrder(p, 4) == []
  {
  }

  lemma OrderStep(p: uint32, j: nat)
    requires j < IC_LINES && j % 8 == 0
    ensures ControllerOrder(p, j / 8) == Shifted(Ones(ByteOf(p, j / 8)), j) + ControllerOrder(p, j / 8 + 1)
  {
    hide Ones, Shifted, ByteOf;
    var b := j / 8;
    assert 8 * b == j && b < 4;
  }

  lemma IcServedNothing(cpu: State, ic: State)
    ensures IcServed(cpu, ic, []) == []
  {
  }

  lemma {:induction false} IcServedAppend(cpu: State, ic: State, a: seq<nat>, b: seq<nat>)
    ensures IcServed(cpu, ic, a + b) == Then(IcServed(cpu, ic, a), IcServed(cpu, ic, b))
  {
    hide IcEvents, Then;
    ThenNothing(IcServed(cpu, ic, b));
    if a == [] {
      assert a + b == b;
    } else {
      IcServedAppend(cpu, ic, a[1..], b);
      assert (a + b)[1..] == a[1..] + b;
      ThenAssociates(IcEvents(cpu, ic, a[0]), IcServed(cpu, ic, a[1..]), IcServed(cpu, ic, b));
    }
  }

  lemma ThenNothing(rest: seq<Event>)
    ensures Then([], rest) == rest
  {
    assert [] + rest == rest;
  }

  lemma ThenAssociates(a: seq<Event>, b: seq<Event>, c: seq<Event>)
    ensures Then(a, Then(b, c)) == Then(Then(a, b), c)
  {
    ThenHalts(a, b);
    Regroup(a, b, c);
  }

  /** Dividing by 256 brings the next byte down. */
  lemma NextByte(p: uint32, j: nat)
    requires j % 8 == 0
    ensures ByteOf(p, j / 8) == p / Pow2(j) % 256 && p / Pow2(j) / 256 == p / Pow2(j + 8)
  {
    EightPowers();
    PowSum(j, 8);
    DivideTwice(p, Pow2(j), 256);
    assert 8 * (j / 8) == j;
  }

  function Unmasked(ip: byte, im: byte): byte {
    EightPowers();
    And(ip, im, 8)
  }

  lemma CallsStep(slots: Slots, h: nat, log: seq<Event>)
    requires h < HANDLERS_PER_LINE
    ensures Active(slots[h..]) == Own(slots[h]) + Active(slots[h + 1..])
    ensures log + Calls(Active(slots[h..])) ==
            (if slots[h].fn != NULL then log + [CallOf(slots[h])] else log) + Calls(Active(slots[h + 1..]))
  {
    assert slots[h..][1..] == slots[h + 1..];
  }
}

/** Registering and deregistering of interrupt handlers (exception/excep.c): the lines of the CPU, and in
    the same way those of the interrupt controller. */
module HandlerTable {
  import opened Machine
  import opened Wrappers

  const HANDLERS_PER_LINE := 4
  const DEFAULT_HANDLER: nat := 0xffff_fff0

  datatype Code = OK | ILLEGAL_INTERRUPT | ILLEGAL_HANDLER | NO_SPACE

  /** A service routine and its data; routine 0 is NULL. */
  datatype Handler = Handler(fn: nat, data: nat)

  const NULL: nat := 0

  type Slots = s: seq<Handler> | |s| == HANDLERS_PER_LINE witness seq(HANDLERS_PER_LINE, _ => Handler(NULL, 0))

  datatype Line = Line(size: byte, slots: Slots)

  /** What a handle points to. */
  datatype Ref = DefaultRef | SlotRef(line: nat, slot: nat) | OtherRef

  /** The lines, the default handler, and the lines whose interrupt is enabled. */
  datatype State = State(lines: seq<Line>, default: Handler, enabled: set<nat>)

  const NoHandler := Handler(NULL, 0)

  const NoLine := Line(0, [NoHandler, NoHandler, NoHandler, NoHandler])

  /** The handlers called for a line, in order. */
  function Active(slots: seq<Handler>): (hs: seq<Handler>)
    ensures |hs| <= |slots|
  {
    if slots == [] then [] else Own(slots[0]) + Active(slots[1..])
  }

  function Own(h: Handler): (hs: seq<Handler>)
    ensures |hs| == if h.fn != NULL then 1 else 0
  {
    if h.fn != NULL then [h] else []
  }

  predicate LineOk(l: Line) {
    l.size == |Active(l.slots)|
  }

  /** Sizes count the occupied slots, and a line is enabled exactly when it has a handler. */
  ghost predicate Consistent(s: State) {
    && (forall i :: 0 <= i < |s.lines| ==> LineOk(s.lines[i]) && (i in s.enabled <==> s.lines[i].size > 0))
    && (forall i :: i in s.enabled ==> i < |s.lines|)
  }

  predicate IsLive(s: State, r: Ref) {
    r.SlotRef? && r.line < |s.lines| && r.slot < HANDLERS_PER_LINE ==> s.lines[r.line].slots[r.slot].fn != NULL
  }

  /** The first unused slot from t on, or HANDLERS_PER_LINE. */
  function FirstFree(slots: Slots, t: nat): (k: nat)
    requires t <= HANDLERS_PER_LINE
    ensures t <= k <= HANDLERS_PER_LINE
    ensures k < HANDLERS_PER_LINE ==> slots[k].fn == NULL
    ensures forall j :: t <= j < k ==> slots[j].fn != NULL
    decreases HANDLERS_PER_LINE - t
  {
    if t == HANDLERS_PER_LINE || slots[t].fn == NULL then t else FirstFree(slots, t + 1)
  }

  function RegisterError(s: State, limit: nat, line: nat, h: Handler): Code
    requires limit <= |s.lines|
  {
    if line >= limit then ILLEGAL_INTERRUPT
    else if h.fn == NULL then ILLEGAL_HANDLER
    else if s.lines[line].size == HANDLERS_PER_LINE then NO_SPACE
    else OK
  }

  function Added(l: Line, h: Handler): Line {
    var k := FirstFree(l.slots, 0);
    Line(Step(l.size, 1), if k < HANDLERS_PER_LINE then l.slots[k := h] else l.slots)
  }

  function Removed(l: Line, t: nat): Line
    requires t < HANDLERS_PER_LINE
  {
    Line(Step(l.size, -1), l.slots[t := l.slots[t].(fn := NULL)])
  }

  function Step(n: int, d: int): byte {
    (n + d) % 256
  }

  datatype Registration = Registration(code: Code, ref: Ref, state: State)

  function Registered(s: State, limit: nat, line: nat, h: Handler): Registration
    requires limit <= |s.lines|
  {
    if line == DEFAULT_HANDLER then Registration(OK, DefaultRef, s.(default := h))
    else if RegisterError(s, limit, line, h) != OK then
      Registration(RegisterError(s, limit, line, h), OtherRef, s)
    else
      Registration(OK, SlotRef(line, FirstFree(s.lines[line].slots, 0)),
                   s.(lines := s.lines[line := Added(s.lines[line], h)], enabled := s.enabled + {line}))
  }

  predicate IsSlot(s: State, r: Ref) {
    r.SlotRef? && r.line < |s.lines| && r.slot < HANDLERS_PER_LINE
  }

  function Deregistered(s: State, r: Ref): (res: (Code, State)) {
    if r.DefaultRef? then (OK, s.(default := s.default.(fn := NULL)))
    else if IsSlot(s, r) then
      var l := Removed(s.lines[r.line], r.slot);
      (OK, s.(lines := s.lines[r.line := l], enabled := if l.size == 0 then s.enabled - {r.line} else s.enabled))
    else (ILLEGAL_HANDLER, s)
  }

  // ---------- lemmas ----------

  lemma {:induction false} ActiveSplit(a: seq<Handler>, b: seq<Handler>)
    ensures Active(a + b) == Active(a) + Active(b)
  {
    if a == [] {
      assert a + b == b;
    } else {
      ActiveSplit(a[1..], b);
      assert (a + b)[1..] == a[1..] + b;
      Regroup(Own(a[0]), Active(a[1..]), Active(b));
    }
  }

  /** The handlers before, at and after a slot. */
  lemma ActiveAt(slots: Slots, t: nat)
    requires t < HANDLERS_PER_LINE
    ensures Active(slots) ==
            Active(slots[..t]) + Own(slots[t]) + Active(slots[t + 1..])
  {
    assert slots == slots[..t] + slots[t..];
    ActiveSplit(slots[..t], slots[t..]);
    assert slots[t..][1..] == slots[t + 1..];
    Regroup(Active(slots[..t]), Own(slots[t]), Active(slots[t + 1..]));
  }

  /** A line that is not full has an unused slot, so the search for one stays in range. */
  lemma {:induction false} SlotIsFree(l: Line)
    requires LineOk(l) && l.size < HANDLERS_PER_LINE
    ensures FirstFree(l.slots, 0) < HANDLERS_PER_LINE
  {
    if FirstFree(l.slots, 0) == HANDLERS_PER_LINE {
      AllActive(l.slots);
    }
  }

  /** The search for an unused slot in a line that a handler can be added to stays in the line. In a
      table whose sizes are wrong it may run into the next line's. */
  predicate SearchStays(s: State, limit: nat, line: nat, fn: nat)
    requires limit <= |s.lines|
  {
    line < limit && fn != NULL && s.lines[line].size != HANDLERS_PER_LINE ==>
    FirstFree(s.lines[line].slots, 0) < HANDLERS_PER_LINE
  }

  lemma SearchStaysWhenConsistent(s: State, limit: nat, line: nat, fn: nat)
    requires Consistent(s) && limit <= |s.lines|
    ensures SearchStays(s, limit, line, fn)
  {
    hide Active;
    if line < limit && s.lines[line].size != HANDLERS_PER_LINE {
      LineSize(s.lines[line]);
      SlotIsFree(s.lines[line]);
    }
  }

  lemma {:induction false} AllActive(slots: seq<Handler>)
    requires forall j :: 0 <= j < |slots| ==> slots[j].fn != NULL
    ensures Active(slots) == slots
  {
    if slots != [] {
      AllActive(slots[1..]);
    }
  }

  /** A line with a handler added calls that handler besides the others, whose order is kept. */
  lemma AddedCalls(l: Line, h: Handler)
    requires LineOk(l) && l.size < HANDLERS_PER_LINE && h.fn != NULL
    ensures LineOk(Added(l, h)) && Added(l, h).size > 0
    ensures var k := FirstFree(l.slots, 0);
      k < HANDLERS_PER_LINE &&
      Active(l.slots) == Active(l.slots[..k]) + Active(l.slots[k + 1..]) &&
      Active(Added(l, h).slots) == Active(l.slots[..k]) + [h] + Active(l.slots[k + 1..])
  {
    hide Active;
    var k := FirstFree(l.slots, 0);
    SlotIsFree(l);
    ActiveAt(l.slots, k);
    ActiveAt(l.slots[k := h], k);
    assert l.slots[k := h][..k] == l.slots[..k] && l.slots[k := h][k + 1..] == l.slots[k + 1..];
  }

  /** A line with a live handler removed calls the others as before. A dead handle makes the size
      wrong. */
  lemma RemovedCalls(l: Line, t: nat)
    requires LineOk(l) && t < HANDLERS_PER_LINE
    ensures LineOk(Removed(l, t)) <==> l.slots[t].fn != NULL
    ensures l.slots[t].fn != NULL ==> Removed(l, t).size == l.size - 1
    ensures Active(Removed(l, t).slots) == Active(l.slots[..t]) + Active(l.slots[t + 1..])
  {
    hide Active;
    var slots := Removed(l, t).slots;
    ActiveAt(l.slots, t);
    ActiveAt(slots, t);
    assert slots[..t] == l.slots[..t] && slots[t + 1..] == l.slots[t + 1..];
  }

  lemma RegisterKeepsConsistent(s: State, limit: nat, line: nat, h: Handler)
    requires Consistent(s) && limit <= |s.lines|
    ensures Consistent(Registered(s, limit, line, h).state)
  {
    hide LineOk, Added;
    if line != DEFAULT_HANDLER && RegisterError(s, limit, line, h) == OK {
      LineSize(s.lines[line]);
      AddedCalls(s.lines[line], h);
    }
  }

  lemma LineSize(l: Line)
    requires LineOk(l)
    ensures l.size <= HANDLERS_PER_LINE
  {
  }

  /** Deregistering keeps the table consistent exactly when the handle is live (or is not a slot of this
      table at all). */
  lemma DeregisterConsistentExactly(s: State, r: Ref)
    requires Consistent(s)
    ensures Consistent(Deregistered(s, r).1) <==> IsLive(s, r)
  {
    hide LineOk, Removed, Active;
    if IsSlot(s, r) {
      RemovedCalls(s.lines[r.line], r.slot);
      var s' := Deregistered(s, r).1;
      assert s'.lines[r.line] == Removed(s.lines[r.line], r.slot);
    }
  }

  /** A handler that is registered and then deregistered leaves all lines calling what they called, and
      the same lines enabled. */
  lemma DeregisterUndoesRegister(s: State, limit: nat, line: nat, h: Handler)
    requires Consistent(s) && limit <= |s.lines| && line != DEFAULT_HANDLER
    requires Registered(s, limit, line, h).code == OK
    ensures var reg := Registered(s, limit, line, h);
      var (code, s') := Deregistered(reg.state, reg.ref);
      && code == OK && s'.enabled == s.enabled && s'.default == s.default && |s'.lines| == |s.lines|
      && forall i :: 0 <= i < |s.lines| ==> Active(s'.lines[i].slots) == Active(s.lines[i].slots)
  {
    hide Active, LineOk;
    var l, reg := s.lines[line], Registered(s, limit, line, h);
    var k, l' := FirstFree(l.slots, 0), Added(l, h);
    LineSize(l);
    AddedCalls(l, h);
    RemovedCalls(l', k);
    assert l'.slots[..k] == l.slots[..k] && l'.slots[k + 1..] == l.slots[k + 1..];
    if l.size == 0 {
      assert line !in s.enabled;
      assert s.enabled + {line} - {line} == s.enabled;
    } else {
      assert s.enabled + {line} == s.enabled;
    }
  }

  /** A saved table put back under the enable masks of now: it fits them exactly when the same lines
      have handlers. */
  lemma RestoredConsistentExactly(s: State, saved: State)
    requires Consistent(s) && Consistent(saved) && |s.lines| == |saved.lines|
    ensures Consistent(saved.(enabled := s.enabled)) <==>
            forall i :: 0 <= i < |s.lines| ==> (s.lines[i].size > 0 <==> saved.lines[i].size > 0)
  {
    hide LineOk;
  }

  const OneLine := Line(1, [Handler(1, 0), NoHandler, NoHandler, NoHandler])

  /** A handle given back a second time makes the size of its line 255. */
  lemma DeadHandleSpoils()
    ensures var s := State([OneLine], NoHandler, {0});
      var s' := Deregistered(s, SlotRef(0, 0)).1;
      var s'' := Deregistered(s', SlotRef(0, 0)).1;
      Consistent(s) && Consistent(s') && s''.lines[0].size == 255 && !Consistent(s'')
  {
    var s := State([OneLine], NoHandler, {0});
    NoneActive([NoHandler, NoHandler, NoHandler]);
    assert OneLine.slots[1..] == [NoHandler, NoHandler, NoHandler];
    assert LineOk(OneLine);
    DeregisterConsistentExactly(s, SlotRef(0, 0));
    DeregisterConsistentExactly(Deregistered(s, SlotRef(0, 0)).1, SlotRef(0, 0));
  }

  /** An empty table put back while a line is enabled: its interrupts come without a handler. */
  lemma RestoreSpoils()
    ensures var s, saved := State([OneLine], NoHandler, {0}), State([NoLine], NoHandler, {});
      Consistent(s) && Consistent(saved) && !Consistent(saved.(enabled := s.enabled))
  {
    NoneActive([NoHandler, NoHandler, NoHandler]);
    assert OneLine.slots[1..] == [NoHandler, NoHandler, NoHandler];
    NothingActive();
  }

  /** One call. */
  datatype Op = Register(line: nat, h: Handler) | Deregister(ref: Ref)

  function Apply(s: State, limit: nat, op: Op): (s': State)
    requires limit <= |s.lines|
    ensures |s'.lines| == |s.lines|
  {
    match op
    case Register(line, h) => Registered(s, limit, line, h).state
    case Deregister(r) => Deregistered(s, r).1
  }

  function Run(s: State, limit: nat, ops: seq<Op>): State
    requires limit <= |s.lines|
    decreases |ops|
  {
    if ops == [] then s else Run(Apply(s, limit, ops[0]), limit, ops[1..])
  }

  /** All handles are live when they are given back. */
  predicate LiveRun(s: State, limit: nat, ops: seq<Op>)
    requires limit <= |s.lines|
    decreases |ops|
  {
    ops == [] ||
    ((ops[0].Deregister? ==> IsLive(s, ops[0].ref)) && LiveRun(Apply(s, limit, ops[0]), limit, ops[1..]))
  }

  /** Every run with live handles keeps the table consistent. */
  lemma {:induction false} RunKeepsConsistent(s: State, limit: nat, ops: seq<Op>)
    requires limit <= |s.lines| && Consistent(s) && LiveRun(s, limit, ops)
    ensures Consistent(Run(s, limit, ops))
    decreases |ops|
  {
    hide Consistent, Registered, Deregistered, IsLive;
    if ops != [] {
      match ops[0] {
        case Register(line, h) => RegisterKeepsConsistent(s, limit, line, h);
        case Deregister(r) => DeregisterConsistentExactly(s, r);
      }
      RunKeepsConsistent(Apply(s, limit, ops[0]), limit, ops[1..]);
    }
  }

  // ---------- the table in memory ----------

  class Table {
    const lines: array<Line>
    const limit: nat
    var default: Handler
    var enabled: set<nat>

    /** A table of n cleared lines, the first `limit` of which can be used. */
    constructor (n: nat, limit: nat)
      requires limit <= n
      ensures Valid() && fresh(lines) && lines.Length == n && this.limit == limit
      ensures View() == State(seq(n, _ => NoLine), NoHandler, {}) && Consistent(View())
    {
      lines := new Line[n](_ => NoLine);
      this.limit, default, enabled := limit, NoHandler, {};
      new;
      assert lines[..] == seq(n, _ => NoLine);
      NothingActive();
    }

    ghost predicate Valid() {
      limit <= lines.Length
    }

    ghost function View(): (s: State)
      reads this, lines
      ensures |s.lines| == lines.Length
    {
      State(lines[..], default, enabled)
    }

    /** EXCEP_register_cpu_isr, EXCEP_register_ic_isr */
    method Register(line: nat, handler: nat, data: nat) returns (rc: Code, ref: Ref)
      requires Valid() && SearchStays(View(), limit, line, handler)
      modifies this, lines
      ensures Registration(rc, ref, View()) == Registered(old(View()), limit, line, Handler(handler, data))
      ensures old(Consistent(View())) ==> Consistent(View())
    {
      hide Consistent, LineOk, Active;
      ghost var s := View();
      if Consistent(s) {
        RegisterKeepsConsistent(s, limit, line, Handler(handler, data));
      }
      rc, ref := OK, OtherRef;
      if line == DEFAULT_HANDLER {
        default := Handler(handler, data);
        ref := DefaultRef;
      } else if line >= limit {
        rc := ILLEGAL_INTERRUPT;
      } else if handler == NULL {
        rc := ILLEGAL_HANDLER;
      } else if lines[line].size == HANDLERS_PER_LINE {
        rc := NO_SPACE;
      } else {
        var i := 0;
        while i < HANDLERS_PER_LINE && lines[line].slots[i].fn != NULL
          invariant i <= HANDLERS_PER_LINE && FirstFree(lines[line].slots, 0) == FirstFree(lines[line].slots, i)
        {
          i := i + 1;
        }
        lines[line] := lines[line].(size := Step(lines[line].size, 1));
        lines[line] := lines[line].(slots := lines[line].slots[i := Handler(handler, data)]);
        ref := SlotRef(line, i);
        enabled := enabled + {line};
        assert lines[..] == s.lines[line := Added(s.lines[line], Handler(handler, data))];
      }
    }

    /** EXCEP_deregister_cpu_isr, EXCEP_deregister_ic_isr */
    method Deregister(ref: Ref) returns (rc: Code)
      requires Valid()
      modifies this, lines
      ensures (rc, View()) == Deregistered(old(View()), ref)
      ensures old(Consistent(View())) ==> (Consistent(View()) <==> IsLive(old(View()), ref))
    {
      hide Consistent, IsLive;
      ghost var s := View();
      if Consistent(s) {
        DeregisterConsistentExactly(s, ref);
      }
      rc := ILLEGAL_HANDLER;
      if ref == DefaultRef {
        default := default.(fn := NULL);
        rc := OK;
      } else {
        var i := 0;
        while i < lines.Length && rc != OK
          invariant i <= lines.Length
          invariant (rc, View()) == if IsSlot(s, ref) && ref.line < i then Deregistered(s, ref) else (ILLEGAL_HANDLER, s)
        {
          var t := 0;
          while t < HANDLERS_PER_LINE && rc != OK
            invariant t <= HANDLERS_PER_LINE
            invariant (rc, View()) ==
                      if IsSlot(s, ref) && (ref.line < i || (ref.line == i && ref.slot < t)) then Deregistered(s, ref)
                      else (ILLEGAL_HANDLER, s)
          {
            if ref == SlotRef(i, t) {
              lines[i] := lines[i].(size := Step(lines[i].size, -1));
              lines[i] := lines[i].(slots := lines[i].slots[t := lines[i].slots[t].(fn := NULL)]);
              if lines[i].size == 0 {
                enabled := enabled - {i};
              }
              rc := OK;
              assert lines[..] == s.lines[i := Removed(s.lines[i], t)];
            }
            t := t + 1;
          }
          i := i + 1;
        }
      }
    }
  }

  lemma NothingActive()
    ensures LineOk(NoLine)
  {
    NoneActive(NoLine.slots);
  }

  lemma {:induction false} NoneActive(slots: seq<Handler>)
    requires forall j :: 0 <= j < |slots| ==> slots[j].fn == NULL
    ensures Active(slots) == []
  {
    if slots != [] {
      NoneActive(slots[1..]);
    }
  }
}

/** The ARP module: the cache table and its calls, over net/net_arp.c. */
module Arp {
  import opened Machine
  import opened Wrappers
  import opened ArpCache

  /** Steps that interrupts and nested polls can take. */
  type Steps = nat -> seq<Step>

  /** What a poll does from entry `i` on, given what happens before each entry is looked at. */
  function Scan(arrivals: Steps, i: nat): seq<Step>
    requires i <= SAP_COUNT
    decreases SAP_COUNT - i
  {
    if i == SAP_COUNT then [] else arrivals(i) + [PollNext] + Scan(arrivals, i + 1)
  }

  /** A call of poll that reads `time` when the next one is due at `next`. */
  function PollSteps(next: uint32, rc: nat, time: uint32, arrivals: Steps): seq<Step> {
    [PollBegin(rc, time)] + if time < next then [] else Scan(arrivals, 0)
  }

  /** The head of a poll. */
  lemma PollStarts(s: Arp, rc: nat, time: uint32, arrivals: Steps)
    ensures Run(s, [PollBegin(rc, time)]) == Apply(s, PollBegin(rc, time))
    ensures PollSteps(s.next, rc, time, arrivals) ==
            if time < s.next then [PollBegin(rc, time)] else [PollBegin(rc, time)] + Scan(arrivals, 0)
    ensures Scan(arrivals, SAP_COUNT) == []
  {
    hide Apply;
    RunStep(s, [], PollBegin(rc, time));
    assert [] + [PollBegin(rc, time)] == [PollBegin(rc, time)];
    assert Run(s, []) == s;
  }

  /** What interrupts do before the poll looks at entry i, and the look. */
  lemma PollVisits(s: Arp, steps: seq<Step>, arrivals: Steps, i: nat)
    requires i < SAP_COUNT
    ensures Run(s, steps + arrivals(i) + [PollNext]) == Apply(Run(Run(s, steps), arrivals(i)), PollNext)
    ensures steps + Scan(arrivals, i) == (steps + arrivals(i) + [PollNext]) + Scan(arrivals, i + 1)
  {
    hide Apply, Run;
    RunAppend(s, steps, arrivals(i));
    RunStep(s, steps + arrivals(i), PollNext);
    Regroup(steps, arrivals(i) + [PollNext], Scan(arrivals, i + 1));
    Regroup(steps, arrivals(i), [PollNext]);
  }

  /** What interrupts do; they leave a poll under way alone. */
  predicate IsInterrupt(s: Step) {
    s.Try? || s.Arrive?
  }

  predicate AreInterrupts(me: Station, steps: seq<Step>) {
    forall k :: 0 <= k < |steps| ==> IsInterrupt(steps[k]) && IsMine(me, steps[k])
  }

  predicate IsMine(me: Station, s: Step) {
    (s.Try? ==> s.me == me) && (s.Arrive? ==> s.station == me)
  }

  /** One system poll between two tries: frames arrive, then the ARP module is polled, then more frames. */
  datatype Visit = Visit(before: seq<Step>, rc: nat, time: uint32, arrivals: Steps, after: seq<Step>)

  ghost predicate IsVisit(me: Station, v: Visit) {
    AreInterrupts(me, v.before) && AreInterrupts(me, v.after) && forall i :: AreInterrupts(me, v.arrivals(i))
  }

  function VisitSteps(s: Arp, v: Visit): seq<Step> {
    v.before + PollSteps(Run(s, v.before).next, v.rc, v.time, v.arrivals) + v.after
  }

  /** What one call of open asks for, with the answers it meets. */
  datatype Call = Call(me: Station, ip: Ip, mac: Mac, answers: nat -> Answer, polled: nat -> Visit)

  function TryStep(c: Call, k: nat): Step {
    Try(c.me, c.ip, c.mac, c.answers(k))
  }

  /** All steps up to the k-th try, counted from 0, and the system poll after it. */
  function StepsTo(s: Arp, c: Call, k: nat): seq<Step> {
    if k == 0 then []
    else
      var p := StepsTo(s, c, k - 1) + [TryStep(c, k - 1)];
      p + VisitSteps(Run(s, p), c.polled(k - 1))
  }

  /** The k-th try. */
  function TryResult(s: Arp, c: Call, k: nat): Result {
    Alloc(Run(s, StepsTo(s, c, k)).saps, c.me, c.ip, c.mac, c.answers(k))
  }

  /** The k-th try gives the result and the final state. */
  predicate Final(s: Arp, c: Call, k: nat, s': Arp, code: nat, mac: Mac) {
    var r := TryResult(s, c, k);
    code == r.code && mac == r.mac && s' == Run(s, StepsTo(s, c, k) + [TryStep(c, k)])
  }

  class Module {
    const me: Station
    const saps: array<Sap>
    var isOpen: bool
    var nextPoll: uint32
    // Packets given to the MAC module.
    var sent: seq<Packet>
    // The poll under way.
    ghost var scan: nat
    ghost var now: uint32

    /** NET_ARP_init; `rc` is the answer of the MAC module. */
    constructor (me: Station, rc: nat)
      ensures Valid() && fresh(saps) && View() == Init && this.me == me
      ensures isOpen == (rc == OK)
    {
      this.me := me;
      saps := new Sap[SAP_COUNT](_ => Blank);
      isOpen, nextPoll, sent, scan, now := rc == OK, 0, [], SAP_COUNT, 0;
      new;
      assert saps[..] == Init.saps;
    }

    ghost predicate Valid() reads this {
      saps.Length == SAP_COUNT
    }

    ghost function View(): Arp
      requires Valid()
      reads this, saps
    {
      ArpCache.Arp(saps[..], nextPoll, scan, now, sent)
    }

    /** One try of NET_ARP_open, with interrupts off. */
    method AllocSap(ip: Ip, mac: Mac, a: Answer) returns (code: nat, mac': Mac)
      requires Valid()
      modifies saps, this`sent
      ensures var r := Alloc(old(View()).saps, me, ip, mac, a);
        View() == Done(old(View()), r) && code == r.code && mac' == r.mac
    {
      hide FirstClosed, Oldest, Victim;
      ghost var c: Cache := saps[..];
      mac' := mac;
      var i := 0;
      while i < SAP_COUNT && !(ip == saps[i].ip && saps[i].state != CLOSED)
        invariant i <= SAP_COUNT && Lookup(c, ip, 0) == Lookup(c, ip, i)
      {
        i := i + 1;
      }
      if i < SAP_COUNT {
        if saps[i].state == RESOLUTED {
          mac' := saps[i].mac;
          code := SetTimer(i, OK, a, OK);
        } else {
          sent := sent + [Request(me, ip)];
          code := SetTimer(i, a.send, a, MAC_NOT_RESOLUTED);
        }
      } else {
        i := FindVictim();
        if mac != MAC_UNDEFINED {
          saps[i] := Sap(RESOLUTED, ip, saps[i].timeout, mac);
          code := SetTimer(i, OK, a, OK);
        } else {
          saps[i] := Sap(ALLOCATED, ip, saps[i].timeout, MAC_UNDEFINED);
          sent := sent + [Request(me, ip)];
          code := SetTimer(i, a.send, a, MAC_NOT_RESOLUTED);
        }
      }
    }

    /** The first closed entry, or else the first one with the earliest timeout. */
    method FindVictim() returns (j: nat)
      requires Valid()
      ensures j == Victim(View().saps)
    {
      ghost var c: Cache := saps[..];
      j := 0;
      var oldest: uint32 := UINT32_MAX;
      var i := 0;
      while i < SAP_COUNT && saps[i].state != CLOSED
        invariant i <= SAP_COUNT && FirstClosed(c, 0) == FirstClosed(c, i)
        invariant i == 0 ==> j == 0 && oldest == UINT32_MAX
        invariant i > 0 ==> j == Oldest(c, i) && oldest == c[j].timeout
      {
        if saps[i].timeout < oldest {
          oldest := saps[i].timeout;
          j := i;
        }
        i := i + 1;
      }
      if i < SAP_COUNT {
        j := i;
      }
    }

    /** Reads the clock and sets the timer, when the sending before it ended well. */
    method SetTimer(i: nat, send: nat, a: Answer, code: nat) returns (rc: nat)
      requires Valid() && i < SAP_COUNT
      modifies saps
      ensures saps[..] == Timed(old(View()).saps, i, send, a) && rc == Finish(send, a, code)
    {
      rc := send;
      if rc == OK {
        rc := a.clock;
        if rc == OK {
          saps[i] := saps[i].(timeout := Deadline(a.time));
          rc := code;
        }
      }
    }

    /** The search of the table for the entries that await an answer of that address. */
    method ResolveEntries(ip: Ip, mac: Mac)
      requires Valid()
      modifies saps
      ensures saps[..] == Resolve(old(View()).saps, ip, mac)
    {
      ghost var c: Cache := saps[..];
      var i := 0;
      while i < SAP_COUNT
        invariant i <= SAP_COUNT
        invariant forall k :: 0 <= k < i ==> saps[k] == ResolveOne(c[k], ip, mac)
        invariant forall k :: i <= k < SAP_COUNT ==> saps[k] == c[k]
      {
        if saps[i].state == ALLOCATED && ip == saps[i].ip {
          saps[i] := saps[i].(state := RESOLUTED, mac := mac);
        }
        i := i + 1;
      }
    }

    /** NET_ARP_receive */
    method Receive(data: Frame, send: nat) returns (code: nat)
      requires Valid()
      modifies saps, this`sent
      ensures var r := ArpCache.Receive(old(View()).saps, me, data, send);
        View() == Done(old(View()), r) && code == r.code
    {
      hide Resolve, Reply;
      if TargetIp(data) != me.ip {
        code := INVALID_IP_ADDR;
      } else if OpCode(data) == 1 {
        sent := sent + [Reply(me, SenderIp(data), SenderMac(data))];
        code := send;
      } else if OpCode(data) == 2 {
        ResolveEntries(SenderIp(data), SenderMac(data));
        code := OK;
      } else {
        code := INVALID_OPCODE;
      }
      assert old(sent) + [] == old(sent);
    }

    /** The look of a poll at one entry, with interrupts off. */
    method ExpireEntry(i: nat, time: uint32)
      requires Valid() && i == scan < SAP_COUNT && time == now
      modifies saps, this`scan
      ensures View() == Apply(old(View()), PollNext)
    {
      if saps[i].state != CLOSED {
        if time >= saps[i].timeout {
          saps[i] := Blank;
        }
      }
      scan := scan + 1;
    }

    /** Frames and tries, one after the other. */
    method Perform(steps: seq<Step>)
      requires Valid() && AreInterrupts(me, steps)
      modifies saps, this`sent
      ensures View() == Run(old(View()), steps)
    {
      hide Alloc, Resolve;
      ghost var s := View();
      var k := 0;
      while k < |steps|
        invariant k <= |steps| && View() == At(s, steps, k)
      {
        match steps[k] {
          case Try(_, ip, mac, a) => var code, mac' := AllocSap(ip, mac, a);
          case Arrive(_, data, send) => var code := Receive(data, send);
        }
        k := k + 1;
      }
    }

    /** NET_ARP_poll: `rc` and `time` are the clock's answer, and `arrivals` is what interrupts do
        before each entry is looked at. */
    method Poll(rc: nat, time: uint32, arrivals: Steps) returns (code: nat)
      requires Valid() && forall i :: AreInterrupts(me, arrivals(i))
      modifies saps, this`sent, this`scan, this`now, this`nextPoll
      ensures code == rc && View() == Run(old(View()), PollSteps(old(nextPoll), rc, time, arrivals))
    {
      hide Run, Scan;
      ghost var s, all := View(), PollSteps(nextPoll, rc, time, arrivals);
      code := rc;
      ghost var steps := [PollBegin(rc, time)];
      PollStarts(s, rc, time, arrivals);
      if time >= nextPoll {
        nextPoll := (time + POLL_TIMEOUT) % WORD;
        scan, now := 0, time;
        var i := 0;
        while i < SAP_COUNT
          invariant i <= SAP_COUNT && scan == i && now == time
          invariant View() == Run(s, steps)
          invariant all == steps + Scan(arrivals, i)
        {
          PollVisits(s, steps, arrivals, i);
          Perform(arrivals(i));
          ExpireEntry(i, time);
          steps := steps + arrivals(i) + [PollNext];
          i := i + 1;
        }
      }
      assert steps == all;
    }

    /** The system poll. */
    method Syspoll(v: Visit)
      requires Valid() && IsVisit(me, v)
      modifies saps, this`sent, this`scan, this`now, this`nextPoll
      ensures View() == Run(old(View()), VisitSteps(old(View()), v))
    {
      ghost var s := View();
      Perform(v.before);
      ghost var p := PollSteps(nextPoll, v.rc, v.time, v.arrivals);
      RunAppend(s, v.before, p);
      var code := Poll(v.rc, v.time, v.arrivals);
      RunAppend(s, v.before + p, v.after);
      Perform(v.after);
    }

    /** NET_ARP_open: up to three tries, with a system poll between two of them, if there is one. The
        last of the n tries gives the result. */
    method Open(c: Call, syspoll: bool) returns (code: nat, mac': Mac, ghost n: nat)
      requires Valid() && c.me == me && forall i :: IsVisit(me, c.polled(i))
      requires forall i :: c.answers(i).clock != MAC_NOT_RESOLUTED
      modifies saps, this`sent, this`scan, this`now, this`nextPoll
      ensures !isOpen ==> n == 0 && code == NOT_INITIALIZED && mac' == c.mac && View() == old(View())
      ensures isOpen ==> 1 <= n <= 3 && Final(old(View()), c, n - 1, View(), code, mac')
      ensures forall k :: 0 <= k < n - 1 ==> TryResult(old(View()), c, k).code == MAC_NOT_RESOLUTED
      ensures isOpen && code == MAC_NOT_RESOLUTED ==> n == if syspoll then 3 else 1
    {
      hide Apply, Alloc, At, Run, VisitSteps;
      ghost var s := View();
      RunNothing(s);
      code, mac', n := OK, c.mac, 0;
      var loop := 3;
      var again := true;
      while again
        invariant Valid() && 0 <= loop <= 3 && isOpen == old(isOpen)
        invariant n == if isOpen then 3 - loop else 0
        invariant again ==> loop > 0 && mac' == c.mac && View() == Run(s, StepsTo(s, c, n))
        invariant forall k :: 0 <= k < n - 1 ==> TryResult(s, c, k).code == MAC_NOT_RESOLUTED
        invariant again && n > 0 ==> syspoll && TryResult(s, c, n - 1).code == MAC_NOT_RESOLUTED
        invariant !again && !isOpen ==> code == NOT_INITIALIZED && mac' == c.mac && View() == s
        invariant !again && isOpen ==> n > 0 && Final(s, c, n - 1, View(), code, mac')
        invariant !again && isOpen && code == MAC_NOT_RESOLUTED ==> n == if syspoll then 3 else 1
        decreases loop
      {
        if isOpen {
          code, mac' := AllocSap(c.ip, mac', c.answers(3 - loop));
          AfterTry(s, c, n);
          n := n + 1;
        } else {
          code := NOT_INITIALIZED;
        }
        loop := loop - 1;
        again := code == MAC_NOT_RESOLUTED && syspoll && loop > 0;
        if again {
          ghost var p := StepsTo(s, c, n - 1) + [TryStep(c, n - 1)];
          RunAppend(s, p, VisitSteps(View(), c.polled(n - 1)));
          Syspoll(c.polled(2 - loop));
        }
      }
    }
  }

  lemma RunNothing(s: Arp)
    ensures Run(s, []) == s
  {
  }

  lemma AfterTry(s: Arp, c: Call, k: nat)
    requires c.answers(k).clock != MAC_NOT_RESOLUTED
    ensures Run(s, StepsTo(s, c, k) + [TryStep(c, k)]) == Done(Run(s, StepsTo(s, c, k)), TryResult(s, c, k))
    ensures TryResult(s, c, k).code == MAC_NOT_RESOLUTED ==> TryResult(s, c, k).mac == c.mac
  {
    RunStep(s, StepsTo(s, c, k), TryStep(c, k));
  }
}

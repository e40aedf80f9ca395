/** The ARP cache of net/net_arp.c as a value, its atomic steps and the frames it exchanges. */
module ArpCache {
  import opened Machine

  const SAP_COUNT := 10
  const SAP_TIMEOUT := 30
  const POLL_TIMEOUT := 5

  type Ip = s: seq<byte> | |s| == 4 witness [0, 0, 0, 0]
  type Mac = s: seq<byte> | |s| == 6 witness [0, 0, 0, 0, 0, 0]

  const IP_UNDEFINED: Ip := [0, 0, 0, 0]
  const MAC_UNDEFINED: Mac := [0, 0, 0, 0, 0, 0]
  const MAC_BROADCAST: Mac := [255, 255, 255, 255, 255, 255]

  // Result codes
  const OK: nat := 0
  const NOT_INITIALIZED: nat := 0xa019
  const INVALID_OPCODE: nat := 0xa01b
  const INVALID_IP_ADDR: nat := 0xa01c
  const MAC_NOT_RESOLUTED: nat := 0xa01d

  datatype State = CLOSED | ALLOCATED | RESOLUTED

  datatype Sap = Sap(state: State, ip: Ip, timeout: uint32, mac: Mac)

  const Blank := Sap(CLOSED, IP_UNDEFINED, 0, MAC_UNDEFINED)

  type Cache = c: seq<Sap> | |c| == SAP_COUNT witness seq(SAP_COUNT, _ => Blank)

  /** What the station is called. */
  datatype Station = Station(ip: Ip, mac: Mac)

  /** An ARP packet given to the MAC module, without the Ethernet header. */
  datatype Packet = Packet(dst: Mac, arp: seq<byte>)

  /** How sending and the clock answer while an entry is looked up or made. */
  datatype Answer = Answer(send: nat, clock: nat, time: uint32)

  datatype Result = Result(code: nat, cache: Cache, mac: Mac, sent: seq<Packet>)

  // ---------- packets ----------

  const HEADER_BASE := 14
  const HEADER_SIZE := 28

  function Header(op: byte): (h: seq<byte>) {
    [0, 1, 8, 0, 6, 4, 0, op]
  }

  function Request(me: Station, ip: Ip): (p: Packet)
    ensures |p.arp| == HEADER_SIZE
  {
    Packet(MAC_BROADCAST, Header(1) + me.mac + me.ip + MAC_UNDEFINED + ip)
  }

  function Reply(me: Station, ip: Ip, mac: Mac): (p: Packet)
    ensures |p.arp| == HEADER_SIZE
  {
    Packet(mac, Header(2) + me.mac + me.ip + mac + ip)
  }

  /** A received frame, Ethernet header included. */
  type Frame = f: seq<byte> | |f| >= HEADER_BASE + HEADER_SIZE witness seq(42, _ => 0)

  function HalfWord(hi: nat, lo: nat): nat {
    hi * 256 + lo
  }

  function OpCode(f: Frame): nat {
    HalfWord(f[20], f[21])
  }

  function SenderMac(f: Frame): Mac {
    f[22..28]
  }

  function SenderIp(f: Frame): Ip {
    f[28..32]
  }

  function TargetIp(f: Frame): Ip {
    f[38..42]
  }

  // ---------- one call ----------

  predicate Live(e: Sap) {
    e.state != CLOSED
  }

  /** The first live entry of that address from i on, or SAP_COUNT. */
  function Lookup(c: Cache, ip: Ip, i: nat): (k: nat)
    requires i <= SAP_COUNT
    ensures i <= k <= SAP_COUNT
    ensures k < SAP_COUNT ==> Live(c[k]) && c[k].ip == ip
    ensures forall l :: i <= l < k ==> !(Live(c[l]) && c[l].ip == ip)
    decreases SAP_COUNT - i
  {
    if i == SAP_COUNT || (Live(c[i]) && c[i].ip == ip) then i else Lookup(c, ip, i + 1)
  }

  /** The first closed entry from i on, or SAP_COUNT. */
  function FirstClosed(c: Cache, i: nat): (k: nat)
    requires i <= SAP_COUNT
    ensures i <= k <= SAP_COUNT
    ensures k < SAP_COUNT ==> !Live(c[k])
    ensures forall l :: i <= l < k ==> Live(c[l])
    decreases SAP_COUNT - i
  {
    if i == SAP_COUNT || !Live(c[i]) then i else FirstClosed(c, i + 1)
  }

  /** The first of the entries below n with the earliest timeout. */
  function Oldest(c: Cache, n: nat): (k: nat)
    requires 1 <= n <= SAP_COUNT
    ensures k < n
    ensures forall l :: 0 <= l < n ==> c[k].timeout <= c[l].timeout
    ensures forall l :: 0 <= l < k ==> c[k].timeout < c[l].timeout
  {
    if n == 1 then 0
    else
      var k := Oldest(c, n - 1);
      if c[n - 1].timeout < c[k].timeout then n - 1 else k
  }

  /** Where a new entry goes. */
  function Victim(c: Cache): (k: nat)
    ensures k < SAP_COUNT
    ensures Live(c[k]) ==> forall l :: 0 <= l < SAP_COUNT ==> Live(c[l]) && c[k].timeout <= c[l].timeout
  {
    var k := FirstClosed(c, 0);
    if k < SAP_COUNT then k else Oldest(c, SAP_COUNT)
  }

  function Deadline(time: uint32): uint32 {
    (time + SAP_TIMEOUT) % WORD
  }

  function NewEntry(c: Cache, ip: Ip, mac: Mac): Sap {
    Sap(if mac == MAC_UNDEFINED then ALLOCATED else RESOLUTED, ip, c[Victim(c)].timeout, mac)
  }

  /** The timer of entry k is set, unless sending or the clock failed. */
  function Timed(c: Cache, k: nat, send: nat, a: Answer): Cache
    requires k < SAP_COUNT
  {
    if send == OK && a.clock == OK then c[k := c[k].(timeout := Deadline(a.time))] else c
  }

  function Finish(send: nat, a: Answer, code: nat): nat {
    if send != OK then send else if a.clock != OK then a.clock else code
  }

  /** NET_ARP_alloc_sap */
  function Alloc(c: Cache, me: Station, ip: Ip, mac: Mac, a: Answer): Result {
    var k := Lookup(c, ip, 0);
    var i := if k < SAP_COUNT then k else Victim(c);
    var d: Cache := if k < SAP_COUNT then c else c[i := NewEntry(c, ip, mac)];
    if d[i].state == RESOLUTED then
      Result(Finish(OK, a, OK), Timed(d, i, OK, a), d[i].mac, [])
    else
      Result(Finish(a.send, a, MAC_NOT_RESOLUTED), Timed(d, i, a.send, a), mac, [Request(me, ip)])
  }

  predicate Awaits(e: Sap, ip: Ip) {
    e.state == ALLOCATED && e.ip == ip
  }

  predicate IsResponse(f: Frame, me: Station) {
    TargetIp(f) == me.ip && OpCode(f) == 2
  }

  /** NET_ARP_receive; `send` is how sending a reply ends. */
  function Receive(c: Cache, me: Station, f: Frame, send: nat): Result {
    if TargetIp(f) != me.ip then Result(INVALID_IP_ADDR, c, MAC_UNDEFINED, [])
    else if OpCode(f) == 1 then Result(send, c, MAC_UNDEFINED, [Reply(me, SenderIp(f), SenderMac(f))])
    else if OpCode(f) == 2 then Result(OK, Resolve(c, SenderIp(f), SenderMac(f)), MAC_UNDEFINED, [])
    else Result(INVALID_OPCODE, c, MAC_UNDEFINED, [])
  }

  function ResolveOne(e: Sap, ip: Ip, mac: Mac): Sap {
    if Awaits(e, ip) then e.(state := RESOLUTED, mac := mac) else e
  }

  function Resolve(c: Cache, ip: Ip, mac: Mac): Cache {
    seq(SAP_COUNT, i requires 0 <= i < SAP_COUNT => ResolveOne(c[i], ip, mac))
  }

  function Expire(e: Sap, now: uint32): Sap {
    if Live(e) && now >= e.timeout then Blank else e
  }

  // ---------- runs ----------

  /** The module's state; `scan` is the entry a poll under way looks at next, with the time it read, and
      `sent` are the packets that the MAC module has been given. */
  datatype Arp = Arp(saps: Cache, next: uint32, scan: nat, now: uint32, sent: seq<Packet>)

  const Empty: Cache := [Blank, Blank, Blank, Blank, Blank, Blank, Blank, Blank, Blank, Blank]

  const Init := Arp(Empty, 0, SAP_COUNT, 0, [])

  /** What runs without interruption: one try of open (with interrupts off), one received frame, the
      head of a poll, and the poll's look at one entry. A poll tests an entry's state before it turns
      interrupts off, but nothing an interrupt does closes an entry, and a poll leaves a closed one
      alone: so the look may be taken as one step. */
  datatype Step =
    | Try(me: Station, ip: Ip, mac: Mac, a: Answer)
    | Arrive(station: Station, data: Frame, send: nat)
    | PollBegin(clock: nat, time: uint32)
    | PollNext

  /** The state after a call with that result. */
  function Done(s: Arp, r: Result): Arp {
    s.(saps := r.cache, sent := s.sent + r.sent)
  }

  function Apply(s: Arp, step: Step): Arp {
    match step
    case Try(me, ip, mac, a) => Done(s, Alloc(s.saps, me, ip, mac, a))
    case Arrive(me, data, send) => Done(s, Receive(s.saps, me, data, send))
    case PollBegin(_, time) =>
      if time < s.next then s else s.(next := (time + POLL_TIMEOUT) % WORD, scan := 0, now := time)
    case PollNext =>
      if s.scan < SAP_COUNT
      then s.(saps := s.saps[s.scan := Expire(s.saps[s.scan], s.now)], scan := s.scan + 1)
      else s
  }

  /** The state after the first n steps. */
  function At(s: Arp, steps: seq<Step>, n: nat): Arp
    requires n <= |steps|
  {
    if n == 0 then s else Apply(At(s, steps, n - 1), steps[n - 1])
  }

  function Run(s: Arp, steps: seq<Step>): Arp {
    At(s, steps, |steps|)
  }

  lemma {:induction false} AtAppend(s: Arp, a: seq<Step>, b: seq<Step>, n: nat)
    requires n <= |b|
    ensures At(s, a + b, |a| + n) == At(Run(s, a), b, n)
  {
    hide Apply;
    if n > 0 {
      AtAppend(s, a, b, n - 1);
      assert (a + b)[|a| + n - 1] == b[n - 1];
    } else {
      AtPrefix(s, a, b, |a|);
    }
  }

  lemma {:induction false} AtPrefix(s: Arp, a: seq<Step>, b: seq<Step>, n: nat)
    requires n <= |a|
    ensures At(s, a + b, n) == At(s, a, n)
  {
    hide Apply;
    if n > 0 {
      AtPrefix(s, a, b, n - 1);
      assert (a + b)[n - 1] == a[n - 1];
    }
  }

  lemma RunAppend(s: Arp, a: seq<Step>, b: seq<Step>)
    ensures Run(s, a + b) == Run(Run(s, a), b)
  {
    hide Apply;
    AtAppend(s, a, b, |b|);
  }

  lemma RunStep(s: Arp, a: seq<Step>, step: Step)
    ensures Run(s, a + [step]) == Apply(Run(s, a), step)
  {
    RunAppend(s, a, [step]);
    assert At(Run(s, a), [step], 1) == Apply(At(Run(s, a), [step], 0), step);
  }
}

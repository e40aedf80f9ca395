/** What the ARP module of net/net_arp.c sends and answers, on the bytes of its packets. */
module ArpPackets {
  import opened Machine
  import opened ArpCache
  import opened ArpRuns

  /** The fields of a packet behind its Ethernet header, as RFC 826 lays them out for Ethernet and IP. */
  predicate IsArp(p: Packet, op: byte, from: Station, mac: Mac, ip: Ip) {
    && |p.arp| == 28 && p.arp[0..8] == [0, 1, 8, 0, 6, 4, 0, op]
    && p.arp[8..14] == from.mac && p.arp[14..18] == from.ip && p.arp[18..24] == mac && p.arp[24..28] == ip
  }

  /** A broadcast that asks everybody for the MAC address of `ip`. */
  predicate AsksFor(p: Packet, me: Station, ip: Ip) {
    p.dst == [255, 255, 255, 255, 255, 255] && IsArp(p, 1, me, [0, 0, 0, 0, 0, 0], ip)
  }

  /** The answer to the station that has asked. */
  predicate Answers(p: Packet, me: Station, ip: Ip, mac: Mac) {
    p.dst == mac && IsArp(p, 2, me, mac, ip)
  }

  /** The frame asks us for our MAC address. */
  predicate Asks(f: Frame, me: Station) {
    f[20..22] == [0, 1] && f[38..42] == me.ip
  }

  /** The entry of an address. */
  predicate Holds(e: Sap, ip: Ip) {
    e.state != CLOSED && e.ip == ip
  }

  lemma RequestBytes(me: Station, ip: Ip)
    ensures AsksFor(Request(me, ip), me, ip)
  {
    PacketBytes(Header(1), me.mac, me.ip, MAC_UNDEFINED, ip);
  }

  lemma ReplyBytes(me: Station, ip: Ip, mac: Mac)
    ensures Answers(Reply(me, ip, mac), me, ip, mac)
  {
    PacketBytes(Header(2), me.mac, me.ip, mac, ip);
  }

  lemma PacketBytes(h: seq<byte>, mac: Mac, ip: Ip, mac': Mac, ip': Ip)
    requires |h| == 8
    ensures var p := h + mac + ip + mac' + ip';
      |p| == 28 && p[0..8] == h && p[8..14] == mac && p[14..18] == ip && p[18..24] == mac' && p[24..28] == ip'
  {
  }

  /** A try whose entry then awaits a response sends exactly one request for its address, to everybody;
      one whose entry is then resolved sends nothing and delivers the MAC address of the entry. The code
      is that of the first of sending and reading the clock that failed. */
  lemma TrySends(c: Cache, me: Station, ip: Ip, mac: Mac, a: Answer, k: nat)
    requires CacheOk(c) && k < SAP_COUNT && Holds(Alloc(c, me, ip, mac, a).cache[k], ip)
    ensures var r := Alloc(c, me, ip, mac, a);
      if r.cache[k].state == ALLOCATED then
        && |r.sent| == 1 && AsksFor(r.sent[0], me, ip)
        && r.code == if a.send != 0 then a.send else if a.clock != 0 then a.clock else 0xa01d
      else
        r.sent == [] && r.mac == r.cache[k].mac && r.code == a.clock
  {
    hide Oldest, FirstClosed, Victim, Lookup, Request;
    RequestBytes(me, ip);
  }

  /** A frame is answered exactly when it asks us, and then with one packet to the station that has asked.
      Its code is that of sending the answer, 0 for a response, and an error for frames for others and
      with other operations. */
  lemma ReceptionSends(c: Cache, me: Station, f: Frame, send: nat)
    ensures var r := Receive(c, me, f, send);
      && (if Asks(f, me) then |r.sent| == 1 && Answers(r.sent[0], me, f[28..32], f[22..28]) else r.sent == [])
      && r.code == if f[38..42] != me.ip then 0xa01c else if f[20..22] == [0, 1] then send
                   else if f[20..22] == [0, 2] then 0 else 0xa01b
  {
    hide Resolve, Reply;
    ReplyBytes(me, SenderIp(f), SenderMac(f));
    OperationBytes(f);
  }

  lemma OperationBytes(f: Frame)
    ensures OpCode(f) == 1 <==> f[20..22] == [0, 1]
    ensures OpCode(f) == 2 <==> f[20..22] == [0, 2]
  {
    assert f[20..22] == [f[20], f[21]];
  }

  // ---------- runs ----------

  /** Step k has sent the packet: a try that asks for its address, or an answer to a frame that asks. */
  predicate SentAt(steps: seq<Step>, k: nat, p: Packet)
    requires k < |steps|
  {
    match steps[k]
    case Try(me, ip, _, _) => AsksFor(p, me, ip)
    case Arrive(me, f, _) => Asks(f, me) && Answers(p, me, f[28..32], f[22..28])
    case _ => false
  }

  ghost predicate WasAsked(steps: seq<Step>, n: nat, p: Packet)
    requires n <= |steps|
  {
    exists k :: 0 <= k < n && SentAt(steps, k, p)
  }

  /** What one step adds to the packets sent. */
  lemma StepSends(s: Arp, steps: seq<Step>, n: nat)
    requires n < |steps| && CacheOk(s.saps)
    ensures var more := Apply(s, steps[n]).sent;
      && |s.sent| <= |more| <= |s.sent| + 1 && more[..|s.sent|] == s.sent
      && (|more| > |s.sent| ==> SentAt(steps, n, more[|s.sent|]))
  {
    hide Alloc, Receive, CacheOk;
    match steps[n]
    case Try(me, ip, mac, a) =>
      var k := TryCaches(s.saps, me, ip, mac, a);
      TrySends(s.saps, me, ip, mac, a, k);
    case Arrive(me, f, send) => ReceptionSends(s.saps, me, f, send);
    case PollBegin(_, _) =>
    case PollNext =>
  }

  /** In every run each packet sent is a request of a try for its address, or an answer to a frame that
      has asked us. */
  lemma {:induction false} SentWasAsked(steps: seq<Step>, n: nat, i: nat)
    requires n <= |steps| && i < |At(Init, steps, n).sent|
    ensures WasAsked(steps, n, At(Init, steps, n).sent[i])
  {
    hide Apply, CacheOk, SentAt;
    if n > 0 {
      var s := At(Init, steps, n - 1);
      CacheAlwaysOk(steps, n - 1);
      StepSends(s, steps, n - 1);
      if i < |s.sent| {
        SentWasAsked(steps, n - 1, i);
      } else {
        assert SentAt(steps, n - 1, At(Init, steps, n).sent[i]);
      }
    }
  }

  // ---------- two stations ----------

  /** A frame: any Ethernet header and a packet. */
  function Framed(h: seq<byte>, p: Packet): Frame
    requires |h| == 14 && |p.arp| == 28
  {
    h + p.arp
  }

  lemma FramedFields(h: seq<byte>, p: Packet, op: byte, from: Station, mac: Mac, ip: Ip)
    requires |h| == 14 && IsArp(p, op, from, mac, ip)
    ensures var f := Framed(h, p);
      && f[20..22] == [0, op] && f[22..28] == from.mac && f[28..32] == from.ip && f[38..42] == ip
  {
    var f := Framed(h, p);
    assert f[20..22] == p.arp[0..8][6..8];
    assert f[22..28] == p.arp[8..14] && f[28..32] == p.arp[14..18] && f[38..42] == p.arp[24..28];
  }

  /** Asking and being answered: a tries to open the address of b, which it has not resolved. Its try has
      sent one packet; b, given that packet, sends one packet back, to a; and when a has been given that
      one, its next try delivers the MAC address of b, with OK if the clock can be read. */
  lemma OpenResolves(a: Station, b: Station, sa: Arp, sb: Arp, ans: Answer, ans': Answer, h: seq<byte>, h': seq<byte>)
    requires CacheOk(sa.saps) && |h| == |h'| == 14
    requires forall k :: 0 <= k < SAP_COUNT && Holds(sa.saps[k], b.ip) ==> sa.saps[k].state == ALLOCATED
    ensures var sa' := Apply(sa, Try(a, b.ip, MAC_UNDEFINED, ans));
      && |sa'.sent| == |sa.sent| + 1 && |sa'.sent[|sa.sent|].arp| == 28
      && var sb' := Apply(sb, Arrive(b, Framed(h, sa'.sent[|sa.sent|]), 0));
      && |sb'.sent| == |sb.sent| + 1 && |sb'.sent[|sb.sent|].arp| == 28 && sb'.sent[|sb.sent|].dst == a.mac
      && var sa'' := Apply(sa', Arrive(a, Framed(h', sb'.sent[|sb.sent|]), 0));
      var r := Alloc(sa''.saps, a, b.ip, MAC_UNDEFINED, ans');
      r.mac == b.mac && r.code == ans'.clock && r.sent == []
  {
    hide Alloc, Receive, CacheOk;
    var try := Try(a, b.ip, MAC_UNDEFINED, ans);
    var sa' := Apply(sa, try);
    var k := TryAwaits(sa.saps, a, b.ip, ans);
    TrySends(sa.saps, a, b.ip, MAC_UNDEFINED, ans, k);
    StepKeepsCache(sa, try);
    var p := sa'.sent[|sa.sent|];
    FramedFields(h, p, 1, a, MAC_UNDEFINED, b.ip);
    ReceptionSends(sb.saps, b, Framed(h, p), 0);
    var sb' := Apply(sb, Arrive(b, Framed(h, p), 0));
    var q := sb'.sent[|sb.sent|];
    FramedFields(h', q, 2, b, a.mac, a.ip);
    ResponseTaken(sa'.saps, a, b, Framed(h', q), k, ans');
  }

  /** The entry of an address that was not resolved awaits a response after a try. */
  lemma TryAwaits(c: Cache, me: Station, ip: Ip, a: Answer) returns (k: nat)
    requires CacheOk(c)
    requires forall k :: 0 <= k < SAP_COUNT && Holds(c[k], ip) ==> c[k].state == ALLOCATED
    ensures var c' := Alloc(c, me, ip, MAC_UNDEFINED, a).cache;
      k < SAP_COUNT && Holds(c'[k], ip) && c'[k].state == ALLOCATED
  {
    hide Oldest, FirstClosed, Victim, Lookup;
    k := Lookup(c, ip, 0);
    if k == SAP_COUNT {
      k := Victim(c);
    }
  }

  /** A response that is awaited is taken, and the next try delivers it. */
  lemma ResponseTaken(c: Cache, me: Station, b: Station, f: Frame, k: nat, a: Answer)
    requires CacheOk(c) && k < SAP_COUNT && Holds(c[k], b.ip) && c[k].state == ALLOCATED
    requires f[20..22] == [0, 2] && f[22..28] == b.mac && f[28..32] == b.ip && f[38..42] == me.ip
    ensures var r := Alloc(Receive(c, me, f, 0).cache, me, b.ip, MAC_UNDEFINED, a);
      r.mac == b.mac && r.code == a.clock && r.sent == []
  {
    hide Alloc, Lookup, Victim;
    OperationBytes(f);
    var c' := Receive(c, me, f, 0).cache;
    assert c'[k] == Sap(RESOLUTED, b.ip, c[k].timeout, b.mac);
    ResolveKeepsOk(c, b.ip, b.mac);
    ResolvedFound(c', me, b.ip, k, a);
  }

  lemma ResolvedFound(c: Cache, me: Station, ip: Ip, k: nat, a: Answer)
    requires CacheOk(c) && k < SAP_COUNT && Holds(c[k], ip) && c[k].state == RESOLUTED
    ensures var r := Alloc(c, me, ip, MAC_UNDEFINED, a);
      r.mac == c[k].mac && r.code == a.clock && r.sent == []
  {
    hide Oldest, FirstClosed, Victim, Lookup;
    assert Lookup(c, ip, 0) == k;
  }
}

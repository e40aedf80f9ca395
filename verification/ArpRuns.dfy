/** What holds of the ARP cache of net/net_arp.c after any interleaving of steps. */
module ArpRuns {
  import opened Machine
  import opened ArpCache

  // ---------- the cache is well formed in every reachable state ----------

  predicate EntryOk(e: Sap) {
    (e.state == CLOSED ==> e == Blank) && (e.state == ALLOCATED ==> e.mac == MAC_UNDEFINED)
  }

  /** Live entries have distinct addresses, closed entries are blank, allocated ones have no MAC. */
  predicate CacheOk(c: Cache) {
    && (forall i :: 0 <= i < SAP_COUNT ==> EntryOk(c[i]))
    && (forall i, j :: 0 <= i < j < SAP_COUNT && Live(c[i]) && Live(c[j]) ==> c[i].ip != c[j].ip)
  }

  /** Every step keeps the cache well formed, however sending and the clock end. */
  lemma StepKeepsCache(s: Arp, step: Step)
    requires CacheOk(s.saps)
    ensures CacheOk(Apply(s, step).saps)
  {
    hide Oldest, FirstClosed, Victim, Lookup;
  }

  lemma {:induction false} CacheAlwaysOk(steps: seq<Step>, n: nat)
    requires n <= |steps|
    ensures CacheOk(At(Init, steps, n).saps)
  {
    hide Apply, CacheOk;
    if n == 0 {
      BlankOk();
    } else {
      CacheAlwaysOk(steps, n - 1);
      StepKeepsCache(At(Init, steps, n - 1), steps[n - 1]);
    }
  }

  lemma BlankOk()
    ensures CacheOk(Init.saps)
  {
  }

  // ---------- where a MAC address comes from ----------

  predicate Awaited(c: Cache, ip: Ip) {
    exists i :: 0 <= i < SAP_COUNT && Awaits(c[i], ip)
  }

  /** A response to us from that address that carries that MAC address. */
  predicate Responds(step: Step, ip: Ip, mac: Mac) {
    step.Arrive? && IsResponse(step.data, step.station) && SenderIp(step.data) == ip && SenderMac(step.data) == mac
  }

  /** A caller who knows the pair. */
  predicate Knows(step: Step, ip: Ip, mac: Mac) {
    step.Try? && step.ip == ip && step.mac == mac && mac != MAC_UNDEFINED
  }

  /** Step k tells that `mac` belongs to `ip`: a caller gave the pair, or a response to us from that
      address arrived while its entry awaited one. */
  predicate Tells(steps: seq<Step>, k: nat, ip: Ip, mac: Mac)
    requires k < |steps|
  {
    Knows(steps[k], ip, mac) || (Responds(steps[k], ip, mac) && Awaited(At(Init, steps, k).saps, ip))
  }

  ghost predicate Told(steps: seq<Step>, n: nat, ip: Ip, mac: Mac)
    requires n <= |steps|
  {
    exists k :: 0 <= k < n && Tells(steps, k, ip, mac)
  }

  /** A resolved entry after a step was resolved before it, or the step told its MAC address. */
  lemma ResolvedByStep(s: Arp, step: Step, i: nat)
    requires i < SAP_COUNT && Apply(s, step).saps[i].state == RESOLUTED
    ensures var e, e' := s.saps[i], Apply(s, step).saps[i];
      || (e.state == RESOLUTED && e.ip == e'.ip && e.mac == e'.mac)
      || Knows(step, e'.ip, e'.mac) || (Responds(step, e'.ip, e'.mac) && Awaits(e, e'.ip))
  {
    hide Oldest, FirstClosed, Victim, Lookup;
  }

  lemma {:induction false} ResolvedWereTold(steps: seq<Step>, n: nat, i: nat)
    requires n <= |steps| && i < SAP_COUNT
    requires At(Init, steps, n).saps[i].state == RESOLUTED
    ensures var e := At(Init, steps, n).saps[i]; Told(steps, n, e.ip, e.mac)
  {
    hide Apply;
    if n > 0 {
      var s, step := At(Init, steps, n - 1), steps[n - 1];
      var e := Apply(s, step).saps[i];
      ResolvedByStep(s, step, i);
      if s.saps[i].state == RESOLUTED && s.saps[i].ip == e.ip && s.saps[i].mac == e.mac {
        ResolvedWereTold(steps, n - 1, i);
      } else {
        assert Tells(steps, n - 1, e.ip, e.mac);
      }
    }
  }

  lemma AllocOk(c: Cache, me: Station, ip: Ip, mac: Mac, a: Answer)
    requires Alloc(c, me, ip, mac, a).code == OK
    ensures var k, mac' := Lookup(c, ip, 0), Alloc(c, me, ip, mac, a).mac;
      if k < SAP_COUNT then c[k].state == RESOLUTED && c[k].ip == ip && c[k].mac == mac'
      else mac' == mac != MAC_UNDEFINED
  {
    hide Oldest, FirstClosed, Victim, Lookup;
  }

  /** Every MAC address that a successful open returns was told for that very address: by a caller, or
      by a response that the entry was waiting for. */
  lemma ReturnedMacWasTold(steps: seq<Step>, n: nat)
    requires n < |steps| && steps[n].Try?
    ensures var t := steps[n];
      var r := Alloc(At(Init, steps, n).saps, t.me, t.ip, t.mac, t.a);
      r.code == OK ==> Told(steps, n + 1, t.ip, r.mac)
  {
    hide Alloc, At, Apply, Lookup;
    var t := steps[n];
    var c := At(Init, steps, n).saps;
    var r := Alloc(c, t.me, t.ip, t.mac, t.a);
    if r.code == OK {
      AllocOk(c, t.me, t.ip, t.mac, t.a);
      var k := Lookup(c, t.ip, 0);
      if k < SAP_COUNT {
        ResolvedWereTold(steps, n, k);
      } else {
        assert Tells(steps, n, t.ip, t.mac);
      }
    }
  }

  /** A pair that a caller gives is taken over exactly when the address is not in the cache yet, or is
      there with that MAC address already: an entry that awaits a response keeps waiting. */
  lemma GivenPairKept(c: Cache, me: Station, ip: Ip, mac: Mac, a: Answer)
    requires CacheOk(c) && mac != MAC_UNDEFINED
    ensures var k, c' := Lookup(c, ip, 0), Alloc(c, me, ip, mac, a).cache;
      var k' := Lookup(c', ip, 0);
      k' < SAP_COUNT && c'[k'].ip == ip &&
      ((c'[k'].state == RESOLUTED && c'[k'].mac == mac) <==>
       (k < SAP_COUNT ==> c[k].state == RESOLUTED && c[k].mac == mac))
  {
    hide Oldest, FirstClosed, Victim, Lookup;
    var k, c' := Lookup(c, ip, 0), Alloc(c, me, ip, mac, a).cache;
    var i := if k < SAP_COUNT then k else Victim(c);
    var k' := Lookup(c', ip, 0);
    assert Live(c'[i]) && c'[i].ip == ip;
    assert k' == i;
  }

  /** Every try, however sending and the clock end, leaves its address in the cache, as resolved or as
      awaiting a response, and changes no more than one entry. */
  lemma TryCaches(c: Cache, me: Station, ip: Ip, mac: Mac, a: Answer) returns (k: nat)
    requires CacheOk(c)
    ensures var c' := Alloc(c, me, ip, mac, a).cache;
      && k < SAP_COUNT && Live(c'[k]) && c'[k].ip == ip
      && forall l :: 0 <= l < SAP_COUNT && l != k ==> c'[l] == c[l]
    ensures var e := Alloc(c, me, ip, mac, a).cache[k];
      Live(c[k]) && c[k].ip == ip ==> e == c[k].(timeout := e.timeout)
  {
    hide Oldest, FirstClosed, Victim, Lookup;
    k := Lookup(c, ip, 0);
    if k == SAP_COUNT {
      k := Victim(c);
    }
  }

  /** Sending the request for a new entry, or reading the clock for its timer, fails. */
  predicate TimerFails(mac: Mac, a: Answer) {
    a.clock != OK || (mac == MAC_UNDEFINED && a.send != OK)
  }

  /** A new entry whose request or timer failed keeps the timer of the entry it replaces: a look at it
      gives it up exactly when that timer has run out. */
  lemma FailedEntryExpiresExactly(c: Cache, me: Station, ip: Ip, mac: Mac, a: Answer, now: uint32)
    requires CacheOk(c) && Lookup(c, ip, 0) == SAP_COUNT && TimerFails(mac, a)
    ensures Expire(Alloc(c, me, ip, mac, a).cache[Victim(c)], now) == Blank <==> now >= c[Victim(c)].timeout
  {
    hide Oldest, FirstClosed, Lookup, Victim;
    assert Live(Alloc(c, me, ip, mac, a).cache[Victim(c)]);
  }

  /** If there was a closed entry for it, that is at the very next look of a poll. */
  lemma FailedEntryExpires(c: Cache, me: Station, ip: Ip, mac: Mac, a: Answer, now: uint32)
    requires CacheOk(c) && Lookup(c, ip, 0) == SAP_COUNT && TimerFails(mac, a)
    requires FirstClosed(c, 0) < SAP_COUNT
    ensures Expire(Alloc(c, me, ip, mac, a).cache[Victim(c)], now) == Blank
  {
    hide Oldest, FirstClosed, Lookup;
    FailedEntryExpiresExactly(c, me, ip, mac, a, now);
    assert EntryOk(c[Victim(c)]);
  }

  /** Ten entries that wait for the addresses 10.0.0.0 to 10.0.0.9 until second 100 to 109. */
  function FullCache(): Cache {
    seq(SAP_COUNT, i requires 0 <= i < SAP_COUNT => Waiting(i))
  }

  function Waiting(i: nat): Sap
    requires i < SAP_COUNT
  {
    Sap(ALLOCATED, HostAddress(i), 100 + i, MAC_UNDEFINED)
  }

  function HostAddress(i: byte): Ip {
    [10, 0, 0, i]
  }

  lemma HostsDiffer(i: byte, j: byte)
    requires i != j
    ensures HostAddress(i) != HostAddress(j)
  {
    assert HostAddress(i)[3] == i && HostAddress(j)[3] == j;
  }

  lemma FullCacheOk()
    ensures CacheOk(FullCache())
    ensures forall i :: 0 <= i < SAP_COUNT ==> Live(FullCache()[i]) && FullCache()[i].timeout >= 100
  {
    hide HostAddress;
    forall i, j | 0 <= i < j < SAP_COUNT ensures FullCache()[i].ip != FullCache()[j].ip {
      HostsDiffer(i, j);
    }
  }

  lemma EleventhIsNew()
    ensures Lookup(FullCache(), HostAddress(10), 0) == SAP_COUNT
  {
    hide HostAddress;
    forall i | 0 <= i < SAP_COUNT ensures FullCache()[i].ip != HostAddress(10) {
      HostsDiffer(i, 10);
    }
  }

  const NOT_SENT := Answer(1, OK, 70)

  /** In a full cache the entry for an eleventh address, whose request could not be sent, outlives the
      looks of polls up to second 99. */
  lemma FailedEntryOutlives(me: Station, now: uint32)
    requires now < 100
    ensures CacheOk(FullCache()) && Lookup(FullCache(), HostAddress(10), 0) == SAP_COUNT
    ensures TimerFails(MAC_UNDEFINED, NOT_SENT)
    ensures var c' := Alloc(FullCache(), me, HostAddress(10), MAC_UNDEFINED, NOT_SENT).cache;
      Expire(c'[Victim(FullCache())], now) != Blank
  {
    hide Alloc, Expire, FullCache, Lookup, HostAddress, CacheOk;
    FullCacheOk();
    EleventhIsNew();
    FailedEntryExpiresExactly(FullCache(), me, HostAddress(10), MAC_UNDEFINED, NOT_SENT, now);
  }

  // A station that awaits a response, and the MAC address a caller gives for it.
  const AWAITED: Ip := [192, 168, 0, 1]
  const GIVEN: Mac := [0, 16, 32, 48, 64, 80]

  /** A caller gives the MAC address of a station whose entry awaits a response: it is not taken over,
      and the open does not succeed. */
  lemma GivenPairIgnored(me: Station)
    ensures var c: Cache := Empty[0 := Sap(ALLOCATED, AWAITED, 100, MAC_UNDEFINED)];
      var r := Alloc(c, me, AWAITED, GIVEN, Answer(OK, OK, 70));
      CacheOk(c) && r.code == MAC_NOT_RESOLUTED && r.cache[0].ip == AWAITED && r.cache[0].mac == MAC_UNDEFINED
  {
    var c: Cache := Empty[0 := Sap(ALLOCATED, AWAITED, 100, MAC_UNDEFINED)];
    assert Lookup(c, AWAITED, 0) == 0;
  }

  /** Two stations: the answer of one to the request of the other resolves the entry that awaits it,
      whatever the Ethernet headers. */
  lemma RequestAnswered(a: Station, b: Station, ca: Cache, cb: Cache, h: seq<byte>, h': seq<byte>, send: nat)
    requires |h| == |h'| == HEADER_BASE
    ensures var r := Receive(cb, b, h + Request(a, b.ip).arp, send);
      && r.cache == cb && r.sent == [Reply(b, a.ip, a.mac)]
      && Receive(ca, a, h' + r.sent[0].arp, send).cache == Resolve(ca, b.ip, b.mac)
  {
    var f: Frame := h + Request(a, b.ip).arp;
    FrameFields(h, 1, a.mac, a.ip, MAC_UNDEFINED, b.ip);
    var f': Frame := h' + Reply(b, a.ip, a.mac).arp;
    FrameFields(h', 2, b.mac, b.ip, a.mac, a.ip);
  }

  lemma FrameFields(h: seq<byte>, op: byte, mac: Mac, ip: Ip, mac': Mac, ip': Ip)
    requires |h| == HEADER_BASE
    ensures var f: Frame := h + (Header(op) + mac + ip + mac' + ip');
      OpCode(f) == op && SenderMac(f) == mac && SenderIp(f) == ip && TargetIp(f) == ip'
  {
    var f: Frame := h + (Header(op) + mac + ip + mac' + ip');
    assert f[20] == 0 && f[21] == op;
    assert f[22..28] == mac;
    assert f[28..32] == ip;
    assert f[38..42] == ip';
  }

  // ---------- the packet reception of RFC 826 ----------

  /** The translation table: the resolved entries. */
  function Pairs(c: Cache): map<Ip, Mac> {
    PairsFrom(c, 0)
  }

  function PairsFrom(c: Cache, i: nat): map<Ip, Mac>
    requires i <= SAP_COUNT
    decreases SAP_COUNT - i
  {
    if i == SAP_COUNT then map[]
    else if c[i].state == RESOLUTED then PairsFrom(c, i + 1)[c[i].ip := c[i].mac]
    else PairsFrom(c, i + 1)
  }

  lemma {:induction false} PairsAre(c: Cache, i: nat, ip: Ip)
    requires CacheOk(c) && i <= SAP_COUNT
    ensures ip in PairsFrom(c, i) <==> exists k :: i <= k < SAP_COUNT && c[k].state == RESOLUTED && c[k].ip == ip
    ensures forall k :: i <= k < SAP_COUNT && c[k].state == RESOLUTED && c[k].ip == ip ==>
              ip in PairsFrom(c, i) && PairsFrom(c, i)[ip] == c[k].mac
    decreases SAP_COUNT - i
  {
    if i < SAP_COUNT {
      PairsAre(c, i + 1, ip);
    }
  }

  /** Ethernet and IP, with the lengths of their addresses. */
  predicate Speaks(f: Frame) {
    f[14..20] == [0, 1, 8, 0, 6, 4]
  }

  /** What the section "Packet Reception" of RFC 826 asks for: a pair that is known is updated, and if we
      are the target an unknown one is added. */
  function Merged(pairs: map<Ip, Mac>, me: Station, f: Frame): map<Ip, Mac> {
    if Speaks(f) && (SenderIp(f) in pairs || TargetIp(f) == me.ip) then pairs[SenderIp(f) := SenderMac(f)] else pairs
  }

  /** The frame is a response that an entry awaits. */
  predicate Resolves(c: Cache, me: Station, f: Frame) {
    IsResponse(f, me) && Awaited(c, SenderIp(f))
  }

  /** The pair of the sender is known already, or it is unknown and we are not the target. */
  predicate NothingToMerge(c: Cache, me: Station, f: Frame) {
    if SenderIp(f) in Pairs(c) then Pairs(c)[SenderIp(f)] == SenderMac(f) else TargetIp(f) != me.ip
  }

  lemma ResolveKeepsOthers(c: Cache, ip: Ip, mac: Mac, other: Ip)
    requires CacheOk(c) && other != ip
    ensures var p, p' := Pairs(c), Pairs(Resolve(c, ip, mac));
      (other in p' <==> other in p) && (other in p ==> p'[other] == p[other])
  {
    hide PairsFrom;
    ResolveKeepsOk(c, ip, mac);
    PairsAre(c, 0, other);
    PairsAre(Resolve(c, ip, mac), 0, other);
    var c' := Resolve(c, ip, mac);
    assert forall k :: 0 <= k < SAP_COUNT && c[k].ip == other ==> c'[k] == c[k];
    assert forall k :: 0 <= k < SAP_COUNT ==> c'[k].ip == c[k].ip;
  }

  lemma ResolveKeepsOk(c: Cache, ip: Ip, mac: Mac)
    requires CacheOk(c)
    ensures CacheOk(Resolve(c, ip, mac))
  {
  }

  lemma ResolveAdds(c: Cache, ip: Ip, mac: Mac)
    requires CacheOk(c) && Awaited(c, ip)
    ensures Pairs(Resolve(c, ip, mac)) == Pairs(c)[ip := mac] && ip !in Pairs(c)
  {
    hide PairsFrom;
    var i :| 0 <= i < SAP_COUNT && Awaits(c[i], ip);
    var c' := Resolve(c, ip, mac);
    ResolveKeepsOk(c, ip, mac);
    PairsAre(c, 0, ip);
    PairsAre(c', 0, ip);
    assert c'[i].state == RESOLUTED && c'[i].ip == ip && c'[i].mac == mac;
    assert Pairs(c')[ip] == mac;
    assert ip !in Pairs(c);
    forall other | other != ip ensures
      (other in Pairs(c') <==> other in Pairs(c)) && (other in Pairs(c) ==> Pairs(c')[other] == Pairs(c)[other])
    {
      ResolveKeepsOthers(c, ip, mac, other);
    }
  }

  lemma NotAwaitedKeeps(c: Cache, me: Station, f: Frame, send: nat)
    requires !Resolves(c, me, f)
    ensures Receive(c, me, f, send).cache == c
  {
    if IsResponse(f, me) {
      forall i | 0 <= i < SAP_COUNT ensures ResolveOne(c[i], SenderIp(f), SenderMac(f)) == c[i] {
        assert !Awaits(c[i], SenderIp(f));
      }
      assert Resolve(c, SenderIp(f), SenderMac(f)) == c;
    }
  }

  /** The table behind a received frame is the one RFC 826 asks for exactly when the frame is a response
      that an entry awaits or there is nothing to merge; and if it speaks another protocol, exactly when it
      does not pass for such a response. */
  lemma ReceptionAgreesExactly(c: Cache, me: Station, f: Frame, send: nat)
    requires CacheOk(c)
    ensures Pairs(Receive(c, me, f, send).cache) == Merged(Pairs(c), me, f) <==>
            if Speaks(f) then Resolves(c, me, f) || NothingToMerge(c, me, f) else !Resolves(c, me, f)
  {
    hide Pairs, PairsFrom, Resolve;
    var ip, mac := SenderIp(f), SenderMac(f);
    if Resolves(c, me, f) {
      ResolveAdds(c, ip, mac);
    } else {
      NotAwaitedKeeps(c, me, f, send);
      if ip in Pairs(c) && Pairs(c)[ip] == mac {
        assert Pairs(c)[ip := mac] == Pairs(c);
      }
    }
  }

  /** The answer to a request is the one RFC 826 asks for, unless the request speaks another protocol. */
  lemma ReplyAgreesExactly(c: Cache, me: Station, f: Frame, send: nat)
    ensures var asked := TargetIp(f) == me.ip && OpCode(f) == 1;
      var due := if Speaks(f) && asked then [Reply(me, SenderIp(f), SenderMac(f))] else [];
      Receive(c, me, f, send).sent == due <==> Speaks(f) || !asked
  {
  }

  /** A request from an unknown station for our address: it is answered, but its pair is not added. */
  lemma RequesterNotAdded(me: Station, h: seq<byte>)
    requires |h| == HEADER_BASE
    ensures var f: Frame := h + Request(Station(AWAITED, GIVEN), me.ip).arp;
      && Pairs(Receive(Empty, me, f, OK).cache) == map[]
      && Merged(map[], me, f) == map[AWAITED := GIVEN]
  {
    var f: Frame := h + Request(Station(AWAITED, GIVEN), me.ip).arp;
    FrameFields(h, 1, GIVEN, AWAITED, MAC_UNDEFINED, me.ip);
    assert f[14..20] == [0, 1, 8, 0, 6, 4];
    NotAwaitedKeeps(Empty, me, f, OK);
    EmptyPairs(0);
  }

  lemma {:induction false} EmptyPairs(i: nat)
    requires i <= SAP_COUNT
    ensures PairsFrom(Empty, i) == map[]
    decreases SAP_COUNT - i
  {
    if i < SAP_COUNT {
      EmptyPairs(i + 1);
    }
  }

  // ---------- time ----------

  /** The time the last of the first n steps that read the clock has read. */
  function Clock(steps: seq<Step>, n: nat): uint32
    requires n <= |steps|
  {
    if n == 0 then 0
    else
      match steps[n - 1]
      case Try(_, _, _, a) => a.time
      case PollBegin(_, time) => time
      case _ => Clock(steps, n - 1)
  }

  /** The clock and sending never fail, and the clock neither steps back nor comes near its end. */
  predicate SteadyStep(steps: seq<Step>, k: nat)
    requires k < |steps|
  {
    var t := Clock(steps, k + 1);
    && Clock(steps, k) <= t && t + SAP_TIMEOUT < WORD
    && (steps[k].Try? ==> steps[k].a.send == OK && steps[k].a.clock == OK)
    && (steps[k].PollBegin? ==> steps[k].clock == OK)
  }

  predicate Steady(steps: seq<Step>) {
    forall k :: 0 <= k < |steps| ==> SteadyStep(steps, k)
  }

  /** When the address was last opened in the first n steps. */
  function LastOpened(steps: seq<Step>, n: nat, ip: Ip): uint32
    requires n <= |steps|
  {
    if n == 0 then 0
    else if steps[n - 1].Try? && steps[n - 1].ip == ip then steps[n - 1].a.time
    else LastOpened(steps, n - 1, ip)
  }

  predicate TimerSet(e: Sap, steps: seq<Step>, n: nat)
    requires n <= |steps|
  {
    Live(e) ==> e.timeout == LastOpened(steps, n, e.ip) + 30
  }

  predicate TimersSet(c: Cache, steps: seq<Step>, n: nat)
    requires n <= |steps|
  {
    forall i :: 0 <= i < SAP_COUNT ==> TimerSet(c[i], steps, n)
  }

  lemma StepSetsTimers(s: Arp, steps: seq<Step>, n: nat)
    requires n < |steps| && CacheOk(s.saps) && TimersSet(s.saps, steps, n) && SteadyStep(steps, n)
    ensures TimersSet(Apply(s, steps[n]).saps, steps, n + 1)
  {
    hide Oldest, FirstClosed, Victim, Lookup;
    var s' := Apply(s, steps[n]);
    forall i | 0 <= i < SAP_COUNT ensures TimerSet(s'.saps[i], steps, n + 1) {
      assert TimerSet(s.saps[i], steps, n);
    }
  }

  /** In a steady run the timer of every live entry runs out 30 seconds after its address was last
      opened. */
  lemma {:induction false} TimersFollowOpens(steps: seq<Step>, n: nat)
    requires n <= |steps| && Steady(steps)
    ensures TimersSet(At(Init, steps, n).saps, steps, n)
  {
    hide Apply, CacheOk, SteadyStep;
    if n > 0 {
      TimersFollowOpens(steps, n - 1);
      CacheAlwaysOk(steps, n - 1);
      StepSetsTimers(At(Init, steps, n - 1), steps, n - 1);
    }
  }

  predicate Cached(c: Cache, ip: Ip) {
    Lookup(c, ip, 0) < SAP_COUNT
  }

  /** A step other than a poll's takes an address out of the cache only when all entries are live, and
      then the one that was opened least recently. */
  lemma LeastRecentGoes(steps: seq<Step>, n: nat, i: nat, j: nat)
    requires n < |steps| && Steady(steps) && i < SAP_COUNT && j < SAP_COUNT && !steps[n].PollNext?
    ensures var c, c' := At(Init, steps, n).saps, At(Init, steps, n + 1).saps;
      Live(c[i]) && !Cached(c', c[i].ip) ==>
        && steps[n].Try? && !Cached(c, steps[n].ip)
        && Live(c[j]) && LastOpened(steps, n, c[i].ip) <= LastOpened(steps, n, c[j].ip)
  {
    hide Oldest, FirstClosed, Victim, Lookup, At, Steady, LastOpened;
    var s := At(Init, steps, n);
    TimersFollowOpens(steps, n);
    assert TimerSet(s.saps[i], steps, n) && TimerSet(s.saps[j], steps, n);
    OneStep(steps, n);
    var c' := Apply(s, steps[n]).saps;
    if Live(s.saps[i]) && !Cached(c', s.saps[i].ip) {
      assert !(Live(c'[i]) && c'[i].ip == s.saps[i].ip);
    }
  }

  lemma OneStep(steps: seq<Step>, n: nat)
    requires n < |steps|
    ensures At(Init, steps, n + 1) == Apply(At(Init, steps, n), steps[n])
  {
  }

  /** The time of the last call of poll in the first n steps. */
  function LastPoll(steps: seq<Step>, n: nat): int
    requires n <= |steps|
  {
    if n == 0 then -1
    else if steps[n - 1].PollBegin? then steps[n - 1].time
    else LastPoll(steps, n - 1)
  }

  /** Entry i outlives the last effective poll: looked at already, its timer runs out later. */
  predicate Outlives(s: Arp, i: nat)
    requires i < SAP_COUNT
  {
    Live(s.saps[i]) ==> s.saps[i].timeout + POLL_TIMEOUT > s.next
  }

  predicate PollState(s: Arp, steps: seq<Step>, n: nat)
    requires n <= |steps|
  {
    && LastPoll(steps, n) < s.next && s.next <= Clock(steps, n) + POLL_TIMEOUT && s.scan <= SAP_COUNT
    && (s.next == s.now + POLL_TIMEOUT || (s.next == 0 && s.scan == SAP_COUNT))
    && (forall i :: 0 <= i < s.scan ==> Outlives(s, i))
  }

  lemma StepKeepsPollState(s: Arp, steps: seq<Step>, n: nat)
    requires n < |steps| && PollState(s, steps, n) && SteadyStep(steps, n)
    ensures PollState(Apply(s, steps[n]), steps, n + 1)
  {
    hide Oldest, FirstClosed, Victim, Lookup;
    var s' := Apply(s, steps[n]);
    forall i | 0 <= i < s'.scan ensures Outlives(s', i) {
      if i < s.scan {
        assert Outlives(s, i);
      }
    }
  }

  lemma {:induction false} PollStateKept(steps: seq<Step>, n: nat)
    requires n <= |steps| && Steady(steps)
    ensures PollState(At(Init, steps, n), steps, n)
  {
    hide Apply, SteadyStep;
    if n > 0 {
      PollStateKept(steps, n - 1);
      StepKeepsPollState(At(Init, steps, n - 1), steps, n - 1);
    }
  }

  /** Between two polls that look at the entries there are at least five seconds, and a poll so long after the
      last of these does look at them. */
  lemma PollsWhenDue(steps: seq<Step>, n: nat, rc: nat, time: uint32)
    requires n <= |steps| && Steady(steps) && At(Init, steps, n).next > 0
    ensures var s := At(Init, steps, n);
      var s' := Apply(s, PollBegin(rc, time));
      if time >= s.now + 5 then s'.scan == 0 && s'.now == time && s'.saps == s.saps else s' == s
  {
    hide At;
    PollStateKept(steps, n);
  }

  /** After every poll, whether it was due or not, each live address was opened less than 30 + 5
      seconds before that poll; so with polls at most g seconds apart an idle entry is gone within
      30 + 5 + g seconds. */
  lemma IdleEntriesDie(steps: seq<Step>, n: nat, i: nat, g: nat)
    requires n <= |steps| && Steady(steps) && i < SAP_COUNT && At(Init, steps, n).scan == SAP_COUNT
    ensures var e := At(Init, steps, n).saps[i];
      && (Live(e) ==> LastOpened(steps, n, e.ip) + 35 > LastPoll(steps, n))
      && (Live(e) && Clock(steps, n) <= LastPoll(steps, n) + g ==> LastOpened(steps, n, e.ip) + 35 + g > Clock(steps, n))
  {
    hide At, LastOpened, LastPoll, Clock;
    PollStateKept(steps, n);
    TimersFollowOpens(steps, n);
    assert Outlives(At(Init, steps, n), i);
    assert TimerSet(At(Init, steps, n).saps[i], steps, n);
  }

  /** Once an effective poll has looked at an entry, that entry's timer, if it is live, runs out after
      the time the poll read, whatever interrupts did meanwhile. */
  lemma PolledTimersAhead(steps: seq<Step>, n: nat, i: nat)
    requires n <= |steps| && Steady(steps) && i < SAP_COUNT && i < At(Init, steps, n).scan
    ensures var s := At(Init, steps, n); Live(s.saps[i]) && s.next > 0 ==> s.saps[i].timeout > s.now
  {
    hide At;
    PollStateKept(steps, n);
    assert Outlives(At(Init, steps, n), i);
  }
}

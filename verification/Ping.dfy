/** TEST_ping of net/net_appl.c: the reply it waits for, and its deadline over a counter that wraps. */
module Ping {
  import opened Machine
  import opened Wrappers

  const OK: nat := 0
  const PING_TIME_OUT: nat := 0xa011
  const PING_DEFAULT_DATAGRAM_SIZE := 64
  const PING_MAX_DATAGRAM_SIZE := 1472

  datatype Reply = Reply(ip: uint32, sequence: uint16, length: uint16)

  /** An echo request given to the ICMP module. */
  datatype Request = Request(ip: uint32, sequence: uint16, length: uint16)

  /** One round of the waiting loop: the replies that come in, and the true time in timer ticks at
      which the counter is then read, with the result of reading it. */
  datatype Poll = Poll(replies: seq<Reply>, rc: nat, tick: nat)

  /** A timer that counts `period` ticks and starts again, and its ticks in a millisecond. */
  datatype Timer = Timer(period: nat, perMs: nat)

  predicate IsTimer(c: Timer) {
    1 <= c.perMs <= c.period <= WORD
  }

  /** The millisecond count (millisec in arch/syscon/platform/syscon_platform.c). */
  function Reading(c: Timer, t: nat): (ms: uint32)
    requires IsTimer(c)
  {
    ReadingBound(t % c.period, c.perMs);
    t % c.period / c.perMs
  }

  lemma ReadingBound(x: nat, d: nat)
    requires d > 0
    ensures 0 <= x / d <= x && x / d * d <= x < x / d * d + d
  {
    var q := x / d;
    assert x == q * d + x % d;
    Times(1, d, q);
  }

  function Tick(start: nat, polls: seq<Poll>, k: nat): nat
    requires k <= |polls|
  {
    if k == 0 then start else polls[k - 1].tick
  }

  /** What is asked, with the timer, the moment it is first read, and the count held after that: whether the
      read has succeeded is not looked at. */
  datatype Wait = Wait(ip: uint32, size: uint32, timeout: uint32, c: Timer, start: nat, first: uint32)

  /** The count held after k rounds: a read that fails leaves it alone. */
  function ReadingAt(w: Wait, polls: seq<Poll>, k: nat): uint32
    requires IsTimer(w.c) && k <= |polls|
  {
    if k == 0 then w.first
    else if polls[k - 1].rc != OK then ReadingAt(w, polls, k - 1)
    else Reading(w.c, Tick(w.start, polls, k))
  }

  /** The deadline after k rounds, in 32-bit arithmetic. */
  function Deadline(w: Wait, polls: seq<Poll>, k: nat): uint32
    requires IsTimer(w.c) && k <= |polls|
  {
    if k == 0 then (w.first + w.timeout) % WORD
    else
      var d, previous := Deadline(w, polls, k - 1), ReadingAt(w, polls, k - 1);
      if ReadingAt(w, polls, k) < previous then Less(d, previous) else d
  }

  function Less(a: int, b: int): uint32 {
    (a - b) % WORD
  }

  predicate Expired(w: Wait, polls: seq<Poll>, k: nat)
    requires IsTimer(w.c) && k <= |polls|
  {
    k > 0 && ReadingAt(w, polls, k) > Deadline(w, polls, k)
  }

  /** The first reply of the first k rounds: later ones are not looked at. */
  function FirstReply(polls: seq<Poll>, k: nat): Option<Reply>
    requires k <= |polls|
  {
    if k == 0 then None
    else if FirstReply(polls, k - 1).Some? then FirstReply(polls, k - 1)
    else if polls[k - 1].replies != [] then Some(polls[k - 1].replies[0])
    else None
  }

  function DatagramSize(size: uint32): uint16 {
    if size > PING_MAX_DATAGRAM_SIZE then PING_DEFAULT_DATAGRAM_SIZE else size
  }

  /** The reply that is waited for. */
  function RightReply(w: Wait): Reply {
    Reply(w.ip, DatagramSize(w.size), DatagramSize(w.size))
  }

  /** A size of at most 1472 bytes is used as it is, and 64 in place of a larger one, for the sequence number and
      the length; the right reply comes from the station asked, with both. */
  lemma SizeUsed(w: Wait, r: Reply)
    ensures DatagramSize(w.size) == if w.size <= 1472 then w.size else 64
    ensures r == RightReply(w) <==>
            && r.ip == w.ip && r.sequence == r.length
            && (w.size <= 1472 ==> r.length == w.size) && (w.size > 1472 ==> r.length == 64)
  {
  }

  predicate Answered(w: Wait, polls: seq<Poll>, k: nat)
    requires k <= |polls|
  {
    FirstReply(polls, k) == Some(RightReply(w))
  }

  predicate Stops(w: Wait, polls: seq<Poll>, k: nat)
    requires IsTimer(w.c) && k < |polls|
  {
    Answered(w, polls, k + 1) || Expired(w, polls, k + 1) || polls[k].rc != OK
  }

  function Result(w: Wait, polls: seq<Poll>, k: nat): nat
    requires IsTimer(w.c) && k < |polls|
  {
    if Answered(w, polls, k + 1) then OK
    else if Expired(w, polls, k + 1) then PING_TIME_OUT
    else polls[k].rc
  }

  /** The result of the round that ends the waiting: OK for the right reply; otherwise the timeout error if the
      count has passed the deadline, and else the error of reading the counter. */
  lemma ResultCodes(w: Wait, polls: seq<Poll>, k: nat)
    requires IsTimer(w.c) && k < |polls| && Stops(w, polls, k)
    ensures Result(w, polls, k) ==
            if Answered(w, polls, k + 1) then 0
            else if ReadingAt(w, polls, k + 1) > Deadline(w, polls, k + 1) then 0xa011
            else polls[k].rc
    ensures !Answered(w, polls, k + 1) ==> Result(w, polls, k) != 0
  {
    hide ReadingAt, Deadline, FirstReply;
  }

  /** None of the first n rounds ends the waiting. */
  predicate WaitsThrough(w: Wait, polls: seq<Poll>, n: nat)
    requires IsTimer(w.c) && n <= |polls|
  {
    forall k :: 0 <= k < n ==> !Stops(w, polls, k)
  }

  class Appl {
    var received: bool
    var reply: Reply
    var requests: seq<Request>

    constructor ()
      ensures !received && requests == []
    {
      received, reply, requests := false, Reply(0, 0, 0), [];
    }

    /** What the first k rounds have left here. */
    ghost predicate Holds(polls: seq<Poll>, k: nat)
      requires k <= |polls|
      reads this
    {
      FirstReply(polls, k) == if received then Some(reply) else None
    }

    /** NET_APPL_echo_reply: only the first reply is kept. */
    method EchoReply(r: Reply)
      modifies this`received, this`reply
      ensures received && reply == if old(received) then old(reply) else r
    {
      if !received {
        received := true;
        reply := r;
      }
    }

    /** NET_poll, as far as echo replies go. */
    method NetPoll(replies: seq<Reply>)
      modifies this`received, this`reply
      ensures received == (old(received) || replies != [])
      ensures reply == if !old(received) && replies != [] then replies[0] else old(reply)
    {
      var i := 0;
      while i < |replies|
        invariant i <= |replies| && received == (old(received) || i > 0)
        invariant reply == if !old(received) && i > 0 then replies[0] else old(reply)
      {
        EchoReply(replies[i]);
        i := i + 1;
      }
    }

    /** TEST_ping over the given rounds: the result and the round it comes in, or None if it still
        waits after the last. */
    method TestPing(w: Wait, polls: seq<Poll>) returns (rc: Option<nat>, k: nat)
      requires IsTimer(w.c)
      modifies this
      ensures k <= |polls| && WaitsThrough(w, polls, k)
      ensures rc.None? <==> k == |polls|
      ensures rc.Some? ==> k < |polls| && Stops(w, polls, k) && rc.value == Result(w, polls, k)
      ensures rc == Some(OK) <==> k < |polls| && FirstReply(polls, k + 1) == Some(RightReply(w))
      ensures requests == old(requests) + [Request(w.ip, DatagramSize(w.size), DatagramSize(w.size))]
    {
      var size := DatagramSize(w.size);
      received := false;
      requests := requests + [Request(w.ip, size, size)];
      var latest := w.first;
      var mstimout: uint32 := (latest + w.timeout) % WORD;
      rc, k := None, 0;
      while k < |polls| && rc.None?
        invariant k <= |polls| && WaitsThrough(w, polls, k)
        invariant requests == old(requests) + [Request(w.ip, size, size)]
        invariant rc.None? ==> Holds(polls, k) && latest == ReadingAt(w, polls, k)
        invariant rc.None? ==> mstimout == Deadline(w, polls, k)
        invariant rc.Some? ==> k < |polls| && Stops(w, polls, k) && rc.value == Result(w, polls, k)
        decreases |polls| - k, rc.None?
      {
        NetPoll(polls[k].replies);
        if received && size == reply.sequence && size == reply.length && w.ip == reply.ip {
          rc := Some(OK);
        } else {
          var previous := latest;
          var code := polls[k].rc;
          if code == OK {
            latest := Reading(w.c, polls[k].tick);
          }
          if latest < previous {
            mstimout := Less(mstimout, previous);
          }
          if latest > mstimout {
            code := PING_TIME_OUT;
          }
          if code != OK {
            rc := Some(code);
          } else {
            k := k + 1;
          }
        }
      }
    }
  }

  // ---------- the reply ----------

  /** The first reply decides: once a wrong one has come in, no later reply can end the waiting with
      OK. */
  lemma {:induction false} FirstReplyStays(polls: seq<Poll>, k: nat, n: nat)
    requires k <= n <= |polls| && FirstReply(polls, k).Some?
    ensures FirstReply(polls, n) == FirstReply(polls, k)
  {
    if k < n {
      FirstReplyStays(polls, k, n - 1);
    }
  }

  /** The waiting ends with OK exactly when the first reply of all is the right one. */
  lemma OkExactly(w: Wait, polls: seq<Poll>, k: nat)
    requires IsTimer(w.c) && k < |polls| && Stops(w, polls, k)
    ensures Result(w, polls, k) == OK <==> FirstReply(polls, k + 1) == Some(RightReply(w))
  {
  }

  /** In the round it ends in: exactly when no reply has come before, and the first of the round is right. */
  lemma OkInRoundExactly(w: Wait, polls: seq<Poll>, k: nat)
    requires IsTimer(w.c) && k < |polls| && Stops(w, polls, k) && WaitsThrough(w, polls, k)
    ensures Result(w, polls, k) == OK <==>
            FirstReply(polls, k).None? && polls[k].replies != [] && polls[k].replies[0] == RightReply(w)
  {
    OkExactly(w, polls, k);
    if k > 0 {
      assert !Stops(w, polls, k - 1);
    }
  }

  /** The right reply is among those of the first n rounds. */
  predicate RightArrives(w: Wait, polls: seq<Poll>, n: nat)
    requires n <= |polls|
  {
    exists k :: 0 <= k < n && RightReply(w) in polls[k].replies
  }

  lemma {:induction false} FirstReplyArrives(polls: seq<Poll>, n: nat) returns (k: nat)
    requires n <= |polls| && FirstReply(polls, n).Some?
    ensures k < n && polls[k].replies != [] && polls[k].replies[0] == FirstReply(polls, n).value
  {
    if FirstReply(polls, n - 1).Some? {
      k := FirstReplyArrives(polls, n - 1);
    } else {
      k := n - 1;
    }
  }

  /** A wrong reply shuts out a right one that arrives before the waiting ends, exactly when it comes
      first: the waiting ends with OK if and only if the right reply arrives and none comes before it. */
  lemma RightReplyCountsExactly(w: Wait, polls: seq<Poll>, n: nat)
    requires IsTimer(w.c) && n < |polls| && Stops(w, polls, n)
    ensures Result(w, polls, n) == OK ==> RightArrives(w, polls, n + 1)
    ensures RightArrives(w, polls, n + 1) ==>
              (Result(w, polls, n) == OK <==> FirstReply(polls, n + 1) == Some(RightReply(w)))
  {
    OkExactly(w, polls, n);
    if FirstReply(polls, n + 1) == Some(RightReply(w)) {
      var k := FirstReplyArrives(polls, n + 1);
      assert polls[k].replies[0] in polls[k].replies;
    }
  }

  /** Once a wrong reply has come first no later reply gives OK. */
  lemma WrongReplyShutsOut(w: Wait, polls: seq<Poll>, k: nat, n: nat)
    requires IsTimer(w.c) && k <= n < |polls| && FirstReply(polls, k).Some?
    requires FirstReply(polls, k) != Some(RightReply(w))
    ensures Stops(w, polls, n) ==> Result(w, polls, n) != OK
  {
    FirstReplyStays(polls, k, n + 1);
    if Stops(w, polls, n) {
      OkExactly(w, polls, n);
    }
  }

  const LATE_WAIT := Wait(7, 64, 1000, Timer(WORD, 1), 0, 0)

  const LATE_POLLS := [
    Poll([Reply(9, 64, 64)], 0, 1),
    Poll([Reply(7, 64, 64)], 0, 2),
    Poll([], 0, 1001)]

  /** The right reply arrives after 2 of 1000 milliseconds, but another station's came before it: the
      waiting ends with a timeout. */
  lemma WrongReplyFirst()
    ensures LATE_POLLS[1].replies == [RightReply(LATE_WAIT)] && IsTimer(LATE_WAIT.c)
    ensures WaitsThrough(LATE_WAIT, LATE_POLLS, 2) && Stops(LATE_WAIT, LATE_POLLS, 2)
    ensures Result(LATE_WAIT, LATE_POLLS, 2) == PING_TIME_OUT
  {
    hide Reading;
    var w, p := LATE_WAIT, LATE_POLLS;
    SmallReading(0);
    SmallReading(1);
    SmallReading(2);
    SmallReading(1001);
    assert FirstReply(p, 0) == None;
    assert FirstReply(p, 1) == Some(Reply(9, 64, 64));
    FirstReplyStays(p, 1, 2);
    FirstReplyStays(p, 1, 3);
    assert ReadingAt(w, p, 0) == 0 && ReadingAt(w, p, 1) == 1;
    assert ReadingAt(w, p, 2) == 2 && ReadingAt(w, p, 3) == 1001;
    assert Deadline(w, p, 0) == 1000 && Deadline(w, p, 1) == 1000;
    assert Deadline(w, p, 2) == 1000 && Deadline(w, p, 3) == 1000;
    assert !Stops(w, p, 0) && !Stops(w, p, 1);
  }

  lemma SmallReading(t: uint32)
    ensures Reading(Timer(WORD, 1), t) == t
  {
  }

  // ---------- the deadline ----------

  /** Ticks in whole periods before t. */
  function Base(p: nat, t: nat): (b: nat)
    requires p > 0
    ensures b + t % p == t
  {
    ReadingBound(t, p);
    t / p * p
  }

  lemma Bases(p: nat, t: nat, t': nat)
    requires p > 0 && t <= t'
    ensures Base(p, t) <= Base(p, t')
    ensures t' % p < t % p ==> Base(p, t) + p <= Base(p, t')
    ensures t' - t < p ==> Base(p, t') <= Base(p, t) + p
    ensures t' - t < p && t' % p >= t % p ==> Base(p, t') == Base(p, t)
  {
    var q, q' := t / p, t' / p;
    Quotients(t, t', p);
    Times(q, q', p);
    if q < q' {
      NextMultiple(q, q', p);
    }
    if q + 1 < q' {
      NextMultiple(q + 1, q', p);
    }
  }

  lemma NextMultiple(q: nat, q': nat, p: nat)
    requires q < q'
    ensures q * p + p == (q + 1) * p <= q' * p
  {
    Times(q + 1, q', p);
  }

  lemma Times(a: nat, b: nat, p: nat)
    requires a <= b
    ensures a * p <= b * p
  {
  }

  /** The first read succeeds, the counter is read at times that do not go back, and neither it nor the
      timeout leaves 32 bits. */
  predicate Regular(w: Wait, polls: seq<Poll>) {
    && IsTimer(w.c) && w.first == Reading(w.c, w.start) && (w.c.period - 1) / w.c.perMs + w.timeout < WORD
    && forall k :: 0 <= k < |polls| ==> Tick(w.start, polls, k) <= Tick(w.start, polls, k + 1)
  }

  /** The deadline, as a tick of the period the counter is in, is never earlier than it should be. */
  predicate NotEarly(w: Wait, polls: seq<Poll>, k: nat)
    requires IsTimer(w.c) && k <= |polls|
  {
    Deadline(w, polls, k) * w.c.perMs + Base(w.c.period, Tick(w.start, polls, k)) + w.c.perMs
    > w.start + w.timeout * w.c.perMs
  }

  /** One round neither underflows the deadline nor makes it earlier. */
  lemma DeadlineStep(w: Wait, polls: seq<Poll>, k: nat)
    requires Regular(w, polls) && k < |polls|
    requires ReadingAt(w, polls, k) <= Deadline(w, polls, k)
    ensures var d, d' := Deadline(w, polls, k), Deadline(w, polls, k + 1);
      var r, r' := ReadingAt(w, polls, k), ReadingAt(w, polls, k + 1);
      d' == if r' < r then d - r else d
  {
    hide Reading;
    LessIsMinus(Deadline(w, polls, k), ReadingAt(w, polls, k));
  }

  lemma LessIsMinus(d: uint32, r: uint32)
    ensures r <= d ==> Less(d, r) == d - r
  {
  }

  lemma StartsInTime(w: Wait, polls: seq<Poll>)
    requires Regular(w, polls)
    ensures NotEarly(w, polls, 0) && ReadingAt(w, polls, 0) <= Deadline(w, polls, 0)
    ensures Deadline(w, polls, 0) == ReadingAt(w, polls, 0) + w.timeout
  {
    var c, x := w.c, w.start % w.c.period;
    var r := x / c.perMs;
    ReadingBound(x, c.perMs);
    Quotients(x, c.period - 1, c.perMs);
    assert Deadline(w, polls, 0) == r + w.timeout;
    assert (r + w.timeout) * c.perMs == r * c.perMs + w.timeout * c.perMs;
  }

  lemma Quotients(a: nat, b: nat, d: nat)
    requires a <= b && d > 0
    ensures a / d <= b / d
  {
    ReadingBound(a, d);
    ReadingBound(b, d);
    if a / d > b / d {
      NextMultiple(b / d, a / d, d);
    }
  }

  /** While the waiting goes on every read succeeds; the read of the round that ends it may fail. */
  lemma RoundReading(w: Wait, polls: seq<Poll>, k: nat)
    requires Regular(w, polls) && k < |polls| && WaitsThrough(w, polls, k)
    ensures ReadingAt(w, polls, k) == Reading(w.c, Tick(w.start, polls, k))
    ensures ReadingAt(w, polls, k + 1) ==
            if polls[k].rc == OK then Reading(w.c, Tick(w.start, polls, k + 1)) else ReadingAt(w, polls, k)
  {
    if k > 0 {
      assert !Stops(w, polls, k - 1);
    }
  }

  /** Before the round that may end the waiting the count has not passed the deadline. */
  lemma NotYetExpired(w: Wait, polls: seq<Poll>, k: nat)
    requires Regular(w, polls) && k <= |polls| && WaitsThrough(w, polls, k)
    ensures ReadingAt(w, polls, k) <= Deadline(w, polls, k)
  {
    hide Deadline, Reading, ReadingAt;
    if k > 0 {
      assert !Stops(w, polls, k - 1);
    } else {
      StartsInTime(w, polls);
    }
  }

  lemma NotEarlyStep(w: Wait, polls: seq<Poll>, k: nat)
    requires Regular(w, polls) && k < |polls| && NotEarly(w, polls, k) && WaitsThrough(w, polls, k)
    ensures NotEarly(w, polls, k + 1)
  {
    hide Deadline, Reading, Base, ReadingAt, Expired;
    NotYetExpired(w, polls, k);
    DeadlineStep(w, polls, k);
    RoundReading(w, polls, k);
    var c, t, t' := w.c, Tick(w.start, polls, k), Tick(w.start, polls, k + 1);
    Bases(c.period, t, t');
    ReadingIs(c, t);
    SmallerShows(c, t, t');
    LessTimes(Deadline(w, polls, k), Reading(c, t), c.perMs);
  }

  lemma LessTimes(d: nat, r: nat, n: nat)
    ensures (d - r) * n == d * n - r * n
  {
  }

  /** The count goes down only when the counter has wrapped. */
  lemma SmallerShows(c: Timer, t: nat, t': nat)
    requires IsTimer(c)
    ensures Reading(c, t') < Reading(c, t) ==> t' % c.period < t % c.period
  {
    if t % c.period <= t' % c.period {
      Quotients(t % c.period, t' % c.period, c.perMs);
    }
  }

  lemma {:induction false} AlwaysNotEarly(w: Wait, polls: seq<Poll>, k: nat)
    requires Regular(w, polls) && k <= |polls| && (k > 0 ==> WaitsThrough(w, polls, k - 1))
    ensures NotEarly(w, polls, k)
  {
    hide Deadline, Reading;
    StartsInTime(w, polls);
    if k > 0 {
      AlwaysNotEarly(w, polls, k - 1);
      NotEarlyStep(w, polls, k - 1);
    }
  }

  /** A round in which the waiting expires has read the counter. */
  lemma ExpiredWasRead(w: Wait, polls: seq<Poll>, k: nat)
    requires Regular(w, polls) && k < |polls| && WaitsThrough(w, polls, k)
    requires Expired(w, polls, k + 1)
    ensures Reading(w.c, polls[k].tick) > Deadline(w, polls, k + 1)
  {
    hide Deadline, Reading, ReadingAt;
    NotYetExpired(w, polls, k);
    DeadlineStep(w, polls, k);
    RoundReading(w, polls, k);
  }

  /** TEST_ping never reports a timeout before the requested milliseconds have passed, however often
      the counter wraps, however long the rounds are, and even if a read fails. */
  lemma NeverEarly(w: Wait, polls: seq<Poll>, k: nat)
    requires Regular(w, polls) && k < |polls| && WaitsThrough(w, polls, k)
    requires Expired(w, polls, k + 1)
    ensures polls[k].tick > w.start + w.timeout * w.c.perMs
  {
    hide Deadline, Reading, ReadingAt, Expired, Base;
    AlwaysNotEarly(w, polls, k + 1);
    ExpiredWasRead(w, polls, k);
    var d, r := Deadline(w, polls, k + 1), Reading(w.c, polls[k].tick);
    ReadingIs(w.c, polls[k].tick);
    NextMultiple(d, r, w.c.perMs);
  }

  // ---------- how late ----------

  /** What the wraps seen in the first k rounds may add to the deadline: for each the round it was seen
      in, and a millisecond. */
  function Slip(w: Wait, polls: seq<Poll>, k: nat): nat
    requires Regular(w, polls) && k <= |polls|
  {
    if k == 0 then 0
    else
      var t, t' := Tick(w.start, polls, k - 1), Tick(w.start, polls, k);
      Slip(w, polls, k - 1) + if Base(w.c.period, t') > Base(w.c.period, t) then t' - t + w.c.perMs else 0
  }

  /** Rounds are shorter than the counter's period by at least a millisecond, so that every wrap shows. */
  predicate ShortRounds(w: Wait, polls: seq<Poll>) {
    forall k :: 0 <= k < |polls| ==> Tick(w.start, polls, k + 1) - Tick(w.start, polls, k) + w.c.perMs <= w.c.period
  }

  predicate NotLate(w: Wait, polls: seq<Poll>, k: nat)
    requires Regular(w, polls) && k <= |polls|
  {
    Deadline(w, polls, k) * w.c.perMs + Base(w.c.period, Tick(w.start, polls, k))
    <= w.start + w.timeout * w.c.perMs + Slip(w, polls, k)
  }

  /** A counter that has wrapped in a short round shows a smaller number of milliseconds. */
  lemma WrapShows(c: Timer, t: nat, t': nat)
    requires IsTimer(c) && t <= t' && t' - t + c.perMs <= c.period
    ensures Base(c.period, t') > Base(c.period, t) ==>
            Base(c.period, t') == Base(c.period, t) + c.period && Reading(c, t') < Reading(c, t)
    ensures Base(c.period, t') == Base(c.period, t) ==> Reading(c, t') >= Reading(c, t)
  {
    Bases(c.period, t, t');
    if Base(c.period, t') > Base(c.period, t) {
      SmallerQuotient(t' % c.period, t % c.period, c.perMs);
    } else {
      Quotients(t % c.period, t' % c.period, c.perMs);
    }
  }

  lemma SmallerQuotient(a: nat, b: nat, d: nat)
    requires d > 0 && a + d <= b
    ensures a / d < b / d
  {
    ReadingBound(a, d);
    ReadingBound(b, d);
    if b / d <= a / d {
      Times(b / d, a / d, d);
    }
  }

  lemma NotLateStep(w: Wait, polls: seq<Poll>, k: nat)
    requires Regular(w, polls) && ShortRounds(w, polls) && k < |polls| && NotLate(w, polls, k)
    requires WaitsThrough(w, polls, k + 1)
    ensures NotLate(w, polls, k + 1)
  {
    hide Deadline, Reading, Base, ShortRounds, ReadingAt, Expired;
    assert !Stops(w, polls, k);
    NotYetExpired(w, polls, k);
    DeadlineStep(w, polls, k);
    RoundReading(w, polls, k);
    var c, t, t' := w.c, Tick(w.start, polls, k), Tick(w.start, polls, k + 1);
    ShortRound(w, polls, k);
    WrapShows(c, t, t');
    Bases(c.period, t, t');
    ReadingIs(c, t);
    WrapCosts(Deadline(w, polls, k), Reading(c, t), c, t, t');
  }

  lemma ShortRound(w: Wait, polls: seq<Poll>, k: nat)
    requires ShortRounds(w, polls) && k < |polls|
    ensures Tick(w.start, polls, k + 1) - Tick(w.start, polls, k) + w.c.perMs <= w.c.period
  {
  }

  /** Taking the last reading before a wrap off the deadline loses less than the round and a
      millisecond. */
  lemma WrapCosts(d: nat, r: nat, c: Timer, t: nat, t': nat)
    requires IsTimer(c) && t <= t' && r <= d && t % c.period < r * c.perMs + c.perMs
    ensures Base(c.period, t') == Base(c.period, t) + c.period ==>
            (d - r) * c.perMs + Base(c.period, t') <= d * c.perMs + Base(c.period, t) + (t' - t) + c.perMs
  {
    hide Base;
    assert (d - r) * c.perMs == d * c.perMs - r * c.perMs;
  }

  lemma ReadingIs(c: Timer, t: nat)
    requires IsTimer(c)
    ensures Reading(c, t) * c.perMs <= t % c.period < Reading(c, t) * c.perMs + c.perMs
  {
    ReadingBound(t % c.period, c.perMs);
  }

  lemma {:induction false} AlwaysNotLate(w: Wait, polls: seq<Poll>, k: nat)
    requires Regular(w, polls) && ShortRounds(w, polls) && k <= |polls| && WaitsThrough(w, polls, k)
    ensures NotLate(w, polls, k)
  {
    hide Deadline, Reading;
    StartsInTime(w, polls);
    if k > 0 {
      AlwaysNotLate(w, polls, k - 1);
      NotLateStep(w, polls, k - 1);
    } else {
      ReadingIs(w.c, w.start);
      Distribute(ReadingAt(w, polls, 0), w.timeout, w.c.perMs);
    }
  }

  lemma Distribute(a: nat, b: nat, d: nat)
    ensures (a + b) * d == a * d + b * d
  {
  }

  /** While TEST_ping still waits, no more than the requested time, a millisecond and the slip have
      passed: each wrap costs at most the round it is seen in and a millisecond. */
  lemma NeverMuchLater(w: Wait, polls: seq<Poll>, k: nat)
    requires Regular(w, polls) && ShortRounds(w, polls) && k < |polls| && WaitsThrough(w, polls, k + 1)
    ensures polls[k].tick < w.start + w.timeout * w.c.perMs + w.c.perMs + Slip(w, polls, k + 1)
  {
    hide Deadline, Reading, Slip, ReadingAt;
    AlwaysNotLate(w, polls, k + 1);
    NotYetExpired(w, polls, k + 1);
    assert !Stops(w, polls, k);
    RoundReading(w, polls, k);
    var d, r := Deadline(w, polls, k + 1), ReadingAt(w, polls, k + 1);
    ReadingIs(w.c, polls[k].tick);
    Times(r, d, w.c.perMs);
  }

  /** All rounds are at most g ticks long. */
  predicate RoundsWithin(w: Wait, polls: seq<Poll>, g: nat) {
    forall k :: 0 <= k < |polls| ==> Tick(w.start, polls, k + 1) - Tick(w.start, polls, k) <= g
  }

  lemma RoundWithin(w: Wait, polls: seq<Poll>, g: nat, k: nat)
    requires RoundsWithin(w, polls, g) && k < |polls|
    ensures Tick(w.start, polls, k + 1) - Tick(w.start, polls, k) <= g
  {
  }

  lemma WithinIsShort(w: Wait, polls: seq<Poll>, g: nat)
    requires Regular(w, polls) && RoundsWithin(w, polls, g) && g + w.c.perMs <= w.c.period
    ensures ShortRounds(w, polls)
  {
    forall k | 0 <= k < |polls| ensures Tick(w.start, polls, k + 1) - Tick(w.start, polls, k) + w.c.perMs <= w.c.period {
      RoundWithin(w, polls, g, k);
    }
  }

  /** The slip is at most a round and a millisecond for each period. */
  lemma {:induction false} SlipBound(w: Wait, polls: seq<Poll>, g: nat, k: nat)
    requires Regular(w, polls) && RoundsWithin(w, polls, g) && g + w.c.perMs <= w.c.period && k <= |polls|
    ensures Base(w.c.period, Tick(w.start, polls, k)) >= Base(w.c.period, w.start)
    ensures Slip(w, polls, k) * w.c.period <=
            (Base(w.c.period, Tick(w.start, polls, k)) - Base(w.c.period, w.start)) * (g + w.c.perMs)
  {
    if k > 0 {
      hide Base, RoundsWithin, Slip;
      SlipBound(w, polls, g, k - 1);
      var p, h, t, t' := w.c.period, g + w.c.perMs, Tick(w.start, polls, k - 1), Tick(w.start, polls, k);
      SlipStep(w, polls, g, k);
      SlipGrows(Slip(w, polls, k - 1), Base(p, t) - Base(p, w.start), p, h, t' - t + w.c.perMs);
    }
  }

  lemma SlipStep(w: Wait, polls: seq<Poll>, g: nat, k: nat)
    requires Regular(w, polls) && RoundsWithin(w, polls, g) && g + w.c.perMs <= w.c.period && 0 < k <= |polls|
    ensures var p, t, t' := w.c.period, Tick(w.start, polls, k - 1), Tick(w.start, polls, k);
      && 0 <= t' - t <= g
      && if Base(p, t') > Base(p, t) then
           Base(p, t') == Base(p, t) + p && Slip(w, polls, k) == Slip(w, polls, k - 1) + (t' - t + w.c.perMs)
         else Base(p, t') == Base(p, t) && Slip(w, polls, k) == Slip(w, polls, k - 1)
  {
    hide Base, Reading;
    RoundWithin(w, polls, g, k - 1);
    assert Tick(w.start, polls, k - 1) <= Tick(w.start, polls, k - 1 + 1);
    Bases(w.c.period, Tick(w.start, polls, k - 1), Tick(w.start, polls, k));
    WrapShows(w.c, Tick(w.start, polls, k - 1), Tick(w.start, polls, k));
  }

  lemma SlipGrows(s: nat, b: nat, p: nat, h: nat, d: nat)
    requires s * p <= b * h && d <= h
    ensures (s + d) * p <= (b + p) * h
  {
    Times(d, h, p);
    assert (s + d) * p == s * p + d * p;
    assert (b + p) * h == b * h + p * h;
    assert p * h == h * p;
  }

  /** While TEST_ping still waits, with rounds of at most g ticks and g and a millisecond less than the
      period, the time e that has passed is bounded: e (period - g - 1 ms) < period (timeout + 2 ms + g). */
  lemma WaitIsBounded(w: Wait, polls: seq<Poll>, g: nat, k: nat)
    requires Regular(w, polls) && RoundsWithin(w, polls, g) && g + w.c.perMs <= w.c.period
    requires k < |polls| && WaitsThrough(w, polls, k + 1)
    ensures (polls[k].tick - w.start) * (w.c.period - (g + w.c.perMs)) <
            w.c.period * (w.timeout * w.c.perMs + w.c.perMs + (g + w.c.perMs))
  {
    hide Slip, Deadline, Base, Reading, ReadingAt, RoundsWithin;
    WithinIsShort(w, polls, g);
    NeverMuchLater(w, polls, k);
    SlipBound(w, polls, g, k + 1);
    TicksAscend(w, polls, k + 1);
    var p, h, e := w.c.period, g + w.c.perMs, polls[k].tick - w.start;
    var b := Base(p, polls[k].tick) - Base(p, w.start);
    assert b <= e + p;
    BoundArithmetic(e, b, p, h, w.timeout * w.c.perMs + w.c.perMs, Slip(w, polls, k + 1));
  }

  lemma {:induction false} TicksAscend(w: Wait, polls: seq<Poll>, k: nat)
    requires Regular(w, polls) && k <= |polls|
    ensures Tick(w.start, polls, k) >= w.start
  {
    if k > 0 {
      TicksAscend(w, polls, k - 1);
      assert Tick(w.start, polls, k - 1) <= Tick(w.start, polls, k - 1 + 1);
    }
  }

  lemma BoundArithmetic(e: nat, b: nat, p: nat, h: nat, a: nat, s: nat)
    requires 0 < p && h <= p && e < a + s && s * p <= b * h && b <= e + p
    ensures e * (p - h) < p * (a + h)
  {
    Times(b, e + p, h);
    assert (e + p) * h == e * h + p * h;
    Times(e + 1, a + s, p);
    assert (e + 1) * p == e * p + p;
    assert (a + s) * p == a * p + s * p;
    assert e * (p - h) == e * p - e * h;
    assert p * (a + h) == a * p + p * h;
  }

  /** So the waiting ends: by the first round behind that bound it has stopped. */
  lemma WaitEnds(w: Wait, polls: seq<Poll>, g: nat, k: nat)
    requires Regular(w, polls) && RoundsWithin(w, polls, g) && g + w.c.perMs <= w.c.period && k < |polls|
    requires (polls[k].tick - w.start) * (w.c.period - (g + w.c.perMs)) >=
             w.c.period * (w.timeout * w.c.perMs + w.c.perMs + (g + w.c.perMs))
    ensures exists n :: 0 <= n <= k && Stops(w, polls, n)
  {
    if WaitsThrough(w, polls, k + 1) {
      WaitIsBounded(w, polls, g, k);
    }
  }
}

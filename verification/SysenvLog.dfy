/** The record log in which sysenv/sysenv.c keeps the environment: the records of the file flash,
    what a log of them stands for, and what the lookup table makes readable. */
module SysenvLog {
  import opened Machine
  import opened Wrappers
  import EnvSpec

  const SLOTS := EnvSpec.MAX_VARS
  const DATA_SIZE := EnvSpec.DATA_SIZE

  const FREE: byte := 0xff
  const IN_USE: byte := 0x42

  datatype Header = Header(control: byte, sum: byte, id: byte, size: byte)

  datatype Place = Place(head: Header, data: seq<byte>)

  /** One place of the file flash: four header bytes and the data bytes. */
  type Elem = e: Place | |e.data| == DATA_SIZE
    witness Place(Header(0, 0, 0, 0), seq(DATA_SIZE, _ => 0))

  datatype Code = OK | VAR_TOO_BIG | NO_VARIABLE | INVALID_INDEX | UPDATE_READ_REFS | FLASH_INVALID | DRIVER(code: nat)

  /** How the flash driver answers: done and verified, or an error and what is then in each place. */
  datatype Answer = Done | Refused(code: nat, left: nat -> Elem)

  /** The answers to the k-th request, for a record to be programmed and for the area to be erased. */
  datatype Driver = Driver(program: nat -> Answer, erase: nat -> Answer)

  // ---------- one record ----------

  function Blank(): (e: Elem)
    ensures Erased(e)
  {
    Place(Header(FREE, FREE, FREE, FREE), seq(DATA_SIZE, _ => FREE))
  }

  predicate Erased(e: Elem) {
    && e.head == Header(FREE, FREE, FREE, FREE)
    && forall i :: 0 <= i < DATA_SIZE ==> e.data[i] == FREE
  }

  function Content(e: Elem): (data: seq<byte>)
    ensures |data| <= DATA_SIZE && |data| <= e.head.size
  {
    e.data[..Min(e.head.size, DATA_SIZE)]
  }

  predicate Checks(e: Elem) {
    e.head.sum == ByteSum(Content(e)) % 256
  }

  /** A record initialisation accepts; the checksum of a deletion is not looked at. */
  predicate Good(e: Elem) {
    && e.head.control == IN_USE && e.head.id < SLOTS && e.head.size <= DATA_SIZE
    && (e.head.size > 0 ==> Checks(e))
  }

  /** SYSENV_check_inuse_record */
  predicate Intact(e: Elem, index: nat) {
    e.head.control == IN_USE && e.head.id == index && e.head.size <= DATA_SIZE && Checks(e)
  }

  function HeaderFor(id: nat, data: seq<byte>): Header
    requires id < SLOTS && |data| <= DATA_SIZE
  {
    Header(IN_USE, ByteSum(data) % 256, id, |data|)
  }

  /** A header and data over what a place holds; the bytes behind the data stay. */
  function Overlaid(e: Elem, head: Header, data: seq<byte>): Elem
    requires |data| <= DATA_SIZE
  {
    Place(head, data + e.data[|data|..])
  }

  lemma OverlaidIs(e: Elem, id: nat, data: seq<byte>)
    requires id < SLOTS && |data| <= DATA_SIZE
    ensures var e' := Overlaid(e, HeaderFor(id, data), data);
      Content(e') == data && Good(e') && Intact(e', id)
  {
    assert (data + e.data[|data|..])[..|data|] == data;
  }

  /** An intact record over another place: the same content and the same header. */
  lemma CopyIs(e: Elem, src: Elem, id: nat)
    requires Intact(src, id) && id < SLOTS
    ensures var e' := Overlaid(e, src.head, Content(src));
      Content(e') == Content(src) && Good(e') && Intact(e', id)
  {
    assert src.head == HeaderFor(id, Content(src));
    OverlaidIs(e, id, Content(src));
  }

  // ---------- what a log stands for ----------

  type Contents = map<nat, seq<byte>>

  /** Nothing else, and nothing other. */
  predicate Part(v: Contents, v': Contents) {
    forall i :: i in v ==> i in v' && v[i] == v'[i]
  }

  /** A write of empty data deletes. */
  function Applied(m: Contents, id: nat, data: seq<byte>): Contents {
    if data == [] then m - {id} else m[id := data]
  }

  /** The last record of each index counts. */
  function Replay(log: seq<Elem>): Contents {
    if log == [] then map[]
    else
      var e := log[|log| - 1];
      Applied(Replay(log[..|log| - 1]), e.head.id, Content(e))
  }

  predicate AllGood(cells: seq<Elem>, n: nat) {
    n <= |cells| && forall k :: 0 <= k < n ==> Good(cells[k])
  }

  predicate ErasedFrom(cells: seq<Elem>, n: nat) {
    forall k :: n <= k < |cells| ==> Erased(cells[k])
  }

  /** n records and nothing behind them. */
  predicate IsLog(cells: seq<Elem>, n: nat) {
    AllGood(cells, n) && ErasedFrom(cells, n)
  }

  lemma ReplayStep(cells: seq<Elem>, n: nat, e: Elem)
    requires n < |cells|
    ensures Replay(cells[n := e][..n + 1]) == Applied(Replay(cells[..n]), e.head.id, Content(e))
  {
    assert cells[n := e][..n + 1][..n] == cells[..n];
  }

  /** The number of records is determined by the cells. */
  lemma LogEndsOnce(cells: seq<Elem>, n: nat, k: nat)
    requires IsLog(cells, n) && IsLog(cells, k)
    ensures n == k
  {
    NotLonger(cells, n, k);
    NotLonger(cells, k, n);
  }

  lemma NotLonger(cells: seq<Elem>, n: nat, k: nat)
    requires ErasedFrom(cells, n) && AllGood(cells, k)
    ensures k <= n
  {
    NoneBoth(cells);
    assert n < |cells| ==> !Good(cells[n]);
  }

  lemma NoneBoth(cells: seq<Elem>)
    ensures forall k :: 0 <= k < |cells| ==> !(Good(cells[k]) && Erased(cells[k]))
  {
  }

  // ---------- what the lookup table makes readable ----------

  /** Every reference leads to an intact record of its index among the first n places. */
  predicate Sound(cells: seq<Elem>, lookup: seq<Option<nat>>, n: nat) {
    && n <= |cells| && |lookup| == SLOTS
    && forall i :: 0 <= i < SLOTS && lookup[i].Some? ==> lookup[i].value < n && Intact(cells[lookup[i].value], i)
  }

  predicate Readable(cells: seq<Elem>, lookup: seq<Option<nat>>, n: nat, i: nat)
    requires Sound(cells, lookup, n)
  {
    i < SLOTS && lookup[i].Some? && Content(cells[lookup[i].value]) != []
  }

  /** Only valid indices, and nothing empty. */
  predicate IsView(v: Contents) {
    forall i :: i in v ==> i < SLOTS && v[i] != []
  }

  function View(cells: seq<Elem>, lookup: seq<Option<nat>>, n: nat): (v: Contents)
    requires Sound(cells, lookup, n)
    ensures IsView(v)
  {
    map i: nat | i < SLOTS && Readable(cells, lookup, n, i) :: Content(cells[lookup[i].value])
  }

  lemma NothingReadable(cells: seq<Elem>, lookup: seq<Option<nat>>, n: nat)
    requires n <= |cells| && |lookup| == SLOTS && forall i :: 0 <= i < SLOTS ==> lookup[i] == None
    ensures Sound(cells, lookup, n) && View(cells, lookup, n) == map[]
  {
  }

  /** A record behind the others that the table refers to, or does not because it deletes. */
  lemma RecordAdded(cells: seq<Elem>, lookup: seq<Option<nat>>, n: nat, e: Elem, to: Option<nat>)
    requires Sound(cells, lookup, n) && n < |cells| && e.head.id < SLOTS
    requires if to == None then Content(e) == [] else to == Some(n) && Intact(e, e.head.id)
    ensures var cells', lookup' := cells[n := e], lookup[e.head.id := to];
      Sound(cells', lookup', n + 1) && View(cells', lookup', n + 1) == Applied(View(cells, lookup, n), e.head.id, Content(e))
  {
    var cells', lookup' := cells[n := e], lookup[e.head.id := to];
    forall i | 0 <= i < SLOTS && lookup'[i].Some?
      ensures lookup'[i].value < n + 1 && Intact(cells'[lookup'[i].value], i)
    {
    }
    var v, v' := View(cells, lookup, n), View(cells', lookup', n + 1);
    forall i: nat | i < SLOTS
      ensures i in v' <==> i in Applied(v, e.head.id, Content(e))
      ensures i in v' ==> v'[i] == Applied(v, e.head.id, Content(e))[i]
    {
      assert i != e.head.id ==> lookup'[i] == lookup[i];
    }
  }

  /** Only the first n places matter. */
  lemma OthersChange(cells: seq<Elem>, cells': seq<Elem>, lookup: seq<Option<nat>>, n: nat)
    requires Sound(cells, lookup, n) && |cells'| == |cells| && cells'[..n] == cells[..n]
    ensures Sound(cells', lookup, n) && View(cells', lookup, n) == View(cells, lookup, n)
  {
    assert forall k :: 0 <= k < n ==> cells'[k] == cells'[..n][k] == cells[..n][k] == cells[k];
  }

  /** A record the table refers to, behind a log that stands for what can be read. */
  lemma LogGrows(cells: seq<Elem>, lookup: seq<Option<nat>>, n: nat, e: Elem)
    requires Sound(cells, lookup, n) && n < |cells| && AllGood(cells, n) && Replay(cells[..n]) == View(cells, lookup, n)
    requires e.head.id < SLOTS && Good(e) && Intact(e, e.head.id) && ErasedFrom(cells, n + 1)
    ensures var cells', lookup' := cells[n := e], lookup[e.head.id := Some(n)];
      && Sound(cells', lookup', n + 1) && IsLog(cells', n + 1)
      && View(cells', lookup', n + 1) == Applied(View(cells, lookup, n), e.head.id, Content(e))
      && Replay(cells'[..n + 1]) == View(cells', lookup', n + 1)
  {
    hide View, Sound, Intact, Replay, Good, Erased;
    RecordAdded(cells, lookup, n, e, Some(n));
    ReplayStep(cells, n, e);
    var cells' := cells[n := e];
    assert forall k :: n + 1 <= k < |cells| ==> cells'[k] == cells[k];
  }

  /** A damaged next free place changes nothing before it. */
  lemma NextStained(cells: seq<Elem>, lookup: seq<Option<nat>>, n: nat, e: Elem)
    requires Sound(cells, lookup, n) && n < |cells|
    ensures var cells' := cells[n := e];
      && Sound(cells', lookup, n) && View(cells', lookup, n) == View(cells, lookup, n)
      && cells'[..n] == cells[..n] && (AllGood(cells, n) ==> AllGood(cells', n))
      && (ErasedFrom(cells, n + 1) ==> ErasedFrom(cells', n + 1))
  {
    hide View, Sound, Good, Erased;
    var cells' := cells[n := e];
    OthersChange(cells, cells', lookup, n);
    assert forall k :: n + 1 <= k < |cells| ==> cells'[k] == cells[k];
  }

  // ---------- garbage collection ----------

  /** The indices below i. */
  function Kept(v: Contents, i: nat): Contents {
    map k: nat | k in v && k < i :: v[k]
  }

  lemma KeptStep(v: Contents, i: nat)
    ensures Kept(v, i + 1) == if i in v then Kept(v, i)[i := v[i]] else Kept(v, i)
    ensures |Kept(v, i + 1)| == |Kept(v, i)| + (if i in v then 1 else 0)
  {
    if i in v {
      assert Kept(v, i + 1) == Kept(v, i)[i := v[i]];
      assert Kept(v, i + 1).Keys == Kept(v, i).Keys + {i};
      KeysCount(Kept(v, i));
      KeysCount(Kept(v, i + 1));
    } else {
      assert Kept(v, i + 1) == Kept(v, i);
    }
  }

  lemma KeptNone(v: Contents)
    ensures Kept(v, 0) == map[]
  {
  }

  lemma KeysCount(v: Contents)
    ensures |v.Keys| == |v|
  {
  }

  lemma {:induction false} KeptSize(v: Contents, i: nat)
    ensures |Kept(v, i)| <= i
  {
    if i == 0 {
      assert Kept(v, 0) == map[];
    } else {
      KeptSize(v, i - 1);
      KeptStep(v, i - 1);
    }
  }

  lemma KeptAll(v: Contents)
    requires IsView(v)
    ensures Kept(v, SLOTS) == v && |v| <= SLOTS
  {
    assert Kept(v, SLOTS) == v;
    KeptSize(v, SLOTS);
  }

  lemma {:induction false} KeptGrows(v: Contents, i: nat, j: nat)
    requires i <= j
    ensures |Kept(v, i)| <= |Kept(v, j)|
    decreases j - i
  {
    if i < j {
      KeptStep(v, i);
      KeptGrows(v, i + 1, j);
    }
  }

  /** The RAM copy of index i: its record, or a header of size 0. */
  predicate Cached(e: Elem, v: Contents, i: nat) {
    if i in v then Intact(e, i) && Content(e) == v[i] else e.head.size == 0
  }

  // ---------- what a write does ----------

  /** The answer to request j when requests are counted from `first` on and a full log is erased first. */
  function AnswerTo(d: Driver, full: bool, first: nat, j: nat): Answer {
    if full && j == first then d.erase(j) else d.program(j)
  }

  ghost predicate AllDone(d: Driver, full: bool, first: nat, n: nat) {
    forall j: nat :: first <= j < n ==> AnswerTo(d, full, first, j).Done?
  }

  /** The number of requests a write makes when none is refused. */
  function Needed(v: Contents, full: bool): nat {
    if full then 2 + |v| else 1
  }

  /** The last of the requests up to n was refused, with this code. */
  ghost predicate RefusedAt(d: Driver, full: bool, first: nat, n: nat, code: Code) {
    && first < n && AllDone(d, full, first, n - 1)
    && AnswerTo(d, full, first, n - 1).Refused?
    && code == DRIVER(AnswerTo(d, full, first, n - 1).code)
  }

  /** What is left when collecting stops after m records have been written again: the m lowest indices. */
  ghost predicate Lowest(v: Contents, m: nat, w: Contents) {
    |w| == m && exists i: nat :: i <= SLOTS && w == Kept(v, i)
  }

  /** The m lowest indices, or those from i on if there are not so many below. */
  function LowestOf(v: Contents, m: nat, i: nat): Contents
    decreases SLOTS - i
  {
    if i >= SLOTS || |Kept(v, i)| == m then Kept(v, i) else LowestOf(v, m, i + 1)
  }

  lemma LowestIs(v: Contents, m: nat, w: Contents)
    requires Lowest(v, m, w)
    ensures w == LowestOf(v, m, 0)
  {
    var k: nat :| k <= SLOTS && w == Kept(v, k);
    LowestFrom(v, m, 0, k);
  }

  lemma {:induction false} LowestFrom(v: Contents, m: nat, i: nat, k: nat)
    requires i <= k <= SLOTS && |Kept(v, k)| == m
    ensures LowestOf(v, m, i) == Kept(v, k)
    decreases k - i
  {
    if |Kept(v, i)| == m {
      SameSizeKept(v, i, k);
    } else {
      LowestFrom(v, m, i + 1, k);
    }
  }

  lemma {:induction false} SameSizeKept(v: Contents, i: nat, k: nat)
    requires i <= k && |Kept(v, i)| == |Kept(v, k)|
    ensures Kept(v, i) == Kept(v, k)
    decreases k - i
  {
    if i < k {
      KeptStep(v, i);
      KeptGrows(v, i + 1, k);
      SameSizeKept(v, i + 1, k);
    }
  }

  /** The first request from j on that is refused, or n. */
  function FirstRefusal(d: Driver, full: bool, first: nat, j: nat, n: nat): (r: nat)
    requires j <= n
    ensures j <= r <= n && (r < n ==> AnswerTo(d, full, first, r).Refused?)
    decreases n - j
  {
    if j == n || AnswerTo(d, full, first, j).Refused? then j else FirstRefusal(d, full, first, j + 1, n)
  }

  lemma {:induction false} NoRefusal(d: Driver, full: bool, first: nat, j: nat, n: nat)
    requires first <= j <= n && AllDone(d, full, first, n)
    ensures FirstRefusal(d, full, first, j, n) == n
    decreases n - j
  {
    if j < n {
      assert AnswerTo(d, full, first, j).Done?;
      NoRefusal(d, full, first, j + 1, n);
    }
  }

  lemma {:induction false} RefusalIs(d: Driver, full: bool, first: nat, j: nat, n: nat, calls: nat, code: Code)
    requires RefusedAt(d, full, first, calls, code) && first <= j < calls <= n
    ensures FirstRefusal(d, full, first, j, n) == calls - 1
    decreases n - j
  {
    if j < calls - 1 {
      assert AnswerTo(d, full, first, j).Done?;
      RefusalIs(d, full, first, j + 1, n, calls, code);
    }
  }

  /** The error of a write that is not carried out. */
  function WriteError(ok: bool, index: nat, data: seq<byte>): Code {
    if !ok then FLASH_INVALID
    else if index >= SLOTS then INVALID_INDEX
    else if |data| > DATA_SIZE then VAR_TOO_BIG
    else OK
  }

  /** A write is carried out exactly for an index up to 99 and up to 124 bytes in a usable store; every other one
      has the code of its first fault. */
  lemma WriteErrorsExactly(ok: bool, index: nat, data: seq<byte>)
    ensures var e := WriteError(ok, index, data);
      && (e == OK <==> ok && index <= 99 && |data| <= 124)
      && (e == FLASH_INVALID <==> !ok)
      && (e == INVALID_INDEX <==> ok && index > 99)
      && (e == VAR_TOO_BIG <==> ok && index <= 99 && |data| > 124)
  {
  }

  /** The bytes of a record: 0x42, the sum, the index and the size of its data, then the data. */
  lemma RecordBytes(e: Elem, id: nat, data: seq<byte>)
    requires id <= 99 && |data| <= 124
    ensures var e' := Overlaid(e, HeaderFor(id, data), data);
      && e'.head == Header(0x42, ByteSum(data) % 256, id, |data|)
      && e'.data[..|data|] == data && e'.data[|data|..] == e.data[|data|..]
    ensures Erased(e) <==> e.head == Header(255, 255, 255, 255) && forall i :: 0 <= i < 124 ==> e.data[i] == 255
  {
  }

  /** Initialisation accepts a record exactly if it is marked as one and its index and size are possible; the
      checksum of a deletion need not be right. */
  lemma GoodExactly(e: Elem)
    ensures Good(e) <==>
            && e.head.control == 0x42 && e.head.id <= 99 && e.head.size <= 124
            && (e.head.size == 0 || e.head.sum == ByteSum(e.data[..Min(e.head.size, 124)]) % 256)
  {
  }

  // ---------- initialisation ----------

  /** What initialisation accepts: a log, and if it fills the area, only when the number of the next
      free place, which is then not set, happens to be right already. */
  ghost predicate Accepted(cells: seq<Elem>, stale: nat) {
    exists n: nat :: n <= |cells| && IsLog(cells, n) && (n == |cells| ==> stale == n)
  }

  /** A log is accepted exactly when it does not fill the area. */
  lemma AcceptedExactly(cells: seq<Elem>, n: nat, stale: nat)
    requires IsLog(cells, n) && stale < |cells|
    ensures Accepted(cells, stale) <==> n < |cells|
  {
    if Accepted(cells, stale) {
      var k: nat :| k <= |cells| && IsLog(cells, k) && (k == |cells| ==> stale == k);
      LogEndsOnce(cells, n, k);
    }
  }

  /** Neither a record nor free, or free with something behind it: no log. */
  lemma NotAccepted(cells: seq<Elem>, n: nat, k: nat, stale: nat)
    requires AllGood(cells, n) && n <= k < |cells| && !Good(cells[n]) && !Erased(cells[k])
    ensures !Accepted(cells, stale)
  {
    forall j: nat ensures !IsLog(cells, j) {
      NoLog(cells, n, k, j);
    }
  }

  lemma NoLog(cells: seq<Elem>, n: nat, k: nat, j: nat)
    requires AllGood(cells, n) && n <= k < |cells| && !Good(cells[n]) && !Erased(cells[k])
    ensures !IsLog(cells, j)
  {
    hide Good, Erased;
  }

  /** Programming the next record has stopped half-way, and the area is read again: accepted exactly
      when the place is still erased, or is a record and not the last place. */
  lemma InterruptedExactly(cells: seq<Elem>, n: nat, e: Elem)
    requires IsLog(cells, n) && n < |cells|
    ensures Accepted(cells[n := e], 0) <==> Erased(e) || (Good(e) && n + 1 < |cells|)
    ensures Replay(cells[n := e][..n]) == Replay(cells[..n])
    ensures Replay(cells[n := e][..n + 1]) == Applied(Replay(cells[..n]), e.head.id, Content(e))
  {
    hide Good, Erased, Replay, Content;
    var cells' := cells[n := e];
    assert cells'[..n] == cells[..n];
    ReplayStep(cells, n, e);
    if Erased(e) {
      AcceptedExactly(cells', n, 0);
    } else if Good(e) {
      AcceptedExactly(cells', n + 1, 0);
    } else {
      NotAccepted(cells', n, n, 0);
    }
  }

  /** Programming the byte 1 has stopped behind the header: the area is refused. */
  lemma HeaderOnlyRefused(cells: seq<Elem>, n: nat)
    requires IsLog(cells, n) && n < |cells|
    ensures !Accepted(cells[n := Overlaid(Blank(), HeaderFor(0, [1]), [])], 0)
  {
    var e: Elem := Overlaid(Blank(), HeaderFor(0, [1]), []);
    assert Content(e) == [FREE];
    assert [1 as byte][..0] == [] && [FREE][..0] == [];
    assert ByteSum([1]) == 1 && ByteSum([FREE]) == 255;
    InterruptedExactly(cells, n, e);
  }

  // ---------- runs ----------

  datatype Write = Write(index: nat, data: seq<byte>)

  /** The store from outside: whether it is usable, what can be read, how many records the log has, and how
      often the driver has been asked. */
  datatype State = State(ok: bool, contents: Contents, records: nat, calls: nat)

  /** Where a write stops: the first request refused, or the end of all it needs. */
  function StopOf(d: Driver, max: nat, s: State): nat {
    FirstRefusal(d, s.records == max, s.calls, s.calls, s.calls + Needed(s.contents, s.records == max))
  }

  /** One write, whatever the driver answers, in an area of `max` places. A refused record makes the store
      unusable; a refused erasure leaves nothing, and a record that cannot be written back leaves the
      lowest indices. */
  function After(d: Driver, max: nat, s: State, w: Write): State {
    if WriteError(s.ok, w.index, w.data) != OK then s
    else
      var full := s.records == max;
      var needed, stop := s.calls + Needed(s.contents, full), StopOf(d, max, s);
      if stop == needed then State(true, Applied(s.contents, w.index, w.data), CountAfter(s.records, |s.contents|, max), needed)
      else if stop == needed - 1 then State(false, map[], if full then |s.contents| else s.records, needed)
      else if stop == s.calls then State(true, map[], max, stop + 1)
      else State(true, LowestOf(s.contents, stop - s.calls - 1, 0), stop - s.calls - 1, stop + 1)
  }

  function CodeOf(d: Driver, max: nat, s: State, w: Write): Code {
    var full, stop := s.records == max, StopOf(d, max, s);
    if WriteError(s.ok, w.index, w.data) != OK then WriteError(s.ok, w.index, w.data)
    else if stop < s.calls + Needed(s.contents, full) then DRIVER(AnswerTo(d, full, s.calls, stop).code)
    else if full then UPDATE_READ_REFS
    else OK
  }

  function AfterAll(d: Driver, max: nat, s: State, ws: seq<Write>): State {
    if ws == [] then s else After(d, max, AfterAll(d, max, s, ws[..|ws| - 1]), ws[|ws| - 1])
  }

  /** An unusable store refuses every write and stays as it is. */
  lemma {:induction false} UnusableStays(d: Driver, max: nat, s: State, ws: seq<Write>)
    requires !s.ok
    ensures AfterAll(d, max, s, ws) == s
    ensures forall w :: CodeOf(d, max, s, w) == FLASH_INVALID
  {
    if ws != [] {
      UnusableStays(d, max, s, ws[..|ws| - 1]);
    }
  }

  /** A refused request makes the store unusable exactly if it is that of the record itself; otherwise the
      log was full, and the store stays usable with fewer variables than before, if it had any. */
  lemma RefusalLosesExactly(d: Driver, max: nat, s: State, w: Write)
    requires IsView(s.contents) && CodeOf(d, max, s, w).DRIVER?
    ensures var s' := After(d, max, s, w);
      && (!s'.ok <==> StopOf(d, max, s) == s.calls + Needed(s.contents, s.records == max) - 1)
      && (s'.ok ==> s.records == max && (s'.contents != s.contents <==> s.contents != map[]))
      && Part(s'.contents, s.contents)
  {
    hide After, CodeOf, StopOf;
    RefusedCode(d, max, s, w);
    StopInRange(d, max, s);
    AfterRefused(d, max, s, w);
    KeptAll(s.contents);
    var m := if StopOf(d, max, s) == s.calls then 0 else StopOf(d, max, s) - s.calls - 1;
    LowestPart(s.contents, m, 0);
    if After(d, max, s, w).ok {
      KeptNone(s.contents);
      LowestSize(s.contents, m, 0);
    }
  }

  lemma RefusedCode(d: Driver, max: nat, s: State, w: Write)
    requires CodeOf(d, max, s, w).DRIVER?
    ensures WriteError(s.ok, w.index, w.data) == OK
    ensures StopOf(d, max, s) < s.calls + Needed(s.contents, s.records == max)
  {
  }

  lemma {:induction false} LowestPart(v: Contents, m: nat, i: nat)
    ensures Part(LowestOf(v, m, i), v)
    decreases SLOTS - i
  {
    if i < SLOTS {
      LowestPart(v, m, i + 1);
    }
  }

  lemma {:induction false} LowestSize(v: Contents, m: nat, i: nat)
    requires |Kept(v, i)| <= m <= |Kept(v, SLOTS)| && i <= SLOTS
    ensures |LowestOf(v, m, i)| == m
    decreases SLOTS - i
  {
    if i < SLOTS && |Kept(v, i)| != m {
      KeptStep(v, i);
      LowestSize(v, m, i + 1);
    }
  }

  /** An erasure that is refused: the store stays usable, and all variables are gone. */
  lemma RefusedErasureForgets(d: Driver, max: nat, s: State, w: Write)
    requires s.ok && s.records == max && WriteError(true, w.index, w.data) == OK && d.erase(s.calls).Refused?
    ensures After(d, max, s, w) == State(true, map[], max, s.calls + 1)
    ensures CodeOf(d, max, s, w) == DRIVER(d.erase(s.calls).code)
  {
  }

  /** The writes of a run that were reported done. */
  function DoneOf(d: Driver, max: nat, s: State, ws: seq<Write>): seq<Write> {
    if ws == [] then []
    else
      var before, w := ws[..|ws| - 1], ws[|ws| - 1];
      var code := CodeOf(d, max, AfterAll(d, max, s, before), w);
      DoneOf(d, max, s, before) + if code == OK || code == UPDATE_READ_REFS then [w] else []
  }

  /** Over any run, whatever the driver answers, nothing is read but what the writes reported done have
      left: no old data and no deleted variable comes back. */
  lemma {:induction false} NothingStale(d: Driver, max: nat, s: State, ws: seq<Write>)
    ensures var v, ideal := AfterAll(d, max, s, ws).contents, ApplyAll(s.contents, DoneOf(d, max, s, ws));
      Part(v, ideal)
    decreases |ws|
  {
    hide After, CodeOf, ApplyOne, Part;
    PartItself(s.contents);
    if ws != [] {
      var before, w := ws[..|ws| - 1], ws[|ws| - 1];
      NothingStale(d, max, s, before);
      AfterKeeps(d, max, AfterAll(d, max, s, before), w);
      var done := DoneOf(d, max, s, before);
      var ideal := ApplyAll(s.contents, done);
      assert done + [] == done;
      AppliedLast(s.contents, done, w);
      AppliedToPart(AfterAll(d, max, s, before).contents, ideal, w);
      PartOfPart(AfterAll(d, max, s, ws).contents, AfterAll(d, max, s, before).contents, ideal);
    }
  }

  lemma PartItself(v: Contents)
    ensures Part(v, v)
  {
  }

  lemma PartOfPart(a: Contents, b: Contents, c: Contents)
    ensures Part(a, b) && Part(b, c) ==> Part(a, c)
  {
  }

  lemma AppliedLast(v: Contents, ws: seq<Write>, w: Write)
    ensures ApplyAll(v, ws + [w]) == ApplyOne(ApplyAll(v, ws), w)
  {
    assert (ws + [w])[..|ws|] == ws;
  }

  lemma AppliedToPart(v: Contents, v': Contents, w: Write)
    requires Part(v, v')
    ensures Part(ApplyOne(v, w), ApplyOne(v', w))
  {
  }

  lemma AfterKeeps(d: Driver, max: nat, s: State, w: Write)
    ensures var v, code := After(d, max, s, w).contents, CodeOf(d, max, s, w);
      if code == OK || code == UPDATE_READ_REFS then v == ApplyOne(s.contents, w)
      else Part(v, s.contents)
  {
    hide After, CodeOf, StopOf, Needed, Applied;
    if WriteError(s.ok, w.index, w.data) != OK {
      AfterError(d, max, s, w);
    } else if StopOf(d, max, s) == s.calls + Needed(s.contents, s.records == max) {
      AfterDone(d, max, s, w);
    } else {
      StopInRange(d, max, s);
      AfterRefused(d, max, s, w);
      LowestPart(s.contents, if StopOf(d, max, s) > s.calls then StopOf(d, max, s) - s.calls - 1 else 0, 0);
    }
  }

  lemma StopInRange(d: Driver, max: nat, s: State)
    ensures s.calls <= StopOf(d, max, s) <= s.calls + Needed(s.contents, s.records == max)
    ensures StopOf(d, max, s) < s.calls + Needed(s.contents, s.records == max) ==>
              AnswerTo(d, s.records == max, s.calls, StopOf(d, max, s)).Refused?
  {
  }

  lemma AfterError(d: Driver, max: nat, s: State, w: Write)
    requires WriteError(s.ok, w.index, w.data) != OK
    ensures After(d, max, s, w) == s && CodeOf(d, max, s, w) == WriteError(s.ok, w.index, w.data)
  {
  }

  lemma AfterDone(d: Driver, max: nat, s: State, w: Write)
    requires WriteError(s.ok, w.index, w.data) == OK
    requires StopOf(d, max, s) == s.calls + Needed(s.contents, s.records == max)
    ensures After(d, max, s, w) ==
            State(true, Applied(s.contents, w.index, w.data), CountAfter(s.records, |s.contents|, max), StopOf(d, max, s))
    ensures CodeOf(d, max, s, w) == if s.records == max then UPDATE_READ_REFS else OK
  {
  }

  lemma AfterRefused(d: Driver, max: nat, s: State, w: Write)
    requires WriteError(s.ok, w.index, w.data) == OK
    requires s.calls <= StopOf(d, max, s) < s.calls + Needed(s.contents, s.records == max)
    requires AnswerTo(d, s.records == max, s.calls, StopOf(d, max, s)).Refused?
    ensures var full, stop := s.records == max, StopOf(d, max, s);
      && CodeOf(d, max, s, w) == DRIVER(AnswerTo(d, full, s.calls, stop).code)
      && var m := if stop == s.calls then 0 else stop - s.calls - 1;
      After(d, max, s, w) ==
      if stop + 1 == s.calls + Needed(s.contents, full) then State(false, map[], if full then |s.contents| else s.records, stop + 1)
      else State(true, LowestOf(s.contents, m, 0), if stop == s.calls then max else m, stop + 1)
  {
    hide StopOf, AnswerTo, LowestOf, Applied;
    LowestNone(s.contents);
  }

  lemma LowestNone(v: Contents)
    ensures LowestOf(v, 0, 0) == map[]
  {
    KeptNone(v);
  }

  /** What can be read after a write, and after several, when the driver refuses nothing. */
  function ApplyOne(v: Contents, w: Write): Contents {
    if WriteError(true, w.index, w.data) != OK then v else Applied(v, w.index, w.data)
  }

  function ApplyAll(v: Contents, ws: seq<Write>): Contents {
    if ws == [] then v else ApplyOne(ApplyAll(v, ws[..|ws| - 1]), ws[|ws| - 1])
  }

  /** The number of records when one more is written to a log of n, of which `live` can be read, in an area
      of `max` places: a full log is collected first. */
  function CountAfter(n: nat, live: nat, max: nat): nat {
    if n == max then live + 1 else n + 1
  }

  function OneRecord(v: Contents, n: nat, max: nat, w: Write): nat {
    if WriteError(true, w.index, w.data) != OK then n else CountAfter(n, |v|, max)
  }

  function Records(v: Contents, n: nat, max: nat, ws: seq<Write>): nat {
    if ws == [] then n
    else OneRecord(ApplyAll(v, ws[..|ws| - 1]), Records(v, n, max, ws[..|ws| - 1]), max, ws[|ws| - 1])
  }

  predicate CodeFits(code: Code, w: Write) {
    var e := WriteError(true, w.index, w.data);
    if e != OK then code == e else code == OK || code == UPDATE_READ_REFS
  }

  /** As many writes as there are places fill an empty log. */
  lemma {:induction false} FillsUp(max: nat, ws: seq<Write>)
    requires |ws| <= max && forall i :: 0 <= i < |ws| ==> WriteError(true, ws[i].index, ws[i].data) == OK
    ensures Records(map[], 0, max, ws) == |ws|
    decreases |ws|
  {
    if ws != [] {
      FillsUp(max, ws[..|ws| - 1]);
    }
  }
}

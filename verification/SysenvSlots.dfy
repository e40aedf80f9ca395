/** The flash store as the environment table sees it: slots that hold a name and a value, and answers
    to writes and deletions (env/env.c, syscon/syscon.c). */
module SysenvSlots {
  import opened Machine
  import opened Wrappers
  import opened SysenvLog
  import opened Sysenv
  import opened SysenvRuns
  import EnvSpec
  import EnvTable

  type Rec = EnvSpec.Rec

  /** A text a record can hold: bytes without a NUL. */
  predicate IsText(t: string) {
    forall i :: 0 <= i < |t| ==> 0 < t[i] as int < 256
  }

  predicate Fits(r: Rec) {
    IsText(r.name) && IsText(r.val) && |r.name| + |r.val| + 2 <= DATA_SIZE
  }

  function Bytes(t: string): (bs: seq<byte>)
    requires IsText(t)
    ensures |bs| == |t|
  {
    seq(|t|, i requires 0 <= i < |t| => t[i] as int)
  }

  function Chars(bs: seq<byte>): string {
    seq(|bs|, i requires 0 <= i < |bs| => bs[i] as char)
  }

  /** Name and value, each with its terminating NUL. */
  function Serialized(r: Rec): seq<byte>
    requires Fits(r)
  {
    Bytes(r.name) + [0] + Bytes(r.val) + [0]
  }

  /** The place of the first NUL, if there is one. */
  function Nul(bs: seq<byte>): (n: nat)
    ensures n <= |bs| && (forall i :: 0 <= i < n ==> bs[i] != 0) && (n < |bs| ==> bs[n] == 0)
  {
    if bs == [] || bs[0] == 0 then 0 else Nul(bs[1..]) + 1
  }

  /** The name and the value in a record; None without two NULs. */
  function RecordOf(bs: seq<byte>): Option<Rec> {
    var n := Nul(bs);
    if n == |bs| then None
    else
      var rest := bs[n + 1..];
      if Nul(rest) == |rest| then None else Some(EnvSpec.Rec(Chars(bs[..n]), Chars(rest[..Nul(rest)])))
  }

  lemma NulIs(t: string, rest: seq<byte>)
    requires IsText(t)
    ensures Nul(Bytes(t) + [0] + rest) == |t| && Chars(Bytes(t)) == t
    ensures (Bytes(t) + [0] + rest)[..|t|] == Bytes(t) && (Bytes(t) + [0] + rest)[|t| + 1..] == rest
  {
    var all := Bytes(t) + [0] + rest;
    assert forall i :: 0 <= i < |t| ==> all[i] == Bytes(t)[i];
    assert all[|t|] == 0;
  }

  lemma SerializedReadsBack(r: Rec)
    requires Fits(r)
    ensures RecordOf(Serialized(r)) == Some(r)
  {
    assert Serialized(r) == Bytes(r.name) + [0] + (Bytes(r.val) + [0]);
    NulIs(r.name, Bytes(r.val) + [0]);
    assert Bytes(r.val) + [0] == Bytes(r.val) + [0] + [];
    NulIs(r.val, []);
  }

  /** The slots whose data hold a name and a value. */
  function Slots(v: Contents): EnvSpec.Flash {
    map s | s in v && RecordOf(v[s]).Some? :: RecordOf(v[s]).value
  }

  /** Garbage collection moves no record to another index. */
  function Identity(): EnvSpec.Perm {
    EnvSpec.Perm(seq(SLOTS, i => i), seq(SLOTS, i => i))
  }

  /** The answer env.c sees: a code and what the slots then hold. */
  function AnswerOf(code: Code, left: EnvSpec.Flash): EnvSpec.Outcome {
    match code
    case OK => EnvSpec.Done
    case VAR_TOO_BIG => EnvSpec.Failed(0xc001, left)
    case NO_VARIABLE => EnvSpec.Failed(0xc002, left)
    case INVALID_INDEX => EnvSpec.Failed(0xc003, left)
    case UPDATE_READ_REFS => EnvSpec.Rearranged(Identity())
    case FLASH_INVALID => EnvSpec.Failed(0xc005, left)
    case DRIVER(c) => EnvSpec.Failed(c, left)
  }

  /** The numbers of the errors, as the environment table hands them on. */
  lemma AnswerNumbers(left: EnvSpec.Flash)
    ensures AnswerOf(VAR_TOO_BIG, left) == EnvSpec.Failed(0xc001, left)
    ensures AnswerOf(INVALID_INDEX, left) == EnvSpec.Failed(0xc003, left)
    ensures AnswerOf(FLASH_INVALID, left) == EnvSpec.Failed(0xc005, left)
  {
  }

  lemma IdentityStays(f: EnvSpec.Flash)
    requires forall s :: s in f ==> s < SLOTS
    ensures EnvSpec.IsPerm(Identity()) && EnvTable.Moved(f, Identity()) == f
    ensures forall s: nat :: s < SLOTS ==> EnvTable.Stays(Identity(), s)
  {
  }

  lemma SlotWritten(v: Contents, i: nat, r: Rec)
    requires Fits(r)
    ensures Slots(Applied(v, i, Serialized(r))) == Slots(v)[i := r]
  {
    SerializedReadsBack(r);
  }

  lemma SlotDeleted(v: Contents, i: nat)
    ensures Slots(Applied(v, i, [])) == Slots(v) - {i}
  {
  }

  /** All that can be read are names and values. */
  predicate AllRecords(v: Contents) {
    forall s :: s in v ==> RecordOf(v[s]).Some?
  }

  lemma SlotsCount(v: Contents)
    requires AllRecords(v)
    ensures |Slots(v)| == |v|
  {
    assert Slots(v).Keys == v.Keys;
    KeysCount(v);
    FlashCount(Slots(v));
  }

  lemma FlashCount(f: EnvSpec.Flash)
    ensures |f.Keys| == |f|
  {
  }

  lemma RecordsKept(v: Contents, i: nat, r: Rec)
    requires AllRecords(v) && Fits(r)
    ensures AllRecords(Applied(v, i, Serialized(r)))
  {
    SerializedReadsBack(r);
  }

  lemma DeletionKept(v: Contents, i: nat)
    requires AllRecords(v)
    ensures AllRecords(Applied(v, i, []))
  {
  }

  lemma SerializedSize(r: Rec)
    requires Fits(r)
    ensures |Serialized(r)| <= DATA_SIZE
  {
  }

  /** The answer of a driver that refuses nothing, with n records in an area of `max` places. */
  function LogAnswer(n: nat, max: nat): EnvSpec.Outcome {
    if n == max then EnvSpec.Rearranged(Identity()) else EnvSpec.Done
  }

  /** A write through syscon.c: a code without error says that the data is stored, and only a full log
      is collected. */
  method DiskStore(s: Store, slot: nat, data: seq<byte>) returns (code: Code)
    requires s.Valid()
    modifies s, s.cells, s.cache, s.lookup
    ensures s.Valid()
    ensures code == OK || code == UPDATE_READ_REFS ==>
      && s.ok && slot < SLOTS && |data| <= DATA_SIZE && s.Readings() == Applied(old(s.Readings()), slot, data)
    ensures code == UPDATE_READ_REFS ==> old(s.nextFree) == s.cells.Length
    ensures old(s.Durable()) && slot < SLOTS && |data| <= DATA_SIZE && NoneRefused(s.driver, old(s.calls), s.calls) ==>
      && s.Durable() && code == (if old(s.nextFree) == s.cells.Length then UPDATE_READ_REFS else OK)
      && s.nextFree == CountAfter(old(s.nextFree), |old(s.Readings())|, s.cells.Length)
  {
    ghost var full, first := s.nextFree == s.cells.Length, s.calls;
    code := s.Write(slot, data);
    RefusalNoticed(s.driver, full, first, s.calls, code);
  }

  /** A write as env.c makes it: the store answers like a slot map, and a collection moves nothing. */
  method DiskWrite(s: Store, slot: nat, r: Rec) returns (code: Code, ghost w: EnvSpec.Outcome)
    requires s.Valid() && Fits(r)
    modifies s, s.cells, s.cache, s.lookup
    ensures s.Valid() && w == AnswerOf(code, Slots(s.Readings()))
    ensures w.Rearranged? ==> w.p == Identity() && EnvSpec.IsPerm(w.p) && old(s.nextFree) == s.cells.Length
    ensures Slots(s.Readings()) == EnvTable.Written(Slots(old(s.Readings())), slot, r, w)
    ensures old(s.Durable()) && AllRecords(old(s.Readings())) && slot < SLOTS && NoneRefused(s.driver, old(s.calls), s.calls) ==>
      && s.Durable() && AllRecords(s.Readings()) && w == LogAnswer(old(s.nextFree), s.cells.Length)
      && s.nextFree == CountAfter(old(s.nextFree), |Slots(old(s.Readings()))|, s.cells.Length)
  {
    hide Slots, Serialized, Applied, Identity, EnvSpec.IsPerm, EnvTable.Written, Fits, AllRecords, NoneRefused, IsView;
    ghost var v := s.Readings();
    SerializedSize(r);
    code := DiskStore(s, slot, Serialized(r));
    w := AnswerOf(code, Slots(s.Readings()));
    ReadingsAreView(s);
    WriteAnswered(v, s.Readings(), slot, r, code);
  }

  /** A deletion as env.c makes it: unless it is refused, it does no harm. */
  method DiskDelete(s: Store, slot: nat, ghost name: string) returns (code: Code, ghost w: EnvSpec.Outcome)
    requires s.Valid()
    modifies s, s.cells, s.cache, s.lookup
    ensures s.Valid() && w == AnswerOf(code, Slots(s.Readings()))
    ensures w.Rearranged? ==> w.p == Identity() && EnvSpec.IsPerm(w.p)
    ensures Slots(s.Readings()) == EnvTable.Deleted(Slots(old(s.Readings())), slot, w)
    ensures !w.Failed? ==> EnvTable.DeletionFits(Slots(old(s.Readings())), name, w)
    ensures old(s.Durable()) && AllRecords(old(s.Readings())) && slot < SLOTS && NoneRefused(s.driver, old(s.calls), s.calls) ==>
      && s.Durable() && AllRecords(s.Readings()) && w == LogAnswer(old(s.nextFree), s.cells.Length)
      && s.nextFree == CountAfter(old(s.nextFree), |Slots(old(s.Readings()))|, s.cells.Length)
  {
    hide Slots, Applied, Identity, EnvSpec.IsPerm, EnvTable.Deleted, EnvTable.DeletionFits, AllRecords, NoneRefused, IsView;
    ghost var v := s.Readings();
    ReadingsAreView(s);
    code := DiskStore(s, slot, []);
    w := AnswerOf(code, Slots(s.Readings()));
    ReadingsAreView(s);
    DeletionAnswered(v, s.Readings(), slot, code, name);
  }

  lemma ReadingsAreView(s: Store)
    requires s.Valid()
    ensures IsView(s.Readings())
  {
  }

  lemma SlotsBelow(v: Contents)
    requires IsView(v)
    ensures forall i :: i in Slots(v) ==> i < SLOTS
  {
  }

  /** The slots behind a write, as its code answers it. */
  lemma WriteAnswered(v: Contents, v': Contents, slot: nat, r: Rec, code: Code)
    requires Fits(r) && IsView(v')
    requires code == OK || code == UPDATE_READ_REFS ==> v' == Applied(v, slot, Serialized(r))
    ensures var w := AnswerOf(code, Slots(v'));
      && (w.Rearranged? ==> w.p == Identity() && EnvSpec.IsPerm(w.p))
      && Slots(v') == EnvTable.Written(Slots(v), slot, r, w)
      && (AllRecords(v) ==> |Slots(v)| == |v| && (!w.Failed? ==> AllRecords(v')))
  {
    hide Slots, Serialized, Applied, Identity, EnvSpec.IsPerm, EnvTable.Moved, Fits, AllRecords, IsView;
    SlotWritten(v, slot, r);
    SlotsBelow(v');
    IdentityMoves(Slots(v'));
    if AllRecords(v) {
      RecordsKept(v, slot, r);
      SlotsCount(v);
    }
  }

  /** A deletion that is done, even with a collection, does no harm. */
  lemma DeletionHarmless(f: EnvSpec.Flash, name: string)
    requires forall s :: s in f ==> s < SLOTS
    ensures EnvTable.DeletionFits(f, name, EnvSpec.Done)
    ensures EnvTable.DeletionFits(f, name, EnvSpec.Rearranged(Identity()))
  {
    hide Identity;
    IdentityStays(f);
  }

  lemma IdentityMoves(f: EnvSpec.Flash)
    requires forall s :: s in f ==> s < SLOTS
    ensures EnvSpec.IsPerm(Identity()) && EnvTable.Moved(f, Identity()) == f
  {
    hide Identity;
    IdentityStays(f);
  }

  lemma DeletedSlots(v: Contents, v': Contents, slot: nat, code: Code)
    requires IsView(v') && (code == OK || code == UPDATE_READ_REFS ==> v' == Applied(v, slot, []))
    ensures var w := AnswerOf(code, Slots(v'));
      && (w.Rearranged? ==> w.p == Identity() && EnvSpec.IsPerm(w.p))
      && Slots(v') == EnvTable.Deleted(Slots(v), slot, w)
  {
    hide Slots, Applied, Identity, EnvSpec.IsPerm, EnvTable.Moved, IsView;
    SlotDeleted(v, slot);
    SlotsBelow(v');
    IdentityMoves(Slots(v'));
  }

  lemma DeletionDoesNoHarm(v: Contents, left: EnvSpec.Flash, code: Code, name: string)
    requires IsView(v)
    ensures var w := AnswerOf(code, left); !w.Failed? ==> EnvTable.DeletionFits(Slots(v), name, w)
  {
    hide Slots, Identity, EnvTable.DeletionFits, IsView;
    SlotsBelow(v);
    DeletionHarmless(Slots(v), name);
  }

  /** The slots behind a deletion, as its code answers it. */
  lemma DeletionAnswered(v: Contents, v': Contents, slot: nat, code: Code, name: string)
    requires IsView(v) && IsView(v')
    requires code == OK || code == UPDATE_READ_REFS ==> v' == Applied(v, slot, [])
    ensures var w := AnswerOf(code, Slots(v'));
      && (w.Rearranged? ==> w.p == Identity() && EnvSpec.IsPerm(w.p))
      && Slots(v') == EnvTable.Deleted(Slots(v), slot, w)
      && (!w.Failed? ==> EnvTable.DeletionFits(Slots(v), name, w))
      && (AllRecords(v) ==> |Slots(v)| == |v| && (!w.Failed? ==> AllRecords(v')))
  {
    hide Slots, Applied, Identity, EnvSpec.IsPerm, EnvTable.Deleted, EnvTable.DeletionFits, AllRecords, IsView;
    DeletedSlots(v, v', slot, code);
    DeletionDoesNoHarm(v, Slots(v'), code, name);
    if AllRecords(v) {
      DeletionKept(v, slot);
      SlotsCount(v);
    }
  }
}

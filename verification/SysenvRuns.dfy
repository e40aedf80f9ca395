/** Whole runs of the flash store, and restarts. */
module SysenvRuns {
  import opened Machine
  import opened Wrappers
  import opened SysenvLog
  import opened Sysenv

  /** Power on: the flash is what it was, everything else starts anew. A store that held everything in its
      log is found again exactly when the log does not fill the area. */
  method Reboot(s: Store) returns (t: Store, code: Code)
    requires s.Valid()
    modifies s.cells
    ensures fresh(t) && t.Valid() && t.cells == s.cells && s.cells[..] == old(s.cells[..])
    ensures code == (if t.ok then OK else FLASH_INVALID) && (t.ok <==> Accepted(s.cells[..], 0))
    ensures old(s.Durable()) ==>
      && (code == OK <==> old(s.nextFree) < s.cells.Length)
      && (code == OK ==> t.Durable() && t.nextFree == old(s.nextFree) && t.View() == old(s.View()))
  {
    ghost var n, durable := s.nextFree, s.Durable();
    t := new Store(s.cells, s.driver);
    code := t.Init(false, 0, 0);
    if durable {
      AcceptedExactly(s.cells[..], n, 0);
      if t.ok {
        LogEndsOnce(s.cells[..], n, t.nextFree);
      }
    }
  }

  /** No request from `first` up to `n` was refused. */
  ghost predicate NoneRefused(d: Driver, first: nat, n: nat) {
    forall j: nat :: first <= j < n ==> d.program(j).Done? && d.erase(j).Done?
  }

  /** One write, when nothing is refused. */
  method WriteOne(s: Store, w: Write) returns (code: Code)
    requires s.Valid()
    modifies s, s.cells, s.cache, s.lookup
    ensures s.Valid() && s.calls >= old(s.calls)
    ensures old(s.Durable()) && NoneRefused(s.driver, old(s.calls), s.calls) ==>
      && s.Durable() && s.Readings() == ApplyOne(old(s.Readings()), w) && CodeFits(code, w)
      && s.nextFree == OneRecord(old(s.Readings()), old(s.nextFree), s.cells.Length, w)
    ensures s.Now() == After(s.driver, s.cells.Length, old(s.Now()), w)
    ensures code == CodeOf(s.driver, s.cells.Length, old(s.Now()), w)
  {
    hide After, CodeOf, Lowest, Applied, AnswerTo;
    ghost var full, first, before := s.nextFree == s.cells.Length, s.calls, s.Now();
    code := s.Write(w.index, w.data);
    if WriteError(before.ok, w.index, w.data) == OK {
      WriteIsAfter(s.driver, s.cells.Length, before, w, s.Now(), code);
    } else {
      AfterError(s.driver, s.cells.Length, before, w);
    }
    RefusalNoticed(s.driver, full, first, s.calls, code);
  }

  lemma RefusalNoticed(d: Driver, full: bool, first: nat, calls: nat, code: Code)
    ensures RefusedAt(d, full, first, calls, code) ==> !NoneRefused(d, first, calls) && code.DRIVER?
  {
    if RefusedAt(d, full, first, calls, code) {
      assert AnswerTo(d, full, first, calls - 1).Refused?;
    }
  }

  /** What the contract of a write says is the next state. */
  lemma WriteIsAfter(d: Driver, max: nat, s: State, w: Write, s': State, code: Code)
    requires WriteError(s.ok, w.index, w.data) == OK
    requires var full, needed := s.records == max, s.calls + Needed(s.contents, s.records == max);
      if AllDone(d, full, s.calls, needed) then
        && code == (if full then UPDATE_READ_REFS else OK)
        && s' == State(true, Applied(s.contents, w.index, w.data), CountAfter(s.records, |s.contents|, max), needed)
      else
        && RefusedAt(d, full, s.calls, s'.calls, code) && s'.calls <= needed && s'.ok == (s'.calls < needed)
        && (if s'.ok then Lowest(s.contents, if s'.calls == s.calls + 1 then 0 else s'.calls - s.calls - 2, s'.contents)
            else s'.contents == map[])
        && s'.records == (if !full then s.records else if s'.calls == s.calls + 1 then max else s'.calls - s.calls - 2)
    ensures s' == After(d, max, s, w) && code == CodeOf(d, max, s, w)
  {
    hide After, CodeOf, Lowest, AllDone, RefusedAt, StopOf, Applied;
    var full := s.records == max;
    var needed := s.calls + Needed(s.contents, full);
    if AllDone(d, full, s.calls, needed) {
      StopDone(d, max, s);
      AfterDone(d, max, s, w);
    } else {
      StopRefused(d, max, s, s'.calls, code);
      if s'.ok {
        LowestIs(s.contents, if s'.calls == s.calls + 1 then 0 else s'.calls - s.calls - 2, s'.contents);
      }
      AfterRefused(d, max, s, w);
    }
  }

  lemma StopDone(d: Driver, max: nat, s: State)
    requires AllDone(d, s.records == max, s.calls, s.calls + Needed(s.contents, s.records == max))
    ensures StopOf(d, max, s) == s.calls + Needed(s.contents, s.records == max)
  {
    NoRefusal(d, s.records == max, s.calls, s.calls, s.calls + Needed(s.contents, s.records == max));
  }

  lemma StopRefused(d: Driver, max: nat, s: State, calls: nat, code: Code)
    requires RefusedAt(d, s.records == max, s.calls, calls, code) && calls <= s.calls + Needed(s.contents, s.records == max)
    ensures s.calls < calls && StopOf(d, max, s) == calls - 1
    ensures AnswerTo(d, s.records == max, s.calls, calls - 1).Refused?
    ensures code == DRIVER(AnswerTo(d, s.records == max, s.calls, calls - 1).code)
  {
    RefusalIs(d, s.records == max, s.calls, s.calls, s.calls + Needed(s.contents, s.records == max), calls, code);
  }

  lemma FewerRefused(d: Driver, first: nat, k: nat, n: nat)
    requires first <= k <= n && NoneRefused(d, first, n)
    ensures NoneRefused(d, first, k) && NoneRefused(d, k, n)
  {
  }

  lemma OneMoreWrite(v: Contents, n: nat, max: nat, ws: seq<Write>, k: nat)
    requires k < |ws|
    ensures ApplyAll(v, ws[..k + 1]) == ApplyOne(ApplyAll(v, ws[..k]), ws[k])
    ensures Records(v, n, max, ws[..k + 1]) == OneRecord(ApplyAll(v, ws[..k]), Records(v, n, max, ws[..k]), max, ws[k])
  {
    assert ws[..k + 1][..k] == ws[..k];
  }

  /** Any number of writes: while the driver refuses nothing, what can be read is what the writes make,
      and the log has as many records as counted. */
  method WriteAll(s: Store, ws: seq<Write>) returns (codes: seq<Code>)
    requires s.Valid()
    modifies s, s.cells, s.cache, s.lookup
    ensures s.Valid() && |codes| == |ws| && s.calls >= old(s.calls)
    ensures old(s.Durable()) && NoneRefused(s.driver, old(s.calls), s.calls) ==>
      && s.Durable() && s.Readings() == ApplyAll(old(s.Readings()), ws)
      && s.nextFree == Records(old(s.Readings()), old(s.nextFree), s.cells.Length, ws)
      && forall i :: 0 <= i < |ws| ==> CodeFits(codes[i], ws[i])
    ensures s.Now() == AfterAll(s.driver, s.cells.Length, old(s.Now()), ws)
    ensures forall i :: 0 <= i < |ws| ==>
              codes[i] == CodeOf(s.driver, s.cells.Length, AfterAll(s.driver, s.cells.Length, old(s.Now()), ws[..i]), ws[i])
  {
    hide ApplyOne, OneRecord, CodeFits, NoneRefused, ApplyAll, Records, After, CodeOf, Store.Valid, Store.Durable, Store.Readings;
    codes := [];
    ghost var first, durable, n, start := s.calls, s.Durable(), s.nextFree, s.Now();
    ghost var v := s.Readings();
    NoWrites(v, n, s.cells.Length, ws);
    var k := 0;
    while k < |ws|
      invariant 0 <= k <= |ws| && |codes| == k && s.Valid() && s.calls >= first
      invariant durable && NoneRefused(s.driver, first, s.calls) ==>
        && s.Durable() && s.Readings() == ApplyAll(v, ws[..k])
        && s.nextFree == Records(v, n, s.cells.Length, ws[..k])
        && forall i :: 0 <= i < k ==> CodeFits(codes[i], ws[i])
      invariant s.Now() == AfterAll(s.driver, s.cells.Length, start, ws[..k])
      invariant forall i :: 0 <= i < k ==>
                  codes[i] == CodeOf(s.driver, s.cells.Length, AfterAll(s.driver, s.cells.Length, start, ws[..i]), ws[i])
    {
      assert ws[..k + 1][..k] == ws[..k];
      ghost var before := s.calls;
      var code := WriteOne(s, ws[k]);
      if durable && NoneRefused(s.driver, first, s.calls) {
        FewerRefused(s.driver, first, before, s.calls);
        OneMoreWrite(v, n, s.cells.Length, ws, k);
      }
      codes := codes + [code];
      k := k + 1;
    }
    assert ws[..k] == ws;
  }

  lemma NoWrites(v: Contents, n: nat, max: nat, ws: seq<Write>)
    ensures ApplyAll(v, ws[..0]) == v && Records(v, n, max, ws[..0]) == n
  {
  }

  /** Writes and a restart: what is read afterwards is what the writes make exactly when their records
      do not fill the area. */
  method WriteAllAndReboot(s: Store, ws: seq<Write>) returns (t: Store, code: Code)
    requires s.Durable() && s.Valid()
    modifies s, s.cells, s.cache, s.lookup
    ensures t.Valid() && t.cells == s.cells
    ensures NoneRefused(s.driver, old(s.calls), s.calls) ==>
      var v, n, max := old(s.View()), old(s.nextFree), s.cells.Length;
      && (code == OK <==> Records(v, n, max, ws) < max)
      && t.Readings() == if Records(v, n, max, ws) < max then ApplyAll(v, ws) else map[]
  {
    var _ := WriteAll(s, ws);
    t, code := Reboot(s);
  }
}

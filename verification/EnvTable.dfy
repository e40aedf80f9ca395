/** The rows of the environment table of env/env.c, the map they represent and the flash slots
    that back them. */
module EnvTable {
  import opened Wrappers
  import opened EnvSpec

  // Slot of a variable that has not been written yet.
  const INDEX_NONE := MAX_VARS

  /** One row: name, entry and flash slot. */
  datatype Var = Var(name: string, entry: Entry, index: nat)

  const Blank := Var("", Entry("", USER, None, None), INDEX_NONE)

  ghost predicate Distinct(vars: seq<Var>) {
    forall i, j :: 0 <= i < j < |vars| ==> vars[i].name != vars[j].name
  }

  ghost predicate Named(vars: seq<Var>, n: string) {
    exists i :: 0 <= i < |vars| && vars[i].name == n
  }

  ghost predicate Uses(vars: seq<Var>, s: nat) {
    exists i :: 0 <= i < |vars| && vars[i].index == s
  }

  /** The rows are exactly the bindings of the map. */
  ghost predicate Represents(vars: seq<Var>, m: Environment) {
    && (forall i :: 0 <= i < |vars| ==> vars[i].name in m && m[vars[i].name] == vars[i].entry)
    && (forall n :: n in m ==> Named(vars, n))
  }

  /** The row's slot holds the row's name and value. */
  ghost predicate RowBacked(v: Var, flash: Flash) {
    v.index < MAX_VARS && v.index in flash && flash[v.index] == Rec(v.name, v.entry.val)
  }

  /** Every row is backed, and no other slot is in use. */
  ghost predicate Backed(vars: seq<Var>, flash: Flash) {
    && (forall i :: 0 <= i < |vars| ==> RowBacked(vars[i], flash))
    && (forall s :: s in flash ==> Uses(vars, s))
  }

  /** The store after its records have moved. */
  ghost function Moved(flash: Flash, p: Perm): Flash
    requires IsPerm(p)
  {
    map t: nat | t < MAX_VARS && p.from[t] in flash :: flash[p.from[t]]
  }

  lemma NamedRow(vars: seq<Var>, n: string) returns (i: nat)
    requires Named(vars, n)
    ensures i < |vars| && vars[i].name == n
  {
    i :| 0 <= i < |vars| && vars[i].name == n;
  }

  lemma RowNamed(vars: seq<Var>, i: nat)
    requires i < |vars|
    ensures Named(vars, vars[i].name) && Uses(vars, vars[i].index)
  {
  }

  lemma UsesRow(vars: seq<Var>, s: nat) returns (i: nat)
    requires Uses(vars, s)
    ensures i < |vars| && vars[i].index == s
  {
    i :| 0 <= i < |vars| && vars[i].index == s;
  }

  // ---------- pigeonhole ----------

  /** The slots of the first n rows. */
  ghost function Slots(vars: seq<Var>, n: nat): (ss: set<nat>)
    requires n <= |vars|
  {
    if n == 0 then {} else Slots(vars, n - 1) + {vars[n - 1].index}
  }

  lemma {:induction false} SlotCount(vars: seq<Var>, n: nat)
    requires n <= |vars|
    ensures |Slots(vars, n)| <= n
    ensures forall i :: 0 <= i < n ==> vars[i].index in Slots(vars, n)
  {
    if n > 0 {
      SlotCount(vars, n - 1);
    }
  }

  lemma {:induction false} SubsetSize(a: set<nat>, b: set<nat>)
    requires a <= b
    ensures |a| <= |b|
    decreases a
  {
    if x :| x in a {
      SubsetSize(a - {x}, b - {x});
    }
  }

  ghost function Below(n: nat): (ss: set<nat>) {
    if n == 0 then {} else Below(n - 1) + {n - 1}
  }

  lemma {:induction false} BelowSize(n: nat)
    ensures |Below(n)| == n && (forall s :: s in Below(n) ==> s < n)
  {
    if n > 0 {
      BelowSize(n - 1);
    }
  }

  lemma {:induction false} AllBelow(n: nat, ss: set<nat>)
    requires forall s :: s in Below(n) ==> s in ss
    ensures n <= |ss|
  {
    BelowSize(n);
    SubsetSize(Below(n), ss);
  }

  /** With fewer rows than slots not all of the first n slots can be taken, so the search for a free
      slot always succeeds. */
  lemma NotAllTaken(vars: seq<Var>, n: nat)
    requires forall s :: s in Below(n) ==> Uses(vars, s)
    ensures n <= |vars|
  {
    SlotCount(vars, |vars|);
    forall s | s in Below(n) ensures s in Slots(vars, |vars|) {
      var i := UsesRow(vars, s);
    }
    AllBelow(n, Slots(vars, |vars|));
  }

  // ---------- the map and its size ----------

  lemma {:induction false} RepresentedSize(vars: seq<Var>, m: Environment)
    requires Distinct(vars) && Represents(vars, m)
    ensures |m| == |vars|
    decreases |vars|
  {
    if vars == [] {
      if n :| n in m {
        var i := NamedRow(vars, n);
      }
      assert m == map[];
    } else {
      var k := |vars| - 1;
      RowRemoved(vars, m, k);
      assert Unrow(vars, k) == vars[..k];
      RepresentedSize(vars[..k], m - {vars[k].name});
      assert m.Keys == (m - {vars[k].name}).Keys + {vars[k].name};
    }
  }

  lemma RowChanged(vars: seq<Var>, m: Environment, i: nat, v: Var)
    requires Distinct(vars) && Represents(vars, m) && i < |vars| && v.name == vars[i].name
    ensures Distinct(vars[i := v]) && Represents(vars[i := v], m[v.name := v.entry])
  {
    var vars' := vars[i := v];
    forall n | n in m ensures Named(vars', n) {
      var k := NamedRow(vars, n);
      assert vars'[k].name == n;
    }
  }

  lemma RowAdded(vars: seq<Var>, m: Environment, v: Var)
    requires Distinct(vars) && Represents(vars, m)
    requires v.name !in m
    ensures Distinct(vars + [v]) && Represents(vars + [v], m[v.name := v.entry])
  {
    var all := vars + [v];
    assert all[|vars|] == v && forall i :: 0 <= i < |vars| ==> all[i] == vars[i];
    forall n | n in m ensures Named(all, n) {
      var k := NamedRow(vars, n);
      assert all[k].name == n;
    }
  }

  /** The last row takes the place of row i. */
  function Unrow(vars: seq<Var>, i: nat): (rest: seq<Var>)
    requires i < |vars|
    ensures |rest| == |vars| - 1
    ensures forall k :: 0 <= k < |rest| ==> rest[k] == vars[if k == i then |vars| - 1 else k]
  {
    vars[i := vars[|vars| - 1]][..|vars| - 1]
  }

  /** Where row k is after row i has been removed. */
  lemma RowKept(vars: seq<Var>, i: nat, k: nat) returns (k': nat)
    requires i < |vars| && k < |vars| && k != i
    ensures k' < |Unrow(vars, i)| && Unrow(vars, i)[k'] == vars[k]
  {
    k' := if k == |vars| - 1 then i else k;
  }

  lemma DistinctKept(vars: seq<Var>, i: nat)
    requires Distinct(vars) && i < |vars|
    ensures Distinct(Unrow(vars, i))
    ensures forall k :: 0 <= k < |vars| - 1 ==> Unrow(vars, i)[k].name != vars[i].name
  {
  }

  lemma RowRemoved(vars: seq<Var>, m: Environment, i: nat)
    requires Distinct(vars) && Represents(vars, m) && i < |vars|
    ensures Distinct(Unrow(vars, i)) && Represents(Unrow(vars, i), m - {vars[i].name})
  {
    DistinctKept(vars, i);
    forall n | n in m && n != vars[i].name ensures Named(Unrow(vars, i), n) {
      var k := NamedRow(vars, n);
      var k' := RowKept(vars, i, k);
    }
  }

  // ---------- the flash store ----------

  /** Rows that are backed have different slots, because they have different names. */
  lemma SlotsDiffer(vars: seq<Var>, flash: Flash, i: nat, j: nat)
    requires Distinct(vars) && Backed(vars, flash) && i < |vars| && j < |vars| && i != j
    ensures vars[i].index != vars[j].index
  {
    assert RowBacked(vars[i], flash) && RowBacked(vars[j], flash);
    assert vars[i].name != vars[j].name;
  }

  /** The store that backs given rows is determined by them. */
  lemma BackedOnce(vars: seq<Var>, f: Flash, g: Flash)
    requires Backed(vars, f) && Backed(vars, g)
    ensures f == g
  {
    forall s ensures (s in f <==> s in g) && (s in f ==> f[s] == g[s]) {
      if s in f {
        var i := UsesRow(vars, s);
        assert RowBacked(vars[i], f) && RowBacked(vars[i], g);
      }
      if s in g {
        var i := UsesRow(vars, s);
        assert RowBacked(vars[i], f) && RowBacked(vars[i], g);
      }
    }
  }

  lemma WriteBacks(vars: seq<Var>, flash: Flash, i: nat, v: Var)
    requires Distinct(vars) && Backed(vars, flash) && i < |vars| && v.name == vars[i].name && v.index == vars[i].index
    ensures Backed(vars[i := v], flash[v.index := Rec(v.name, v.entry.val)])
  {
    var vars', flash' := vars[i := v], flash[v.index := Rec(v.name, v.entry.val)];
    assert RowBacked(vars[i], flash);
    forall k | 0 <= k < |vars| ensures RowBacked(vars'[k], flash') {
      assert RowBacked(vars[k], flash);
      if k != i {
        SlotsDiffer(vars, flash, k, i);
      }
    }
    forall s | s in flash' ensures Uses(vars', s) {
      var k := UsesRow(vars, s);
      assert vars'[k].index == s;
    }
  }

  lemma CreateBacks(vars: seq<Var>, flash: Flash, v: Var)
    requires Backed(vars, flash) && v.index < MAX_VARS && !Uses(vars, v.index)
    ensures Backed(vars + [v], flash[v.index := Rec(v.name, v.entry.val)])
  {
    var all, flash' := vars + [v], flash[v.index := Rec(v.name, v.entry.val)];
    forall k | 0 <= k < |all| ensures RowBacked(all[k], flash') {
      if k < |vars| {
        RowNamed(vars, k);
        assert RowBacked(vars[k], flash);
      }
    }
    forall s | s in flash' ensures Uses(all, s) {
      if s == v.index {
        assert all[|vars|].index == s;
      } else {
        var k := UsesRow(vars, s);
        assert all[k].index == s;
      }
    }
  }

  lemma RemoveBacks(vars: seq<Var>, flash: Flash, i: nat)
    requires Distinct(vars) && Backed(vars, flash) && i < |vars|
    ensures Backed(Unrow(vars, i), flash - {vars[i].index})
  {
    var rest := Unrow(vars, i);
    DistinctKept(vars, i);
    forall k | 0 <= k < |rest| ensures RowBacked(rest[k], flash - {vars[i].index}) {
      var k' := if k == i then |vars| - 1 else k;
      assert RowBacked(vars[k'], flash);
      SlotsDiffer(vars, flash, k', i);
    }
    forall s | s in flash && s != vars[i].index ensures Uses(rest, s) {
      var k := UsesRow(vars, s);
      var k' := RowKept(vars, i, k);
    }
  }

  /** The rows with their slots moved. */
  ghost predicate Reindexed(vars: seq<Var>, vars': seq<Var>, p: Perm)
    requires IsPerm(p)
  {
    && |vars| == |vars'|
    && (forall i :: 0 <= i < |vars| ==> vars[i].index < MAX_VARS)
    && (forall i :: 0 <= i < |vars| ==> vars'[i] == vars[i].(index := p.to[vars[i].index]))
  }

  /** Names and entries are the same; slots may differ. */
  ghost predicate KeepsEntries(vars: seq<Var>, vars': seq<Var>) {
    |vars'| == |vars| && forall i :: 0 <= i < |vars| ==> vars'[i].name == vars[i].name && vars'[i].entry == vars[i].entry
  }

  /** Rows whose slots have changed stand for the same map. */
  lemma EntriesKeepMap(vars: seq<Var>, vars': seq<Var>, m: Environment)
    requires Distinct(vars) && Represents(vars, m) && KeepsEntries(vars, vars')
    ensures Distinct(vars') && Represents(vars', m)
  {
    forall n | n in m ensures Named(vars', n) {
      var k := NamedRow(vars, n);
      assert vars'[k].name == n;
    }
  }

  /** After a permutation of the slots every moved row's slot still holds its record. */
  lemma MoveBacks(vars: seq<Var>, vars': seq<Var>, flash: Flash, p: Perm)
    requires IsPerm(p) && Backed(vars, flash) && Reindexed(vars, vars', p)
    ensures Backed(vars', Moved(flash, p))
  {
    forall i | 0 <= i < |vars| ensures RowBacked(vars'[i], Moved(flash, p)) {
      assert RowBacked(vars[i], flash);
      assert p.from[p.to[vars[i].index]] == vars[i].index;
    }
    forall t | t in Moved(flash, p) ensures Uses(vars', t) {
      var i := UsesRow(vars, p.from[t]);
      assert vars'[i].index == t;
    }
  }

  // ---------- writes and deletions ----------

  /** The store after a write. */
  ghost function Written(f: Flash, slot: nat, r: Rec, w: Outcome): Flash
    requires w.Rearranged? ==> IsPerm(w.p)
  {
    match w
    case Done => f[slot := r]
    case Failed(_, left) => left
    case Rearranged(p) => Moved(f[slot := r], p)
  }

  /** The store after the record of a slot has been deleted. */
  ghost function Deleted(flash: Flash, slot: nat, w: Outcome): Flash
    requires w.Rearranged? ==> IsPerm(w.p)
  {
    match w
    case Done => flash - {slot}
    case Failed(_, left) => left
    case Rearranged(p) => Moved(flash - {slot}, p)
  }

  predicate Stays(p: Perm, s: nat) {
    s < |p.to| && p.to[s] == s
  }

  /** The records without that of a name. */
  function Without(flash: Flash, name: string): Flash {
    map s | s in flash && flash[s].name != name :: flash[s]
  }

  /** The answer to a deletion that is not looked at does no harm: the record is gone, and no other has
      changed or moved. */
  ghost predicate DeletionFits(flash: Flash, name: string, w: Outcome) {
    match w
    case Done => true
    case Failed(_, left) => left == Without(flash, name)
    case Rearranged(p) => forall s :: s in Without(flash, name) ==> Stays(p, s)
  }

  lemma WithoutIs(vars: seq<Var>, flash: Flash, i: nat)
    requires Distinct(vars) && Backed(vars, flash) && i < |vars|
    ensures flash - {vars[i].index} == Without(flash, vars[i].name)
  {
    assert RowBacked(vars[i], flash);
    forall s | s in flash && s != vars[i].index ensures flash[s].name != vars[i].name {
      var k := UsesRow(vars, s);
      assert RowBacked(vars[k], flash);
    }
  }

  /** Rows and slots match behind a deletion exactly when its answer does no harm. */
  lemma DeletionMatchesExactly(vars: seq<Var>, flash: Flash, i: nat, w: Outcome)
    requires Distinct(vars) && Backed(vars, flash) && i < |vars| && (w.Rearranged? ==> IsPerm(w.p))
    ensures Backed(Unrow(vars, i), Deleted(flash, vars[i].index, w)) <==> DeletionFits(flash, vars[i].name, w)
  {
    hide Distinct, Backed, Moved, Without, Stays;
    var rest, flash' := Unrow(vars, i), flash - {vars[i].index};
    RemoveBacks(vars, flash, i);
    DistinctKept(vars, i);
    WithoutIs(vars, flash, i);
    match w
    case Done =>
    case Failed(_, left) =>
      if Backed(rest, left) {
        BackedOnce(rest, left, flash');
      }
    case Rearranged(p) =>
      if forall s :: s in flash' ==> Stays(p, s) {
        StayingBacked(rest, flash', p);
      }
      if Backed(rest, Moved(flash', p)) {
        BackedStay(rest, flash', p);
      }
  }

  lemma StayingBacked(vars: seq<Var>, flash: Flash, p: Perm)
    requires IsPerm(p) && Backed(vars, flash) && forall s :: s in flash ==> Stays(p, s)
    ensures Backed(vars, Moved(flash, p))
  {
    forall i | 0 <= i < |vars| ensures vars[i].index < MAX_VARS && vars[i] == vars[i].(index := p.to[vars[i].index]) {
      assert RowBacked(vars[i], flash);
      assert Stays(p, vars[i].index);
    }
    MoveBacks(vars, vars, flash, p);
  }

  lemma BackedStay(vars: seq<Var>, flash: Flash, p: Perm)
    requires IsPerm(p) && Distinct(vars) && Backed(vars, flash) && Backed(vars, Moved(flash, p))
    ensures forall s :: s in flash ==> Stays(p, s)
  {
    forall s | s in flash ensures Stays(p, s) {
      var i := UsesRow(vars, s);
      SameRecordStays(vars, flash, p, i);
    }
  }

  /** The record of row i is found where the row says, and it is that record: names are distinct. */
  lemma SameRecordStays(vars: seq<Var>, flash: Flash, p: Perm, i: nat)
    requires IsPerm(p) && Distinct(vars) && Backed(vars, flash) && Backed(vars, Moved(flash, p)) && i < |vars|
    ensures vars[i].index < MAX_VARS && p.to[vars[i].index] == vars[i].index
  {
    var s := vars[i].index;
    assert RowBacked(vars[i], Moved(flash, p));
    var k := UsesRow(vars, p.from[s]);
    assert RowBacked(vars[k], flash);
    assert vars[k].name == vars[i].name;
    assert k == i;
    assert p.to[p.from[s]] == s;
  }

  const Lone := Var("a", Entry("b", USER, None, None), 0)

  /** The only variable is removed, but the store refuses to delete its record: it stays. */
  lemma RefusedDeletionStays()
    ensures var flash: Flash := map[0 := Rec("a", "b")];
      Distinct([Lone]) && Backed([Lone], flash) && !Backed(Unrow([Lone], 0), Deleted(flash, 0, Failed(1, flash)))
  {
    var flash: Flash := map[0 := Rec("a", "b")];
    RowNamed([Lone], 0);
    assert Backed([Lone], flash);
    DeletionMatchesExactly([Lone], flash, 0, Failed(1, flash));
    assert 0 in flash && 0 !in Without(flash, "a");
  }

  // ---------- what a restart finds ----------

  /** No two records have the same name. */
  ghost predicate DistinctRecords(flash: Flash) {
    forall s, t :: s in flash && t in flash && s != t ==> flash[s].name != flash[t].name
  }

  ghost predicate IsStore(flash: Flash) {
    forall s :: s in flash ==> s < MAX_VARS
  }

  /** The entry that a record becomes when it is read at start-up. */
  function FromRecord(val: string): Entry {
    Entry(val, USER, None, None)
  }

  /** The records below slot n. */
  ghost function BelowSlot(flash: Flash, n: nat): Flash {
    map s | s in flash && s < n :: flash[s]
  }

  /** The map has exactly the names of the records, each with its value. */
  ghost predicate Recovers(flash: Flash, m: Environment) {
    && (forall s :: s in flash ==> flash[s].name in m && m[flash[s].name] == FromRecord(flash[s].val))
    && (forall n :: n in m ==> HasRecord(flash, n))
  }

  ghost predicate HasRecord(flash: Flash, n: string) {
    exists s :: s in flash && flash[s].name == n
  }

  /** Names and values of the map, as a restart sees them. */
  function AsRead(m: Environment): Environment {
    map n | n in m :: FromRecord(m[n].val)
  }

  /** The records in the flash slots are exactly the names and values of the map. */
  lemma FlashHoldsMap(vars: seq<Var>, flash: Flash, m: Environment)
    requires Distinct(vars) && Represents(vars, m) && Backed(vars, flash)
    ensures IsStore(flash) && DistinctRecords(flash) && Recovers(flash, AsRead(m))
  {
    forall s | s in flash
      ensures s < MAX_VARS && flash[s].name in m && m[flash[s].name].val == flash[s].val
    {
      var i := UsesRow(vars, s);
      assert RowBacked(vars[i], flash);
    }
    forall s, t | s in flash && t in flash && s != t ensures flash[s].name != flash[t].name {
      var i := UsesRow(vars, s);
      var j := UsesRow(vars, t);
      assert RowBacked(vars[i], flash) && RowBacked(vars[j], flash);
    }
    forall n | n in m ensures HasRecord(flash, n) {
      var i := NamedRow(vars, n);
      assert RowBacked(vars[i], flash);
    }
  }

  /** The records determine what a restart recovers. */
  lemma RecoveredOnce(flash: Flash, m: Environment, m': Environment)
    requires Recovers(flash, m) && Recovers(flash, m')
    ensures m == m'
  {
    forall n ensures n in m <==> n in m' {
      if n in m {
        var s :| s in flash && flash[s].name == n;
      }
      if n in m' {
        var s :| s in flash && flash[s].name == n;
      }
    }
    forall n | n in m ensures m[n] == m'[n] {
      var s :| s in flash && flash[s].name == n;
    }
  }

  // ---------- reading slots ----------

  /** The last slot below n whose record has that name, or `other`. */
  function LastSlot(flash: Flash, name: string, n: nat, other: nat): nat {
    if n == 0 then other
    else if n - 1 in flash && flash[n - 1].name == name then n - 1
    else LastSlot(flash, name, n - 1, other)
  }

  /** The rows with the slots below n read again. */
  ghost predicate Reread(vars: seq<Var>, vars': seq<Var>, flash: Flash, n: nat) {
    && |vars'| == |vars|
    && forall i :: 0 <= i < |vars| ==> vars'[i] == vars[i].(index := LastSlot(flash, vars[i].name, n, vars[i].index))
  }

  lemma NothingReread(vars: seq<Var>, flash: Flash)
    ensures Reread(vars, vars, flash, 0)
  {
  }

  lemma RereadSlot(vars: seq<Var>, vars': seq<Var>, flash: Flash, t: nat, index: nat)
    requires Distinct(vars) && Reread(vars, vars', flash, t) && t in flash && index < |vars'|
    requires vars'[index].name == flash[t].name
    ensures Reread(vars, vars'[index := vars'[index].(index := t)], flash, t + 1)
  {
    forall i | 0 <= i < |vars| && i != index ensures vars[i].name != flash[t].name {
      assert vars[index].name == flash[t].name;
    }
  }

  lemma RereadNothing(vars: seq<Var>, vars': seq<Var>, flash: Flash, t: nat)
    requires Reread(vars, vars', flash, t) && (t in flash ==> !Named(vars', flash[t].name))
    ensures Reread(vars, vars', flash, t + 1)
  {
    if t in flash {
      forall i | 0 <= i < |vars| ensures vars[i].name != flash[t].name {
        RowNamed(vars', i);
      }
    }
  }

  lemma {:induction false} LastSlotBelow(flash: Flash, name: string, n: nat, other: nat)
    ensures LastSlot(flash, name, n, other) < n || LastSlot(flash, name, n, other) == other
  {
    if n > 0 {
      LastSlotBelow(flash, name, n - 1, other);
    }
  }

  lemma {:induction false} LastSlotIs(flash: Flash, name: string, n: nat, other: nat, t: nat)
    requires t < n && t in flash && flash[t].name == name
    requires forall s :: s in flash && flash[s].name == name ==> s == t
    ensures LastSlot(flash, name, n, other) == t
  {
    if n - 1 != t {
      LastSlotIs(flash, name, n - 1, other, t);
    }
  }

  lemma RereadKeeps(vars: seq<Var>, vars': seq<Var>, flash: Flash)
    requires Reread(vars, vars', flash, MAX_VARS)
    ensures KeepsEntries(vars, vars') && (Placed(vars) ==> Placed(vars'))
  {
    forall i | 0 <= i < |vars| && Placed(vars) ensures vars'[i].index < MAX_VARS {
      LastSlotBelow(flash, vars[i].name, MAX_VARS, vars[i].index);
    }
  }

  /** Every row has a slot. */
  ghost predicate Placed(vars: seq<Var>) {
    forall i :: 0 <= i < |vars| ==> vars[i].index < MAX_VARS
  }

  lemma BackedPlaced(vars: seq<Var>, flash: Flash)
    requires Backed(vars, flash)
    ensures Placed(vars)
  {
    forall i | 0 <= i < |vars| ensures vars[i].index < MAX_VARS {
      assert RowBacked(vars[i], flash);
    }
  }

  /** When the records of a matching table have moved, reading all slots again makes it match. */
  lemma RereadMatches(vars: seq<Var>, vars': seq<Var>, flash: Flash, p: Perm)
    requires IsPerm(p) && Distinct(vars) && Backed(vars, flash) && Reread(vars, vars', Moved(flash, p), MAX_VARS)
    ensures Backed(vars', Moved(flash, p))
  {
    hide Backed, Distinct;
    BackedPlaced(vars, flash);
    forall i | 0 <= i < |vars| ensures vars'[i] == vars[i].(index := p.to[vars[i].index]) {
      MovedSlot(vars, flash, p, i);
      LastSlotIs(Moved(flash, p), vars[i].name, MAX_VARS, vars[i].index, p.to[vars[i].index]);
    }
    MoveBacks(vars, vars', flash, p);
  }

  /** The slot that a row's record moves to is the only one with its name. */
  lemma MovedSlot(vars: seq<Var>, flash: Flash, p: Perm, i: nat)
    requires IsPerm(p) && Distinct(vars) && Backed(vars, flash) && i < |vars| && vars[i].index < MAX_VARS
    ensures var t, f := p.to[vars[i].index], Moved(flash, p);
      t < MAX_VARS && t in f && f[t].name == vars[i].name &&
      forall s :: s in f && f[s].name == vars[i].name ==> s == t
  {
    var t, f := p.to[vars[i].index], Moved(flash, p);
    assert RowBacked(vars[i], flash);
    forall s | s in f && f[s].name == vars[i].name ensures s == t {
      var k := UsesRow(vars, p.from[s]);
      assert RowBacked(vars[k], flash);
      assert k == i;
      assert p.to[p.from[s]] == s;
    }
  }

  // ---------- which slot a record goes to ----------

  /** The lowest slot from s on that holds nothing. */
  function FirstFree(flash: Flash, s: nat): nat
    decreases MAX_VARS - s
  {
    if s >= MAX_VARS || s !in flash then s else FirstFree(flash, s + 1)
  }

  /** The slot of a name: where its record is, or the lowest free one. */
  function SlotFor(flash: Flash, name: string): nat {
    LastSlot(flash, name, MAX_VARS, FirstFree(flash, 0))
  }

  /** In a matching table a row's slot is the slot of its name. */
  lemma RowSlot(vars: seq<Var>, flash: Flash, i: nat)
    requires Distinct(vars) && Backed(vars, flash) && i < |vars|
    ensures vars[i].index < MAX_VARS && SlotFor(flash, vars[i].name) == vars[i].index
  {
    assert RowBacked(vars[i], flash);
    forall s | s in flash && flash[s].name == vars[i].name ensures s == vars[i].index {
      var k := UsesRow(vars, s);
      assert RowBacked(vars[k], flash);
      assert k == i;
    }
    LastSlotIs(flash, vars[i].name, MAX_VARS, FirstFree(flash, 0), vars[i].index);
  }

  /** In a matching table the slot that the search finds for a new name is the slot of that name. */
  lemma NewSlot(vars: seq<Var>, flash: Flash, name: string, slot: nat)
    requires Backed(vars, flash) && !Named(vars, name) && slot < MAX_VARS && !Uses(vars, slot)
    requires forall s :: 0 <= s < slot ==> Uses(vars, s)
    ensures slot !in flash && SlotFor(flash, name) == slot
  {
    forall s: nat | s < slot ensures s in flash {
      assert Uses(vars, s);
      var i := UsesRow(vars, s);
      assert RowBacked(vars[i], flash);
    }
    FirstFreeIs(flash, 0, slot);
    forall s | s in flash ensures flash[s].name != name {
      BackedNamed(vars, flash, s);
    }
    LastSlotNone(flash, name, MAX_VARS, slot);
  }

  lemma {:induction false} FirstFreeIs(flash: Flash, s: nat, slot: nat)
    requires s <= slot < MAX_VARS && slot !in flash && forall t: nat :: t < slot ==> t in flash
    ensures FirstFree(flash, s) == slot
    decreases slot - s
  {
    if s < slot {
      FirstFreeIs(flash, s + 1, slot);
    }
  }

  lemma {:induction false} LastSlotNone(flash: Flash, name: string, n: nat, other: nat)
    requires forall s :: s in flash ==> flash[s].name != name
    ensures LastSlot(flash, name, n, other) == other
  {
    if n > 0 {
      LastSlotNone(flash, name, n - 1, other);
    }
  }

  // ---------- reading the store at start-up ----------

  /** One row of each record below slot n. */
  ghost function RowsOf(flash: Flash, n: nat): (vars: seq<Var>)
    ensures |vars| <= n
  {
    if n == 0 then []
    else RowsOf(flash, n - 1) + if n - 1 in flash then [RowOf(flash[n - 1], n - 1)] else []
  }

  function RowOf(r: Rec, s: nat): Var {
    Var(r.name, FromRecord(r.val), s)
  }

  /** What these rows stand for; of two records of one name the later. */
  ghost function Recovered(flash: Flash, n: nat): Environment {
    if n == 0 then map[]
    else if n - 1 in flash then Recovered(flash, n - 1)[flash[n - 1].name := FromRecord(flash[n - 1].val)]
    else Recovered(flash, n - 1)
  }

  lemma {:induction false} RowsOfMatch(flash: Flash, n: nat)
    requires DistinctRecords(flash) && n <= MAX_VARS
    ensures var vars, m := RowsOf(flash, n), Recovered(flash, n);
      && Distinct(vars) && Represents(vars, m) && HasDefaults(m)
      && Backed(vars, BelowSlot(flash, n)) && Recovers(BelowSlot(flash, n), m)
  {
    hide Distinct, Represents, Backed, HasDefaults, Recovers, BelowSlot, DistinctRecords;
    if n == 0 {
      NothingRead(flash);
    } else {
      RowsOfMatch(flash, n - 1);
      if n - 1 in flash {
        ReadRecord(RowsOf(flash, n - 1), Recovered(flash, n - 1), flash, n - 1);
      } else {
        NoRecord(flash, n - 1);
        assert RowsOf(flash, n) == RowsOf(flash, n - 1);
      }
    }
  }

  lemma NothingRead(flash: Flash)
    ensures Distinct([]) && Represents([], map[]) && HasDefaults(map[])
    ensures BelowSlot(flash, 0) == map[] && Backed([], map[]) && Recovers(map[], map[])
  {
  }

  lemma ReadRecord(vars: seq<Var>, m: Environment, flash: Flash, i: nat)
    requires Distinct(vars) && Represents(vars, m) && HasDefaults(m) && i in flash && i < MAX_VARS
    requires Backed(vars, BelowSlot(flash, i)) && Recovers(BelowSlot(flash, i), m) && DistinctRecords(flash)
    ensures var v := RowOf(flash[i], i);
      var vars', m' := vars + [v], m[v.name := v.entry];
      && Distinct(vars') && Represents(vars', m') && HasDefaults(m')
      && Backed(vars', BelowSlot(flash, i + 1)) && Recovers(BelowSlot(flash, i + 1), m')
  {
    hide Distinct, Represents, Backed, HasDefaults, Uses;
    var v := RowOf(flash[i], i);
    SlotUnused(vars, flash, i);
    NameUnused(m, flash, i);
    CreateBacks(vars, BelowSlot(flash, i), v);
    RowAdded(vars, m, v);
    DefaultsKept(m, v.name, v.entry);
    assert BelowSlot(flash, i + 1) == BelowSlot(flash, i)[i := Rec(v.name, v.entry.val)];
    OneMoreRecovered(BelowSlot(flash, i), m, i, flash[i]);
  }

  lemma OneMoreRecovered(flash: Flash, m: Environment, s: nat, r: Rec)
    requires Recovers(flash, m) && s !in flash && r.name !in m
    ensures Recovers(flash[s := r], m[r.name := FromRecord(r.val)])
  {
    var flash', m' := flash[s := r], m[r.name := FromRecord(r.val)];
    forall n | n in m' ensures HasRecord(flash', n) {
      if n == r.name {
        assert flash'[s].name == n;
      } else {
        var t :| t in flash && flash[t].name == n;
        assert flash'[t].name == n;
      }
    }
  }

  lemma SlotUnused(vars: seq<Var>, flash: Flash, i: nat)
    requires Backed(vars, BelowSlot(flash, i))
    ensures !Uses(vars, i)
  {
    forall k | 0 <= k < |vars| ensures vars[k].index != i {
      assert RowBacked(vars[k], BelowSlot(flash, i));
    }
    NotUsed(vars, i);
  }

  lemma NotUsed(vars: seq<Var>, s: nat)
    requires forall i :: 0 <= i < |vars| ==> vars[i].index != s
    ensures !Uses(vars, s)
  {
  }

  lemma NameUnused(m: Environment, flash: Flash, i: nat)
    requires Recovers(BelowSlot(flash, i), m) && DistinctRecords(flash) && i in flash
    ensures flash[i].name !in m
  {
  }

  lemma NoRecord(flash: Flash, i: nat)
    requires i !in flash
    ensures BelowSlot(flash, i + 1) == BelowSlot(flash, i)
  {
  }

  lemma AllRead(flash: Flash)
    requires IsStore(flash)
    ensures BelowSlot(flash, MAX_VARS) == flash
  {
  }

  lemma DefaultsKept(m: Environment, name: string, e: Entry)
    requires HasDefaults(m) && (e.attr == RW ==> e.default.Some?)
    ensures HasDefaults(m[name := e])
  {
  }

  // ---------- creations that the table loses ----------

  /** A record without a row: rows and slots do not match. */
  lemma OrphanLeft(vars: seq<Var>, flash: Flash, t: nat)
    requires t in flash && !Named(vars, flash[t].name)
    ensures !Backed(vars, flash)
  {
    if Backed(vars, flash) {
      BackedNamed(vars, flash, t);
    }
  }

  /** In a matching store every record has a row. */
  lemma BackedNamed(vars: seq<Var>, flash: Flash, s: nat)
    requires Backed(vars, flash) && s in flash
    ensures Named(vars, flash[s].name)
  {
    var k := UsesRow(vars, s);
    assert RowBacked(vars[k], flash);
    RowNamed(vars, k);
  }

  /** A variable whose creation made the store move its records has no row, but its record is there: the
      store holds exactly the map with the variable in it. */
  lemma LostIsStored(vars: seq<Var>, m: Environment, flash: Flash, v: Var, p: Perm)
    requires IsPerm(p) && Distinct(vars) && Represents(vars, m) && Backed(vars, flash)
    requires v.name !in m && v.index < MAX_VARS && !Uses(vars, v.index)
    ensures var f := Moved(flash[v.index := Rec(v.name, v.entry.val)], p);
      && IsStore(f) && DistinctRecords(f) && Recovers(f, AsRead(m[v.name := v.entry]))
      && !Backed(vars, f)
  {
    hide Distinct, Represents, Backed, Uses, Moved;
    var all, f := vars + [v], flash[v.index := Rec(v.name, v.entry.val)];
    CreateBacks(vars, flash, v);
    RowAdded(vars, m, v);
    BackedPlaced(all, f);
    var moved := seq(|all|, i requires 0 <= i < |all| => all[i].(index := p.to[all[i].index]));
    MoveBacks(all, moved, f, p);
    EntriesKeepMap(all, moved, m[v.name := v.entry]);
    FlashHoldsMap(moved, Moved(f, p), m[v.name := v.entry]);
    LostSlot(f, v, p);
    UnknownName(vars, m, v.name);
    OrphanLeft(vars, Moved(f, p), p.to[v.index]);
  }

  lemma LostSlot(flash: Flash, v: Var, p: Perm)
    requires IsPerm(p) && v.index < MAX_VARS && v.index in flash && flash[v.index].name == v.name
    ensures p.to[v.index] in Moved(flash, p) && Moved(flash, p)[p.to[v.index]].name == v.name
  {
    assert p.from[p.to[v.index]] == v.index;
  }

  lemma UnknownName(vars: seq<Var>, m: Environment, n: string)
    requires Represents(vars, m)
    ensures n in m <==> Named(vars, n)
  {
    if Named(vars, n) {
      var i := NamedRow(vars, n);
    }
  }
}

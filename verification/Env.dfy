/** The environment module: env_set, env_unset and env_remove on the table, with write-through. Whatever
    the store answers, the rows of the table stand for a map; as long as its answers do no harm the flash
    slots hold exactly the rows. */
module Env {
  import opened Wrappers
  import opened EnvSpec
  import opened EnvTable

  // ---------- answers that do no harm ----------

  /** Rows and slots match behind a write: not if it is refused and changes the store, nor if it creates
      a variable and the store moves its records. */
  predicate WriteFits(known: bool, flash: Flash, w: Outcome) {
    match w
    case Done => true
    case Failed(_, left) => left == flash
    case Rearranged(_) => known
  }

  predicate AccessFits(m: Environment, ext: bool, name: string, value: string, flash: Flash, w: Outcome) {
    Writes(m, ext, name, value) ==> WriteFits(name in m, flash, w)
  }

  predicate SetFits(m: Environment, ext: bool, name: string, value: string, decode: Option<Decode>, flash: Flash,
                    w: Outcome) {
    SetWrites(m, ext, name, value, decode) ==> WriteFits(name in m, flash, w)
  }

  ghost predicate RemoveFits(m: Environment, ext: bool, name: string, user: bool, system: bool, flash: Flash, w: Outcome) {
    if Deletes(m, name, user) then DeletionFits(flash, name, w)
    else RemoveAsks(m, ext, name, user, system) ==> WriteFits(true, flash, w)
  }

  // ---------- what a matching store holds behind a call ----------

  /** The records of a set that is written through. */
  ghost function SetStore(m: Environment, ext: bool, name: string, value: string, decode: Option<Decode>, flash: Flash,
                          w: Outcome): Flash
    requires w.Rearranged? ==> IsPerm(w.p)
  {
    if Accepts(decode, value) then AccessStore(m, ext, name, value, flash, w) else flash
  }

  ghost function AccessStore(m: Environment, ext: bool, name: string, value: string, flash: Flash, w: Outcome): Flash
    requires w.Rearranged? ==> IsPerm(w.p)
  {
    if Writes(m, ext, name, value) then Written(flash, SlotFor(flash, name), Rec(name, value), w) else flash
  }

  /** The records when a variable has been deleted, or reset, or neither. */
  ghost function RemoveStore(m: Environment, ext: bool, name: string, user: bool, system: bool, flash: Flash, w: Outcome): Flash
    requires w.Rearranged? ==> IsPerm(w.p)
  {
    if Deletes(m, name, user) then Deleted(flash, SlotFor(flash, name), w)
    else if Resets(m, name, system) then AccessStore(m, ext, name, DefaultOf(m[name]), flash, w)
    else flash
  }

  /** The answers of the store are permutations where it moves records. */
  ghost predicate Permutes(outcome: nat -> Outcome) {
    forall k :: outcome(k).Rearranged? ==> IsPerm(outcome(k).p)
  }

  /** The records when env_remove has come past the variables in `order`. */
  ghost function RemovalStore(m: Environment, ext: bool, user: bool, system: bool, order: seq<string>, flash: Flash, k: nat,
                              outcome: nat -> Outcome): Flash
    requires Permutes(outcome)
  {
    if order == [] then flash
    else
      var before, n := order[..|order| - 1], order[|order| - 1];
      RemoveStore(m, ext, n, user, system, RemovalStore(m, ext, user, system, before, flash, k, outcome),
                  outcome(k + Asked(m, ext, user, system, before)))
  }

  /** Every answer on the way keeps rows and slots matched. */
  ghost predicate RemovalFits(m: Environment, ext: bool, user: bool, system: bool, order: seq<string>, flash: Flash, k: nat,
                              outcome: nat -> Outcome)
    requires Permutes(outcome)
  {
    order == [] ||
    var before, n := order[..|order| - 1], order[|order| - 1];
    && RemovalFits(m, ext, user, system, before, flash, k, outcome)
    && RemoveFits(m, ext, n, user, system, RemovalStore(m, ext, user, system, before, flash, k, outcome),
                  outcome(k + Asked(m, ext, user, system, before)))
  }

  /** As far as the last variable passed, the answers have kept rows and slots matched. */
  ghost predicate FitsBefore(m: Environment, ext: bool, user: bool, system: bool, order: seq<string>, flash: Flash, k: nat,
                             outcome: nat -> Outcome)
    requires Permutes(outcome)
  {
    order == [] || RemovalFits(m, ext, user, system, order[..|order| - 1], flash, k, outcome)
  }

  /** What env_remove leaves of a matching table, from its k-th to its k'-th question to the store: while
      all answers fit, rows and slots match exactly if the last one fits too, and the records are known.
      When it stops, nothing has been asked for the last variable, or a write of its default was refused;
      then they match exactly if the refusal has changed nothing. */
  ghost predicate RemovalKeeps(m: Environment, ext: bool, user: bool, system: bool, order: seq<string>, flash: Flash,
                               k: nat, k': nat, code: Code, outcome: nat -> Outcome, flash': Flash, valid: bool)
    requires Permutes(outcome)
  {
    if code == OK then
      FitsBefore(m, ext, user, system, order, flash, k, outcome) ==>
        && (valid <==> RemovalFits(m, ext, user, system, order, flash, k, outcome))
        && flash' == RemovalStore(m, ext, user, system, order, flash, k, outcome)
    else
      RemovalFits(m, ext, user, system, order, flash, k, outcome) ==>
        var f := RemovalStore(m, ext, user, system, order, flash, k, outcome);
        && (valid <==> flash' == f)
        && if k' == k + Asked(m, ext, user, system, order) then flash' == f
           else k' > 0 && outcome(k' - 1).Failed? && flash' == outcome(k' - 1).left
  }

  /** An answer that does no harm whatever the store holds: a deletion moves no record, a write of a default
      is done. */
  ghost predicate Harmless(m: Environment, ext: bool, name: string, user: bool, system: bool, w: Outcome) {
    if Deletes(m, name, user) then w.Done? || (w.Rearranged? && forall s: nat :: s < MAX_VARS ==> Stays(w.p, s))
    else RemoveAsks(m, ext, name, user, system) ==> !w.Failed?
  }

  ghost predicate AllHarmless(m: Environment, ext: bool, user: bool, system: bool, order: seq<string>, k: nat,
                              outcome: nat -> Outcome)
  {
    order == [] ||
    var before, n := order[..|order| - 1], order[|order| - 1];
    && AllHarmless(m, ext, user, system, before, k, outcome)
    && Harmless(m, ext, n, user, system, outcome(k + Asked(m, ext, user, system, before)))
  }

  /** No answer of a removal does harm, and if it stops, then before the store has been asked. */
  ghost predicate Undisturbed(m: Environment, ext: bool, user: bool, system: bool, order: seq<string>, k: nat, k': nat,
                              code: Code, outcome: nat -> Outcome) {
    && AllHarmless(m, ext, user, system, order, k, outcome)
    && (code == OK || k' == k + Asked(m, ext, user, system, order))
  }

  /** A moment of a run: how often the store has been asked, what it holds, whether rows and slots match,
      and the map. */
  datatype Point = Point(asked: nat, flash: Flash, valid: bool, env: Environment)

  /** env_remove has come past the variables in `order`. */
  ghost predicate Along(start: Point, ext: bool, user: bool, system: bool, order: seq<string>, outcome: nat -> Outcome, p: Point)
    requires Permutes(outcome)
  {
    && p.env == RemoveSome(start.env, Passed(order), user, system)
    && Passing(start.env, ext, user, system, order, start.asked, outcome)
    && p.asked == start.asked + Asked(start.env, ext, user, system, order)
    && (start.valid ==>
          && RemovalKeeps(start.env, ext, user, system, order, start.flash, start.asked, p.asked, OK, outcome, p.flash, p.valid)
          && (AllHarmless(start.env, ext, user, system, order, start.asked, outcome) ==> p.valid))
  }

  /** It has stopped at variable n, with that code. */
  ghost predicate Stopped(start: Point, ext: bool, user: bool, system: bool, order: seq<string>, n: string, code: Code,
                          outcome: nat -> Outcome, p: Point)
    requires Permutes(outcome)
  {
    && p.env == RemoveSome(start.env, Passed(order), user, system)
    && Passing(start.env, ext, user, system, order, start.asked, outcome)
    && StopsAt(start.env, ext, user, system, order, n, start.asked, p.asked, code, outcome)
    && (start.valid ==>
          && RemovalKeeps(start.env, ext, user, system, order, start.flash, start.asked, p.asked, code, outcome, p.flash, p.valid)
          && (Undisturbed(start.env, ext, user, system, order, start.asked, p.asked, code, outcome) ==> p.valid))
  }

  /** A new variable is written, and the store moves its records: the table loses it. */
  predicate Loses(m: Environment, ext: bool, name: string, value: string, w: Outcome) {
    Writes(m, ext, name, value) && name !in m && w.Rearranged?
  }

  predicate SetLoses(m: Environment, ext: bool, name: string, value: string, decode: Option<Decode>, w: Outcome) {
    Accepts(decode, value) && Loses(m, ext, name, value, w)
  }

  /** The store holds exactly the names and values of the map. */
  ghost predicate Stores(flash: Flash, m: Environment) {
    IsStore(flash) && DistinctRecords(flash) && Recovers(flash, AsRead(m))
  }

  /** The caller gives a default value wherever it makes a variable resettable. */
  predicate DefaultGiven(m: Environment, name: string, attr: Attr, default: Option<string>) {
    attr == RW && (name in m ==> m[name].attr == USER) ==> default.Some?
  }

  class Table {
    // How the store will answer when it is asked for the k-th time.
    const outcome: nat -> Outcome
    var writes: nat
    var flash: Flash
    const info: array<Var>
    var count: nat
    var extPrivileges: bool
    // env_vars[count].name is NULL
    var terminated: bool
    // What the table stands for
    ghost var contents: Environment

    /** An empty store. */
    constructor (outcome: nat -> Outcome)
      requires Permutes(outcome)
      ensures Valid() && fresh(info) && contents == map[] && this.outcome == outcome && writes == 0 && !extPrivileges
    {
      this.outcome := outcome;
      writes, flash, count, extPrivileges, terminated := 0, map[], 0, false, true;
      info := new Var[MAX_VARS](_ => Blank);
      contents := map[];
    }

    /** env_init, as far as reading the store goes: every record becomes a row. */
    constructor FromFlash(outcome: nat -> Outcome, flash: Flash)
      requires Permutes(outcome)
      ensures this.outcome == outcome && this.flash == flash && writes == 0 && terminated && !extPrivileges
      ensures fresh(info) && info.Length == MAX_VARS && count <= MAX_VARS && Rows() == RowsOf(flash, MAX_VARS)
      ensures IsStore(flash) && DistinctRecords(flash) ==> Valid() && Recovers(flash, contents)
    {
      this.outcome := outcome;
      writes, this.flash, count, extPrivileges, terminated := 0, flash, 0, false, true;
      info := new Var[MAX_VARS](_ => Blank);
      contents := map[];
      new;
      ReadStore();
    }

    /** Reads all slots at start-up. */
    method ReadStore()
      requires info.Length == MAX_VARS && count == 0
      requires Permutes(outcome)
      modifies this`count, this`contents, info
      ensures count <= MAX_VARS && Rows() == RowsOf(flash, MAX_VARS)
      ensures IsStore(flash) && DistinctRecords(flash) ==> Valid() && Recovers(flash, contents)
    {
      hide Distinct, Represents, Backed, HasDefaults, Recovers, BelowSlot, DistinctRecords, IsPerm, Placed, IsStore;
      var i := 0;
      while i < MAX_VARS
        invariant i <= MAX_VARS && count <= i && Rows() == RowsOf(flash, i)
      {
        ghost var rows := Rows();
        if i in flash {
          info[count] := RowOf(flash[i], i);
          count := count + 1;
          assert Rows() == rows + [RowOf(flash[i], i)];
        } else {
          assert rows + [] == rows;
        }
        i := i + 1;
      }
      contents := Recovered(flash, MAX_VARS);
      if IsStore(flash) && DistinctRecords(flash) {
        RowsOfMatch(flash, MAX_VARS);
        AllRead(flash);
        BackedPlaced(Rows(), flash);
      }
    }

    /** The rows stand for the map. */
    ghost predicate Tabled()
      reads this, info
    {
      && info.Length == MAX_VARS && count <= MAX_VARS
      && Permutes(outcome)
      && Distinct(Rows()) && Represents(Rows(), contents) && Placed(Rows())
      && HasDefaults(contents)
    }

    /** The rows stand for the map, and the flash slots hold exactly the rows. */
    ghost predicate Valid()
      reads this, info
    {
      Tabled() && Backed(Rows(), flash)
    }

    ghost function Rows(): (vars: seq<Var>)
      requires count <= info.Length
      reads this, info
      ensures |vars| == count
    {
      info[..count]
    }

    /** The first row of that name, or count. */
    method LookupEnv(name: string) returns (index: nat)
      requires count <= info.Length
      ensures index <= count
      ensures index < count ==> info[index].name == name
      ensures index == count <==> !Named(Rows(), name)
    {
      index := 0;
      while index < count && info[index].name != name
        invariant index <= count && forall i :: 0 <= i < index ==> info[i].name != name
      {
        index := index + 1;
      }
      if index < count {
        RowNamed(Rows(), index);
      }
    }

    /** The search for a slot that no row uses. */
    method FindFree() returns (slot: nat)
      requires count < MAX_VARS && info.Length == MAX_VARS
      ensures slot < MAX_VARS && !Uses(Rows(), slot)
      ensures forall s :: 0 <= s < slot ==> Uses(Rows(), s)
    {
      hide Uses;
      slot := 0;
      ghost var rows := Rows();
      var found := false;
      while !found
        invariant slot <= MAX_VARS && rows == Rows()
        invariant forall s :: s in Below(slot) ==> Uses(rows, s)
        invariant forall s :: 0 <= s < slot ==> Uses(rows, s)
        invariant found ==> slot < MAX_VARS && !Uses(rows, slot)
        decreases !found, MAX_VARS - slot
      {
        NotAllTaken(rows, slot);
        var i := 0;
        while i < count && info[i].index != slot
          invariant i <= count && forall k :: 0 <= k < i ==> info[k].index != slot
        {
          i := i + 1;
        }
        if i == count {
          found := true;
          NotUsed(rows, slot);
        } else {
          RowNamed(rows, i);
          slot := slot + 1;
        }
      }
    }

    /** Reads all slots again after the store has moved its records. */
    method ReInit()
      requires count <= info.Length == MAX_VARS && Distinct(Rows())
      modifies info
      ensures Reread(old(Rows()), Rows(), flash, MAX_VARS)
      ensures info[count..] == old(info[count..])
    {
      hide Distinct, Reread, Named;
      ghost var rows := Rows();
      var i := 0;
      NothingReread(rows, flash);
      while i < MAX_VARS
        invariant i <= MAX_VARS && Reread(rows, Rows(), flash, i)
        invariant info[count..] == old(info[count..])
      {
        ghost var rows' := Rows();
        if i in flash {
          var index := LookupEnv(flash[i].name);
          if index < count {
            RereadSlot(rows, rows', flash, i, index);
            info[index] := info[index].(index := i);
            assert Rows() == rows'[index := rows'[index].(index := i)];
          } else {
            RereadNothing(rows, rows', flash, i);
          }
        } else {
          RereadNothing(rows, rows', flash, i);
        }
        i := i + 1;
      }
    }

    /** Writes row k to its slot, or to a free one, as the store answers. */
    method EnvToFlash(k: nat) returns (code: Code, slot: nat, moved: bool)
      requires info.Length == MAX_VARS && k <= count <= MAX_VARS && k < MAX_VARS
      requires outcome(writes).Rearranged? ==> IsPerm(outcome(writes).p)
      requires |info[k].name| + |info[k].entry.val| + 2 <= DATA_SIZE
      requires Distinct(Rows())
      requires if k < count then info[k].index < MAX_VARS else info[k].index == INDEX_NONE
      modifies this`writes, this`flash, info
      ensures writes == old(writes) + 1 && slot < MAX_VARS
      ensures k < count ==> slot == old(info[k].index)
      ensures k == count ==> !Uses(old(Rows()), slot) && forall s :: 0 <= s < slot ==> Uses(old(Rows()), s)
      ensures var w := outcome(old(writes));
        && code == (if w.Failed? then WRITE_ERROR(w.code) else OK) && moved == w.Rearranged?
        && flash == Written(old(flash), slot, Rec(old(info[k]).name, old(info[k]).entry.val), w)
      ensures !moved ==> info[..] == old(info[..])
      ensures moved ==> Reread(old(Rows()), Rows(), flash, MAX_VARS)
    {
      moved := false;
      slot := info[k].index;
      if slot == INDEX_NONE {
        slot := FindFree();
      }
      var w := outcome(writes);
      writes := writes + 1;
      match w
      case Failed(c, left) =>
        code, flash := WRITE_ERROR(c), left;
      case Done =>
        code, flash := OK, flash[slot := Rec(info[k].name, info[k].entry.val)];
      case Rearranged(p) =>
        code, moved := OK, true;
        flash := flash[slot := Rec(info[k].name, info[k].entry.val)];
        MoveRecords(p);
        ReInit();
    }

    /** What the store itself does when it moves its records. */
    method MoveRecords(p: Perm)
      requires IsPerm(p)
      modifies this`flash
      ensures flash == Moved(old(flash), p)
    {
      var f := flash;
      flash := map t: nat | t < MAX_VARS && p.from[t] in f :: f[p.from[t]];
    }

    /** env_remove_from_flash: nobody looks at the answer. */
    method RemoveFromFlash(slot: nat)
      requires outcome(writes).Rearranged? ==> IsPerm(outcome(writes).p)
      modifies this`writes, this`flash
      ensures writes == old(writes) + 1 && flash == Deleted(old(flash), slot, outcome(old(writes)))
    {
      var w := outcome(writes);
      writes := writes + 1;
      match w
      case Done => flash := flash - {slot};
      case Failed(_, left) => flash := left;
      case Rearranged(p) =>
        flash := flash - {slot};
        MoveRecords(p);
    }

    /** Gives row `index` a new value and writes it through; if the write is refused it gets the old one
        back. */
    method UpdateVar(index: nat, value: string) returns (code: Code)
      requires Tabled() && index < count && |info[index].name| + |value| + 2 <= DATA_SIZE
      modifies this`writes, this`flash, this`contents, info
      ensures Tabled() && KeepsNames(old(Rows()), Rows()) && writes == old(writes) + 1
      ensures var w := outcome(old(writes));
        && code == (if w.Failed? then WRITE_ERROR(w.code) else OK)
        && flash == Written(old(flash), old(info[index].index), Rec(old(info[index].name), value), w)
      ensures var v := WithValue(old(info[index]), value);
        contents == if code == OK then old(contents)[v.name := v.entry] else old(contents)
      ensures old(Valid()) ==> (Valid() <==> WriteFits(true, old(flash), outcome(old(writes))))
    {
      hide Distinct, Represents, Backed, HasDefaults, IsPerm, Named, Uses, Moved, Reread, Placed;
      ghost var rows, m, f := Rows(), contents, flash;
      var oldData := info[index].entry.val;
      var v := WithValue(info[index], value);
      OneChanged(rows, m, f, index, v);
      info[index] := v;
      ghost var rows' := rows[index := v];
      assert Rows() == rows';
      var slot, moved;
      code, slot, moved := EnvToFlash(index);
      if code != OK {
        info[index] := info[index].(entry := info[index].entry.(val := oldData));
        assert Rows() == rows;
        if Backed(rows, f) && Backed(rows, flash) {
          BackedOnce(rows, f, flash);
        }
      } else {
        contents := contents[v.name := v.entry];
        if moved {
          RowsReread(rows', Rows(), contents, f[slot := Rec(v.name, v.entry.val)], outcome(old(writes)).p);
        } else {
          assert Rows() == rows';
        }
      }
    }

    /** A user variable takes over attribute, default and decode function. */
    method AdoptVar(index: nat, attr: Attr, default: Option<string>, decode: Option<Decode>)
      requires Tabled() && index < count && (attr == RW ==> default.Some?)
      modifies this`contents, info
      ensures Tabled() && KeepsNames(old(Rows()), Rows()) && (Valid() <==> old(Valid()))
      ensures var v := old(info[index]);
        contents == old(contents)[v.name := Entry(v.entry.val, attr, default, decode)]
    {
      hide Distinct, Represents, Backed, HasDefaults, IsPerm, Named, Uses, Moved, Placed;
      ghost var rows, m := Rows(), contents;
      var v := info[index].(entry := Entry(info[index].entry.val, attr, default, decode));
      info[index] := v;
      assert Rows() == rows[index := v];
      SameRecord(rows, m, flash, index, v);
      DefaultsKept(m, v.name, v.entry);
      contents := contents[v.name := v.entry];
    }

    /** Fills the row behind the last one and writes it; the row joins the table unless the write is
        refused or makes the store move its records. In that case the table loses the variable, but the
        store has it. */
    method CreateVar(name: string, value: string, attr: Attr, default: Option<string>, decode: Option<Decode>)
      returns (code: Code)
      requires Tabled() && count < MAX_VARS && !Named(Rows(), name) && (attr == RW ==> default.Some?)
      requires |name| + |value| + 2 <= DATA_SIZE
      modifies this`writes, this`flash, this`contents, this`count, this`terminated, info
      ensures Tabled() && writes == old(writes) + 1
      ensures var w := outcome(old(writes));
        && code == (if w.Failed? then WRITE_ERROR(w.code) else OK)
        && contents == (if w.Done? then old(contents)[name := Entry(value, attr, default, decode)] else old(contents))
        && terminated == w.Done?
        && (old(Valid()) ==> (Valid() <==> WriteFits(false, old(flash), w)))
        && (old(Valid()) && w.Rearranged? ==> Stores(flash, old(contents)[name := Entry(value, attr, default, decode)]))
        && (old(Valid()) ==> flash == Written(old(flash), SlotFor(old(flash), name), Rec(name, value), w))
    {
      hide Distinct, Represents, Backed, HasDefaults, IsPerm, Named, Uses, Moved, Reread, Placed, Stores, Recovers;
      ghost var rows, m, f := Rows(), contents, flash;
      var v := Var(name, Entry(value, attr, default, decode), INDEX_NONE);
      terminated := false;
      info[count] := v;
      assert Rows() == rows;
      UnknownName(rows, m, name);
      var slot, moved;
      code, slot, moved := EnvToFlash(count);
      if Backed(rows, f) {
        NewSlot(rows, f, name, slot);
      }
      if code == OK {
        if !moved {
          info[count] := v.(index := slot);
          OneAdded(rows, m, f, v.(index := slot));
          contents := contents[name := v.entry];
          count := count + 1;
          terminated := true;
          assert Rows() == rows + [v.(index := slot)];
        } else {
          RowsKept(rows, Rows(), m, flash);
          if Backed(rows, f) {
            LostFound(rows, Rows(), m, f, v.(index := slot), outcome(old(writes)).p);
          }
        }
      } else {
        assert Rows() == rows;
        if Backed(rows, f) && Backed(rows, flash) {
          BackedOnce(rows, f, flash);
        }
      }
    }

    /** Changes the variable of a row. */
    method ChangeVar(index: nat, value: string, attr: Attr, default: Option<string>, decode: Option<Decode>)
      returns (code: Code)
      requires Tabled() && index < count && LengthError(info[index].name, value) == OK
      requires DefaultGiven(contents, info[index].name, attr, default)
      modifies this`writes, this`flash, this`contents, info
      ensures Tabled() && KeepsNames(old(Rows()), Rows())
      ensures var name := old(info[index].name);
        && Effect(code, contents) ==
           Access(old(contents), extPrivileges, name, value, attr, default, decode, outcome(old(writes)))
        && writes == old(writes) + One(Writes(old(contents), extPrivileges, name, value))
        && (old(Valid()) ==>
              && (Valid() <==> AccessFits(old(contents), extPrivileges, name, value, old(flash), outcome(old(writes))))
              && flash == AccessStore(old(contents), extPrivileges, name, value, old(flash), outcome(old(writes))))
    {
      hide Distinct, Represents, Backed, HasDefaults, IsPerm, Named, Placed, Stores, Access, Writes, Updated, Written, SlotFor;
      ghost var rows, m := Rows(), contents;
      RowEntry(rows, m, index);
      if Backed(rows, flash) {
        RowSlot(rows, flash, index);
      }
      AccessKnown(m, extPrivileges, info[index].name, value, attr, default, decode, outcome(writes));
      var e := info[index].entry;
      code := OK;
      if e.attr == RO && !extPrivileges {
        code := VAR_RO;
      } else if e.val != value && !Accepts(e.decode, value) {
        code := VALUE;
      } else {
        code := WriteThrough(index, value, attr, default, decode);
      }
    }

    /** Writes a new value, and lets a user variable take over the parameters. */
    method WriteThrough(index: nat, value: string, attr: Attr, default: Option<string>, decode: Option<Decode>)
      returns (code: Code)
      requires Tabled() && index < count && |info[index].name| + |value| + 2 <= DATA_SIZE
      requires DefaultGiven(contents, info[index].name, attr, default)
      modifies this`writes, this`flash, this`contents, info
      ensures Tabled() && KeepsNames(old(Rows()), Rows())
      ensures var v, w := old(info[index]), outcome(old(writes));
        var writing := v.entry.val != value;
        && code == (if writing && w.Failed? then WRITE_ERROR(w.code) else OK)
        && contents == (if code != OK then old(contents)
                        else old(contents)[v.name := Updated(v.entry, value, attr, default, decode)])
        && writes == old(writes) + One(writing)
        && flash == (if writing then Written(old(flash), v.index, Rec(v.name, value), w) else old(flash))
        && (old(Valid()) ==> (Valid() <==> (writing ==> WriteFits(true, old(flash), w))))
    {
      hide Distinct, Represents, Backed, HasDefaults, IsPerm, Named, Placed, Updated, Written, WriteFits;
      ghost var m := contents;
      RowEntry(Rows(), m, index);
      var e := info[index].entry;
      code := OK;
      if e.val != value {
        code := UpdateVar(index, value);
      }
      if code == OK && e.attr == USER {
        RowEntry(Rows(), contents, index);
        AdoptVar(index, attr, default, decode);
      }
      UpdatedInSteps(m, info[index].name, value, attr, default, decode);
    }

    /** Creates or changes a variable. */
    method AccessVar(name: string, value: string, attr: Attr, default: Option<string>, decode: Option<Decode>)
      returns (code: Code)
      requires Tabled() && DefaultGiven(contents, name, attr, default)
      modifies this`writes, this`flash, this`contents, this`count, this`terminated, info
      ensures Effect(code, contents) ==
              Access(old(contents), extPrivileges, name, value, attr, default, decode, outcome(old(writes)))
      ensures writes == old(writes) + One(Writes(old(contents), extPrivileges, name, value))
      ensures Tabled() && (old(Named(Rows(), name)) ==> KeepsNames(old(Rows()), Rows()))
      ensures old(Valid()) ==>
                && (Valid() <==> AccessFits(old(contents), extPrivileges, name, value, old(flash), outcome(old(writes))))
                && flash == AccessStore(old(contents), extPrivileges, name, value, old(flash), outcome(old(writes)))
      ensures old(Valid()) && Loses(old(contents), extPrivileges, name, value, outcome(old(writes))) ==>
                Stores(flash, old(contents)[name := Entry(value, attr, default, decode)])
      ensures terminated == if Creates(old(contents), name, value) then outcome(old(writes)).Done? else old(terminated)
    {
      hide Distinct, Represents, Backed, HasDefaults, IsPerm, Named, Placed, Stores, Access, Writes, KeepsNames;
      ghost var rows, m := Rows(), contents;
      RepresentedSize(rows, m);
      AccessUnknown(m, extPrivileges, name, value, attr, default, decode, outcome(writes));
      NamesKept(rows);
      UnknownName(rows, m, name);
      code := LengthError(name, value);
      if code == OK {
        var index := LookupEnv(name);
        if index < count {
          RowEntry(rows, m, index);
          code := ChangeVar(index, value, attr, default, decode);
        } else if count == MAX_VARS {
          code := OVERFLOW;
        } else {
          code := CreateVar(name, value, attr, default, decode);
        }
      }
    }

    /** env_set */
    method Set(name: string, value: string, attr: Attr, default: Option<string>, decode: Option<Decode>)
      returns (code: Code)
      requires Tabled() && DefaultGiven(contents, name, attr, default)
      modifies this`writes, this`flash, this`contents, this`count, this`terminated, info
      ensures Effect(code, contents) ==
              EnvSpec.Set(old(contents), extPrivileges, name, value, attr, default, decode, outcome(old(writes)))
      ensures writes == old(writes) + One(SetWrites(old(contents), extPrivileges, name, value, decode))
      ensures Tabled()
      ensures old(Valid()) ==>
                && (Valid() <==> SetFits(old(contents), extPrivileges, name, value, decode, old(flash), outcome(old(writes))))
                && flash == SetStore(old(contents), extPrivileges, name, value, decode, old(flash), outcome(old(writes)))
      ensures old(Valid()) && SetLoses(old(contents), extPrivileges, name, value, decode, outcome(old(writes))) ==>
                Stores(flash, old(contents)[name := Entry(value, attr, default, decode)])
      ensures terminated == if Accepts(decode, value) && Creates(old(contents), name, value)
                            then outcome(old(writes)).Done? else old(terminated)
    {
      hide Stores, Tabled;
      if !Accepts(decode, value) {
        code := VALUE;
      } else {
        code := AccessVar(name, value, attr, default, decode);
      }
    }

    /** Deletes the variable of a row. */
    method DeleteRow(index: nat)
      requires Tabled() && index < count
      modifies this`writes, this`flash, this`contents, this`count, this`terminated, info
      ensures Tabled() && writes == old(writes) + 1 && count == old(count) - 1
      ensures contents == old(contents) - {old(info[index].name)} && Rows() == Unrow(old(Rows()), index)
      ensures flash == Deleted(old(flash), old(info[index].index), outcome(old(writes)))
      ensures old(Valid()) ==> (Valid() <==> DeletionFits(old(flash), old(info[index].name), outcome(old(writes))))
    {
      hide Distinct, Represents, Backed, HasDefaults, IsPerm, Moved, Placed, DeletionFits, Deleted;
      ghost var rows, m, f := Rows(), contents, flash;
      var v := info[index];
      RemoveFromFlash(v.index);
      info[index] := info[count - 1];
      count := count - 1;
      terminated := true;
      contents := contents - {v.name};
      assert Rows() == Unrow(rows, index);
      OneRemoved(rows, m, index);
      if Backed(rows, f) {
        DeletionMatchesExactly(rows, f, index, outcome(old(writes)));
      }
    }

    /** Resets or deletes the variable of a row; the last row takes the place of a deleted one. */
    method RemoveVar(index: nat, user: bool, system: bool, errorOnRo: bool) returns (code: Code)
      requires Tabled() && index < count
      modifies this`writes, this`flash, this`contents, this`count, this`terminated, info
      ensures Tabled()
      ensures var name := old(info[index].name);
        && Effect(code, contents) ==
           Remove(old(contents), extPrivileges, name, user, system, errorOnRo, outcome(old(writes)))
        && writes == old(writes) + One(RemoveAsks(old(contents), extPrivileges, name, user, system))
      ensures var name := old(info[index].name);
        old(Valid()) ==>
          && (Valid() <==>
              RemoveFits(old(contents), extPrivileges, name, user, system, old(flash), outcome(old(writes))))
          && flash == RemoveStore(old(contents), extPrivileges, name, user, system, old(flash), outcome(old(writes)))
      ensures count == old(count) - if user && old(info[index]).entry.attr == USER then 1 else 0
      ensures KeepsNames(if count == old(count) then old(Rows()) else Unrow(old(Rows()), index), Rows())
    {
      hide Distinct, Represents, Backed, HasDefaults, IsPerm, Named, Uses, Moved, Placed, DeletionFits, Stores, Access, Writes, Deleted,
        SlotFor, AccessStore;
      ghost var rows, m, f := Rows(), contents, flash;
      code := OK;
      RowEntry(rows, m, index);
      RowNamed(rows, index);
      NamesKept(rows);
      if Backed(rows, f) {
        RowSlot(rows, f, index);
      }
      var v := info[index];
      match v.entry.attr
      case RW =>
        if system {
          DefaultThere(m, v.name);
          code := AccessVar(v.name, v.entry.default.value, RW, v.entry.default, None);
        }
      case USER =>
        if user {
          DeleteRow(index);
        }
      case RO =>
        if errorOnRo {
          code := VAR_RO;
        }
    }

    /** env_unset */
    method Unset(name: string) returns (code: Code)
      requires Tabled()
      modifies this`writes, this`flash, this`contents, this`count, this`terminated, info
      ensures Tabled()
      ensures Effect(code, contents) == EnvSpec.Unset(old(contents), extPrivileges, name, outcome(old(writes)))
      ensures writes == old(writes) + One(RemoveAsks(old(contents), extPrivileges, name, true, true))
      ensures old(Valid()) ==>
                && (Valid() <==>
                    RemoveFits(old(contents), extPrivileges, name, true, true, old(flash), outcome(old(writes))))
                && flash == RemoveStore(old(contents), extPrivileges, name, true, true, old(flash), outcome(old(writes)))
    {
      hide Distinct, Represents, Backed, HasDefaults, IsPerm, Named, Placed, DeletionFits;
      UnknownName(Rows(), contents, name);
      var index := LookupEnv(name);
      if index < count {
        code := RemoveVar(index, true, true, true);
      } else {
        code := OK;
      }
    }

    /** The moment of a run that the table is at. */
    ghost function Now(): Point
      reads this, info
    {
      Point(writes, flash, Valid(), contents)
    }

    /** Comes past the variable of row `index`, or stops at it. */
    method RemoveNext(index: nat, user: bool, system: bool, ghost start: Point, ghost order: seq<string>)
      returns (code: Code, next: nat, ghost n: string)
      requires Tabled() && index < count && PassedTo(Rows(), index, Passed(order))
      requires Along(start, extPrivileges, user, system, order, outcome, Now())
      modifies this`writes, this`flash, this`contents, this`count, this`terminated, info
      ensures Tabled()
      ensures code == OK ==>
        && Along(start, extPrivileges, user, system, order + [n], outcome, Now())
        && next <= count && PassedTo(Rows(), next, Passed(order + [n])) && count - next < old(count) - index
      ensures code != OK ==> Stopped(start, extPrivileges, user, system, order, n, code, outcome, Now())
    {
      hide Distinct, Represents, Backed, HasDefaults, IsPerm, Named, Placed, PassedTo, Along, Stopped, Passed, Remove,
        RemoveAsks, RemoveFits, RemoveSome, RemoveStore, IsStore, Recovers, DistinctRecords;
      ghost var rows, before := Rows(), Now();
      n := info[index].name;
      RowEntry(rows, contents, index);
      AlongMap(start, extPrivileges, user, system, order, outcome, before);
      PassOne(rows, index, Passed(order));
      PassMore(order, n);
      if Backed(rows, flash) {
        FlashHoldsMap(rows, flash, contents);
      }
      var oldCount := count;
      code := RemoveVar(index, user, system, false);
      next := if oldCount == count then index + 1 else index;
      AlongStep(start, extPrivileges, user, system, order, n, outcome, before, Now(), code);
      if oldCount == count {
        PassKept(rows, Rows(), index, Passed(order + [n]));
      } else {
        PassRemoved(rows, Rows(), index, Passed(order + [n]));
      }
    }

    /** env_remove: the variables in `order` have been treated; either these are all, or the code is that
        of the next one. */
    method RemoveAll(user: bool, system: bool) returns (code: Code, ghost order: seq<string>)
      requires Tabled()
      modifies this`writes, this`flash, this`contents, this`count, this`terminated, info
      ensures Tabled()
      ensures contents == RemoveSome(old(contents), Passed(order), user, system)
      ensures Removal(old(contents), extPrivileges, user, system, order, old(writes), writes, code, outcome)
      ensures code == OK ==> contents == EnvSpec.RemoveAll(old(contents), user, system)
      ensures old(Valid()) ==>
                RemovalKeeps(old(contents), extPrivileges, user, system, order, old(flash), old(writes), writes, code, outcome,
                             flash, Valid())
      ensures old(Valid()) && Undisturbed(old(contents), extPrivileges, user, system, order, old(writes), writes, code, outcome) ==>
                Valid()
    {
      hide Distinct, Represents, Backed, HasDefaults, IsPerm, Named, Placed, PassedTo, Passed, Along, Stopped, Removal,
        RemovalKeeps, Undisturbed, RemoveSome;
      ghost var start, n := Now(), "";
      var index: nat := 0;
      code, order := OK, [];
      NothingPassed(Rows());
      AlongStarts(start, extPrivileges, user, system, outcome);
      while index < count && code == OK
        invariant Tabled()
        invariant code == OK ==>
          && index <= count && PassedTo(Rows(), index, Passed(order))
          && Along(start, extPrivileges, user, system, order, outcome, Now())
        invariant code != OK ==> Stopped(start, extPrivileges, user, system, order, n, code, outcome, Now())
        decreases code == OK, count - index
      {
        var next;
        code, next, n := RemoveNext(index, user, system, start, order);
        if code == OK {
          index, order := next, order + [n];
        }
      }
      if code == OK {
        AlongMap(start, extPrivileges, user, system, order, outcome, Now());
        AllPassed(Rows(), contents, start.env, order, user, system);
        AlongEnds(start, extPrivileges, user, system, order, outcome, Now());
      } else {
        StoppedEnds(start, extPrivileges, user, system, order, n, code, outcome, Now());
      }
    }
  }

  /** A write of a new variable is made. */
  predicate Creates(m: Environment, name: string, value: string) {
    LengthError(name, value) == OK && name !in m && |m| < MAX_VARS
  }

  ghost predicate KeepsNames(vars: seq<Var>, vars': seq<Var>) {
    |vars'| == |vars| && forall i :: 0 <= i < |vars| ==> vars'[i].name == vars[i].name
  }

  function WithValue(v: Var, value: string): Var {
    v.(entry := v.entry.(val := value))
  }

  lemma RowEntry(vars: seq<Var>, m: Environment, i: nat)
    requires Represents(vars, m) && i < |vars|
    ensures vars[i].name in m && m[vars[i].name] == vars[i].entry
  {
  }

  lemma DefaultThere(m: Environment, n: string)
    requires HasDefaults(m) && n in m && m[n].attr == RW
    ensures m[n].default.Some?
  {
  }

  lemma AccessUnknown(m: Environment, ext: bool, name: string, value: string, attr: Attr,
                      default: Option<string>, decode: Option<Decode>, w: Outcome)
    requires |m| <= MAX_VARS
    ensures LengthError(name, value) != OK ==> !Writes(m, ext, name, value)
    ensures name !in m ==> (Creates(m, name, value) <==> Writes(m, ext, name, value))
    ensures LengthError(name, value) != OK || name !in m ==>
      Access(m, ext, name, value, attr, default, decode, w) ==
        if LengthError(name, value) != OK then Effect(LengthError(name, value), m)
        else if |m| == MAX_VARS then Effect(OVERFLOW, m)
        else Effect(if w.Failed? then WRITE_ERROR(w.code) else OK,
                    if w.Done? then m[name := Entry(value, attr, default, decode)] else m)
  {
  }

  lemma AccessKnown(m: Environment, ext: bool, name: string, value: string, attr: Attr,
                    default: Option<string>, decode: Option<Decode>, w: Outcome)
    requires name in m && LengthError(name, value) == OK
    ensures var e := m[name];
      && (Writes(m, ext, name, value) <==> UpdateError(e, ext, value) == OK && e.val != value)
      && Access(m, ext, name, value, attr, default, decode, w) ==
         if UpdateError(e, ext, value) != OK then Effect(UpdateError(e, ext, value), m)
         else if e.val != value && w.Failed? then Effect(WRITE_ERROR(w.code), m)
         else Effect(OK, m[name := Updated(e, value, attr, default, decode)])
  {
  }

  lemma NamesKept(vars: seq<Var>)
    ensures KeepsNames(vars, vars)
  {
  }

  /** Writing the value and adopting the parameters, each where needed, makes the updated entry. */
  lemma UpdatedInSteps(m: Environment, name: string, value: string, attr: Attr, default: Option<string>, decode: Option<Decode>)
    requires name in m
    ensures var e := m[name];
      var m' := if e.val != value then m[name := e.(val := value)] else m;
      (if e.attr == USER then m'[name := Entry(value, attr, default, decode)] else m')
      == m[name := Updated(e, value, attr, default, decode)]
  {
  }

  /** A row with a new value, and its record with it. */
  lemma OneChanged(vars: seq<Var>, m: Environment, flash: Flash, i: nat, v: Var)
    requires Distinct(vars) && Represents(vars, m) && Placed(vars) && HasDefaults(m) && i < |vars|
    requires v == WithValue(vars[i], v.entry.val)
    ensures var vars', m' := vars[i := v], m[v.name := v.entry];
      Distinct(vars') && Represents(vars', m') && Placed(vars') && HasDefaults(m')
    ensures Backed(vars, flash) ==> Backed(vars[i := v], flash[v.index := Rec(v.name, v.entry.val)])
    ensures v.index < MAX_VARS && vars[i].entry.(val := vars[i].entry.val) == vars[i].entry
  {
    RowEntry(vars, m, i);
    RowChanged(vars, m, i, v);
    if Backed(vars, flash) {
      WriteBacks(vars, flash, i, v);
    }
  }

  /** A row with the same name, value and slot has the same record. */
  lemma SameRecord(vars: seq<Var>, m: Environment, flash: Flash, i: nat, v: Var)
    requires Distinct(vars) && Represents(vars, m) && Placed(vars) && i < |vars|
    requires v.name == vars[i].name && v.index == vars[i].index && v.entry.val == vars[i].entry.val
    ensures var vars', m' := vars[i := v], m[v.name := v.entry];
      Distinct(vars') && Represents(vars', m') && Placed(vars') && (Backed(vars', flash) <==> Backed(vars, flash))
  {
    RowChanged(vars, m, i, v);
    SameBacked(vars, flash, i, v);
    SameBacked(vars[i := v], flash, i, vars[i]);
    assert vars[i := v][i := vars[i]] == vars;
  }

  lemma SameBacked(vars: seq<Var>, flash: Flash, i: nat, v: Var)
    requires Distinct(vars) && i < |vars|
    requires v.name == vars[i].name && v.index == vars[i].index && v.entry.val == vars[i].entry.val
    ensures Backed(vars, flash) ==> Backed(vars[i := v], flash)
  {
    if Backed(vars, flash) {
      assert RowBacked(vars[i], flash);
      WriteBacks(vars, flash, i, v);
      assert flash[v.index := Rec(v.name, v.entry.val)] == flash;
    }
  }

  lemma OneAdded(vars: seq<Var>, m: Environment, flash: Flash, v: Var)
    requires Distinct(vars) && Represents(vars, m) && Placed(vars) && HasDefaults(m)
    requires v.name !in m && v.index < MAX_VARS && !Uses(vars, v.index) && (v.entry.attr == RW ==> v.entry.default.Some?)
    ensures var vars', m' := vars + [v], m[v.name := v.entry];
      Distinct(vars') && Represents(vars', m') && Placed(vars') && HasDefaults(m')
    ensures Backed(vars, flash) ==> Backed(vars + [v], flash[v.index := Rec(v.name, v.entry.val)])
  {
    RowAdded(vars, m, v);
    DefaultsKept(m, v.name, v.entry);
    if Backed(vars, flash) {
      CreateBacks(vars, flash, v);
    }
  }

  lemma OneRemoved(vars: seq<Var>, m: Environment, i: nat)
    requires Distinct(vars) && Represents(vars, m) && Placed(vars) && HasDefaults(m) && i < |vars|
    ensures var vars', m' := Unrow(vars, i), m - {vars[i].name};
      Distinct(vars') && Represents(vars', m') && Placed(vars') && HasDefaults(m')
  {
    RowRemoved(vars, m, i);
  }

  lemma RowsKept(vars: seq<Var>, vars': seq<Var>, m: Environment, flash: Flash)
    requires Distinct(vars) && Represents(vars, m) && Placed(vars) && Reread(vars, vars', flash, MAX_VARS)
    ensures Distinct(vars') && Represents(vars', m) && Placed(vars') && KeepsEntries(vars, vars')
  {
    RereadKeeps(vars, vars', flash);
    EntriesKeepMap(vars, vars', m);
  }

  /** Rows whose slots have been read again stand for the same map, and match if they matched. */
  lemma RowsReread(vars: seq<Var>, vars': seq<Var>, m: Environment, flash: Flash, p: Perm)
    requires IsPerm(p) && Distinct(vars) && Represents(vars, m) && Placed(vars)
    requires Reread(vars, vars', Moved(flash, p), MAX_VARS)
    ensures Distinct(vars') && Represents(vars', m) && Placed(vars') && KeepsEntries(vars, vars')
    ensures Backed(vars, flash) ==> Backed(vars', Moved(flash, p))
  {
    RowsKept(vars, vars', m, Moved(flash, p));
    if Backed(vars, flash) {
      RereadMatches(vars, vars', flash, p);
    }
  }

  /** The variable that the table loses is in the store. */
  lemma LostFound(vars: seq<Var>, vars': seq<Var>, m: Environment, flash: Flash, v: Var, p: Perm)
    requires IsPerm(p) && Distinct(vars) && Represents(vars, m) && Backed(vars, flash) && KeepsEntries(vars, vars')
    requires v.name !in m && v.index < MAX_VARS && !Uses(vars, v.index)
    ensures var f := Moved(flash[v.index := Rec(v.name, v.entry.val)], p);
      Stores(f, m[v.name := v.entry]) && !Backed(vars', f)
  {
    hide Distinct, Represents, Backed, Uses, Moved, Recovers, IsStore, DistinctRecords;
    var f := flash[v.index := Rec(v.name, v.entry.val)];
    LostIsStored(vars, m, flash, v, p);
    EntriesKeepMap(vars, vars', m);
    UnknownName(vars', m, v.name);
    LostSlot(f, v, p);
    OrphanLeft(vars', Moved(f, p), p.to[v.index]);
  }

  // ---------- the removal loop ----------

  lemma NothingKept(m: Environment, ext: bool, user: bool, system: bool, flash: Flash, k: nat, outcome: nat -> Outcome)
    requires Permutes(outcome)
    ensures RemovalKeeps(m, ext, user, system, [], flash, k, k, OK, outcome, flash, true)
  {
  }

  /** What the removal of a variable does depends on nothing but its entry. */
  lemma AsksOfEntry(m: Environment, c: Environment, ext: bool, n: string, user: bool, system: bool)
    requires n in m && n in c && m[n] == c[n]
    ensures Deletes(m, n, user) == Deletes(c, n, user) && Resets(m, n, system) == Resets(c, n, system)
    ensures Writes(m, ext, n, DefaultOf(m[n])) == Writes(c, ext, n, DefaultOf(c[n]))
  {
  }

  lemma StoreOfEntry(m: Environment, c: Environment, ext: bool, n: string, user: bool, system: bool, flash: Flash, w: Outcome)
    requires n in m && n in c && m[n] == c[n] && (w.Rearranged? ==> IsPerm(w.p))
    ensures RemoveFits(m, ext, n, user, system, flash, w) <==> RemoveFits(c, ext, n, user, system, flash, w)
    ensures RemoveStore(m, ext, n, user, system, flash, w) == RemoveStore(c, ext, n, user, system, flash, w)
    ensures Remove(m, ext, n, user, system, false, w).code == Remove(c, ext, n, user, system, false, w).code
    ensures RemoveAsks(m, ext, n, user, system) <==> RemoveAsks(c, ext, n, user, system)
  {
    hide Deletes, Resets, Writes, Written, Deleted, DeletionFits, WriteFits, IsPerm, SlotFor, Remove;
    AsksOfEntry(m, c, ext, n, user, system);
    CodeOfEntry(m, c, ext, n, user, system, w);
  }

  /** One step further: if the answers so far fit, this one decides. */
  lemma OneMoreKept(c: Environment, m: Environment, ext: bool, n: string, order: seq<string>, user: bool, system: bool,
                    flash: Flash, f: Flash, k: nat, outcome: nat -> Outcome, valid: bool, f': Flash, valid': bool, code: Code)
    requires Permutes(outcome) && n in c && n in m && m[n] == c[n]
    requires var j := k + Asked(m, ext, user, system, order);
      && RemovalKeeps(m, ext, user, system, order, flash, k, j, OK, outcome, f, valid)
      && code == Remove(c, ext, n, user, system, false, outcome(j)).code
      && (valid ==>
            && (valid' <==> RemoveFits(c, ext, n, user, system, f, outcome(j)))
            && f' == RemoveStore(c, ext, n, user, system, f, outcome(j)))
    ensures var k' := k + Asked(m, ext, user, system, order) + One(RemoveAsks(c, ext, n, user, system));
      RemovalKeeps(m, ext, user, system, if code == OK then order + [n] else order, flash, k, k', code, outcome, f', valid')
  {
    hide Asked, Remove, RemoveFits, RemoveStore, RemoveAsks, IsPerm, RemovalKeeps, RemovalFits, RemovalStore;
    if RemovalFits(m, ext, user, system, order, flash, k, outcome) {
      FitsEarlier(m, ext, user, system, order, flash, k, outcome);
    }
    KeptSoFar(m, ext, user, system, order, flash, k, outcome, f, valid);
    StoreOfEntry(m, c, ext, n, user, system, f, outcome(k + Asked(m, ext, user, system, order)));
    if code == OK {
      OneMoreFits(m, ext, n, order, user, system, flash, f, k, outcome, f', valid');
    } else {
      StopKeeps(m, ext, n, order, user, system, flash, k, outcome, f', valid', code);
    }
  }

  lemma KeptSoFar(m: Environment, ext: bool, user: bool, system: bool, order: seq<string>, flash: Flash, k: nat,
                  outcome: nat -> Outcome, f: Flash, valid: bool)
    requires Permutes(outcome)
    requires RemovalKeeps(m, ext, user, system, order, flash, k, k + Asked(m, ext, user, system, order), OK, outcome, f, valid)
    ensures RemovalFits(m, ext, user, system, order, flash, k, outcome) ==>
              valid && f == RemovalStore(m, ext, user, system, order, flash, k, outcome)
  {
    hide RemovalFits, RemovalStore;
    if RemovalFits(m, ext, user, system, order, flash, k, outcome) {
      FitsEarlier(m, ext, user, system, order, flash, k, outcome);
    }
  }

  lemma OneMoreFits(m: Environment, ext: bool, n: string, order: seq<string>, user: bool, system: bool,
                    flash: Flash, f: Flash, k: nat, outcome: nat -> Outcome, f': Flash, valid': bool)
    requires Permutes(outcome)
    requires RemovalFits(m, ext, user, system, order, flash, k, outcome) ==>
               var w := outcome(k + Asked(m, ext, user, system, order));
               && f == RemovalStore(m, ext, user, system, order, flash, k, outcome)
               && (valid' <==> RemoveFits(m, ext, n, user, system, f, w))
               && f' == RemoveStore(m, ext, n, user, system, f, w)
    ensures forall k' :: RemovalKeeps(m, ext, user, system, order + [n], flash, k, k', OK, outcome, f', valid')
  {
    hide Asked, RemoveFits, RemoveStore, IsPerm;
    assert (order + [n])[..|order|] == order;
  }

  lemma StopKeeps(m: Environment, ext: bool, n: string, order: seq<string>, user: bool, system: bool,
                  flash: Flash, k: nat, outcome: nat -> Outcome, f': Flash, valid': bool, code: Code)
    requires Permutes(outcome) && n in m && code == Remove(m, ext, n, user, system, false, outcome(k + Asked(m, ext, user, system, order))).code != OK
    requires RemovalFits(m, ext, user, system, order, flash, k, outcome) ==>
               var f, w := RemovalStore(m, ext, user, system, order, flash, k, outcome), outcome(k + Asked(m, ext, user, system, order));
               && (valid' <==> RemoveFits(m, ext, n, user, system, f, w))
               && f' == RemoveStore(m, ext, n, user, system, f, w)
    ensures var k' := k + Asked(m, ext, user, system, order) + One(RemoveAsks(m, ext, n, user, system));
      RemovalKeeps(m, ext, user, system, order, flash, k, k', code, outcome, f', valid')
  {
    hide Asked, RemovalStore, RemovalFits, IsPerm, RemoveFits, RemoveStore, Remove, RemoveAsks;
    var f := RemovalStore(m, ext, user, system, order, flash, k, outcome);
    StoppedAt(m, ext, n, user, system, f, outcome(k + Asked(m, ext, user, system, order)));
  }

  /** A removal stops only at a default that is refused; the records are then those the refusal leaves. */
  lemma StoppedAt(m: Environment, ext: bool, n: string, user: bool, system: bool, flash: Flash, w: Outcome)
    requires n in m && (w.Rearranged? ==> IsPerm(w.p)) && Remove(m, ext, n, user, system, false, w).code != OK
    ensures var f := RemoveStore(m, ext, n, user, system, flash, w);
      && (RemoveFits(m, ext, n, user, system, flash, w) <==> f == flash)
      && if RemoveAsks(m, ext, n, user, system) then w.Failed? && f == w.left else f == flash
  {
  }

  lemma FitsEarlier(m: Environment, ext: bool, user: bool, system: bool, order: seq<string>, flash: Flash, k: nat,
                    outcome: nat -> Outcome)
    requires Permutes(outcome) && RemovalFits(m, ext, user, system, order, flash, k, outcome)
    ensures FitsBefore(m, ext, user, system, order, flash, k, outcome)
  {
  }

  lemma OneMoreHarmless(c: Environment, m: Environment, ext: bool, n: string, order: seq<string>, user: bool, system: bool,
                        flash: Flash, k: nat, outcome: nat -> Outcome)
    requires n in c && n in m && m[n] == c[n]
    ensures var w := outcome(k + Asked(m, ext, user, system, order));
      AllHarmless(m, ext, user, system, order + [n], k, outcome) ==>
        && AllHarmless(m, ext, user, system, order, k, outcome)
        && (IsStore(flash) ==> RemoveFits(c, ext, n, user, system, flash, w))
  {
    hide Asked;
    assert (order + [n])[..|order|] == order;
    if AllHarmless(m, ext, user, system, order + [n], k, outcome) && IsStore(flash) {
      HarmlessFits(c, ext, n, user, system, flash, outcome(k + Asked(m, ext, user, system, order)));
    }
  }

  lemma StopsUnasked(c: Environment, ext: bool, n: string, user: bool, system: bool, flash: Flash, w: Outcome)
    requires n in c
    ensures !RemoveAsks(c, ext, n, user, system) ==> RemoveFits(c, ext, n, user, system, flash, w)
  {
  }

  lemma HarmlessFits(m: Environment, ext: bool, n: string, user: bool, system: bool, flash: Flash, w: Outcome)
    requires IsStore(flash) && Harmless(m, ext, n, user, system, w)
    ensures RemoveFits(m, ext, n, user, system, flash, w)
  {
  }

  /** The rows before `index` are those whose names have been passed. */
  ghost predicate PassedTo(vars: seq<Var>, index: nat, done: set<string>) {
    forall i :: 0 <= i < |vars| ==> (i < index <==> vars[i].name in done)
  }

  lemma NothingPassed(vars: seq<Var>)
    ensures PassedTo(vars, 0, Passed([]))
  {
  }

  lemma AlongStarts(start: Point, ext: bool, user: bool, system: bool, outcome: nat -> Outcome)
    requires Permutes(outcome)
    ensures Along(start, ext, user, system, [], outcome, start)
  {
    assert start.env == RemoveSome(start.env, {}, user, system);
    NothingKept(start.env, ext, user, system, start.flash, start.asked, outcome);
  }

  lemma AlongMap(start: Point, ext: bool, user: bool, system: bool, order: seq<string>, outcome: nat -> Outcome, p: Point)
    requires Permutes(outcome) && Along(start, ext, user, system, order, outcome, p)
    ensures p.env == RemoveSome(start.env, Passed(order), user, system)
  {
  }

  lemma PassMore(order: seq<string>, n: string)
    ensures Passed(order + [n]) == Passed(order) + {n}
  {
  }

  /** One call of remove_var: one variable more is passed, or this is where env_remove stops. */
  lemma AlongStep(start: Point, ext: bool, user: bool, system: bool, order: seq<string>, n: string, outcome: nat -> Outcome,
                  p: Point, p': Point, code: Code)
    requires Permutes(outcome) && Along(start, ext, user, system, order, outcome, p) && n in p.env && n !in Passed(order)
    requires Effect(code, p'.env) == Remove(p.env, ext, n, user, system, false, outcome(p.asked))
    requires p'.asked == p.asked + One(RemoveAsks(p.env, ext, n, user, system))
    requires p.valid ==>
      && IsStore(p.flash) && (p'.valid <==> RemoveFits(p.env, ext, n, user, system, p.flash, outcome(p.asked)))
      && p'.flash == RemoveStore(p.env, ext, n, user, system, p.flash, outcome(p.asked))
    ensures if code == OK then Along(start, ext, user, system, order + [n], outcome, p')
            else Stopped(start, ext, user, system, order, n, code, outcome, p')
  {
    hide IsPerm, Passing, Passed, Remove, RemoveAsks, Asked, RemoveFits, RemoveSome, Permutes, AllHarmless, RemovalKeeps, RemoveStore,
      StopsAt;
    var c, m, w := p.env, start.env, outcome(p.asked);
    RemovedIsTreated(c, m, ext, n, Passed(order), user, system, w);
    NextToPass(c, m, ext, n, order, user, system, w, start.asked, outcome);
    if start.valid {
      OneMoreKept(c, m, ext, n, order, user, system, start.flash, p.flash, start.asked, outcome, p.valid, p'.flash, p'.valid, code);
      OneMoreHarmless(c, m, ext, n, order, user, system, p.flash, start.asked, outcome);
      StopsUnasked(c, ext, n, user, system, p.flash, w);
    }
  }

  lemma AlongEnds(start: Point, ext: bool, user: bool, system: bool, order: seq<string>, outcome: nat -> Outcome, p: Point)
    requires Permutes(outcome) && Along(start, ext, user, system, order, outcome, p) && forall n :: n in start.env ==> n in order
    ensures Removal(start.env, ext, user, system, order, start.asked, p.asked, OK, outcome)
    ensures p.env == EnvSpec.RemoveAll(start.env, user, system)
    ensures start.valid ==>
      && RemovalKeeps(start.env, ext, user, system, order, start.flash, start.asked, p.asked, OK, outcome, p.flash, p.valid)
      && (Undisturbed(start.env, ext, user, system, order, start.asked, p.asked, OK, outcome) ==> p.valid)
  {
    hide RemovalKeeps, AllHarmless, RemoveSome, Passed;
    RemovalIsAll(start.env, ext, user, system, order, start.asked, p.asked, outcome);
  }

  lemma StoppedEnds(start: Point, ext: bool, user: bool, system: bool, order: seq<string>, n: string, code: Code,
                    outcome: nat -> Outcome, p: Point)
    requires Permutes(outcome) && Stopped(start, ext, user, system, order, n, code, outcome, p) && code != OK
    ensures Removal(start.env, ext, user, system, order, start.asked, p.asked, code, outcome)
    ensures p.env == RemoveSome(start.env, Passed(order), user, system)
    ensures start.valid ==>
      && RemovalKeeps(start.env, ext, user, system, order, start.flash, start.asked, p.asked, code, outcome, p.flash, p.valid)
      && (Undisturbed(start.env, ext, user, system, order, start.asked, p.asked, code, outcome) ==> p.valid)
  {
    hide RemovalKeeps, Undisturbed, RemoveSome, Passed, Passing, StopsAt;
    assert StopsAt(start.env, ext, user, system, order, n, start.asked, p.asked, code, outcome);
  }

  lemma AllPassed(vars: seq<Var>, c: Environment, m: Environment, order: seq<string>, user: bool, system: bool)
    requires Represents(vars, c) && PassedTo(vars, |vars|, Passed(order)) && c == RemoveSome(m, Passed(order), user, system)
    ensures forall n :: n in m ==> n in order
  {
    forall n | n in m ensures n in order {
      if n in c {
        var i := NamedRow(vars, n);
        assert n in Passed(order);
      } else {
        assert n in Passed(order);
      }
    }
  }

  /** A row that has not been passed is passed on its own. */
  lemma PassOne(vars: seq<Var>, index: nat, done: set<string>)
    requires Distinct(vars) && index < |vars| && PassedTo(vars, index, done)
    ensures vars[index].name !in done && AddsOne(vars, index, done + {vars[index].name})
  {
  }

  /** The rows up to and including `index` are those whose names have been passed. */
  ghost predicate AddsOne(vars: seq<Var>, index: nat, done: set<string>) {
    PassedTo(vars, index + 1, done)
  }

  lemma PassKept(vars: seq<Var>, vars': seq<Var>, index: nat, done: set<string>)
    requires KeepsNames(vars, vars')
    ensures AddsOne(vars, index, done) ==> PassedTo(vars', index + 1, done)
  {
  }

  lemma PassRemoved(vars: seq<Var>, vars': seq<Var>, index: nat, done: set<string>)
    requires index < |vars| && KeepsNames(Unrow(vars, index), vars')
    ensures AddsOne(vars, index, done) ==> PassedTo(vars', index, done)
  {
    if AddsOne(vars, index, done) {
      forall i | 0 <= i < |vars'| ensures i < index <==> vars'[i].name in done {
      }
    }
  }

  /** One call of remove_var is one step of the removal. */
  lemma RemovedIsTreated(c: Environment, m: Environment, ext: bool, n: string, done: set<string>,
                         user: bool, system: bool, w: Outcome)
    requires c == RemoveSome(m, done, user, system) && n in c && n !in done
    ensures n in m && m[n] == c[n]
    ensures var r := Remove(c, ext, n, user, system, false, w);
      r.env == RemoveSome(m, if r.code == OK then done + {n} else done, user, system)
  {
    RemoveSomeStep(m, done, user, system, n);
    var r := Remove(c, ext, n, user, system, false, w);
    if r.code == OK && !(user && c[n].attr == USER) {
      assert r.env == c[n := Treated(c[n], system)];
    }
  }

  /** The variable of the next row is treated, or the removal stops at it. */
  lemma NextToPass(c: Environment, m: Environment, ext: bool, n: string, order: seq<string>, user: bool, system: bool,
                   w: Outcome, k: nat, outcome: nat -> Outcome)
    requires c == RemoveSome(m, Passed(order), user, system) && n in c && n !in Passed(order)
    requires Passing(m, ext, user, system, order, k, outcome)
    requires w == outcome(k + Asked(m, ext, user, system, order))
    ensures var r := Remove(c, ext, n, user, system, false, w);
      var k' := k + Asked(m, ext, user, system, order) + One(RemoveAsks(c, ext, n, user, system));
      if r.code == OK then
        && Passing(m, ext, user, system, order + [n], k, outcome) && k' == k + Asked(m, ext, user, system, order + [n])
        && Passed(order + [n]) == Passed(order) + {n}
        && r.env == RemoveSome(m, Passed(order + [n]), user, system)
      else
        && r.env == RemoveSome(m, Passed(order), user, system)
        && StopsAt(m, ext, user, system, order, n, k, k', r.code, outcome)
  {
    hide Remove, RemoveAsks, Passing, Asked, RemoveSome;
    RemovedIsTreated(c, m, ext, n, Passed(order), user, system, w);
    CodeOfEntry(m, c, ext, n, user, system, w);
    OneMorePassed(m, ext, user, system, order, n);
    if Remove(c, ext, n, user, system, false, w).code == OK {
      PassingMore(m, ext, user, system, order, n, k, outcome);
    }
  }

  // ---------- runs ----------

  /** The calls of a run, as far as the caller makes them. */
  ghost predicate SameCall(a: Op, b: Op) {
    match a
    case SetVar(name, value, attr, default, decode, _) =>
      b.SetVar? && b.name == name && b.value == value && b.attr == attr && b.default == default && b.decode == decode
    case UnsetVar(name, _) => b.UnsetVar? && b.name == name
    case RemoveVars(user, system, _) => b.RemoveVars? && b.user == user && b.system == system
  }

  predicate CallOk(op: Op) {
    op.SetVar? && op.attr == RW ==> op.default.Some?
  }

  /** What one call does between two moments of a run: its code, its questions to the store and their
      answers, the map, and whether rows and slots go on matching. */
  ghost predicate CallDone(op: Op, ext: bool, outcome: nat -> Outcome, p: Point, p': Point, code: Code)
    requires Permutes(outcome)
  {
    && p'.env == Apply(p.env, ext, op) && (p'.valid ==> Stores(p'.flash, p'.env))
    && match op
    case SetVar(name, value, attr, default, decode, w) =>
      && w == outcome(p.asked) && code == EnvSpec.Set(p.env, ext, name, value, attr, default, decode, w).code
      && p'.asked == p.asked + One(SetWrites(p.env, ext, name, value, decode))
      && (p.valid ==>
            && (p'.valid <==> SetFits(p.env, ext, name, value, decode, p.flash, w))
            && p'.flash == SetStore(p.env, ext, name, value, decode, p.flash, w))
      && (p.valid && SetLoses(p.env, ext, name, value, decode, w) ==>
            Stores(p'.flash, p.env[name := Entry(value, attr, default, decode)]))
    case UnsetVar(name, w) =>
      && w == outcome(p.asked) && code == EnvSpec.Unset(p.env, ext, name, w).code
      && p'.asked == p.asked + One(RemoveAsks(p.env, ext, name, true, true))
      && (p.valid ==>
            && (p'.valid <==> RemoveFits(p.env, ext, name, true, true, p.flash, w))
            && p'.flash == RemoveStore(p.env, ext, name, true, true, p.flash, w))
    case RemoveVars(user, system, order) =>
      && Removal(p.env, ext, user, system, order, p.asked, p'.asked, code, outcome)
      && (code == OK ==> p'.env == EnvSpec.RemoveAll(p.env, user, system))
      && (p.valid ==>
            RemovalKeeps(p.env, ext, user, system, order, p.flash, p.asked, p'.asked, code, outcome, p'.flash, p'.valid))
      && (p.valid && Undisturbed(p.env, ext, user, system, order, p.asked, p'.asked, code, outcome) ==> p'.valid)
  }

  /** A run: between any two moments one call is done. */
  ghost predicate IsRun(trace: seq<Op>, ext: bool, outcome: nat -> Outcome, points: seq<Point>, codes: seq<Code>)
    requires Permutes(outcome)
  {
    && |points| == |trace| + 1 && |codes| == |trace|
    && forall i :: 0 <= i < |trace| ==> CallDone(trace[i], ext, outcome, points[i], points[i + 1], codes[i])
  }

  lemma RunGrows(trace: seq<Op>, ext: bool, outcome: nat -> Outcome, points: seq<Point>, codes: seq<Code>,
                 op: Op, p: Point, code: Code)
    requires Permutes(outcome) && IsRun(trace, ext, outcome, points, codes)
    requires CallDone(op, ext, outcome, points[|trace|], p, code)
    ensures IsRun(trace + [op], ext, outcome, points + [p], codes + [code])
  {
    hide CallDone;
    var t, ps, cs := trace + [op], points + [p], codes + [code];
    forall i | 0 <= i < |t| ensures CallDone(t[i], ext, outcome, ps[i], ps[i + 1], cs[i]) {
      if i < |trace| {
        assert t[i] == trace[i] && ps[i] == points[i] && ps[i + 1] == points[i + 1] && cs[i] == codes[i];
      }
    }
  }

  /** The map at the end of a run is the one its calls make. */
  lemma {:induction false} RunMakes(trace: seq<Op>, ext: bool, outcome: nat -> Outcome, points: seq<Point>,
                                    codes: seq<Code>, n: nat)
    requires Permutes(outcome) && IsRun(trace, ext, outcome, points, codes) && n <= |trace|
    ensures points[n].env == Run(points[0].env, ext, trace[..n])
  {
    hide Apply;
    if n == 0 {
      RunNothing(points[0].env, ext);
    } else {
      RunMakes(trace, ext, outcome, points, codes, n - 1);
      RunAt(points[0].env, ext, trace, n - 1);
      assert CallDone(trace[n - 1], ext, outcome, points[n - 1], points[n], codes[n - 1]);
    }
  }

  /** Every answer in a call keeps rows and slots matched. */
  ghost predicate CallFits(op: Op, ext: bool, outcome: nat -> Outcome, p: Point, p': Point, code: Code)
    requires Permutes(outcome)
  {
    match op
    case SetVar(name, value, _, _, decode, w) => SetFits(p.env, ext, name, value, decode, p.flash, w)
    case UnsetVar(name, w) => RemoveFits(p.env, ext, name, true, true, p.flash, w)
    case RemoveVars(user, system, order) =>
      && RemovalFits(p.env, ext, user, system, order, p.flash, p.asked, outcome)
      && (code != OK ==> p'.flash == RemovalStore(p.env, ext, user, system, order, p.flash, p.asked, outcome))
  }

  /** The answers before the last one of a call keep them matched; a set or an unset has only one. */
  ghost predicate CallFitsBefore(op: Op, ext: bool, outcome: nat -> Outcome, p: Point, code: Code)
    requires Permutes(outcome)
  {
    op.RemoveVars? ==>
      if code == OK then FitsBefore(p.env, ext, op.user, op.system, op.order, p.flash, p.asked, outcome)
      else RemovalFits(p.env, ext, op.user, op.system, op.order, p.flash, p.asked, outcome)
  }

  /** Behind a call rows and slots match exactly if its last answer keeps them matched too. */
  lemma CallFitsExactly(op: Op, ext: bool, outcome: nat -> Outcome, p: Point, p': Point, code: Code)
    requires Permutes(outcome) && CallDone(op, ext, outcome, p, p', code) && p.valid
    requires CallFitsBefore(op, ext, outcome, p, code)
    ensures p'.valid <==> CallFits(op, ext, outcome, p, p', code)
  {
    hide RemovalFits, RemovalStore, SetFits, RemoveFits, SetStore, RemoveStore, Removal, Stores, Undisturbed, Apply, SetLoses, SetWrites,
      RemoveAsks, EnvSpec.Set, EnvSpec.Unset, IsPerm;
  }

  lemma FitsBeforeLast(op: Op, ext: bool, outcome: nat -> Outcome, p: Point, p': Point, code: Code)
    requires Permutes(outcome) && CallFits(op, ext, outcome, p, p', code)
    ensures CallFitsBefore(op, ext, outcome, p, code)
  {
    hide SetFits, RemoveFits, RemovalStore, FitsBefore;
    if op.RemoveVars? {
      FitsEarlier(p.env, ext, op.user, op.system, op.order, p.flash, p.asked, outcome);
    }
  }

  /** Over a run rows and slots match as long as every answer keeps them matched. */
  lemma {:induction false} RunKeeps(trace: seq<Op>, ext: bool, outcome: nat -> Outcome, points: seq<Point>,
                                    codes: seq<Code>, n: nat)
    requires Permutes(outcome) && IsRun(trace, ext, outcome, points, codes) && n <= |trace| && points[0].valid
    requires forall i :: 0 <= i < n ==> CallFits(trace[i], ext, outcome, points[i], points[i + 1], codes[i])
    ensures points[n].valid
  {
    hide CallDone, CallFits, CallFitsBefore;
    if n > 0 {
      RunKeeps(trace, ext, outcome, points, codes, n - 1);
      assert CallDone(trace[n - 1], ext, outcome, points[n - 1], points[n], codes[n - 1]);
      assert CallFits(trace[n - 1], ext, outcome, points[n - 1], points[n], codes[n - 1]);
      FitsBeforeLast(trace[n - 1], ext, outcome, points[n - 1], points[n], codes[n - 1]);
      CallFitsExactly(trace[n - 1], ext, outcome, points[n - 1], points[n], codes[n - 1]);
    }
  }

  method PerformOne(t: Table, op: Op) returns (code: Code, ghost done: Op)
    requires t.Tabled() && CallOk(op)
    modifies t, t.info
    ensures t.Tabled() && SameCall(op, done) && t.extPrivileges == old(t.extPrivileges)
    ensures CallDone(done, t.extPrivileges, t.outcome, old(t.Now()), t.Now(), code)
  {
    hide Table.Tabled, Removal, EnvSpec.Set, EnvSpec.Unset, Stores, SetFits, RemoveFits, RemoveSome,
      RemovalKeeps, Undisturbed, SetStore, RemoveStore;
    ghost var w := t.outcome(t.writes);
    match op {
      case SetVar(name, value, attr, default, decode, _) =>
        code := t.Set(name, value, attr, default, decode);
        done := SetVar(name, value, attr, default, decode, w);
      case UnsetVar(name, _) =>
        code := t.Unset(name);
        done := UnsetVar(name, w);
      case RemoveVars(user, system, _) =>
        ghost var order;
        code, order := t.RemoveAll(user, system);
        done := RemoveVars(user, system, order);
    }
    if t.Valid() {
      ValidStores(t);
    }
  }

  /** Any run of calls, whatever the store answers: the rows stand for the map that the calls make, and
      every code is the specified one. */
  method Perform(t: Table, ops: seq<Op>) returns (codes: seq<Code>, ghost trace: seq<Op>, ghost points: seq<Point>)
    requires t.Tabled() && forall i :: 0 <= i < |ops| ==> CallOk(ops[i])
    modifies t, t.info
    ensures t.Tabled() && |trace| == |ops| && forall i :: 0 <= i < |ops| ==> SameCall(ops[i], trace[i])
    ensures IsRun(trace, old(t.extPrivileges), t.outcome, points, codes)
    ensures points[0] == old(t.Now()) && points[|ops|] == t.Now()
    ensures t.contents == Run(old(t.contents), old(t.extPrivileges), trace)
  {
    hide Table.Tabled, CallDone, SameCall, IsRun;
    ghost var ext := t.extPrivileges;
    codes, trace, points := [], [], [t.Now()];
    TablePermutes(t);
    RunStarts(t.Now(), ext, t.outcome);
    var n := 0;
    while n < |ops|
      invariant n == |trace| <= |ops| && t.Tabled() && t.extPrivileges == ext && |points| == n + 1
      invariant forall i :: 0 <= i < n ==> SameCall(ops[i], trace[i])
      invariant IsRun(trace, ext, t.outcome, points, codes)
      invariant points[0] == old(t.Now()) && points[n] == t.Now()
    {
      var code;
      ghost var done;
      code, done := PerformOne(t, ops[n]);
      RunGrows(trace, ext, t.outcome, points, codes, done, t.Now(), code);
      trace, points, codes := trace + [done], points + [t.Now()], codes + [code];
      n := n + 1;
    }
    RunMakes(trace, ext, t.outcome, points, codes, n);
    assert trace[..n] == trace;
  }

  lemma TablePermutes(t: Table)
    requires t.Tabled()
    ensures Permutes(t.outcome)
  {
  }

  lemma RunStarts(p: Point, ext: bool, outcome: nat -> Outcome)
    requires Permutes(outcome)
    ensures IsRun([], ext, outcome, [p], [])
  {
  }

  /** A restart: a new table read from the flash slots that a matching one has left holds exactly its
      variables with their values, as user variables. */
  method Restart(t: Table, outcome: nat -> Outcome) returns (t': Table)
    requires t.Tabled() && Permutes(outcome)
    ensures fresh(t') && fresh(t'.info) && t'.flash == t.flash
    ensures t.Valid() ==> t'.Valid() && t'.contents == AsRead(t.contents)
    ensures forall m :: Stores(t.flash, m) ==> t'.Valid() && t'.contents == AsRead(m)
  {
    hide Table.Tabled, Recovers, DistinctRecords, IsStore;
    t' := new Table.FromFlash(outcome, t.flash);
    if t.Valid() {
      ValidStores(t);
    }
    forall m | Stores(t.flash, m) ensures t'.Valid() && t'.contents == AsRead(m) {
      RecoveredOnce(t.flash, t'.contents, AsRead(m));
    }
  }

  lemma ValidStores(t: Table)
    requires t.Valid()
    ensures Stores(t.flash, t.contents)
  {
    FlashHoldsMap(t.Rows(), t.flash, t.contents);
  }

  /** Any run of calls and then a restart. If the table matches at the end, the restart finds exactly what
      the calls have made; so it does, with the lost variable in it, if the last call was a creation that
      the table has lost. */
  method PerformAndRestart(t: Table, ops: seq<Op>, outcome: nat -> Outcome)
    returns (t': Table, codes: seq<Code>, ghost trace: seq<Op>, ghost points: seq<Point>)
    requires t.Tabled() && forall i :: 0 <= i < |ops| ==> CallOk(ops[i])
    requires Permutes(outcome)
    modifies t, t.info
    ensures fresh(t') && |trace| == |ops| && forall i :: 0 <= i < |ops| ==> SameCall(ops[i], trace[i])
    ensures IsRun(trace, old(t.extPrivileges), t.outcome, points, codes)
    ensures points[0] == old(t.Now()) && points[|ops|] == t.Now()
    ensures points[|ops|].valid ==>
              t'.Valid() && t'.contents == AsRead(Run(old(t.contents), old(t.extPrivileges), trace))
    ensures points[0].valid && (forall i :: 0 <= i < |ops| ==>
                                 CallFits(trace[i], old(t.extPrivileges), t.outcome, points[i], points[i + 1], codes[i])) ==>
              points[|ops|].valid
    ensures ops != [] && points[|ops| - 1].valid && LostAt(trace[|ops| - 1], old(t.extPrivileges), points[|ops| - 1]) ==>
              t'.Valid() && t'.contents == AsRead(WithLost(trace[|ops| - 1], points[|ops| - 1].env))
  {
    hide Table.Tabled, SameCall, Run, Stores;
    TablePermutes(t);
    codes, trace, points := Perform(t, ops);
    t' := Restart(t, outcome);
    if points[0].valid && forall i :: 0 <= i < |ops| ==>
         CallFits(trace[i], old(t.extPrivileges), t.outcome, points[i], points[i + 1], codes[i]) {
      RunKeeps(trace, old(t.extPrivileges), t.outcome, points, codes, |ops|);
    }
    if ops != [] {
      assert CallDone(trace[|ops| - 1], old(t.extPrivileges), t.outcome, points[|ops| - 1], points[|ops|], codes[|ops| - 1]);
    }
  }

  /** The call is a creation that the table loses. */
  predicate LostAt(op: Op, ext: bool, p: Point) {
    op.SetVar? && SetLoses(p.env, ext, op.name, op.value, op.decode, op.w)
  }

  function WithLost(op: Op, m: Environment): Environment
    requires op.SetVar?
  {
    m[op.name := Entry(op.value, op.attr, op.default, op.decode)]
  }

  /** A set reports OK without storing its variable exactly when the table loses it. */
  lemma LostExactly(m: Environment, ext: bool, name: string, value: string, attr: Attr,
                    default: Option<string>, decode: Option<Decode>, w: Outcome)
    ensures var r := EnvSpec.Set(m, ext, name, value, attr, default, decode, w);
      r.code == OK && name !in r.env <==> SetLoses(m, ext, name, value, decode, w)
  {
  }

  /** A creation that is refused leaves the list of variables without its end mark. */
  method RefusedCreation() returns (t: Table, code: Code)
    ensures fresh(t) && t.Valid() && t.contents == map[] && code == WRITE_ERROR(1) && !t.terminated
  {
    t := new Table(_ => Failed(1, map[]));
    code := t.Set("a", "b", USER, None, None);
  }
}

/** The environment as a map from names to entries: what setting and removing variables means,
    without the table and the flash slots that represent it (env/env.c). */
module EnvSpec {
  import opened Wrappers

  const MAX_VARS := 100
  const DATA_SIZE := 124
  const MAXLEN_NAME := 20

  datatype Attr = USER | RO | RW

  type Decode = string -> bool

  datatype Entry = Entry(val: string, attr: Attr, default: Option<string>, decode: Option<Decode>)

  type Environment = map<string, Entry>

  datatype Code = OK | NAME_LEN | VAR_RO | VALUE | OVERFLOW | VAL_LEN | WRITE_ERROR(code: nat)

  /** A permutation of the flash slots and its inverse. */
  datatype Perm = Perm(to: seq<nat>, from: seq<nat>)

  ghost predicate IsPerm(p: Perm) {
    && |p.to| == |p.from| == MAX_VARS
    && (forall s :: 0 <= s < MAX_VARS ==> p.to[s] < MAX_VARS && p.from[p.to[s]] == s)
    && (forall t :: 0 <= t < MAX_VARS ==> p.from[t] < MAX_VARS && p.to[p.from[t]] == t)
  }

  /** What a flash slot holds. */
  datatype Rec = Rec(name: string, val: string)

  type Flash = map<nat, Rec>

  /** How the flash store answers a write or a deletion: done; refused, with whatever the store then
      holds; or done after which the records have been moved to other slots. */
  datatype Outcome = Done | Failed(code: nat, left: Flash) | Rearranged(p: Perm)

  datatype Effect = Effect(code: Code, env: Environment)

  /** A value the entry's decode function accepts. */
  predicate Accepts(decode: Option<Decode>, value: string) {
    decode.Some? ==> decode.value(value)
  }

  /** The error for setting an existing variable, before anything is written. */
  function UpdateError(e: Entry, ext: bool, value: string): Code {
    if e.attr == RO && !ext then VAR_RO
    else if e.val != value && !Accepts(e.decode, value) then VALUE
    else OK
  }

  /** An existing entry after a successful set: a user variable takes over all parameters. */
  function Updated(e: Entry, value: string, attr: Attr, default: Option<string>, decode: Option<Decode>): Entry {
    if e.attr == USER then Entry(value, attr, default, decode) else e.(val := value)
  }

  function LengthError(name: string, value: string): Code {
    if |name| > MAXLEN_NAME then NAME_LEN
    else if |name| + |value| + 2 > DATA_SIZE then VAL_LEN
    else OK
  }

  /** access_var: `w` is the store's answer if a write is made. */
  function Access(m: Environment, ext: bool, name: string, value: string, attr: Attr,
                  default: Option<string>, decode: Option<Decode>, w: Outcome): Effect {
    if LengthError(name, value) != OK then Effect(LengthError(name, value), m)
    else if name in m then
      var e := m[name];
      if UpdateError(e, ext, value) != OK then Effect(UpdateError(e, ext, value), m)
      else if e.val != value && w.Failed? then Effect(WRITE_ERROR(w.code), m)
      else Effect(OK, m[name := Updated(e, value, attr, default, decode)])
    else if |m| == MAX_VARS then Effect(OVERFLOW, m)
    else if w.Failed? then Effect(WRITE_ERROR(w.code), m)
    else if w.Rearranged? then Effect(OK, m)
    else Effect(OK, m[name := Entry(value, attr, default, decode)])
  }

  /** env_set */
  function Set(m: Environment, ext: bool, name: string, value: string, attr: Attr,
               default: Option<string>, decode: Option<Decode>, w: Outcome): Effect {
    if !Accepts(decode, value) then Effect(VALUE, m) else Access(m, ext, name, value, attr, default, decode, w)
  }

  function DefaultOf(e: Entry): string {
    if e.default.Some? then e.default.value else ""
  }

  /** A write is made: the variable is new, or its value changes. */
  predicate Writes(m: Environment, ext: bool, name: string, value: string) {
    && LengthError(name, value) == OK
    && if name in m then UpdateError(m[name], ext, value) == OK && m[name].val != value else |m| != MAX_VARS
  }

  predicate SetWrites(m: Environment, ext: bool, name: string, value: string, decode: Option<Decode>) {
    Accepts(decode, value) && Writes(m, ext, name, value)
  }

  function One(b: bool): nat {
    if b then 1 else 0
  }

  /** remove_var; a name that is not there is left alone. */
  function Remove(m: Environment, ext: bool, name: string, user: bool, system: bool, errorOnRo: bool, w: Outcome): Effect {
    if name !in m then Effect(OK, m)
    else
      match m[name].attr
      case RW =>
        if !system then Effect(OK, m)
        else Access(m, ext, name, DefaultOf(m[name]), RW, m[name].default, None, w)
      case USER => if user then Effect(OK, m - {name}) else Effect(OK, m)
      case RO => if errorOnRo then Effect(VAR_RO, m) else Effect(OK, m)
  }

  /** A variable is deleted. */
  predicate Deletes(m: Environment, name: string, user: bool) {
    name in m && m[name].attr == USER && user
  }

  /** A variable is set to its default. */
  predicate Resets(m: Environment, name: string, system: bool) {
    name in m && m[name].attr == RW && system
  }

  /** The store is asked: for a deletion, or for a default that differs from the value. */
  predicate RemoveAsks(m: Environment, ext: bool, name: string, user: bool, system: bool) {
    Deletes(m, name, user) || (Resets(m, name, system) && Writes(m, ext, name, DefaultOf(m[name])))
  }

  /** env_unset */
  function Unset(m: Environment, ext: bool, name: string, w: Outcome): Effect {
    Remove(m, ext, name, true, true, true, w)
  }

  /** Variables that may be reset have a default value. */
  ghost predicate HasDefaults(m: Environment) {
    forall n :: n in m && m[n].attr == RW ==> m[n].default.Some?
  }

  /** An entry after env_remove: the RW ones at their default when system is set. */
  function Treated(e: Entry, system: bool): Entry {
    if system && e.attr == RW then e.(val := DefaultOf(e)) else e
  }

  /** The environment when env_remove has come past the names in `done`. */
  function RemoveSome(m: Environment, done: set<string>, user: bool, system: bool): Environment {
    map n | n in m && !(n in done && user && m[n].attr == USER) :: if n in done then Treated(m[n], system) else m[n]
  }

  /** env_remove, when it succeeds. */
  function RemoveAll(m: Environment, user: bool, system: bool): Environment {
    RemoveSome(m, m.Keys, user, system)
  }

  // ---------- properties ----------

  /** A set that fails changes nothing. */
  lemma FailedSetChangesNothing(m: Environment, ext: bool, name: string, value: string, attr: Attr,
                                default: Option<string>, decode: Option<Decode>, w: Outcome)
    ensures var r := Set(m, ext, name, value, attr, default, decode, w);
      r.code != OK ==> r.env == m
  {
  }

  /** A set that succeeds changes only its own name, and that name then has the value: always, except
      when a new variable's write makes the store move its records. */
  lemma SetStoresUnlessRearranged(m: Environment, ext: bool, name: string, value: string, attr: Attr,
                                  default: Option<string>, decode: Option<Decode>, w: Outcome)
    requires Set(m, ext, name, value, attr, default, decode, w).code == OK
    ensures var m' := Set(m, ext, name, value, attr, default, decode, w).env;
      && (forall n :: n != name ==> (n in m' <==> n in m) && (n in m ==> m'[n] == m[n]))
      && ((name in m' && m'[name].val == value) <==> !(name !in m && w.Rearranged?))
  {
  }

  /** A new variable "a" whose write makes the store move its records: OK, and no variable. */
  lemma RearrangedSetIsLost(p: Perm)
    ensures Set(map[], false, "a", "b", USER, None, None, Rearranged(p)) == Effect(OK, map[])
  {
  }

  /** Without extended privileges no operation changes a read-only variable. */
  ghost predicate ReadOnlyKept(m: Environment, m': Environment) {
    forall n :: n in m && m[n].attr == RO ==> n in m' && m'[n] == m[n]
  }

  lemma SetKeepsReadOnly(m: Environment, name: string, value: string, attr: Attr,
                         default: Option<string>, decode: Option<Decode>, w: Outcome)
    ensures ReadOnlyKept(m, Set(m, false, name, value, attr, default, decode, w).env)
  {
    hide LengthError, Updated;
  }

  lemma RemoveKeepsReadOnly(m: Environment, name: string, user: bool, system: bool, errorOnRo: bool, w: Outcome)
    ensures ReadOnlyKept(m, Remove(m, false, name, user, system, errorOnRo, w).env)
  {
  }

  lemma RemoveSomeKeepsReadOnly(m: Environment, done: set<string>, user: bool, system: bool)
    ensures ReadOnlyKept(m, RemoveSome(m, done, user, system))
  {
  }

  /** What is left after env_remove: the variables that are not the user's when user is set, and
      then exactly those, with every resettable one at its default when system is set. */
  lemma RemoveAllLeaves(m: Environment, user: bool, system: bool, n: string)
    requires HasDefaults(m)
    ensures var m' := RemoveAll(m, user, system);
      && (n in m' <==> n in m && (user ==> m[n].attr != USER))
      && (n in m' ==> m'[n] == m[n].(val := m'[n].val))
      && (n in m' && system && m[n].attr == RW ==> Some(m'[n].val) == m[n].default)
      && (n in m' && !(system && m[n].attr == RW) ==> m'[n].val == m[n].val)
  {
  }

  /** env_remove may come past the variables in any order. */
  lemma RemoveSomeStep(m: Environment, done: set<string>, user: bool, system: bool, n: string)
    requires n in m && n !in done
    ensures n in RemoveSome(m, done, user, system) && RemoveSome(m, done, user, system)[n] == m[n]
    ensures RemoveSome(m, done + {n}, user, system) ==
            if user && m[n].attr == USER then RemoveSome(m, done, user, system) - {n}
            else RemoveSome(m, done, user, system)[n := Treated(m[n], system)]
  {
    var m', m'' := RemoveSome(m, done, user, system), RemoveSome(m, done + {n}, user, system);
    if user && m[n].attr == USER {
      assert m'' == m' - {n};
    } else {
      assert m'' == m'[n := Treated(m[n], system)];
    }
  }

  // ---------- runs ----------

  /** One call, with the store's answer, or with the variables env_remove has treated in their order. */
  datatype Op =
    | SetVar(name: string, value: string, attr: Attr, default: Option<string>, decode: Option<Decode>, w: Outcome)
    | UnsetVar(name: string, w: Outcome)
    | RemoveVars(user: bool, system: bool, order: seq<string>)

  function Apply(m: Environment, ext: bool, op: Op): Environment {
    match op
    case SetVar(name, value, attr, default, decode, w) => Set(m, ext, name, value, attr, default, decode, w).env
    case UnsetVar(name, w) => Unset(m, ext, name, w).env
    case RemoveVars(user, system, order) => RemoveSome(m, Passed(order), user, system)
  }

  function Passed(order: seq<string>): set<string> {
    set n | n in order
  }

  function Run(m: Environment, ext: bool, ops: seq<Op>): Environment
    decreases |ops|
  {
    if ops == [] then m else Run(Apply(m, ext, ops[0]), ext, ops[1..])
  }

  lemma RunNothing(m: Environment, ext: bool)
    ensures Run(m, ext, []) == m
  {
  }

  lemma {:induction false} RunMore(m: Environment, ext: bool, ops: seq<Op>, op: Op)
    ensures Run(m, ext, ops + [op]) == Apply(Run(m, ext, ops), ext, op)
    decreases |ops|
  {
    hide Apply;
    if ops == [] {
      assert ops + [op] == [op] && [op][1..] == [];
    } else {
      RunMore(Apply(m, ext, ops[0]), ext, ops[1..], op);
      assert (ops + [op])[1..] == ops[1..] + [op];
    }
  }

  lemma RunAt(m: Environment, ext: bool, ops: seq<Op>, i: nat)
    requires i < |ops|
    ensures Run(m, ext, ops[..i + 1]) == Apply(Run(m, ext, ops[..i]), ext, ops[i])
  {
    assert ops[..i + 1] == ops[..i] + [ops[i]];
    RunMore(m, ext, ops[..i], ops[i]);
  }

  // ---------- env_remove ----------

  /** How often the store is asked for the variables in `order`. */
  function Asked(m: Environment, ext: bool, user: bool, system: bool, order: seq<string>): nat {
    if order == [] then 0
    else
      var n := order[|order| - 1];
      Asked(m, ext, user, system, order[..|order| - 1]) + One(RemoveAsks(m, ext, n, user, system))
  }

  /** All in `order` are variables of the map, each once, and env_remove treats them one after the other;
      its first question to the store is the k-th. */
  predicate Passing(m: Environment, ext: bool, user: bool, system: bool, order: seq<string>, k: nat,
                    outcome: nat -> Outcome) {
    order == [] ||
    var before, n := order[..|order| - 1], order[|order| - 1];
    && Passing(m, ext, user, system, before, k, outcome)
    && n in m && n !in before
    && Remove(m, ext, n, user, system, false, outcome(k + Asked(m, ext, user, system, before))).code == OK
  }

  lemma PassingMore(m: Environment, ext: bool, user: bool, system: bool, order: seq<string>, n: string, k: nat,
                    outcome: nat -> Outcome)
    requires Passing(m, ext, user, system, order, k, outcome) && n in m && n !in order
    requires Remove(m, ext, n, user, system, false, outcome(k + Asked(m, ext, user, system, order))).code == OK
    ensures Passing(m, ext, user, system, order + [n], k, outcome)
  {
    hide Asked, Remove;
    assert (order + [n])[..|order|] == order;
  }

  lemma OneMorePassed(m: Environment, ext: bool, user: bool, system: bool, order: seq<string>, n: string)
    ensures Asked(m, ext, user, system, order + [n]) ==
            Asked(m, ext, user, system, order) + One(RemoveAsks(m, ext, n, user, system))
    ensures Passed(order + [n]) == Passed(order) + {n}
  {
    assert (order + [n])[..|order|] == order;
  }

  /** The code for a variable depends on nothing but its entry. */
  lemma CodeOfEntry(m: Environment, c: Environment, ext: bool, n: string, user: bool, system: bool, w: Outcome)
    requires n in m && n in c && m[n] == c[n]
    ensures Remove(m, ext, n, user, system, false, w).code == Remove(c, ext, n, user, system, false, w).code
    ensures RemoveAsks(m, ext, n, user, system) == RemoveAsks(c, ext, n, user, system)
  {
  }

  /** What env_remove does: it comes past variables of the map, each once, and all it comes past are
      treated; either that is all there are, or the next one cannot be treated, and its code is the
      result. */
  ghost predicate Removal(m: Environment, ext: bool, user: bool, system: bool, order: seq<string>,
                          k: nat, k': nat, code: Code, outcome: nat -> Outcome) {
    && Passing(m, ext, user, system, order, k, outcome)
    && (code == OK ==>
          (forall n :: n in m ==> n in order) && k' == k + Asked(m, ext, user, system, order))
    && (code != OK ==> exists n :: StopsAt(m, ext, user, system, order, n, k, k', code, outcome))
  }

  predicate StopsAt(m: Environment, ext: bool, user: bool, system: bool, order: seq<string>, n: string,
                    k: nat, k': nat, code: Code, outcome: nat -> Outcome) {
    var j := k + Asked(m, ext, user, system, order);
    && n in m && n !in order && k' == j + One(RemoveAsks(m, ext, n, user, system))
    && code == Remove(m, ext, n, user, system, false, outcome(j)).code
  }

  /** When env_remove succeeds, the variables are those that RemoveAll says. */
  lemma RemovalIsAll(m: Environment, ext: bool, user: bool, system: bool, order: seq<string>, k: nat, k': nat,
                     outcome: nat -> Outcome)
    requires Removal(m, ext, user, system, order, k, k', OK, outcome)
    ensures RemoveSome(m, Passed(order), user, system) == RemoveAll(m, user, system)
  {
    assert forall n :: n in m ==> n in Passed(order);
  }

  /** It fails only at a variable to be reset whose default is refused: by its lengths, by its decode
      function or by the store. */
  lemma RemovalStops(m: Environment, ext: bool, user: bool, system: bool, order: seq<string>, n: string,
                     k: nat, k': nat, code: Code, outcome: nat -> Outcome)
    requires code != OK && StopsAt(m, ext, user, system, order, n, k, k', code, outcome)
    ensures Resets(m, n, system)
    ensures var value := DefaultOf(m[n]);
      || code == LengthError(n, value)
      || (code == VALUE && m[n].val != value && !Accepts(m[n].decode, value))
      || (code.WRITE_ERROR? && m[n].val != value && k' > k && outcome(k' - 1).Failed? && code.code == outcome(k' - 1).code)
  {
  }

  /** No run without extended privileges ever changes or removes a read-only variable. */
  lemma {:induction false} RunKeepsReadOnly(m: Environment, ops: seq<Op>)
    ensures ReadOnlyKept(m, Run(m, false, ops))
    decreases |ops|
  {
    hide Apply;
    if ops != [] {
      ApplyKeepsReadOnly(m, ops[0]);
      RunKeepsReadOnly(Apply(m, false, ops[0]), ops[1..]);
    }
  }

  lemma ApplyKeepsReadOnly(m: Environment, op: Op)
    ensures ReadOnlyKept(m, Apply(m, false, op))
  {
    hide Set, Remove, RemoveSome;
    match op
    case SetVar(name, value, attr, default, decode, w) =>
      SetKeepsReadOnly(m, name, value, attr, default, decode, w);
    case UnsetVar(name, w) =>
      RemoveKeepsReadOnly(m, name, true, true, true, w);
    case RemoveVars(user, system, order) =>
      RemoveSomeKeepsReadOnly(m, Passed(order), user, system);
  }

  /** A call that leaves a variable alone: it names another one. */
  predicate Spares(op: Op, n: string) {
    match op
    case SetVar(name, _, _, _, _, _) => name != n
    case UnsetVar(name, _) => name != n
    case RemoveVars(_, _, _) => false
  }

  lemma SparedIsKept(m: Environment, ext: bool, op: Op, n: string)
    requires Spares(op, n)
    ensures SameAt(m, Apply(m, ext, op), n)
  {
    hide Access, SameAt;
    Unchanged(m, n);
    match op
    case SetVar(name, value, attr, default, decode, w) =>
      AccessKeepsOthers(m, ext, name, value, attr, default, decode, w, n);
    case UnsetVar(name, w) =>
      RemoveKeepsOthers(m, ext, name, w, n);
  }

  lemma Unchanged(m: Environment, n: string)
    ensures SameAt(m, m, n)
  {
  }

  lemma AccessKeepsOthers(m: Environment, ext: bool, name: string, value: string, attr: Attr,
                          default: Option<string>, decode: Option<Decode>, w: Outcome, n: string)
    requires n != name
    ensures SameAt(m, Access(m, ext, name, value, attr, default, decode, w).env, n)
  {
    hide LengthError, UpdateError, Updated;
  }

  lemma RemoveKeepsOthers(m: Environment, ext: bool, name: string, w: Outcome, n: string)
    requires n != name
    ensures SameAt(m, Unset(m, ext, name, w).env, n)
  {
    hide Access;
    if name in m {
      AccessKeepsOthers(m, ext, name, DefaultOf(m[name]), RW, m[name].default, None, w, n);
    }
  }

  ghost predicate SameAt(m: Environment, m': Environment, n: string) {
    (n in m' <==> n in m) && (n in m ==> m'[n] == m[n])
  }

  /** A variable that no call of a run names is as it was. */
  lemma {:induction false} RunKeepsOthers(m: Environment, ext: bool, ops: seq<Op>, n: string)
    requires forall i :: 0 <= i < |ops| ==> Spares(ops[i], n)
    ensures SameAt(m, Run(m, ext, ops), n)
    decreases |ops|
  {
    hide Apply;
    if ops != [] {
      SparedIsKept(m, ext, ops[0], n);
      RunKeepsOthers(Apply(m, ext, ops[0]), ext, ops[1..], n);
    }
  }
}

/** When setting and unsetting an environment variable succeed, and what each error means (env/env.c). */
module EnvCodes {
  import opened Wrappers
  import opened EnvSpec

  predicate Resettable(m: Environment, name: string) {
    name in m && m[name].attr == RW
  }

  function Default(e: Entry): string {
    if e.default.Some? then e.default.value else ""
  }

  /** The lengths that a name and its value may have. */
  predicate LengthsFit(name: string, value: string) {
    |name| <= 20 && |name| + |value| <= 122
  }

  /** The store has refused, with that code. */
  predicate Refuses(w: Outcome, code: nat) {
    w.Failed? && w.code == code
  }

  // ---------- unset ----------

  /** The default value that an unset gives to a resettable variable can be set: it fits, and if it is not
      the value already, the variable's decode function accepts it. */
  predicate DefaultFits(m: Environment, name: string)
    requires name in m
  {
    var e := m[name];
    LengthsFit(name, Default(e)) && (e.val != Default(e) && e.decode.Some? ==> e.decode.value(Default(e)))
  }

  /** Unset succeeds exactly when the variable is not there, is the user's, or can be reset to its default and
      the store does not refuse that. It then leaves the name absent, or with its default as value. */
  lemma UnsetSucceedsExactly(m: Environment, ext: bool, name: string, w: Outcome)
    ensures Unset(m, ext, name, w).code == OK <==>
            || name !in m || m[name].attr == USER
            || (m[name].attr == RW && DefaultFits(m, name) && (m[name].val != Default(m[name]) ==> !w.Failed?))
    ensures Unset(m, ext, name, w).code == OK ==>
              var m' := Unset(m, ext, name, w).env;
              if Resettable(m, name) then m' == m[name := m[name].(val := Default(m[name]))] else m' == m - {name}
    ensures Unset(m, ext, name, w).code != OK ==> Unset(m, ext, name, w).env == m
  {
    if name !in m {
      assert m - {name} == m;
    }
  }

  /** Each error of unset has its cause: the variable is read-only; or it is resettable, and its default is
      too long, not accepted, or refused by the store. */
  lemma UnsetErrorsExactly(m: Environment, ext: bool, name: string, w: Outcome)
    ensures var code := Unset(m, ext, name, w).code;
      && (code == VAR_RO <==> name in m && m[name].attr == RO)
      && (code == NAME_LEN <==> Resettable(m, name) && |name| > 20)
      && (code == VAL_LEN <==> Resettable(m, name) && |name| <= 20 && |name| + |Default(m[name])| > 122)
      && (code == VALUE <==> Resettable(m, name) && LengthsFit(name, Default(m[name])) && !DefaultFits(m, name))
      && code != OVERFLOW
      && forall c :: code == WRITE_ERROR(c) <==>
           Resettable(m, name) && DefaultFits(m, name) && m[name].val != Default(m[name]) && Refuses(w, c)
  {
  }

  // ---------- set ----------

  predicate Takes(decode: Option<Decode>, value: string) {
    decode.Some? ==> decode.value(value)
  }

  /** A variable that is there may be changed by this caller. */
  predicate MayChange(m: Environment, ext: bool, name: string) {
    name in m && m[name].attr == RO ==> ext
  }

  /** The value is the variable's already. */
  predicate Unchanged(m: Environment, name: string, value: string) {
    name in m && m[name].val == value
  }

  /** Nothing but the store can refuse the value. */
  predicate Allowed(m: Environment, ext: bool, name: string, value: string, decode: Option<Decode>) {
    && Takes(decode, value) && LengthsFit(name, value) && MayChange(m, ext, name)
    && if name in m then Unchanged(m, name, value) || Takes(m[name].decode, value) else |m| != 100
  }

  /** Set succeeds exactly when the decode functions, the lengths, the attribute with the privileges of the
      caller, the room in the table and the store all allow it. */
  lemma SetSucceedsExactly(m: Environment, ext: bool, name: string, value: string, attr: Attr,
                           default: Option<string>, decode: Option<Decode>, w: Outcome)
    ensures Set(m, ext, name, value, attr, default, decode, w).code == OK <==>
            Allowed(m, ext, name, value, decode) && (!Unchanged(m, name, value) ==> !w.Failed?)
  {
  }

  /** Each error of set has its cause, the first that applies: a value not accepted by the decode function
      given; a name, then a value, that is too long; a read-only variable and no privileges; a value not
      accepted by the variable's own decode function; no room; a refusal of the store. */
  lemma SetErrorsExactly(m: Environment, ext: bool, name: string, value: string, attr: Attr,
                         default: Option<string>, decode: Option<Decode>, w: Outcome)
    ensures var code := Set(m, ext, name, value, attr, default, decode, w).code;
      var taken := Takes(decode, value);
      && (code == NAME_LEN <==> taken && |name| > 20)
      && (code == VAL_LEN <==> taken && |name| <= 20 && |name| + |value| > 122)
      && (code == VAR_RO <==> taken && LengthsFit(name, value) && !MayChange(m, ext, name))
      && (code == VALUE <==>
          || !taken
          || (LengthsFit(name, value) && MayChange(m, ext, name) && name in m && !Unchanged(m, name, value)
              && !Takes(m[name].decode, value)))
      && (code == OVERFLOW <==> taken && LengthsFit(name, value) && name !in m && |m| == 100)
      && forall c :: code == WRITE_ERROR(c) <==>
           Allowed(m, ext, name, value, decode) && !Unchanged(m, name, value) && Refuses(w, c)
  {
  }

  /** A set that succeeds gives a new variable, and one of the user's, all its parameters; any other variable
      keeps its attribute, default and decode function. */
  lemma SetParameters(m: Environment, ext: bool, name: string, value: string, attr: Attr,
                      default: Option<string>, decode: Option<Decode>, w: Outcome)
    requires Set(m, ext, name, value, attr, default, decode, w).code == OK
    ensures var m' := Set(m, ext, name, value, attr, default, decode, w).env;
      if name in m && m[name].attr != USER then m' == m[name := m[name].(val := value)]
      else if name !in m && w.Rearranged? then m' == m
      else m' == m[name := Entry(value, attr, default, decode)]
  {
  }

  // ---------- removing all ----------

  /** env_remove passes over a variable without an error unless that must be reset and its default does not
      fit or is refused; a read-only one is left alone. */
  lemma RemovePassesExactly(m: Environment, ext: bool, name: string, user: bool, system: bool, w: Outcome)
    requires name in m
    ensures Remove(m, ext, name, user, system, false, w).code == OK <==>
            Resettable(m, name) && system ==> DefaultFits(m, name) && (m[name].val != Default(m[name]) ==> !w.Failed?)
    ensures Remove(m, ext, name, user, system, false, w).code == OK ==>
              var m' := Remove(m, ext, name, user, system, false, w).env;
              if Resettable(m, name) && system then m' == m[name := m[name].(val := Default(m[name]))]
              else if m[name].attr == USER && user then m' == m - {name}
              else m' == m
  {
  }
}

/** The environment table over the record log that keeps its variables (env/env.c, sysenv/sysenv.c), while
    the flash driver refuses nothing. */
module EnvOnLog {
  import opened Wrappers
  import opened EnvSpec
  import opened EnvTable
  import opened Env
  import SysenvLog
  import SysenvSlots

  /** The store's answers from the k-th question up to the k'-th are those of a log in an area of `max`
      places that has records(j) records when the j-th question is asked. */
  predicate AnswersOfLog(outcome: nat -> Outcome, records: nat -> nat, max: nat, k: nat, k': nat) {
    forall j: nat :: k <= j < k' ==> outcome(j) == SysenvSlots.LogAnswer(records(j), max)
  }

  /** The call creates a variable, and the log is full. */
  predicate MeetsFullLog(op: Op, ext: bool, p: Point, records: nat -> nat, max: nat) {
    op.SetVar? && SetWrites(p.env, ext, op.name, op.value, op.decode) && op.name !in p.env && records(p.asked) == max
  }

  lemma IdentityHarmless(m: Environment, ext: bool, n: string, user: bool, system: bool, records: nat, max: nat)
    ensures Harmless(m, ext, n, user, system, SysenvSlots.LogAnswer(records, max))
  {
    SysenvSlots.IdentityStays(map[]);
  }

  lemma {:induction false} AllHarmlessOnLog(m: Environment, ext: bool, user: bool, system: bool, order: seq<string>, k: nat, k': nat,
                                            outcome: nat -> Outcome, records: nat -> nat, max: nat)
    requires k + Asked(m, ext, user, system, order) <= k' && AnswersOfLog(outcome, records, max, k, k')
    ensures AllHarmless(m, ext, user, system, order, k, outcome)
    decreases |order|
  {
    hide AllHarmless, Asked, RemoveAsks, AnswersOfLog;
    if order == [] {
      NoneHarmless(m, ext, user, system, order, k, outcome);
    } else {
      var before, n := order[..|order| - 1], order[|order| - 1];
      OneMoreOf(m, ext, user, system, order, k, outcome);
      AllHarmlessOnLog(m, ext, user, system, before, k, k', outcome, records, max);
      HarmlessAt(m, ext, user, system, n, k + Asked(m, ext, user, system, before), k, k', outcome, records, max);
    }
  }

  lemma NoneHarmless(m: Environment, ext: bool, user: bool, system: bool, order: seq<string>, k: nat, outcome: nat -> Outcome)
    requires order == []
    ensures AllHarmless(m, ext, user, system, order, k, outcome)
  {
  }

  lemma OneMoreOf(m: Environment, ext: bool, user: bool, system: bool, order: seq<string>, k: nat, outcome: nat -> Outcome)
    requires order != []
    ensures var before, n := order[..|order| - 1], order[|order| - 1];
      var j := k + Asked(m, ext, user, system, before);
      && k + Asked(m, ext, user, system, order) == j + One(RemoveAsks(m, ext, n, user, system))
      && (AllHarmless(m, ext, user, system, before, k, outcome) && Harmless(m, ext, n, user, system, outcome(j)) ==>
            AllHarmless(m, ext, user, system, order, k, outcome))
  {
    hide Harmless, RemoveAsks;
  }

  lemma HarmlessAt(m: Environment, ext: bool, user: bool, system: bool, n: string, j: nat, k: nat, k': nat,
                   outcome: nat -> Outcome, records: nat -> nat, max: nat)
    requires AnswersOfLog(outcome, records, max, k, k') && k <= j && j + One(RemoveAsks(m, ext, n, user, system)) <= k'
    ensures Harmless(m, ext, n, user, system, outcome(j))
  {
    hide Harmless, RemoveAsks, AnswersOfLog, SysenvSlots.LogAnswer;
    if RemoveAsks(m, ext, n, user, system) {
      AnswerAt(outcome, records, max, k, k', j);
      IdentityHarmless(m, ext, n, user, system, records(j), max);
    } else {
      UnaskedHarmless(m, ext, n, user, system, outcome(j));
    }
  }

  lemma AnswerAt(outcome: nat -> Outcome, records: nat -> nat, max: nat, k: nat, k': nat, j: nat)
    requires AnswersOfLog(outcome, records, max, k, k') && k <= j < k'
    ensures outcome(j) == SysenvSlots.LogAnswer(records(j), max)
  {
  }

  lemma UnaskedHarmless(m: Environment, ext: bool, n: string, user: bool, system: bool, w: Outcome)
    requires !RemoveAsks(m, ext, n, user, system)
    ensures Harmless(m, ext, n, user, system, w)
  {
  }

  /** A removal that stops has not asked for the last variable: the log refuses nothing. */
  lemma StopsUnasked(m: Environment, ext: bool, user: bool, system: bool, order: seq<string>, k: nat, k': nat, code: Code,
                     outcome: nat -> Outcome, records: nat -> nat, max: nat)
    requires Removal(m, ext, user, system, order, k, k', code, outcome) && AnswersOfLog(outcome, records, max, k, k')
    ensures k' >= k + Asked(m, ext, user, system, order)
    ensures code != OK ==> k' == k + Asked(m, ext, user, system, order)
  {
    if code != OK {
      var n :| StopsAt(m, ext, user, system, order, n, k, k', code, outcome);
      RemovalStops(m, ext, user, system, order, n, k, k', code, outcome);
    }
  }

  /** One call of a matching table: rows and slots match behind it, and nothing is lost, exactly unless it
      creates a variable when the log is full. */
  lemma CallOnLog(op: Op, ext: bool, outcome: nat -> Outcome, p: Point, p': Point, code: Code, records: nat -> nat, max: nat)
    requires Permutes(outcome) && CallDone(op, ext, outcome, p, p', code) && p.valid && IsStore(p.flash)
    requires AnswersOfLog(outcome, records, max, p.asked, p'.asked)
    ensures p'.valid <==> !MeetsFullLog(op, ext, p, records, max)
    ensures LostAt(op, ext, p) <==> MeetsFullLog(op, ext, p, records, max)
  {
    hide Removal, RemovalKeeps, Undisturbed, SetStore, RemoveStore, Stores, Apply, EnvSpec.Set, EnvSpec.Unset, IsPerm, Harmless,
      RemoveAsks, RemoveFits;
    match op
    case SetVar(name, value, attr, default, decode, w) =>
    case UnsetVar(name, w) =>
      if RemoveAsks(p.env, ext, name, true, true) {
        IdentityHarmless(p.env, ext, name, true, true, records(p.asked), max);
      } else {
        UnaskedHarmless(p.env, ext, name, true, true, w);
      }
      HarmlessFits(p.env, ext, name, true, true, p.flash, w);
    case RemoveVars(user, system, order) =>
      StopsUnasked(p.env, ext, user, system, order, p.asked, p'.asked, code, outcome, records, max);
      AllHarmlessOnLog(p.env, ext, user, system, order, p.asked, p'.asked, outcome, records, max);
      UndisturbedIs(p.env, ext, user, system, order, p.asked, p'.asked, code, outcome);
  }

  lemma UndisturbedIs(m: Environment, ext: bool, user: bool, system: bool, order: seq<string>, k: nat, k': nat,
                      code: Code, outcome: nat -> Outcome)
    requires AllHarmless(m, ext, user, system, order, k, outcome)
    requires code != OK ==> k' == k + Asked(m, ext, user, system, order)
    ensures Undisturbed(m, ext, user, system, order, k, k', code, outcome)
  {
  }

  lemma CallAsks(op: Op, ext: bool, outcome: nat -> Outcome, p: Point, p': Point, code: Code)
    requires Permutes(outcome) && CallDone(op, ext, outcome, p, p', code)
    ensures p.asked <= p'.asked && (p'.valid ==> IsStore(p'.flash))
  {
    hide RemovalKeeps, Undisturbed, SetStore, RemoveStore, Apply, EnvSpec.Set, EnvSpec.Unset, RemoveFits, SetFits, Passing;
  }

  /** A run over the log: rows and slots match after every call, up to the first creation that meets a full
      log; that one is lost by the table, but it is in the store. */
  lemma {:induction false} RunOnLog(trace: seq<Op>, ext: bool, outcome: nat -> Outcome, points: seq<Point>, codes: seq<Code>,
                                    n: nat, records: nat -> nat, max: nat)
    requires Permutes(outcome) && IsRun(trace, ext, outcome, points, codes) && n <= |trace|
    requires points[0].valid && IsStore(points[0].flash)
    requires forall i :: 0 <= i < |trace| ==> AnswersOfLog(outcome, records, max, points[i].asked, points[i + 1].asked)
    requires forall i :: 0 <= i < n ==> !MeetsFullLog(trace[i], ext, points[i], records, max)
    ensures points[n].valid && IsStore(points[n].flash)
    ensures n < |trace| && MeetsFullLog(trace[n], ext, points[n], records, max) ==>
      && codes[n] == OK && trace[n].name !in points[n + 1].env && !points[n + 1].valid
      && Stores(points[n + 1].flash, WithLost(trace[n], points[n].env))
  {
    hide AnswersOfLog, MeetsFullLog;
    if n > 0 {
      RunOnLog(trace, ext, outcome, points, codes, n - 1, records, max);
      StepOnLog(trace[n - 1], ext, outcome, points[n - 1], points[n], codes[n - 1], records, max);
    }
    if n < |trace| {
      StepOnLog(trace[n], ext, outcome, points[n], points[n + 1], codes[n], records, max);
    }
  }

  lemma StepOnLog(op: Op, ext: bool, outcome: nat -> Outcome, p: Point, p': Point, code: Code, records: nat -> nat, max: nat)
    requires Permutes(outcome) && CallDone(op, ext, outcome, p, p', code) && p.valid && IsStore(p.flash)
    requires AnswersOfLog(outcome, records, max, p.asked, p'.asked)
    ensures if MeetsFullLog(op, ext, p, records, max) then
              code == OK && op.name !in p'.env && !p'.valid && Stores(p'.flash, WithLost(op, p.env))
            else p'.valid && IsStore(p'.flash)
  {
    hide Stores, CallDone, MeetsFullLog;
    CallOnLog(op, ext, outcome, p, p', code, records, max);
    CallAsks(op, ext, outcome, p, p', code);
    if MeetsFullLog(op, ext, p, records, max) {
      LostCall(op, ext, outcome, p, p', code);
    }
  }

  lemma LostCall(op: Op, ext: bool, outcome: nat -> Outcome, p: Point, p': Point, code: Code)
    requires Permutes(outcome) && CallDone(op, ext, outcome, p, p', code) && p.valid && LostAt(op, ext, p)
    ensures code == OK && op.name !in p'.env && Stores(p'.flash, WithLost(op, p.env))
  {
    hide Stores, SetStore, SetFits;
    LostExactly(p.env, ext, op.name, op.value, op.attr, op.default, op.decode, op.w);
  }

  /** With room in the log for a record of every question nothing is lost: rows and slots match to the end. */
  lemma RunWithRoom(trace: seq<Op>, ext: bool, outcome: nat -> Outcome, points: seq<Point>, codes: seq<Code>,
                    records: nat -> nat, max: nat)
    requires Permutes(outcome) && IsRun(trace, ext, outcome, points, codes) && points[0].valid && IsStore(points[0].flash)
    requires forall i :: 0 <= i < |trace| ==> AnswersOfLog(outcome, records, max, points[i].asked, points[i + 1].asked)
    requires forall j: nat :: records(j) < max ==> records(j + 1) == records(j) + 1
    requires records(points[0].asked) + (points[|trace|].asked - points[0].asked) <= max
    ensures points[|trace|].valid
  {
    hide AnswersOfLog;
    forall i | 0 <= i < |trace| ensures !MeetsFullLog(trace[i], ext, points[i], records, max) {
      AskedAscends(trace, ext, outcome, points, codes, 0, i);
      AskedAscends(trace, ext, outcome, points, codes, i + 1, |trace|);
      OneQuestion(trace[i], ext, outcome, points[i], points[i + 1], codes[i]);
      if points[i].asked < points[i + 1].asked {
        RecordsAscend(records, max, points[0].asked, points[i].asked);
      }
    }
    RunOnLog(trace, ext, outcome, points, codes, |trace|, records, max);
  }

  lemma OneQuestion(op: Op, ext: bool, outcome: nat -> Outcome, p: Point, p': Point, code: Code)
    requires Permutes(outcome) && CallDone(op, ext, outcome, p, p', code)
    ensures op.SetVar? && SetWrites(p.env, ext, op.name, op.value, op.decode) ==> p'.asked == p.asked + 1
  {
    hide SetStore, SetFits, Stores, Apply, EnvSpec.Set;
  }

  lemma {:induction false} AskedAscends(trace: seq<Op>, ext: bool, outcome: nat -> Outcome, points: seq<Point>,
                                        codes: seq<Code>, i: nat, k: nat)
    requires Permutes(outcome) && IsRun(trace, ext, outcome, points, codes) && i <= k <= |trace|
    ensures points[i].asked <= points[k].asked
    decreases k - i
  {
    hide CallDone;
    if i < k {
      AskedAscends(trace, ext, outcome, points, codes, i, k - 1);
      CallAsks(trace[k - 1], ext, outcome, points[k - 1], points[k], codes[k - 1]);
    }
  }

  lemma {:induction false} RecordsAscend(records: nat -> nat, max: nat, k: nat, j: nat)
    requires k <= j && records(k) + (j - k) <= max
    requires forall j: nat :: records(j) < max ==> records(j + 1) == records(j) + 1
    ensures records(j) == records(k) + (j - k)
    decreases j - k
  {
    if k < j {
      RecordsAscend(records, max, k, j - 1);
    }
  }
}

/**
 * The shape shared by the three `validateQueryParams` functions: a fixed
 * table of parameter rows walked in order with `forEach`; each row reads
 * `params[name]`, may write a coerced value back to that key, and may throw,
 * which ends the walk. Each validator supplies its own table and its own
 * per-row check.
 */
module QueryParams {

  import opened Wrappers
  import opened Js
  import opened HttpErrors

  datatype ParamType = StringType | IntegerType | BooleanType

  /** One row of a table; `maxValue` 0 stands for a row without a maximum (it is falsy in JS). */
  datatype ParamConfig = ParamConfig(name: string, ptype: ParamType, required: bool, maxValue: nat)

  /** What checking one row does: it passes or throws, and it may write a value back to the row's key. */
  datatype Step = Step(outcome: Outcome<HttpError>, write: Option<Value>)

  type Params = map<string, Value>

  type Check = (ParamConfig, Option<Value>) -> Step

  /** `params[key]`, where a missing key reads as undefined. */
  function Lookup(p: Params, key: string): Option<Value>
  {
    if key in p then Some(p[key]) else None
  }

  function Write(p: Params, key: string, w: Option<Value>): Params
  {
    if w.Some? then p[key := w.value] else p
  }

  /** The value a row's key holds once that row has been checked. */
  function After(s: Step, v: Option<Value>): Option<Value>
  {
    if s.write.Some? then s.write else v
  }

  datatype Validated = Validated(outcome: Outcome<HttpError>, params: Params)

  /** The walk over the table: the object mutated in place and whether it threw. */
  function Walk(check: Check, cs: seq<ParamConfig>, p: Params): (r: Validated)
    ensures p.Keys <= r.params.Keys
    decreases |cs|
  {
    if cs == [] then
      Validated(Pass, p)
    else
      var s := check(cs[0], Lookup(p, cs[0].name));
      var p' := Write(p, cs[0].name, s.write);
      if s.outcome.Fail? then Validated(s.outcome, p') else Walk(check, cs[1..], p')
  }

  predicate DistinctNames(cs: seq<ParamConfig>)
  {
    forall i, j :: 0 <= i < j < |cs| ==> cs[i].name != cs[j].name
  }

  predicate NotNamed(cs: seq<ParamConfig>, key: string)
  {
    forall j :: 0 <= j < |cs| ==> cs[j].name != key
  }

  /** The check of one row against the ORIGINAL query. */
  function Verdict(check: Check, c: ParamConfig, p: Params): Step
  {
    check(c, Lookup(p, c.name))
  }

  /** The index of the first row whose check fails on the original query, or |cs| when none does. */
  function FirstFail(check: Check, cs: seq<ParamConfig>, p: Params): (k: nat)
    ensures k <= |cs|
    ensures forall j :: 0 <= j < k ==> Verdict(check, cs[j], p).outcome.Pass?
    ensures k < |cs| ==> Verdict(check, cs[k], p).outcome.Fail?
  {
    if cs == [] then 0
    else if Verdict(check, cs[0], p).outcome.Fail? then 0
    else 1 + FirstFail(check, cs[1..], p)
  }

  /** The first failing row is the one before which every row passes. */
  lemma FirstFailAt(check: Check, cs: seq<ParamConfig>, p: Params, k: nat)
    requires k <= |cs|
    requires forall j :: 0 <= j < k ==> Verdict(check, cs[j], p).outcome.Pass?
    requires k < |cs| ==> Verdict(check, cs[k], p).outcome.Fail?
    ensures FirstFail(check, cs, p) == k
  {
  }

  /** Rows are judged only on their own key, so two queries that agree on the table's keys get the same verdicts. */
  lemma {:induction false} FirstFailAgrees(check: Check, cs: seq<ParamConfig>, p: Params, q: Params)
    requires forall j :: 0 <= j < |cs| ==> Lookup(p, cs[j].name) == Lookup(q, cs[j].name)
    ensures FirstFail(check, cs, p) == FirstFail(check, cs, q)
  {
    if cs != [] {
      assert Lookup(p, cs[0].name) == Lookup(q, cs[0].name);
      FirstFailAgrees(check, cs[1..], p, q);
    }
  }

  /**
   * The walk in declarative terms, for a table with distinct names: the error
   * thrown is that of the first row failing on the original query; every row
   * up to and including that one has had its write applied, the rows after it
   * are untouched, and so is every key the table does not name.
   */
  lemma {:induction false} WalkSpec(check: Check, cs: seq<ParamConfig>, p: Params)
    requires DistinctNames(cs)
    ensures var r, k := Walk(check, cs, p), FirstFail(check, cs, p);
      && r.outcome == (if k < |cs| then Verdict(check, cs[k], p).outcome else Pass)
      && (forall j :: 0 <= j < |cs| ==>
            Lookup(r.params, cs[j].name)
              == if j <= k then After(Verdict(check, cs[j], p), Lookup(p, cs[j].name)) else Lookup(p, cs[j].name))
      && (forall key :: NotNamed(cs, key) ==> Lookup(r.params, key) == Lookup(p, key))
  {
    if cs != [] {
      var c := cs[0];
      var s := Verdict(check, c, p);
      var p1 := Write(p, c.name, s.write);
      var rest := cs[1..];
      TailFacts(cs);
      assert forall j :: 0 <= j < |rest| ==> Lookup(p1, rest[j].name) == Lookup(p, rest[j].name);
      if s.outcome.Pass? {
        WalkSpec(check, rest, p1);
        FirstFailAgrees(check, rest, p1, p);
        WalkSpecStep(check, cs, p);
      }
    }
  }

  /** The rest of a table with distinct names has distinct names, none of them the first row's. */
  lemma TailFacts(cs: seq<ParamConfig>)
    requires DistinctNames(cs) && cs != []
    ensures DistinctNames(cs[1..]) && NotNamed(cs[1..], cs[0].name)
    ensures forall j :: 0 <= j < |cs[1..]| ==> cs[1..][j] == cs[j + 1]
  {
    var rest := cs[1..];
    forall i, j | 0 <= i < j < |rest| ensures rest[i].name != rest[j].name {
      assert cs[i + 1].name != cs[j + 1].name;
    }
    forall j | 0 <= j < |rest| ensures rest[j].name != cs[0].name {
      assert cs[0].name != cs[j + 1].name;
    }
  }

  /** One step of WalkSpec: from the facts about the rest of the table after a passing first row to the facts about the table. */
  lemma WalkSpecStep(check: Check, cs: seq<ParamConfig>, p: Params)
    requires DistinctNames(cs) && cs != []
    requires Verdict(check, cs[0], p).outcome.Pass?
    requires var p1 := Write(p, cs[0].name, Verdict(check, cs[0], p).write);
      var rest, r, k := cs[1..], Walk(check, cs[1..], p1), FirstFail(check, cs[1..], p1);
      && FirstFail(check, rest, p1) == FirstFail(check, rest, p)
      && r.outcome == (if k < |rest| then Verdict(check, rest[k], p1).outcome else Pass)
      && (forall j :: 0 <= j < |rest| ==>
            Lookup(r.params, rest[j].name)
              == if j <= k then After(Verdict(check, rest[j], p1), Lookup(p1, rest[j].name)) else Lookup(p1, rest[j].name))
      && (forall key :: NotNamed(rest, key) ==> Lookup(r.params, key) == Lookup(p1, key))
    ensures var r, k := Walk(check, cs, p), FirstFail(check, cs, p);
      && r.outcome == (if k < |cs| then Verdict(check, cs[k], p).outcome else Pass)
      && (forall j :: 0 <= j < |cs| ==>
            Lookup(r.params, cs[j].name)
              == if j <= k then After(Verdict(check, cs[j], p), Lookup(p, cs[j].name)) else Lookup(p, cs[j].name))
      && (forall key :: NotNamed(cs, key) ==> Lookup(r.params, key) == Lookup(p, key))
  {
    TailFacts(cs);
    var p1 := Write(p, cs[0].name, Verdict(check, cs[0], p).write);
    forall j | 0 <= j < |cs[1..]| ensures Lookup(p1, cs[1..][j].name) == Lookup(p, cs[1..][j].name) {
      assert cs[1..][j].name != cs[0].name;
    }
    StepOutcome(check, cs, p);
    StepRows(check, cs, p);
    StepOthers(check, cs, p);
  }

  lemma StepOutcome(check: Check, cs: seq<ParamConfig>, p: Params)
    requires cs != [] && Verdict(check, cs[0], p).outcome.Pass?
    requires forall j :: 0 <= j < |cs[1..]| ==> cs[1..][j] == cs[j + 1]
    requires var p1 := Write(p, cs[0].name, Verdict(check, cs[0], p).write);
      var rest, r, k := cs[1..], Walk(check, cs[1..], p1), FirstFail(check, cs[1..], p1);
      && FirstFail(check, rest, p1) == FirstFail(check, rest, p)
      && (forall j :: 0 <= j < |rest| ==> Lookup(p1, rest[j].name) == Lookup(p, rest[j].name))
      && r.outcome == (if k < |rest| then Verdict(check, rest[k], p1).outcome else Pass)
    ensures var r, k := Walk(check, cs, p), FirstFail(check, cs, p);
      r.outcome == (if k < |cs| then Verdict(check, cs[k], p).outcome else Pass)
  {
    var k' := FirstFail(check, cs[1..], p);
    assert FirstFail(check, cs, p) == 1 + k';
    if k' < |cs[1..]| {
      assert cs[1..][k'] == cs[1 + k'];
    }
  }

  lemma StepRows(check: Check, cs: seq<ParamConfig>, p: Params)
    requires cs != [] && Verdict(check, cs[0], p).outcome.Pass? && NotNamed(cs[1..], cs[0].name)
    requires forall j :: 0 <= j < |cs[1..]| ==> cs[1..][j] == cs[j + 1]
    requires var p1 := Write(p, cs[0].name, Verdict(check, cs[0], p).write);
      var rest, r, k := cs[1..], Walk(check, cs[1..], p1), FirstFail(check, cs[1..], p1);
      && FirstFail(check, rest, p1) == FirstFail(check, rest, p)
      && (forall j :: 0 <= j < |rest| ==> Lookup(p1, rest[j].name) == Lookup(p, rest[j].name))
      && (forall j :: 0 <= j < |rest| ==>
            Lookup(r.params, rest[j].name)
              == if j <= k then After(Verdict(check, rest[j], p1), Lookup(p1, rest[j].name)) else Lookup(p1, rest[j].name))
      && (forall key :: NotNamed(rest, key) ==> Lookup(r.params, key) == Lookup(p1, key))
    ensures var r, k := Walk(check, cs, p), FirstFail(check, cs, p);
      forall j :: 0 <= j < |cs| ==>
        Lookup(r.params, cs[j].name)
          == if j <= k then After(Verdict(check, cs[j], p), Lookup(p, cs[j].name)) else Lookup(p, cs[j].name)
  {
    var c := cs[0];
    var p1 := Write(p, c.name, Verdict(check, c, p).write);
    var rest := cs[1..];
    var r := Walk(check, cs, p);
    assert r == Walk(check, rest, p1);
    assert FirstFail(check, cs, p) == 1 + FirstFail(check, rest, p);
    forall j | 0 <= j < |cs|
      ensures Lookup(r.params, cs[j].name)
              == if j <= FirstFail(check, cs, p) then After(Verdict(check, cs[j], p), Lookup(p, cs[j].name)) else Lookup(p, cs[j].name)
    {
      if j > 0 {
        assert cs[j] == rest[j - 1];
      }
    }
  }

  lemma StepOthers(check: Check, cs: seq<ParamConfig>, p: Params)
    requires cs != [] && Verdict(check, cs[0], p).outcome.Pass?
    requires forall j :: 0 <= j < |cs[1..]| ==> cs[1..][j] == cs[j + 1]
    requires var p1 := Write(p, cs[0].name, Verdict(check, cs[0], p).write);
      forall key :: NotNamed(cs[1..], key) ==> Lookup(Walk(check, cs[1..], p1).params, key) == Lookup(p1, key)
    ensures forall key :: NotNamed(cs, key) ==> Lookup(Walk(check, cs, p).params, key) == Lookup(p, key)
  {
    forall key | NotNamed(cs, key) ensures Lookup(Walk(check, cs, p).params, key) == Lookup(p, key) {
      assert NotNamed(cs[1..], key) by {
        forall j | 0 <= j < |cs[1..]| ensures cs[1..][j].name != key {
          assert cs[1..][j] == cs[j + 1];
        }
      }
      assert key != cs[0].name;
    }
  }

  // ---------------------------------------------------------------------------
  // What a table demands, stated without the order of its checks

  /**
   * The values a row lets through: a missing or falsy value only when the
   * row is optional; otherwise a string for a string row, a positive integer
   * (within the row's maximum, if it has one) for an integer row, and one of
   * the literals "true" and "false" for a boolean row.
   */
  predicate Acceptable(c: ParamConfig, v: Option<Value>)
  {
    if !IsTruthy(v) then !c.required
    else match c.ptype
      case StringType => v.value.Str?
      case IntegerType =>
        var n := ToNumber(v.value);
        IsPositiveInteger(n) && (c.maxValue == 0 || n.i <= c.maxValue)
      case BooleanType => v.value == Str("true") || v.value == Str("false")
  }

  /** The query values are strings or, for a repeated key, arrays of strings. */
  predicate FromQueryString(p: Params)
  {
    forall key :: key in p ==> p[key].Str? || p[key].Arr?
  }

  /** A check passes on exactly the values its row accepts. */
  ghost predicate Judges(check: Check, cs: seq<ParamConfig>)
  {
    forall j, v :: 0 <= j < |cs| ==> (check(cs[j], v).outcome.Pass? <==> Acceptable(cs[j], v))
  }

  predicate AcceptedBefore(cs: seq<ParamConfig>, p: Params, k: nat)
    requires k <= |cs|
  {
    forall j :: 0 <= j < k ==> Acceptable(cs[j], Lookup(p, cs[j].name))
  }

  /** The first row, in table order, that does not accept its value throws that row's error. */
  lemma WalkFirstRejection(check: Check, cs: seq<ParamConfig>, p: Params, k: nat)
    requires DistinctNames(cs) && Judges(check, cs)
    requires k < |cs| && AcceptedBefore(cs, p, k) && !Acceptable(cs[k], Lookup(p, cs[k].name))
    ensures Walk(check, cs, p).outcome == check(cs[k], Lookup(p, cs[k].name)).outcome
    ensures Walk(check, cs, p).outcome.Fail?
  {
    FirstFailAt(check, cs, p, k);
    WalkSpec(check, cs, p);
  }

  /** The walk passes exactly when every row accepts its value, and then each row's key holds what its check made of it. */
  lemma WalkPassesIff(check: Check, cs: seq<ParamConfig>, p: Params)
    requires DistinctNames(cs) && Judges(check, cs)
    ensures Walk(check, cs, p).outcome.Pass? <==> AcceptedBefore(cs, p, |cs|)
    ensures Walk(check, cs, p).outcome.Pass? ==>
      forall j :: 0 <= j < |cs| ==>
        Lookup(Walk(check, cs, p).params, cs[j].name) == After(Verdict(check, cs[j], p), Lookup(p, cs[j].name))
  {
    WalkSpec(check, cs, p);
  }

  /** A check that never writes leaves the query as it was, whether or not it throws. */
  lemma {:induction false} WalkWithoutWrites(check: Check, cs: seq<ParamConfig>, p: Params)
    requires forall c, v :: check(c, v).write.None?
    ensures Walk(check, cs, p).params == p
    decreases |cs|
  {
    if cs != [] {
      assert Write(p, cs[0].name, check(cs[0], Lookup(p, cs[0].name)).write) == p;
      WalkWithoutWrites(check, cs[1..], p);
    }
  }

  /** A walk throws only errors its check throws: if every thrown error has one status, so does the walk's. */
  lemma {:induction false} WalkThrowsWithStatus(check: Check, cs: seq<ParamConfig>, p: Params, status: nat)
    requires forall c, v :: check(c, v).outcome.Fail? ==> check(c, v).outcome.error.status == status
    ensures Walk(check, cs, p).outcome.Fail? ==> Walk(check, cs, p).outcome.error.status == status
    decreases |cs|
  {
    if cs != [] {
      var s := check(cs[0], Lookup(p, cs[0].name));
      if s.outcome.Pass? {
        WalkThrowsWithStatus(check, cs[1..], Write(p, cs[0].name, s.write), status);
      }
    }
  }

  /** A value that `Number` reads as an integer of at least 1, or the default `d`. */
  function RequestedNumber(v: Option<Value>, d: nat): nat
  {
    if IsTruthy(v) && ToNumber(v.value).Int? && ToNumber(v.value).i >= 1 then ToNumber(v.value).i else d
  }

  /** A present, truthy query value as the number `Number` reads it; otherwise undefined. */
  function NumberArg(v: Option<Value>): Option<Value>
  {
    if IsTruthy(v) then Some(Num(ToNumber(v.value))) else None
  }

  /** Two parameter maps that agree on every key are equal. */
  lemma LookupExtensional(a: Params, b: Params)
    requires forall key :: Lookup(a, key) == Lookup(b, key)
    ensures a == b
  {
    assert forall key :: key in a <==> key in b by {
      forall key ensures key in a <==> key in b {
        assert Lookup(a, key).Some? <==> Lookup(b, key).Some?;
      }
    }
    forall key | key in a ensures a[key] == b[key] {
      assert Lookup(a, key) == Lookup(b, key);
    }
  }

  /** The object validated in place (an Express `req.query`). */
  class Query {
    var params: Params

    constructor (params: Params)
      ensures this.params == params
    {
      this.params := params;
    }
  }

  /** The `forEach` over a table: rows in order, writes applied to the query, the first throw ends it. */
  method RunChecks(q: Query, check: Check, cs: seq<ParamConfig>) returns (r: Outcome<HttpError>)
    modifies q
    ensures Validated(r, q.params) == Walk(check, cs, old(q.params))
  {
    var i := 0;
    while i < |cs|
      invariant 0 <= i <= |cs|
      invariant Walk(check, cs[i..], q.params) == Walk(check, cs, old(q.params))
    {
      var c := cs[i];
      var s := check(c, Lookup(q.params, c.name));
      assert cs[i..][1..] == cs[i + 1..];
      if s.write.Some? {
        q.params := q.params[c.name := s.write.value];
      }
      if s.outcome.Fail? {
        return s.outcome;
      }
      i := i + 1;
    }
    return Pass;
  }
}

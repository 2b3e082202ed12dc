/**
 * `validateQueryParams` of the modular service (api/utils/validation.js):
 * the five-row table user, language, per_page, page, archived; an integer
 * row is overwritten with its number as soon as it is one, before its
 * maximum is checked; an accepted `archived` is overwritten with a boolean.
 */
module ApiValidation {

  import opened Wrappers
  import opened Js
  import opened HttpErrors
  import opened QueryParams

  const User := ParamConfig("user", StringType, true, 0)
  const Language := ParamConfig("language", StringType, false, 0)
  const PerPage := ParamConfig("per_page", IntegerType, false, 10)
  const Page := ParamConfig("page", IntegerType, false, 0)
  const Archived := ParamConfig("archived", BooleanType, false, 0)

  const Configs: seq<ParamConfig> := [User, Language, PerPage, Page, Archived]

  /** One row of the `forEach`: the value it reads is `param`. */
  function CheckParam(c: ParamConfig, param: Option<Value>): (r: Step)
    ensures r.outcome.Fail? ==> r.outcome.error.status == 400
    ensures r.write.Some? ==> IsTruthy(param) && c.ptype != StringType
  {
    if c.required && !IsTruthy(param) then
      Step(Fail(BadRequest(c.name + " is required.")), None)
    else if !IsTruthy(param) then
      Step(Pass, None)
    else
      var v := param.value;
      match c.ptype
      case StringType =>
        if !v.Str? then Step(Fail(BadRequest(c.name + " must be a string.")), None) else Step(Pass, None)
      case IntegerType =>
        var n := ToNumber(v);
        if !IsPositiveInteger(n) then
          Step(Fail(BadRequest(c.name + " must be a positive integer.")), None)
        else if c.maxValue != 0 && n.i > c.maxValue then
          Step(Fail(BadRequest(c.name + " cannot exceed " + NatToDecimal(c.maxValue) + ".")), Some(Num(n)))
        else
          Step(Pass, Some(Num(n)))
      case BooleanType =>
        if v != Str("true") && v != Str("false") then
          Step(Fail(BadRequest(c.name + " must be 'true' or 'false'.")), None)
        else
          Step(Pass, Some(Bool(v == Str("true"))))
  }

  /** The query after validation, and whether validation threw. */
  function Validate(p: Params): Validated
  {
    Walk(CheckParam, Configs, p)
  }

  /** `validateQueryParams(req.query)`: rewrites the query in place or throws. */
  method ValidateQueryParams(q: Query) returns (r: Outcome<HttpError>)
    modifies q
    ensures Validated(r, q.params) == Validate(old(q.params))
  {
    r := RunChecks(q, CheckParam, Configs);
  }

  // ---------------------------------------------------------------------------
  // What the table demands, stated rule by rule

  /** What a row's key holds once the row has accepted it. */
  function Coerce(c: ParamConfig, v: Option<Value>): Option<Value>
  {
    if !IsTruthy(v) then v
    else match c.ptype
      case StringType => v
      case IntegerType => Some(Num(ToNumber(v.value)))
      case BooleanType => Some(Bool(v.value == Str("true")))
  }

  lemma CheckParamAgrees(c: ParamConfig, v: Option<Value>)
    ensures CheckParam(c, v).outcome.Pass? <==> Acceptable(c, v)
    ensures CheckParam(c, v).outcome.Pass? ==> After(CheckParam(c, v), v) == Coerce(c, v)
  {
  }

  lemma ConfigsJudged()
    ensures DistinctNames(Configs) && Judges(CheckParam, Configs)
  {
    forall j, v | 0 <= j < |Configs| ensures CheckParam(Configs[j], v).outcome.Pass? <==> Acceptable(Configs[j], v) {
      CheckParamAgrees(Configs[j], v);
    }
  }

  /** The walk over this table, in declarative terms. */
  lemma ValidateSpec(p: Params)
    ensures var r, k := Validate(p), FirstFail(CheckParam, Configs, p);
      && r.outcome == (if k < |Configs| then Verdict(CheckParam, Configs[k], p).outcome else Pass)
      && (forall j :: 0 <= j < |Configs| ==>
            Lookup(r.params, Configs[j].name)
              == if j <= k then After(Verdict(CheckParam, Configs[j], p), Lookup(p, Configs[j].name)) else Lookup(p, Configs[j].name))
      && (forall key :: NotNamed(Configs, key) ==> Lookup(r.params, key) == Lookup(p, key))
  {
    ConfigsJudged();
    WalkSpec(CheckParam, Configs, p);
  }

  /**
   * The rows are checked in table order and the first row that does not
   * accept its value throws that row's error.
   */
  lemma FirstRejectionWins(p: Params, k: nat)
    requires k < |Configs| && AcceptedBefore(Configs, p, k) && !Acceptable(Configs[k], Lookup(p, Configs[k].name))
    ensures Validate(p).outcome == CheckParam(Configs[k], Lookup(p, Configs[k].name)).outcome
    ensures Validate(p).outcome.Fail? && Validate(p).outcome.error.status == 400
  {
    ConfigsJudged();
    WalkFirstRejection(CheckParam, Configs, p, k);
  }

  /** Validation passes exactly when every row accepts its value, and then each row's key holds its coerced value. */
  lemma ValidatePassesIff(p: Params)
    ensures Validate(p).outcome.Pass? <==> AcceptedBefore(Configs, p, |Configs|)
    ensures Validate(p).outcome.Pass? ==>
      forall j :: 0 <= j < |Configs| ==> Lookup(Validate(p).params, Configs[j].name) == Coerce(Configs[j], Lookup(p, Configs[j].name))
  {
    ConfigsJudged();
    WalkPassesIff(CheckParam, Configs, p);
    forall j | 0 <= j < |Configs| {
      CheckParamAgrees(Configs[j], Lookup(p, Configs[j].name));
    }
  }

  /** A missing or empty `user` is the first error, whatever else the query holds, and nothing is rewritten. */
  lemma UserRequired(p: Params)
    requires !IsTruthy(Lookup(p, "user"))
    ensures Validate(p) == Validated(Fail(HttpError("user is required.", 400)), p)
  {
    assert "user" + " is required." == "user is required.";
    FirstRejectionWins(p, 0);
    FirstFailAt(CheckParam, Configs, p, 0);
    ValidateSpec(p);
    var r := Validate(p);
    forall key ensures Lookup(r.params, key) == Lookup(p, key) {
      if !NotNamed(Configs, key) {
        var j :| 0 <= j < |Configs| && Configs[j].name == key;
      }
    }
    LookupExtensional(r.params, p);
  }

  /** A string-typed parameter given as an array (a repeated key) is refused. */
  lemma StringRowRefusesArray(p: Params, k: nat, items: seq<string>)
    requires k < 2 && AcceptedBefore(Configs, p, k) && Lookup(p, Configs[k].name) == Some(Arr(items))
    ensures Validate(p).outcome == Fail(HttpError(Configs[k].name + " must be a string.", 400))
  {
    FirstRejectionWins(p, k);
  }

  /** `per_page` or `page` that `Number` does not read as a positive integer. */
  lemma NotPositiveInteger(p: Params, k: nat)
    requires k == 2 || k == 3
    requires AcceptedBefore(Configs, p, k) && IsTruthy(Lookup(p, Configs[k].name))
    requires !IsPositiveInteger(ToNumber(Lookup(p, Configs[k].name).value))
    ensures Validate(p).outcome == Fail(HttpError(Configs[k].name + " must be a positive integer.", 400))
  {
    FirstRejectionWins(p, k);
  }

  /**
   * `per_page` above 10 throws, after its key has already been overwritten
   * with the number; the later rows are not looked at.
   */
  lemma PerPageCap(p: Params, n: int)
    requires AcceptedBefore(Configs, p, 2) && IsTruthy(Lookup(p, "per_page"))
    requires ToNumber(Lookup(p, "per_page").value) == Int(n) && n > 10
    ensures Validate(p).outcome == Fail(HttpError("per_page cannot exceed 10.", 400))
    ensures Lookup(Validate(p).params, "per_page") == Some(Num(Int(n)))
    ensures Lookup(Validate(p).params, "page") == Lookup(p, "page")
    ensures Lookup(Validate(p).params, "archived") == Lookup(p, "archived")
  {
    PerPageOverCap(Lookup(p, "per_page"), n);
    FirstRejectionWins(p, 2);
    FirstFailAt(CheckParam, Configs, p, 2);
    ValidateSpec(p);
    assert Configs[3].name == "page" && Configs[4].name == "archived";
  }

  /** An `archived` other than the two literals is refused once the rows before it pass. */
  lemma ArchivedLiteral(p: Params)
    requires AcceptedBefore(Configs, p, 4) && IsTruthy(Lookup(p, "archived"))
    requires Lookup(p, "archived") != Some(Str("true")) && Lookup(p, "archived") != Some(Str("false"))
    ensures Validate(p).outcome == Fail(HttpError("archived must be 'true' or 'false'.", 400))
  {
    ArchivedNotLiteral(Lookup(p, "archived"));
    FirstRejectionWins(p, 4);
  }

  lemma PerPageOverCap(v: Option<Value>, n: int)
    requires IsTruthy(v) && ToNumber(v.value) == Int(n) && n > 10
    ensures CheckParam(PerPage, v) == Step(Fail(HttpError("per_page cannot exceed 10.", 400)), Some(Num(Int(n))))
  {
    assert NatToDecimal(10) == "10";
    assert "per_page" + " cannot exceed " + "10" + "." == "per_page cannot exceed 10.";
  }

  lemma ArchivedNotLiteral(v: Option<Value>)
    requires IsTruthy(v) && v != Some(Str("true")) && v != Some(Str("false"))
    ensures CheckParam(Archived, v).outcome == Fail(HttpError("archived must be 'true' or 'false'.", 400))
  {
    assert "archived" + " must be 'true' or 'false'." == "archived must be 'true' or 'false'.";
  }

  /** An optional parameter that is missing or empty is skipped: its key keeps its value whatever the outcome. */
  lemma FalsyOptionalSkipped(p: Params, k: nat)
    requires 1 <= k < |Configs| && !IsTruthy(Lookup(p, Configs[k].name))
    ensures Lookup(Validate(p).params, Configs[k].name) == Lookup(p, Configs[k].name)
  {
    ValidateSpec(p);
  }

  /**
   * Only `per_page`, `page` and `archived` are ever written, and only where
   * they were present: every other key keeps its value and no key appears
   * or disappears.
   */
  lemma ValidationFrame(p: Params)
    ensures forall key :: key != "per_page" && key != "page" && key != "archived" ==>
      Lookup(Validate(p).params, key) == Lookup(p, key)
    ensures Validate(p).params.Keys == p.Keys
  {
    ValidateSpec(p);
    var r := Validate(p);
    forall key | key != "per_page" && key != "page" && key != "archived"
      ensures Lookup(r.params, key) == Lookup(p, key)
    {
      if !NotNamed(Configs, key) {
        var j :| 0 <= j < |Configs| && Configs[j].name == key;
        assert j < 2;
        assert CheckParam(Configs[j], Lookup(p, key)).write.None?;
      }
    }
    forall key ensures key in r.params <==> key in p {
      if !NotNamed(Configs, key) {
        var j :| 0 <= j < |Configs| && Configs[j].name == key;
        WritesOnlyPresent(Configs[j], Lookup(p, key));
        assert Lookup(r.params, key).Some? <==> Lookup(p, key).Some?;
      }
    }
  }

  /** A row writes only to a key that is present. */
  lemma WritesOnlyPresent(c: ParamConfig, v: Option<Value>)
    ensures After(CheckParam(c, v), v).Some? <==> v.Some?
  {
  }

  /**
   * What a query from a query string looks like once validated: the shapes
   * the service receives (a non-empty string user; per_page a number 1..10
   * unless missing or empty; likewise page; archived a boolean unless
   * missing or empty).
   */
  lemma ValidatedShapes(p: Params)
    requires FromQueryString(p) && Validate(p).outcome.Pass?
    ensures var v := Validate(p).params;
      && (exists s :: Lookup(v, "user") == Some(Str(s)) && s != "")
      && (Lookup(v, "language").None? || Lookup(v, "language").value.Str?)
      && (Lookup(v, "per_page") in {None, Some(Str(""))}
          || exists n :: 1 <= n <= 10 && Lookup(v, "per_page") == Some(Num(Int(n))))
      && (Lookup(v, "page") in {None, Some(Str(""))}
          || exists n :: 1 <= n && Lookup(v, "page") == Some(Num(Int(n))))
      && (Lookup(v, "archived") in {None, Some(Str(""))}
          || exists b :: Lookup(v, "archived") == Some(Bool(b)))
  {
    ValidatePassesIff(p);
    var v := Validate(p).params;
    assert Acceptable(Configs[0], Lookup(p, "user"));
    assert Lookup(v, "user") == Lookup(p, "user");
    assert Acceptable(Configs[1], Lookup(p, "language"));
    assert Acceptable(Configs[2], Lookup(p, "per_page"));
    assert Acceptable(Configs[3], Lookup(p, "page"));
    assert Acceptable(Configs[4], Lookup(p, "archived"));
    assert Lookup(v, "per_page") == Coerce(PerPage, Lookup(p, "per_page"));
    assert Lookup(v, "page") == Coerce(Page, Lookup(p, "page"));
    assert Lookup(v, "archived") == Coerce(Archived, Lookup(p, "archived"));
    if !IsTruthy(Lookup(p, "per_page")) { FalsyIsEmpty(Lookup(p, "per_page")); }
    if !IsTruthy(Lookup(p, "page")) { FalsyIsEmpty(Lookup(p, "page")); }
    if !IsTruthy(Lookup(p, "archived")) { FalsyIsEmpty(Lookup(p, "archived")); }
  }

  /**
   * The paging arguments the controller passes on, once their defaults
   * apply, are numbers: per_page p with 1 <= p <= 10 and page u >= 1,
   * unless the query gave either as the empty string.
   */
  lemma ValidatedPaging(q: Params) returns (p: nat, u: nat)
    requires FromQueryString(q) && Validate(q).outcome.Pass?
    requires Lookup(q, "per_page") != Some(Str("")) && Lookup(q, "page") != Some(Str(""))
    ensures p == RequestedNumber(Lookup(q, "per_page"), 5) && u == RequestedNumber(Lookup(q, "page"), 1)
    ensures 1 <= p <= 10 && 1 <= u
    ensures Default(Lookup(Validate(q).params, "per_page"), Num(Int(5))) == Num(Int(p))
    ensures Default(Lookup(Validate(q).params, "page"), Num(Int(1))) == Num(Int(u))
  {
    var v := Validate(q).params;
    p, u := RequestedNumber(Lookup(q, "per_page"), 5), RequestedNumber(Lookup(q, "page"), 1);
    ValidatePassesIff(q);
    assert Acceptable(Configs[2], Lookup(q, "per_page")) && Acceptable(Configs[3], Lookup(q, "page"));
    assert Lookup(v, "per_page") == Coerce(PerPage, Lookup(q, "per_page"));
    assert Lookup(v, "page") == Coerce(Page, Lookup(q, "page"));
    if !IsTruthy(Lookup(q, "per_page")) {
      assert "per_page" in q ==> q["per_page"].Str? || q["per_page"].Arr?;
      FalsyIsEmpty(Lookup(q, "per_page"));
    }
    if !IsTruthy(Lookup(q, "page")) {
      assert "page" in q ==> q["page"].Str? || q["page"].Arr?;
      FalsyIsEmpty(Lookup(q, "page"));
    }
  }

  /** An integer row ends with the empty string only if it started with it. */
  lemma FalsyStaysInPlace(q: Params, k: nat)
    requires k == 2 || k == 3
    requires Validate(q).outcome.Pass?
    ensures Lookup(Validate(q).params, Configs[k].name) == Some(Str("")) ==> Lookup(q, Configs[k].name) == Some(Str(""))
  {
    ValidatePassesIff(q);
  }

  /** A falsy query-string value is a missing key or the empty string. */
  lemma FalsyIsEmpty(v: Option<Value>)
    requires v.None? || v.value.Str? || v.value.Arr?
    requires !IsTruthy(v)
    ensures v in {None, Some(Str(""))}
  {
  }
}

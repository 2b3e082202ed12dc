/**
 * The single-file server api/index.js: its own `validateQueryParams`, which
 * converts only `archived` (to a boolean) and leaves `per_page` and `page`
 * as the query gave them; its own `fetchRepositories`, whose filter keeps
 * only unarchived repositories when `archived` is null (the default) and
 * otherwise compares with `Boolean(archived)`; and the `/repos` route, which
 * destructures the query BEFORE validating it, so the aggregator receives
 * the raw query strings.
 */
module ApiIndex {

  import opened Wrappers
  import opened Js
  import opened HttpErrors
  import opened QueryParams
  import opened Paging

  const User := ParamConfig("user", StringType, true, 0)
  const Language := ParamConfig("language", StringType, false, 0)
  const PerPage := ParamConfig("per_page", IntegerType, false, 10)
  const Page := ParamConfig("page", IntegerType, false, 0)
  const Archived := ParamConfig("archived", BooleanType, false, 0)

  const Configs: seq<ParamConfig> := [User, Language, PerPage, Page, Archived]

  /** `Number(param) > maxValue`: false when the number is NaN. */
  predicate Exceeds(n: Number, max: nat)
  {
    n.Int? && n.i > max
  }

  /** One row of the `forEach`: four independent checks, then the boolean conversion. */
  function CheckParam(c: ParamConfig, param: Option<Value>): (r: Step)
    ensures r.outcome.Fail? ==> r.outcome.error.status == 400
    ensures r.write.Some? ==> c.ptype == BooleanType && r.write.value.Bool?
  {
    if c.required && !IsTruthy(param) then
      Step(Fail(BadRequest(c.name + " is required.")), None)
    else if !IsTruthy(param) then
      Step(Pass, None)
    else
      var v := param.value;
      if c.ptype == StringType && !v.Str? then
        Step(Fail(BadRequest(c.name + " must be a string.")), None)
      else if c.ptype == IntegerType && !IsPositiveInteger(ToNumber(v)) then
        Step(Fail(BadRequest(c.name + " must be a positive integer.")), None)
      else if c.maxValue != 0 && Exceeds(ToNumber(v), c.maxValue) then
        Step(Fail(BadRequest(c.name + " cannot exceed " + NatToDecimal(c.maxValue) + ".")), None)
      else if c.ptype == BooleanType then
        if v != Str("true") && v != Str("false") then
          Step(Fail(BadRequest(c.name + " must be 'true' or 'false'.")), None)
        else
          Step(Pass, Some(Bool(v == Str("true"))))
      else
        Step(Pass, None)
  }

  function Validate(p: Params): Validated
  {
    Walk(CheckParam, Configs, p)
  }

  method ValidateQueryParams(q: Query) returns (r: Outcome<HttpError>)
    modifies q
    ensures Validated(r, q.params) == Validate(old(q.params))
  {
    r := RunChecks(q, CheckParam, Configs);
  }

  /** The value a row's key holds once this validator has accepted it: only `archived` changes. */
  function Coerce(c: ParamConfig, v: Option<Value>): Option<Value>
  {
    if IsTruthy(v) && c.ptype == BooleanType then Some(Bool(v.value == Str("true"))) else v
  }

  /**
   * On rows whose maximum, if any, is on an integer row (as in this table),
   * the sequence of independent checks accepts what the table demands.
   */
  lemma CheckParamAgrees(c: ParamConfig, v: Option<Value>)
    requires c.maxValue == 0 || c.ptype == IntegerType
    ensures CheckParam(c, v).outcome.Pass? <==> Acceptable(c, v)
    ensures CheckParam(c, v).outcome.Pass? ==> After(CheckParam(c, v), v) == Coerce(c, v)
  {
  }

  lemma ConfigsJudged()
    ensures DistinctNames(Configs) && Judges(CheckParam, Configs)
  {
    forall j, v | 0 <= j < |Configs| ensures CheckParam(Configs[j], v).outcome.Pass? <==> Acceptable(Configs[j], v) {
      CheckParamAgrees(Configs[j], v);
    }
  }

  /** The rows are checked in table order and the first row that does not accept its value throws, with status 400. */
  lemma FirstRejectionWins(p: Params, k: nat)
    requires k < |Configs| && AcceptedBefore(Configs, p, k) && !Acceptable(Configs[k], Lookup(p, Configs[k].name))
    ensures Validate(p).outcome == CheckParam(Configs[k], Lookup(p, Configs[k].name)).outcome
    ensures Validate(p).outcome.Fail? && Validate(p).outcome.error.status == 400
  {
    ConfigsJudged();
    WalkFirstRejection(CheckParam, Configs, p, k);
  }

  /** Validation passes exactly when every row accepts its value, and then each row's key holds its coerced value. */
  lemma ValidatePassesIff(p: Params)
    ensures Validate(p).outcome.Pass? <==> AcceptedBefore(Configs, p, |Configs|)
    ensures Validate(p).outcome.Pass? ==>
      forall j :: 0 <= j < |Configs| ==> Lookup(Validate(p).params, Configs[j].name) == Coerce(Configs[j], Lookup(p, Configs[j].name))
  {
    ConfigsJudged();
    WalkPassesIff(CheckParam, Configs, p);
    forall j | 0 <= j < |Configs| {
      CheckParamAgrees(Configs[j], Lookup(p, Configs[j].name));
    }
  }

  /**
   * Only `archived` is ever rewritten, and only to the boolean
   * `param === 'true'` when it was one of the two literals; `per_page`,
   * `page` and every other key keep their values, whatever the outcome.
   */
  lemma OnlyArchivedRewritten(p: Params)
    ensures forall key :: key != "archived" ==> Lookup(Validate(p).params, key) == Lookup(p, key)
    ensures var a := Lookup(Validate(p).params, "archived");
      a == Lookup(p, "archived")
      || (Lookup(p, "archived") in {Some(Str("true")), Some(Str("false"))} && a == Some(Bool(Lookup(p, "archived") == Some(Str("true")))))
  {
    ConfigsJudged();
    WalkSpec(CheckParam, Configs, p);
    forall j | 0 <= j < 4 ensures CheckParam(Configs[j], Lookup(p, Configs[j].name)).write.None? {
      NonBooleanRowsDoNotWrite(Configs[j], Lookup(p, Configs[j].name));
    }
    ArchivedWrite(Lookup(p, "archived"));
    assert Configs[4].name == "archived";
  }

  lemma NonBooleanRowsDoNotWrite(c: ParamConfig, v: Option<Value>)
    requires c.ptype != BooleanType
    ensures CheckParam(c, v).write.None?
  {
  }

  lemma ArchivedWrite(v: Option<Value>)
    ensures var w := CheckParam(Archived, v).write;
      w.None? || (v in {Some(Str("true")), Some(Str("false"))} && w == Some(Bool(v == Some(Str("true")))))
  {
  }

  /** `per_page` above 10 throws before anything has been rewritten. */
  lemma PerPageCap(p: Params, n: int)
    requires AcceptedBefore(Configs, p, 2) && IsTruthy(Lookup(p, "per_page"))
    requires ToNumber(Lookup(p, "per_page").value) == Int(n) && n > 10
    ensures Validate(p) == Validated(Fail(HttpError("per_page cannot exceed 10.", 400)), p)
  {
    PerPageOverCap(Lookup(p, "per_page"), n);
    FirstRejectionWins(p, 2);
    FirstFailAt(CheckParam, Configs, p, 2);
    ConfigsJudged();
    WalkSpec(CheckParam, Configs, p);
    forall j | 0 <= j < 2 ensures CheckParam(Configs[j], Lookup(p, Configs[j].name)).write.None? {
      NonBooleanRowsDoNotWrite(Configs[j], Lookup(p, Configs[j].name));
    }
    var r := Validate(p);
    forall key ensures Lookup(r.params, key) == Lookup(p, key) {
      if !NotNamed(Configs, key) {
        var j :| 0 <= j < |Configs| && Configs[j].name == key;
      }
    }
    LookupExtensional(r.params, p);
  }

  lemma PerPageOverCap(v: Option<Value>, n: int)
    requires IsTruthy(v) && ToNumber(v.value) == Int(n) && n > 10
    ensures CheckParam(PerPage, v) == Step(Fail(HttpError("per_page cannot exceed 10.", 400)), None)
  {
    assert NatToDecimal(10) == "10";
    assert "per_page" + " cannot exceed " + "10" + "." == "per_page cannot exceed 10.";
  }

  /** A missing or empty `user` is the first error, whatever else the query holds. */
  lemma UserRequired(p: Params)
    requires !IsTruthy(Lookup(p, "user"))
    ensures Validate(p).outcome == Fail(HttpError("user is required.", 400))
  {
    assert "user" + " is required." == "user is required.";
    FirstRejectionWins(p, 0);
  }

  // ---------------------------------------------------------------------------
  // The aggregator

  /** The filter as written: a null `archived` keeps unarchived repositories only, otherwise `repo.archived === Boolean(archived)`. */
  predicate Keep(language: Option<string>, archived: Option<Value>, repo: Repo)
  {
    LanguageMatches(language, repo)
    && (if archived.None? then !repo.archived else repo.archived == Truthy(archived.value))
  }

  function Keeper(language: Option<string>, archived: Option<Value>): Repo -> bool
  {
    repo => Keep(language, archived, repo)
  }

  function Fetched(up: Upstream, language: Option<string>, archived: Option<Value>, perPage: Option<Value>, userPage: Option<Value>): Result<seq<Repo>, HttpError>
  {
    Respond(up, Keeper(language, archived), Default(perPage, Num(Int(5))), Default(userPage, Num(Int(1))))
  }

  method FetchRepositories(up: Upstream, language: Option<string>, archived: Option<Value>, perPage: Option<Value>, userPage: Option<Value>)
    returns (r: Result<seq<Repo>, HttpError>)
    ensures r == Fetched(up, language, archived, perPage, userPage)
    ensures r.Err? ==> up.failure.Some? && r.error == ToHttpError(up.failure.value)
  {
    var pp := Default(perPage, Num(Int(5)));
    var upg := Default(userPage, Num(Int(1)));
    var totalRepositories := Times(pp, upg);
    var repositories, requested := Accumulate(up, Keeper(language, archived), ToNumber(totalRepositories));
    if repositories.Err? {
      return Err(ToHttpError(repositories.error));
    }
    var startIndex := Times(pp, Minus(upg, Num(Int(1))));
    var endIndex := Plus(startIndex, pp);
    return Ok(Slice(repositories.value, startIndex, endIndex));
  }

  /** Without `archived` no archived repository is returned. */
  lemma UnsetArchivedExcludesArchived(up: Upstream, language: Option<string>, perPage: Option<Value>, userPage: Option<Value>)
    ensures var r := Fetched(up, language, None, perPage, userPage);
      r.Ok? ==> forall x :: x in r.value ==> !x.archived && x in up.all
  {
    var keep := Keeper(language, None);
    var target := ToNumber(Times(Default(perPage, Num(Int(5))), Default(userPage, Num(Int(1)))));
    CollectFacts(up, keep, target);
    var t := Collect(up, keep, target);
    if t.outcome.Ok? {
      var start := Times(Default(perPage, Num(Int(5))), Minus(Default(userPage, Num(Int(1))), Num(Int(1))));
      SliceMembers(t.outcome.value, start, Plus(start, Default(perPage, Num(Int(5)))));
      PrefixMembers(t.outcome.value, Filter(keep, up.all));
    }
  }

  /** The loop, window and error mapping are the shared ones: numbers p, u >= 1 give the window [p*(u-1), p*u) of all matches. */
  lemma WindowOfAllMatches(up: Upstream, language: Option<string>, archived: Option<Value>, p: nat, u: nat)
    requires p >= 1 && u >= 1 && up.failure.None?
    ensures Fetched(up, language, archived, Some(Num(Int(p))), Some(Num(Int(u))))
              == Ok(Window(Filter(Keeper(language, archived), up.all), StartIndex(p, u), StartIndex(p, u) + p))
  {
    RespondNumeric(up, Keeper(language, archived), p, u);
  }

  /** A failing upstream request answers the rethrown error exactly when the loop reaches it. */
  lemma UpstreamFailure(up: Upstream, language: Option<string>, archived: Option<Value>, perPage: Option<Value>, userPage: Option<Value>)
    ensures var target := ToNumber(Times(Default(perPage, Num(Int(5))), Default(userPage, Num(Int(1)))));
      var reached := Collect(Healthy(up), Keeper(language, archived), target).requested;
      Fetched(up, language, archived, perPage, userPage)
        == if up.failure.Some? && up.failure.value.page in reached then Err(ToHttpError(up.failure.value))
           else Fetched(Healthy(up), language, archived, perPage, userPage)
  {
    var target := ToNumber(Times(Default(perPage, Num(Int(5))), Default(userPage, Num(Int(1)))));
    FailureAbortsIffReached(up, Keeper(language, archived), target);
  }

  // ---------------------------------------------------------------------------
  // The route

  /** `GET /repos`: the arguments are read from the query before it is validated. */
  function Route(q: Params, up: Upstream): (r: Result<seq<Repo>, HttpError>)
    ensures r.Err? ==>
      || (Validate(q).outcome.Fail? && r.error.status == 400)
      || (up.failure.Some? && r.error == ToHttpError(up.failure.value))
  {
    var v := Validate(q);
    WalkThrowsWithStatus(CheckParam, Configs, q, 400);
    if v.outcome.Fail? then Err(v.outcome.error)
    else Fetched(up, LanguageArg(Lookup(q, "language")), Lookup(q, "archived"), Lookup(q, "per_page"), Lookup(q, "page"))
  }

  method GetRepos(q: Query, up: Upstream) returns (r: Result<seq<Repo>, HttpError>)
    modifies q
    ensures r == Route(old(q.params), up)
    ensures q.params == Validate(old(q.params)).params
  {
    var language, perPage, page, archived := Lookup(q.params, "language"), Lookup(q.params, "per_page"), Lookup(q.params, "page"), Lookup(q.params, "archived");
    var e := ValidateQueryParams(q);
    if e.Fail? {
      return Err(e.error);
    }
    r := FetchRepositories(up, LanguageArg(language), archived, perPage, page);
  }

  /**
   * As written: a query-string `per_page` of digits d reaches the slice as a
   * string, so the end index is start's digits followed by d; the answer is
   * the window [p*(u-1), p*(u-1)*10^|d| + p) of what the loop kept.
   */
  lemma RawPerPageConcatenates(q: Params, up: Upstream, d: string, p: nat, u: nat)
    requires Validate(q).outcome.Pass? && up.failure.None?
    requires Lookup(q, "per_page") == Some(Str(d)) && |d| >= 1 && AllDigits(d) && DigitsValue(d) == p
    requires u >= 1 && ToNumber(Default(Lookup(q, "page"), Num(Int(1)))) == Int(u)
    ensures var start := StartIndex(p, u);
      var keep := Keeper(LanguageArg(Lookup(q, "language")), Lookup(q, "archived"));
      match Collect(up, keep, Int(start + p)).outcome
      case Ok(acc) => Route(q, up) == Ok(Window(acc, start, AppendDigits(start, d)))
      case Err(_) => false
  {
    AcceptedPerPage(q, d);
    var keep := Keeper(LanguageArg(Lookup(q, "language")), Lookup(q, "archived"));
    var userPage := Default(Lookup(q, "page"), Num(Int(1)));
    RouteOnValid(q, up);
    RespondTextPerPage(up, keep, d, userPage, p, u);
  }

  /** A query that validates is answered by the aggregator, given the values read before validation. */
  lemma RouteOnValid(q: Params, up: Upstream)
    requires Validate(q).outcome.Pass?
    ensures Route(q, up)
      == Respond(up, Keeper(LanguageArg(Lookup(q, "language")), Lookup(q, "archived")),
                 Default(Lookup(q, "per_page"), Num(Int(5))), Default(Lookup(q, "page"), Num(Int(1))))
  {
  }

  /** A validated digit-string `per_page` is a number from 1 to 10. */
  lemma AcceptedPerPage(q: Params, d: string)
    requires Validate(q).outcome.Pass?
    requires Lookup(q, "per_page") == Some(Str(d)) && |d| >= 1 && AllDigits(d)
    ensures 1 <= DigitsValue(d) <= 10
  {
    ValidatePassesIff(q);
    assert Acceptable(Configs[2], Lookup(q, "per_page"));
    DigitsAreNumber(d);
  }

  /** As written: either literal selects archived repositories only, since `Boolean("false")` is true. */
  lemma ArchivedLiteralIsTruthy(language: Option<string>, literal: string, repo: Repo)
    requires literal == "true" || literal == "false"
    ensures Keep(language, Some(Str(literal)), repo) == (LanguageMatches(language, repo) && repo.archived)
  {
  }

  // ---------------------------------------------------------------------------
  // The route as intended

  /** The archived filter the parameter describes: "true" archived only, "false" unarchived only, missing unarchived only. */
  predicate IntendedKeep(language: Option<string>, archived: Option<bool>, repo: Repo)
  {
    LanguageMatches(language, repo) && repo.archived == (archived.Some? && archived.value)
  }

  function IntendedKeeper(language: Option<string>, archived: Option<bool>): Repo -> bool
  {
    repo => IntendedKeep(language, archived, repo)
  }

  /** The validated boolean, read after validation. */
  function ArchivedFlag(v: Option<Value>): Option<bool>
  {
    if v.Some? && v.value.Bool? then Some(v.value.b) else None
  }

  /** What the query asks for: "true" or "false", or nothing. */
  function RequestedArchived(q: Params): Option<bool>
  {
    var a := Lookup(q, "archived");
    if a == Some(Str("true")) then Some(true) else if a == Some(Str("false")) then Some(false) else None
  }

  /**
   * The route reading the validated query, with `per_page` and `page` passed
   * as numbers (an empty one as undefined) and `archived` as the validated
   * boolean.
   */
  function RouteCorrected(q: Params, up: Upstream): Result<seq<Repo>, HttpError>
  {
    var v := Validate(q);
    if v.outcome.Fail? then Err(v.outcome.error)
    else
      Respond(up, IntendedKeeper(LanguageArg(Lookup(v.params, "language")), ArchivedFlag(Lookup(v.params, "archived"))),
              Default(NumberArg(Lookup(v.params, "per_page")), Num(Int(5))),
              Default(NumberArg(Lookup(v.params, "page")), Num(Int(1))))
  }

  /**
   * As intended: a valid query-string query is answered, by a healthy
   * upstream, with the window [p*(u-1), p*u) of all repositories matching
   * the requested language and archived state, where p (at most 10) and u
   * are the requested numbers or their defaults 5 and 1.
   */
  lemma CorrectedWindowOfAllMatches(q: Params, up: Upstream)
    requires FromQueryString(q) && Validate(q).outcome.Pass? && up.failure.None?
    ensures var p, u := RequestedNumber(Lookup(q, "per_page"), 5), RequestedNumber(Lookup(q, "page"), 1);
      && 1 <= p <= 10 && 1 <= u
      && RouteCorrected(q, up)
           == Ok(Window(Filter(IntendedKeeper(LanguageArg(Lookup(q, "language")), RequestedArchived(q)), up.all), StartIndex(p, u), StartIndex(p, u) + p))
  {
    var p, u := RequestedNumber(Lookup(q, "per_page"), 5), RequestedNumber(Lookup(q, "page"), 1);
    CorrectedArguments(q);
    RespondNumeric(up, IntendedKeeper(LanguageArg(Lookup(q, "language")), RequestedArchived(q)), p, u);
  }

  /** What the corrected route passes on for a valid query-string query. */
  lemma CorrectedArguments(q: Params)
    requires FromQueryString(q) && Validate(q).outcome.Pass?
    ensures var v, p, u := Validate(q).params, RequestedNumber(Lookup(q, "per_page"), 5), RequestedNumber(Lookup(q, "page"), 1);
      && 1 <= p <= 10 && 1 <= u
      && Lookup(v, "language") == Lookup(q, "language")
      && Default(NumberArg(Lookup(v, "per_page")), Num(Int(5))) == Num(Int(p))
      && Default(NumberArg(Lookup(v, "page")), Num(Int(1))) == Num(Int(u))
      && ArchivedFlag(Lookup(v, "archived")) == RequestedArchived(q)
  {
    OnlyArchivedRewritten(q);
    ValidatePassesIff(q);
    assert Acceptable(Configs[2], Lookup(q, "per_page"));
    assert Acceptable(Configs[3], Lookup(q, "page"));
    assert Acceptable(Configs[4], Lookup(q, "archived"));
  }
}

/** Concrete requests to the api/index.js route that exhibit its two findings. */
module ApiIndexExamples {

  import opened Wrappers
  import opened Js
  import opened QueryParams
  import opened Paging
  import opened ApiIndex

  /** Sixty unarchived repositories without a language. */
  function Sixty(): seq<Repo>
  {
    seq(60, i => Repo("repo", None, false))
  }

  /**
   * `?user=alice&per_page=5&page=2` against sixty repositories answers
   * items 5..54 (the end index is "55"): fifty repositories, not five.
   */
  lemma PerPageConcatExample()
    ensures var q := map["user" := Str("alice"), "per_page" := Str("5"), "page" := Str("2")];
      Route(q, Upstream(Sixty(), None)) == Ok(Window(Sixty(), 5, 55))
    ensures |Window(Sixty(), 5, 55)| == 50
  {
    var q := map["user" := Str("alice"), "per_page" := Str("5"), "page" := Str("2")];
    var up := Upstream(Sixty(), None);
    ExampleQueryValid(q);
    assert LanguageArg(Lookup(q, "language")) == None && Lookup(q, "archived") == None;
    assert AllDigits("5") && DigitsValue("5") == 5;
    assert StartIndex(5, 2) == 5 && AppendDigits(5, "5") == 55;
    SixtyCollected();
    RawPerPageConcatenates(q, up, "5", 5, 2);
    SixtyWindow();
  }

  lemma SixtyWindow()
    ensures |Window(Sixty(), 5, 55)| == 50
  {
    assert |Sixty()| == 60;
  }

  /** Sixty repositories make one short page, all of them kept. */
  lemma SixtyCollected()
    ensures Collect(Upstream(Sixty(), None), Keeper(None, None), Int(10)) == Trace(Ok(Sixty()), [1])
  {
    var s := Sixty();
    assert |s| == 60 && Below(0, Int(10));
    forall i | 0 <= i < |s| ensures Keeper(None, None)(s[i]) {
      assert s[i] == Repo("repo", None, false);
    }
    FilterKeepsAll(Keeper(None, None), s);
    ShortFirstPageStops(Upstream(s, None), Keeper(None, None), Int(10));
  }

  lemma ExampleQueryValid(q: Params)
    requires q == map["user" := Str("alice"), "per_page" := Str("5"), "page" := Str("2")]
    ensures Validate(q).outcome.Pass? && ToNumber(Lookup(q, "page").value) == Int(2)
  {
    assert StringToNumber("5") == Int(5) && StringToNumber("2") == Int(2);
    ValidatePassesIff(q);
  }

  /** `?user=alice&archived=false` validates. */
  lemma ArchivedFalseQueryValid()
    ensures Validate(map["user" := Str("alice"), "archived" := Str("false")]).outcome.Pass?
  {
    ValidatePassesIff(map["user" := Str("alice"), "archived" := Str("false")]);
  }

  /** `?user=alice&archived=false` against one archived repository returns that repository. */
  lemma ArchivedFalseExample()
    ensures var q := map["user" := Str("alice"), "archived" := Str("false")];
      var old_repo := Repo("old", None, true);
      Route(q, Upstream([old_repo], None)) == Ok([old_repo])
  {
    var q := map["user" := Str("alice"), "archived" := Str("false")];
    var old_repo := Repo("old", None, true);
    var up := Upstream([old_repo], None);
    var keep := Keeper(None, Some(Str("false")));
    ArchivedFalseQueryValid();
    assert Lookup(q, "per_page") == None && Lookup(q, "page") == None;
    assert keep(old_repo);
    FilterKeepsAll(keep, [old_repo]);
    RespondNumeric(up, keep, 5, 1);
  }
}

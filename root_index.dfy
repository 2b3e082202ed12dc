/**
 * The single-file server index.js at the repository root: a four-row
 * `validateQueryParams` (user, language, per_page, page) that only checks
 * and never rewrites the query; a `fetchRepositories` that filters on the
 * language alone, so archived repositories are returned too; and the
 * `/repos` route, which destructures the query before validating it.
 */
module RootIndex {

  import opened Wrappers
  import opened Js
  import opened HttpErrors
  import opened QueryParams
  import opened Paging

  const User := ParamConfig("user", StringType, true, 0)
  const Language := ParamConfig("language", StringType, false, 0)
  const PerPage := ParamConfig("per_page", IntegerType, false, 10)
  const Page := ParamConfig("page", IntegerType, false, 0)

  const Configs: seq<ParamConfig> := [User, Language, PerPage, Page]

  /** One row of the `forEach`: three independent checks on a present value, none of which writes. */
  function CheckParam(c: ParamConfig, param: Option<Value>): (r: Step)
    ensures r.outcome.Fail? ==> r.outcome.error.status == 400
    ensures r.write.None?
  {
    if c.required && !IsTruthy(param) then
      Step(Fail(BadRequest(c.name + " is required.")), None)
    else if !IsTruthy(param) then
      Step(Pass, None)
    else
      var v := param.value;
      if c.ptype == StringType && !v.Str? then
        Step(Fail(BadRequest(c.name + " must be a string.")), None)
      else if c.ptype == IntegerType && !IsPositiveInteger(ToNumber(v)) then
        Step(Fail(BadRequest(c.name + " must be a positive integer.")), None)
      else if c.maxValue != 0 && (ToNumber(v).Int? && ToNumber(v).i > c.maxValue) then
        Step(Fail(BadRequest(c.name + " cannot exceed " + NatToDecimal(c.maxValue) + ".")), None)
      else
        Step(Pass, None)
  }

  function Validate(p: Params): Validated
  {
    Walk(CheckParam, Configs, p)
  }

  method ValidateQueryParams(q: Query) returns (r: Outcome<HttpError>)
    modifies q
    ensures Validated(r, q.params) == Validate(old(q.params))
  {
    r := RunChecks(q, CheckParam, Configs);
  }

  /**
   * On string and integer rows whose maximum, if any, is on an integer row
   * (as in this table), the checks accept what the table demands and leave
   * the value as it was.
   */
  lemma CheckParamAgrees(c: ParamConfig, v: Option<Value>)
    requires c.ptype != BooleanType && (c.maxValue == 0 || c.ptype == IntegerType)
    ensures CheckParam(c, v).outcome.Pass? <==> Acceptable(c, v)
    ensures CheckParam(c, v).write.None?
  {
  }

  lemma ConfigsJudged()
    ensures DistinctNames(Configs) && Judges(CheckParam, Configs)
  {
    forall j, v | 0 <= j < |Configs| ensures CheckParam(Configs[j], v).outcome.Pass? <==> Acceptable(Configs[j], v) {
      CheckParamAgrees(Configs[j], v);
    }
  }

  /** Validation never changes the query, whether or not it throws. */
  lemma NeverWrites(p: Params)
    ensures Validate(p).params == p
  {
    forall c, v ensures CheckParam(c, v).write.None? {
    }
    WalkWithoutWrites(CheckParam, Configs, p);
  }

  /** The rows are checked in table order and the first row that does not accept its value throws, with status 400. */
  lemma FirstRejectionWins(p: Params, k: nat)
    requires k < |Configs| && AcceptedBefore(Configs, p, k) && !Acceptable(Configs[k], Lookup(p, Configs[k].name))
    ensures Validate(p) == Validated(CheckParam(Configs[k], Lookup(p, Configs[k].name)).outcome, p)
    ensures Validate(p).outcome.Fail? && Validate(p).outcome.error.status == 400
  {
    ConfigsJudged();
    WalkFirstRejection(CheckParam, Configs, p, k);
    NeverWrites(p);
  }

  /** Validation passes exactly when every row accepts its value. */
  lemma ValidatePassesIff(p: Params)
    ensures Validate(p).outcome.Pass? <==> AcceptedBefore(Configs, p, |Configs|)
  {
    ConfigsJudged();
    WalkPassesIff(CheckParam, Configs, p);
  }

  /** A missing or empty `user` is the first error, whatever else the query holds. */
  lemma UserRequired(p: Params)
    requires !IsTruthy(Lookup(p, "user"))
    ensures Validate(p) == Validated(Fail(HttpError("user is required.", 400)), p)
  {
    assert "user" + " is required." == "user is required.";
    FirstRejectionWins(p, 0);
  }

  /** `per_page` above 10 throws once `user` and `language` are accepted. */
  lemma PerPageCap(p: Params, n: int)
    requires AcceptedBefore(Configs, p, 2) && IsTruthy(Lookup(p, "per_page"))
    requires ToNumber(Lookup(p, "per_page").value) == Int(n) && n > 10
    ensures Validate(p) == Validated(Fail(HttpError("per_page cannot exceed 10.", 400)), p)
  {
    PerPageOverCap(Lookup(p, "per_page"), n);
    FirstRejectionWins(p, 2);
  }

  lemma PerPageOverCap(v: Option<Value>, n: int)
    requires IsTruthy(v) && ToNumber(v.value) == Int(n) && n > 10
    ensures CheckParam(PerPage, v) == Step(Fail(HttpError("per_page cannot exceed 10.", 400)), None)
  {
    assert NatToDecimal(10) == "10";
    assert "per_page" + " cannot exceed " + "10" + "." == "per_page cannot exceed 10.";
  }

  // ---------------------------------------------------------------------------
  // The aggregator

  /** The filter: the language alone; the archived state plays no part. */
  predicate Keep(language: Option<string>, repo: Repo)
  {
    LanguageMatches(language, repo)
  }

  function Keeper(language: Option<string>): Repo -> bool
  {
    repo => Keep(language, repo)
  }

  function Fetched(up: Upstream, language: Option<string>, perPage: Option<Value>, userPage: Option<Value>): Result<seq<Repo>, HttpError>
  {
    Respond(up, Keeper(language), Default(perPage, Num(Int(5))), Default(userPage, Num(Int(1))))
  }

  method FetchRepositories(up: Upstream, language: Option<string>, perPage: Option<Value>, userPage: Option<Value>)
    returns (r: Result<seq<Repo>, HttpError>)
    ensures r == Fetched(up, language, perPage, userPage)
    ensures r.Err? ==> up.failure.Some? && r.error == ToHttpError(up.failure.value)
  {
    var pp := Default(perPage, Num(Int(5)));
    var upg := Default(userPage, Num(Int(1)));
    var totalRepositories := Times(pp, upg);
    var repositories, requested := Accumulate(up, Keeper(language), ToNumber(totalRepositories));
    if repositories.Err? {
      return Err(ToHttpError(repositories.error));
    }
    var startIndex := Times(pp, Minus(upg, Num(Int(1))));
    var endIndex := Plus(startIndex, pp);
    return Ok(Slice(repositories.value, startIndex, endIndex));
  }

  /** Numbers p, u >= 1 give the window [p*(u-1), p*u) of all repositories in the language, archived or not. */
  lemma WindowOfAllMatches(up: Upstream, language: Option<string>, p: nat, u: nat)
    requires p >= 1 && u >= 1 && up.failure.None?
    ensures Fetched(up, language, Some(Num(Int(p))), Some(Num(Int(u))))
              == Ok(Window(Filter(Keeper(language), up.all), StartIndex(p, u), StartIndex(p, u) + p))
  {
    RespondNumeric(up, Keeper(language), p, u);
  }

  /** Without a language every repository is kept, so the first page of the defaults is the first five listed. */
  lemma NoLanguageKeepsEverything(up: Upstream)
    requires up.failure.None?
    ensures Fetched(up, None, None, None) == Ok(Window(up.all, 0, 5))
  {
    FilterKeepsAll(Keeper(None), up.all);
    RespondNumeric(up, Keeper(None), 5, 1);
  }

  /** Archived repositories are kept like any other: flipping the archived state never changes the verdict. */
  lemma ArchivedIncluded(language: Option<string>, repo: Repo)
    ensures Keep(language, repo.(archived := !repo.archived)) == Keep(language, repo)
  {
  }

  /** A repository without a language never matches a given (non-empty) language. */
  lemma NullLanguageNeverMatches(s: string, repo: Repo)
    requires s != "" && repo.language.None?
    ensures !Keep(Some(s), repo)
  {
  }

  /** A failing upstream request answers the rethrown error exactly when the loop reaches it. */
  lemma UpstreamFailure(up: Upstream, language: Option<string>, perPage: Option<Value>, userPage: Option<Value>)
    ensures var target := ToNumber(Times(Default(perPage, Num(Int(5))), Default(userPage, Num(Int(1)))));
      var reached := Collect(Healthy(up), Keeper(language), target).requested;
      Fetched(up, language, perPage, userPage)
        == if up.failure.Some? && up.failure.value.page in reached then Err(ToHttpError(up.failure.value))
           else Fetched(Healthy(up), language, perPage, userPage)
  {
    var target := ToNumber(Times(Default(perPage, Num(Int(5))), Default(userPage, Num(Int(1)))));
    FailureAbortsIffReached(up, Keeper(language), target);
  }

  // ---------------------------------------------------------------------------
  // The route

  /** `GET /repos`: the arguments are read from the query before it is validated. */
  function Route(q: Params, up: Upstream): (r: Result<seq<Repo>, HttpError>)
    ensures r.Err? ==>
      || (Validate(q).outcome.Fail? && r.error.status == 400)
      || (up.failure.Some? && r.error == ToHttpError(up.failure.value))
  {
    var v := Validate(q);
    WalkThrowsWithStatus(CheckParam, Configs, q, 400);
    if v.outcome.Fail? then Err(v.outcome.error)
    else Fetched(up, LanguageArg(Lookup(q, "language")), Lookup(q, "per_page"), Lookup(q, "page"))
  }

  method GetRepos(q: Query, up: Upstream) returns (r: Result<seq<Repo>, HttpError>)
    modifies q
    ensures r == Route(old(q.params), up)
    ensures q.params == old(q.params)
  {
    var language, perPage, page := Lookup(q.params, "language"), Lookup(q.params, "per_page"), Lookup(q.params, "page");
    var e := ValidateQueryParams(q);
    NeverWrites(old(q.params));
    if e.Fail? {
      return Err(e.error);
    }
    r := FetchRepositories(up, LanguageArg(language), perPage, page);
  }

  /**
   * As written: a query-string `per_page` of digits d reaches the slice as a
   * string, so the end index is start's digits followed by d; the answer is
   * the window [p*(u-1), p*(u-1)*10^|d| + p) of what the loop kept.
   */
  lemma RawPerPageConcatenates(q: Params, up: Upstream, d: string, p: nat, u: nat)
    requires Validate(q).outcome.Pass? && up.failure.None?
    requires Lookup(q, "per_page") == Some(Str(d)) && |d| >= 1 && AllDigits(d) && DigitsValue(d) == p
    requires u >= 1 && ToNumber(Default(Lookup(q, "page"), Num(Int(1)))) == Int(u)
    ensures var start := StartIndex(p, u);
      match Collect(up, Keeper(LanguageArg(Lookup(q, "language"))), Int(start + p)).outcome
      case Ok(acc) => Route(q, up) == Ok(Window(acc, start, AppendDigits(start, d)))
      case Err(_) => false
  {
    AcceptedPerPage(q, d);
    RespondTextPerPage(up, Keeper(LanguageArg(Lookup(q, "language"))), d, Default(Lookup(q, "page"), Num(Int(1))), p, u);
  }

  /** A validated digit-string `per_page` is a number from 1 to 10. */
  lemma AcceptedPerPage(q: Params, d: string)
    requires Validate(q).outcome.Pass?
    requires Lookup(q, "per_page") == Some(Str(d)) && |d| >= 1 && AllDigits(d)
    ensures 1 <= DigitsValue(d) <= 10
  {
    ValidatePassesIff(q);
    assert Acceptable(Configs[2], Lookup(q, "per_page"));
    DigitsAreNumber(d);
  }

  // ---------------------------------------------------------------------------
  // The route as intended

  /** The route with `per_page` and `page` passed as numbers (an empty one as undefined). */
  function RouteCorrected(q: Params, up: Upstream): Result<seq<Repo>, HttpError>
  {
    var v := Validate(q);
    if v.outcome.Fail? then Err(v.outcome.error)
    else
      Fetched(up, LanguageArg(Lookup(v.params, "language")),
              NumberArg(Lookup(v.params, "per_page")), NumberArg(Lookup(v.params, "page")))
  }

  /**
   * As intended: a valid query-string query is answered, by a healthy
   * upstream, with the window [p*(u-1), p*u) of all repositories in the
   * requested language, where p (at most 10) and u are the requested
   * numbers or their defaults 5 and 1.
   */
  lemma CorrectedWindowOfAllMatches(q: Params, up: Upstream)
    requires FromQueryString(q) && Validate(q).outcome.Pass? && up.failure.None?
    ensures var p, u := RequestedNumber(Lookup(q, "per_page"), 5), RequestedNumber(Lookup(q, "page"), 1);
      && 1 <= p <= 10 && 1 <= u
      && RouteCorrected(q, up)
           == Ok(Window(Filter(Keeper(LanguageArg(Lookup(q, "language"))), up.all), StartIndex(p, u), StartIndex(p, u) + p))
  {
    var p, u := RequestedNumber(Lookup(q, "per_page"), 5), RequestedNumber(Lookup(q, "page"), 1);
    CorrectedArguments(q);
    NeverWrites(q);
    RespondNumeric(up, Keeper(LanguageArg(Lookup(q, "language"))), p, u);
  }

  /** What the corrected route passes on for a valid query-string query. */
  lemma CorrectedArguments(q: Params)
    requires FromQueryString(q) && Validate(q).outcome.Pass?
    ensures var p, u := RequestedNumber(Lookup(q, "per_page"), 5), RequestedNumber(Lookup(q, "page"), 1);
      && 1 <= p <= 10 && 1 <= u
      && Default(NumberArg(Lookup(q, "per_page")), Num(Int(5))) == Num(Int(p))
      && Default(NumberArg(Lookup(q, "page")), Num(Int(1))) == Num(Int(u))
  {
    ValidatePassesIff(q);
    assert Acceptable(Configs[2], Lookup(q, "per_page"));
    assert Acceptable(Configs[3], Lookup(q, "page"));
  }
}

/** A concrete request to the index.js route that exhibits its finding. */
module RootIndexExamples {

  import opened Wrappers
  import opened Js
  import opened QueryParams
  import opened Paging
  import opened RootIndex

  /** Sixty archived repositories without a language. */
  function Sixty(): seq<Repo>
  {
    seq(60, i => Repo("repo", None, true))
  }

  /**
   * `?user=alice&per_page=5&page=2` against sixty repositories answers
   * items 5..54 (the end index is "55"): fifty repositories, not five.
   */
  lemma PerPageConcatExample()
    ensures var q := map["user" := Str("alice"), "per_page" := Str("5"), "page" := Str("2")];
      Route(q, Upstream(Sixty(), None)) == Ok(Window(Sixty(), 5, 55))
    ensures |Window(Sixty(), 5, 55)| == 50
  {
    var q := map["user" := Str("alice"), "per_page" := Str("5"), "page" := Str("2")];
    var up := Upstream(Sixty(), None);
    ExampleQueryValid(q);
    assert LanguageArg(Lookup(q, "language")) == None;
    assert AllDigits("5") && DigitsValue("5") == 5;
    assert StartIndex(5, 2) == 5 && AppendDigits(5, "5") == 55;
    SixtyCollected();
    RawPerPageConcatenates(q, up, "5", 5, 2);
    SixtyWindow();
  }

  lemma SixtyWindow()
    ensures |Window(Sixty(), 5, 55)| == 50
  {
    assert |Sixty()| == 60;
  }

  /** Sixty repositories make one short page, all of them kept. */
  lemma SixtyCollected()
    ensures Collect(Upstream(Sixty(), None), Keeper(None), Int(10)) == Trace(Ok(Sixty()), [1])
  {
    var s := Sixty();
    assert |s| == 60 && Below(0, Int(10));
    forall i | 0 <= i < |s| ensures Keeper(None)(s[i]) {
      assert s[i] == Repo("repo", None, true);
    }
    FilterKeepsAll(Keeper(None), s);
    ShortFirstPageStops(Upstream(s, None), Keeper(None), Int(10));
  }

  lemma ExampleQueryValid(q: Params)
    requires q == map["user" := Str("alice"), "per_page" := Str("5"), "page" := Str("2")]
    ensures Validate(q).outcome.Pass? && ToNumber(Lookup(q, "page").value) == Int(2)
  {
    assert StringToNumber("5") == Int(5) && StringToNumber("2") == Int(2);
    ValidatePassesIff(q);
  }
}

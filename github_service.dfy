/**
 * `fetchRepositories` of the modular service (api/services/githubService.js):
 * the language filter and, when `archived` is not null, the archived state;
 * `archived` defaults to null, `perPage` to 5 and `userPage` to 1. The
 * controller validates the query first, so the arguments are the validated
 * (coerced) values.
 */
module GithubService {

  import opened Wrappers
  import opened Js
  import opened HttpErrors
  import opened QueryParams
  import opened Paging
  import ApiValidation

  /** The filter predicate: `null` (a missing argument) places no condition on the archived state. */
  predicate Keep(language: Option<string>, archived: Option<Value>, repo: Repo)
  {
    LanguageMatches(language, repo) && (archived.None? || archived.value == Bool(repo.archived))
  }

  function Keeper(language: Option<string>, archived: Option<Value>): Repo -> bool
  {
    repo => Keep(language, archived, repo)
  }

  /** The result of `fetchRepositories(token, user, language, archived, perPage, userPage)` for `user`'s listing `up`. */
  function Fetched(up: Upstream, language: Option<string>, archived: Option<Value>, perPage: Option<Value>, userPage: Option<Value>): Result<seq<Repo>, HttpError>
  {
    Respond(up, Keeper(language, archived), Default(perPage, Num(Int(5))), Default(userPage, Num(Int(1))))
  }

  method FetchRepositories(up: Upstream, language: Option<string>, archived: Option<Value>, perPage: Option<Value>, userPage: Option<Value>)
    returns (r: Result<seq<Repo>, HttpError>)
    ensures r == Fetched(up, language, archived, perPage, userPage)
    ensures r.Err? ==> up.failure.Some? && r.error == ToHttpError(up.failure.value)
  {
    var pp := Default(perPage, Num(Int(5)));
    var upg := Default(userPage, Num(Int(1)));
    var totalRepositories := Times(pp, upg);
    var repositories, requested := Accumulate(up, Keeper(language, archived), ToNumber(totalRepositories));
    if repositories.Err? {
      return Err(ToHttpError(repositories.error));
    }
    var startIndex := Times(pp, Minus(upg, Num(Int(1))));
    var endIndex := Plus(startIndex, pp);
    return Ok(Slice(repositories.value, startIndex, endIndex));
  }

  /**
   * The headline: with numbers p, u >= 1 and a healthy upstream the result is
   * the window [p*(u-1), p*u) of the whole filtered listing, although the
   * loop fetched only as many pages as that window needs.
   */
  lemma WindowOfAllMatches(up: Upstream, language: Option<string>, archived: Option<Value>, p: nat, u: nat)
    requires p >= 1 && u >= 1 && up.failure.None?
    ensures Fetched(up, language, archived, Some(Num(Int(p))), Some(Num(Int(u))))
              == Ok(Window(Filter(Keeper(language, archived), up.all), StartIndex(p, u), StartIndex(p, u) + p))
  {
    RespondNumeric(up, Keeper(language, archived), p, u);
  }

  /** Without `perPage` and `userPage` the result is the first five matches. */
  lemma DefaultsGiveFirstFive(up: Upstream, language: Option<string>, archived: Option<Value>)
    requires up.failure.None?
    ensures Fetched(up, language, archived, None, None) == Ok(Window(Filter(Keeper(language, archived), up.all), 0, 5))
  {
    RespondNumeric(up, Keeper(language, archived), 5, 1);
  }

  /**
   * The window holds min(p, max(0, matches - p*(u-1))) repositories, so at
   * most p, none once the start is past the matches; each one is an
   * upstream repository the filter accepts.
   */
  lemma WindowShape(up: Upstream, language: Option<string>, archived: Option<Value>, p: nat, u: nat)
    requires p >= 1 && u >= 1 && up.failure.None?
    ensures var r := Fetched(up, language, archived, Some(Num(Int(p))), Some(Num(Int(u))));
      var m := Filter(Keeper(language, archived), up.all);
      && r.Ok?
      && |r.value| == Min(p, Max(0, |m| - StartIndex(p, u)))
      && (StartIndex(p, u) >= |m| ==> r.value == [])
      && (forall x :: x in r.value ==> x in up.all && Keep(language, archived, x))
  {
    var m := Filter(Keeper(language, archived), up.all);
    WindowOfAllMatches(up, language, archived, p, u);
    WindowLength(m, p, u);
    WindowMembers(m, StartIndex(p, u), StartIndex(p, u) + p);
  }

  /**
   * A failing upstream request answers the rethrown error exactly when the
   * loop would have reached that page; otherwise the answer is the healthy
   * one. No partial result is returned.
   */
  lemma UpstreamFailure(up: Upstream, language: Option<string>, archived: Option<Value>, perPage: Option<Value>, userPage: Option<Value>)
    ensures var target := ToNumber(Times(Default(perPage, Num(Int(5))), Default(userPage, Num(Int(1)))));
      var reached := Collect(Healthy(up), Keeper(language, archived), target).requested;
      Fetched(up, language, archived, perPage, userPage)
        == if up.failure.Some? && up.failure.value.page in reached then Err(ToHttpError(up.failure.value))
           else Fetched(Healthy(up), language, archived, perPage, userPage)
  {
    var target := ToNumber(Times(Default(perPage, Num(Int(5))), Default(userPage, Num(Int(1)))));
    FailureAbortsIffReached(up, Keeper(language, archived), target);
  }

  /** A 404 on the first page is answered with that status and its message. */
  lemma NotFoundOnFirstPage(all: seq<Repo>, language: Option<string>, archived: Option<Value>)
    ensures Fetched(Upstream(all, Some(Failure(1, Some(404)))), language, archived, None, None)
              == Err(HttpError("GitHub API returned an error: 404", 404))
  {
    assert NatToDecimal(404) == "404";
    assert "GitHub API returned an error: " + "404" == "GitHub API returned an error: 404";
  }

  /** A request failing without a response is answered with status 500. */
  lemma NoResponseOnFirstPage(all: seq<Repo>, language: Option<string>, archived: Option<Value>)
    ensures Fetched(Upstream(all, Some(Failure(1, None))), language, archived, None, None)
              == Err(HttpError("Failed to fetch repositories from GitHub", 500))
  {
  }

  /** With `archived` a boolean b every repository returned has archived state b. */
  lemma ArchivedSelects(up: Upstream, language: Option<string>, b: bool, p: nat, u: nat)
    requires p >= 1 && u >= 1 && up.failure.None?
    ensures var r := Fetched(up, language, Some(Bool(b)), Some(Num(Int(p))), Some(Num(Int(u))));
      r.Ok? && forall x :: x in r.value ==> x.archived == b && LanguageMatches(language, x)
  {
    WindowShape(up, language, Some(Bool(b)), p, u);
  }

  /** Without `archived` the archived state does not matter: only the language decides. */
  lemma NoArchivedFilter(language: Option<string>, repo: Repo)
    ensures Keep(language, None, repo) == LanguageMatches(language, repo)
  {
  }

  /**
   * `?archived=` is falsy, so validation leaves the empty string in place;
   * `"" !== null` and no repository's `archived` is a string, so nothing
   * matches and every answer that is not an upstream error is empty.
   */
  lemma EmptyArchivedMatchesNothing(up: Upstream, language: Option<string>, perPage: Option<Value>, userPage: Option<Value>)
    ensures var r := Fetched(up, language, Some(Str("")), perPage, userPage);
      r.Ok? ==> r.value == []
  {
    var keep := Keeper(language, Some(Str("")));
    var target := ToNumber(Times(Default(perPage, Num(Int(5))), Default(userPage, Num(Int(1)))));
    FilterKeepsNone(keep, up.all);
    CollectFacts(up, keep, target);
  }

  /**
   * `?per_page=` is falsy, so validation leaves the empty string in place and
   * the default does not apply: `"" * userPage` is 0 or NaN, the loop never
   * runs and the answer is empty, with no upstream request.
   */
  lemma EmptyPerPageAnswersNothing(up: Upstream, language: Option<string>, archived: Option<Value>, userPage: Option<Value>)
    ensures Fetched(up, language, archived, Some(Str("")), userPage) == Ok([])
    ensures Collect(up, Keeper(language, archived), ToNumber(Times(Str(""), Default(userPage, Num(Int(1)))))).requested == []
  {
  }

  /**
   * `?page=` also survives validation as "": `perPage * ""` is 0 or NaN, so
   * again no upstream request is made and the answer is empty, whatever
   * `perPage` is.
   */
  lemma EmptyPageAnswersNothing(up: Upstream, language: Option<string>, archived: Option<Value>, perPage: Option<Value>)
    ensures Fetched(up, language, archived, perPage, Some(Str(""))) == Ok([])
    ensures Collect(up, Keeper(language, archived), ToNumber(Times(Default(perPage, Num(Int(5))), Str("")))).requested == []
  {
  }

  /** A repository without a language never matches a given (non-empty) language. */
  lemma NullLanguageNeverMatches(s: string, archived: Option<Value>, repo: Repo)
    requires s != "" && repo.language.None?
    ensures !Keep(Some(s), archived, repo)
  {
  }

  /** Languages are compared case-insensitively. */
  lemma LanguageIgnoresCase(s: string, t: string, archived: Option<Value>, repo: Repo)
    requires Lower(s) == Lower(t)
    ensures Keep(Some(s), archived, repo) == Keep(Some(t), archived, repo)
  {
  }

  /**
   * The controller's order (validate, then destructure) end to end: a
   * query-string query that validates, whose `per_page` and `page` are not
   * empty strings, is answered, by a healthy upstream, with a window
   * [p*(u-1), p*u) of all matches, where p (1 to 10) and u (at least 1) are
   * the numbers the query asks for, or the defaults 5 and 1.
   */
  lemma ValidatedQueryGetsWindow(q: Params, up: Upstream)
    requires FromQueryString(q) && ApiValidation.Validate(q).outcome.Pass? && up.failure.None?
    requires Lookup(q, "per_page") != Some(Str("")) && Lookup(q, "page") != Some(Str(""))
    ensures var v := ApiValidation.Validate(q).params;
      var language, archived := LanguageArg(Lookup(v, "language")), Lookup(v, "archived");
      var p, u := RequestedNumber(Lookup(q, "per_page"), 5), RequestedNumber(Lookup(q, "page"), 1);
      && 1 <= p <= 10 && 1 <= u
      && Fetched(up, language, archived, Lookup(v, "per_page"), Lookup(v, "page"))
           == Ok(Window(Filter(Keeper(language, archived), up.all), StartIndex(p, u), StartIndex(p, u) + p))
  {
    var v := ApiValidation.Validate(q).params;
    var language, archived := LanguageArg(Lookup(v, "language")), Lookup(v, "archived");
    var p, u := ApiValidation.ValidatedPaging(q);
    RespondNumeric(up, Keeper(language, archived), p, u);
  }
}

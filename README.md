# GitHub repository listing: query validation and paged aggregation

This project models the two pieces of logic behind `GET /repos`, which
lists a GitHub user's repositories filtered by language and archived state
and returns one page of the result. The repository contains three
variants:

- the modular service: `api/utils/validation.js` and
  `api/services/githubService.js`, called in order by
  `api/controllers/repoController.js`;
- the single-file server `api/index.js`;
- the older single-file server `index.js`.

Each variant has two parts:

1. **`validateQueryParams`.** It walks a fixed table of parameter rows in
   order: `user`, `language`, `per_page` (at most 10), `page`, and in two
   variants `archived`. For each row it checks required / string /
   positive-integer / maximum / boolean-literal, and throws the first failure
   as `HttpError(message, 400)`. Depending on the variant it rewrites
   `req.query` in place: numbers and booleans in the modular service,
   `archived` only in `api/index.js`, nothing in `index.js`.
2. **`fetchRepositories`.** It requests upstream pages 1, 2, 3, … of 100
   repositories and keeps those its filter accepts. It stops once
   `perPage * userPage` repositories are kept or after a page of fewer than
   100, then returns `slice(perPage*(userPage-1), startIndex + perPage)`.
   An upstream failure is rethrown as an `HttpError`.

The three variants throw the same messages: "<name> is required.", "<name>
must be a string.", "<name> must be a positive integer." and "<name> cannot
exceed <max>." (api/utils/validation.js:15,20,25,29, api/index.js:44,49,52,55,
index.js:43,48,51,54), and "<name> must be 'true' or 'false'." in the two
with an `archived` row (api/utils/validation.js:34, api/index.js:59). They
differ in what they write back and in their filters:

- only api/utils/validation.js:27 writes the number back for an integer row;
  `archived` is written back as a boolean at api/utils/validation.js:36 and
  api/index.js:62, and index.js writes nothing;
- a null `archived` keeps every repository in
  api/services/githubService.js:22, keeps only unarchived ones in
  api/index.js:90, and plays no part in index.js:77-79.

Modules:

| module | file | what it holds |
|---|---|---|
| `Wrappers`, `HttpErrors` | `wrappers.dfy` | `Option`, `Result`, the `Outcome` of a validation (pass or throw), `HttpError(message, status)` |
| `Js` | `js.dfy` | the JavaScript semantics the code depends on: query values (string, array from a repeated key, number, boolean), truthiness, `Number()`, `String()`, `*`, `-`, `+` (concatenation when an operand is a string), `slice` with its index conversion, default parameters, ASCII `toLowerCase` |
| `QueryParams` | `query.dfy` | the table-driven `forEach` shared by the three validators: the specification `Walk`, the loop method `RunChecks` over the mutable `Query` object, and the theorems about first failure, frame, and writes |
| `Paging` | `paging.dfy` | the upstream as a finite sequence with an optional failing request, the specification `Collect` of the paging loop, the loop method `Accumulate` proved against it, the window, and `Respond` (the body of `fetchRepositories` after its defaults) |
| `ApiValidation` | `validation.dfy` | the modular validator |
| `GithubService` | `github_service.dfy` | the modular service's filter and `fetchRepositories` |
| `ApiIndex`, `ApiIndexExamples` | `api_index.dfy` | `api/index.js`: its validator, its filter, its route, and concrete requests showing its two findings |
| `RootIndex`, `RootIndexExamples` | `root_index.dfy` | `index.js`: its validator, its filter, its route, and a concrete request showing its finding |

Each validator is a `method` over a `Query` object whose `params` map it
rewrites. Its `ensures` ties the new map and the thrown error to the
function `Walk`. The lemmas about `Walk` hold for every table:

- the error is that of the first row, in table order, that does not accept
  its value;
- every row up to that one has had its write applied;
- later rows and keys outside the table are untouched.

Each aggregator is a `method` whose `while` loop is proved against
`Collect`. The headline theorem, `Paging.RespondNumeric`, states that with
numbers p, u ≥ 1 the answer is the window [p·(u−1), p·u) of *all* matching
repositories, although the loop fetched only the pages it needed.

The upstream is a parameter: `Upstream(all, failure)` is the user's full
listing in upstream order, plus optionally the page whose request fails and
the status of that failure's response, if it had one.

## Model

| member | source | states |
|---|---|---|
| `Js.Truthy` | api/utils/validation.js:14-18 | defines `Boolean(v)` on query values: the empty string, 0 and NaN are falsy, every array is truthy |
| `Js.StringToNumber` | api/utils/validation.js:23 | defines `Number(s)` for a string: "" is 0, optional sign and decimal digits read as that integer, anything else is NaN |
| `Js.ToNumber` | api/utils/validation.js:23 | defines `Number(v)` on every value the code applies it to: a boolean is 0 or 1, a string through `Js.StringToNumber`, an array through its comma-joined text (also api/index.js:51,54 and index.js:50,53) |
| `Js.ToStr` | api/services/githubService.js:33 | defines `String(v)`, the text each operand contributes when `+` concatenates (also api/index.js:102) |
| `Js.Times` | api/services/githubService.js:7 | defines `a * b` on the operands' numbers, NaN when either is NaN: the loop's target and the start index (also githubService.js:32, api/index.js:72,101, index.js:64,87) |
| `Js.Minus` | api/services/githubService.js:32 | defines `a - b` on the operands' numbers, NaN when either is NaN: `userPage - 1` (also api/index.js:101, index.js:87) |
| `Js.Default` | api/services/githubService.js:4 | defines a default parameter: the default replaces only an undefined argument, so an empty string is passed through (also api/index.js:69, index.js:61) |
| `Js.Plus` | api/services/githubService.js:33 | defines `a + b`: concatenation of the two texts when either operand is a string or an array, otherwise addition |
| `Js.Slice` | api/services/githubService.js:35 | defines `s.slice(start, end)` through the index conversion; the slice is never longer than the sequence |
| `Js.NatToDecimal` | api/utils/validation.js:29 | the text interpolated for a number in a message (`${maxValue}`, `${status}`) is non-empty, all digits, without a leading zero, and reads back as that number |
| `Js.RelativeIndex` | api/services/githubService.js:35 | `slice` converts each bound to a position within 0..length |
| `Js.Lower` | api/services/githubService.js:21 | `toLowerCase` (ASCII) keeps the length |
| `Js.DigitsAreNumber` | api/index.js:51 | `Number` of a non-empty digit string is its decimal value |
| `Js.ConcatDigits` | api/index.js:102 | two digit strings joined are digits, worth x·10^\|y\| + y |
| `Js.ConcatenatedEndIndex` | api/index.js:102 | `start + d` for a digit string d is a string that `Number` reads as start·10^\|d\| + d |
| `QueryParams.Walk` | api/utils/validation.js:12-39 | defines the `forEach`: rows in table order, each reading its key and possibly writing back to it, the first throw ending the walk; no key is ever removed |
| `QueryParams.FirstFail` | api/utils/validation.js:12-16 | the index of the first row whose check fails: every earlier row passes, that row fails, or it is the table length |
| `QueryParams.FirstFailAt` | api/utils/validation.js:12-16 | an index before which every row passes and at which a row fails is the first failing index |
| `QueryParams.FirstFailAgrees` | api/utils/validation.js:13 | each row reads only its own key, so queries that agree on the table's keys have the same first failure |
| `QueryParams.WalkSpec` | api/utils/validation.js:12-39 | for distinct row names: the throw is the first failing row's error on the original query; each row up to it holds its check's write; later rows and unnamed keys are unchanged |
| `QueryParams.WalkFirstRejection` | api/utils/validation.js:12-39 | when every earlier row accepts its value, the first row that does not accept its value throws that row's error |
| `QueryParams.WalkPassesIff` | api/utils/validation.js:12-39 | the walk passes iff every row accepts its value, and then each row's key holds its check's write or its old value |
| `QueryParams.WalkWithoutWrites` | index.js:40-57 | a check that never writes leaves the query as it was, thrown or not |
| `QueryParams.WalkThrowsWithStatus` | api/utils/validation.js:12-39 | the walk throws only what a row's check throws: when every such error has one status, so does the walk's |
| `QueryParams.Query.constructor` | api/utils/validation.js:3 | the query object holds the given parameters |
| `QueryParams.RunChecks` | api/utils/validation.js:12-39 | the `forEach` loop: the thrown error and the query left behind are those of `Walk` on the old query |
| `Paging.FetchPage` | api/services/githubService.js:13-18 | defines one upstream request, page k of 100: at most 100 repositories, and an error only for the upstream's failing request, on that page |
| `Paging.ToHttpError` | api/services/githubService.js:36-42 | defines the rethrown error: the response's status with "GitHub API returned an error: <status>", or 500 when there was no response |
| `Paging.LanguageMatches` | api/services/githubService.js:21 | defines the language test: no language or the empty one accepts everything, otherwise the repository's language equal up to case |
| `Paging.Filter` | api/services/githubService.js:20-24 | `filter` returns no more items than it was given, each one an item the predicate accepts |
| `Paging.FilterKeepsAll` | api/services/githubService.js:20-24 | a predicate accepting every item keeps the sequence unchanged |
| `Paging.FilterKeepsNone` | api/services/githubService.js:20-24 | a predicate accepting nothing keeps nothing |
| `Paging.FilterConcat` | api/services/githubService.js:26 | filtering page by page and concatenating equals filtering the concatenation |
| `Paging.FilterPrefix` | api/services/githubService.js:26 | the matches among the first m upstream items are a prefix of all matches |
| `Paging.ConsumedNext` | api/services/githubService.js:13-18 | page k holds the upstream items after the first k−1 pages, up to k·100 |
| `Paging.Run` | api/services/githubService.js:12-30 | defines the loop from a given page: the pages requested and the repositories kept so far are prefixes of the final ones, and a failure is the upstream's failing request |
| `Paging.Collect` | api/services/githubService.js:5-30 | defines the loop as the function starts it, from page 1 with nothing kept; `Paging.CollectFacts` states what it computes |
| `Paging.Accumulate` | api/services/githubService.js:12-30 | the loop returns exactly `Collect`'s trace. Its pages are requested 1, 2, … in order. A result is a prefix of all matches that reaches the target or is all of them. A failure is the upstream's failure, on the last page requested |
| `Paging.RunFacts` | api/services/githubService.js:12-30 | every run from a reachable point is explained: each page before the last was requested because the count was below target after full pages; a result stopped where the loop must stop and holds the matches of exactly the pages requested |
| `Paging.CollectFacts` | api/services/githubService.js:12-30 | the whole loop is explained, and its result is a prefix of all matches that reaches the target or is all of them |
| `Paging.StopIsUnique` | api/services/githubService.js:12 | the number of pages the loop fetches is determined: two stopping points coincide |
| `Paging.InPages` | api/services/githubService.js:29 | the pages requested after k steps are exactly 1..k |
| `Paging.FailureAbortsIffReached` | api/services/githubService.js:9-42 | a failing request aborts the loop iff a healthy run would request that page; otherwise the result is the healthy one; no partial result escapes |
| `Paging.ShortFirstPageStops` | api/services/githubService.js:28 | a first page shorter than 100 ends the loop after one request, below target or not |
| `Paging.FullPageFetchesNext` | api/services/githubService.js:28-29 | exactly 100 upstream items with too few matches: the loop requests page 2 (empty) and stops, with requests [1, 2] |
| `Paging.SliceIsWindow` | api/services/githubService.js:35 | `slice` with bounds that `Number` reads as non-negative integers is the window of those positions |
| `Paging.WindowOfPrefix` | api/services/githubService.js:32-35 | a window ending within the accumulated prefix, or of a prefix that is everything, is the same window of all matches |
| `Paging.WindowMembers` | api/services/githubService.js:35 | a window is no longer than the sequence, and its items are the sequence's items |
| `Paging.SliceMembers` | api/services/githubService.js:35 | a slice's items are the sequence's items |
| `Paging.PrefixMembers` | api/services/githubService.js:26 | the items of a prefix are items of the whole |
| `Paging.StartIndex` | api/services/githubService.js:32-33 | startIndex + perPage is perPage·userPage, the loop's target |
| `Paging.WindowLength` | api/services/githubService.js:32-35 | the window of page u holds min(p, max(0, n − p·(u−1))) items: at most p, none once the start is past the end |
| `Paging.Respond` | api/services/githubService.js:7-42 | defines the function body after its defaults: an error is the upstream failure's HttpError, and every repository answered is an upstream repository the filter accepts |
| `Paging.RespondBounds` | api/services/githubService.js:7-35 | with `Number(perPage)` = p and `Number(userPage)` = u ≥ 1, the loop's target is p·u, the slice starts at p·(u−1), and a failure is rethrown as its HttpError |
| `Paging.RespondNumeric` | api/services/githubService.js:7-35 | numbers p, u ≥ 1 and a healthy upstream give the window [p·(u−1), p·u) of all matches |
| `Paging.HealthyCollect` | api/services/githubService.js:12-30 | on an upstream without a failing request, the loop toward n keeps a prefix of all matches that holds at least n of them or all of them |
| `Paging.RespondWindow` | api/services/githubService.js:32-35 | the answer is the window [p·(u−1), e) of the accumulated matches, where e is what the end index converts to; the accumulation is a prefix of all matches that holds at least p·u of them or all of them |
| `Paging.RespondTextPerPage` | api/index.js:101-104 | with `perPage` the digit string d, the end index is start's digits followed by d, and the answer is the window [p·(u−1), p·(u−1)·10^\|d\| + p) of the accumulation |
| `ApiValidation.CheckParam` | api/utils/validation.js:13-37 | defines one row's checks in the order required, string, positive integer, maximum, boolean: every throw has status 400, and a write happens only for a present, truthy value on an integer or boolean row |
| `ApiValidation.ValidateQueryParams` | api/utils/validation.js:3-40 | the method's throw and rewritten query are `Walk` over the five-row table |
| `ApiValidation.CheckParamAgrees` | api/utils/validation.js:14-37 | a row passes iff its value is acceptable; on a pass the key holds the coerced value: a number for an integer row, `param === 'true'` for the boolean row |
| `ApiValidation.ConfigsJudged` | api/utils/validation.js:4-10 | the table's names are distinct and each row's check accepts exactly the acceptable values |
| `ApiValidation.ValidateSpec` | api/utils/validation.js:12-39 | the rows up to the first failing one are rewritten, later rows and other keys kept |
| `ApiValidation.FirstRejectionWins` | api/utils/validation.js:12-16 | rows are checked in the order user, language, per_page, page, archived, and the first row refusing its value throws its error, with status 400 |
| `ApiValidation.ValidatePassesIff` | api/utils/validation.js:12-39 | validation passes iff every row accepts its value, and then each row's key holds its coerced value |
| `ApiValidation.UserRequired` | api/utils/validation.js:14-16 | a missing or empty `user` throws "user is required." with 400, and nothing is rewritten |
| `ApiValidation.StringRowRefusesArray` | api/utils/validation.js:19-21 | a string row given an array (a repeated key) throws "<name> must be a string." |
| `ApiValidation.NotPositiveInteger` | api/utils/validation.js:22-26 | `per_page` or `page` that `Number` does not read as an integer > 0 throws "<name> must be a positive integer." |
| `ApiValidation.PerPageCap` | api/utils/validation.js:27-30 | `per_page` above 10 throws "per_page cannot exceed 10." after its key has been overwritten with the number; `page` and `archived` are untouched |
| `ApiValidation.PerPageOverCap` | api/utils/validation.js:28-30 | the `per_page` row's step for a number above 10: that throw, with the number written |
| `ApiValidation.ArchivedLiteral` | api/utils/validation.js:32-35 | an `archived` other than "true" and "false" throws "archived must be 'true' or 'false'." |
| `ApiValidation.ArchivedNotLiteral` | api/utils/validation.js:33-35 | the `archived` row's step for a non-literal: that throw |
| `ApiValidation.FalsyOptionalSkipped` | api/utils/validation.js:18 | a missing or empty optional parameter keeps its value, whatever the outcome |
| `ApiValidation.ValidationFrame` | api/utils/validation.js:27-36 | only `per_page`, `page` and `archived` are ever written; every other key keeps its value and the key set is unchanged |
| `ApiValidation.WritesOnlyPresent` | api/utils/validation.js:18-37 | a row writes only to a key that is present |
| `ApiValidation.ValidatedShapes` | api/utils/validation.js:12-39 | after a pass on a query-string query: user a non-empty string; language a string if present; per_page a number 1..10, page a number ≥ 1, archived a boolean, each unless missing or empty |
| `ApiValidation.ValidatedPaging` | api/utils/validation.js:22-30 | once the service's defaults apply, per_page is the number the query asks for (1..10, default 5) and page the number it asks for (≥ 1, default 1), unless the query gave either as the empty string |
| `ApiValidation.FalsyStaysInPlace` | api/utils/validation.js:18 | an integer row holds the empty string after a pass only if the query gave it |
| `ApiValidation.FalsyIsEmpty` | api/utils/validation.js:13 | a falsy query-string value is a missing key or the empty string |
| `GithubService.Keep` | api/services/githubService.js:20-24 | defines the filter: the language test, and `repo.archived === archived` unless `archived` is null, the default for a missing argument (api/services/githubService.js:4) |
| `GithubService.FetchRepositories` | api/services/githubService.js:4-43 | the method's answer is `Respond` with the defaults 5 and 1 and this filter; an error is the upstream failure's HttpError |
| `GithubService.WindowOfAllMatches` | api/services/githubService.js:4-35 | numbers p, u ≥ 1 and a healthy upstream give the window [p·(u−1), p·u) of all matches |
| `GithubService.DefaultsGiveFirstFive` | api/services/githubService.js:4 | without `perPage` and `userPage` the answer is the first five matches |
| `GithubService.WindowShape` | api/services/githubService.js:32-35 | the answer holds min(p, max(0, n − p·(u−1))) repositories, none past the end, each an upstream repository the filter accepts |
| `GithubService.UpstreamFailure` | api/services/githubService.js:36-42 | a failing request gives its HttpError exactly when the loop reaches that page, else the healthy answer |
| `GithubService.NotFoundOnFirstPage` | api/services/githubService.js:38-39 | a 404 response on page 1 gives "GitHub API returned an error: 404" with status 404 |
| `GithubService.NoResponseOnFirstPage` | api/services/githubService.js:41 | a failure without a response gives "Failed to fetch repositories from GitHub" with 500 |
| `GithubService.ArchivedSelects` | api/services/githubService.js:22 | with `archived` a boolean b, every repository returned has archived state b and the language |
| `GithubService.NoArchivedFilter` | api/services/githubService.js:22 | with `archived` null only the language decides |
| `GithubService.EmptyArchivedMatchesNothing` | api/services/githubService.js:22 | `?archived=` survives validation as "", which no repository's archived state equals: every non-error answer is empty |
| `GithubService.EmptyPerPageAnswersNothing` | api/services/githubService.js:7-12 | `?per_page=` survives validation as "", the default does not apply, the target is 0 or NaN: no request is made and the answer is empty |
| `GithubService.EmptyPageAnswersNothing` | api/services/githubService.js:7-12 | `?page=` survives validation as "", the target `perPage * ""` is 0 or NaN: whatever `perPage` is, no request is made and the answer is empty |
| `GithubService.NullLanguageNeverMatches` | api/services/githubService.js:21 | a repository without a language never matches a given language |
| `GithubService.LanguageIgnoresCase` | api/services/githubService.js:21 | languages equal up to case select the same repositories |
| `GithubService.ValidatedQueryGetsWindow` | api/controllers/repoController.js:7-12 | validating first, then destructuring: a valid query whose per_page and page are not empty gets the window [p·(u−1), p·u) of all matches, where p in 1..10 and u ≥ 1 are the numbers the query asks for, or 5 and 1 |
| `ApiIndex.Exceeds` | api/index.js:54 | defines `Number(param) > maxValue`, false when the number is NaN |
| `ApiIndex.CheckParam` | api/index.js:41-64 | defines one row: four independent checks, then the boolean conversion; every throw has status 400, and only the boolean row writes, a boolean |
| `ApiIndex.ValidateQueryParams` | api/index.js:32-66 | the method's throw and rewritten query are `Walk` over this file's table |
| `ApiIndex.CheckParamAgrees` | api/index.js:41-64 | on rows whose maximum is on an integer row, independent checks pass iff the value is acceptable; on a pass only the boolean row is coerced |
| `ApiIndex.ConfigsJudged` | api/index.js:33-39 | the names are distinct and each check accepts exactly the acceptable values |
| `ApiIndex.FirstRejectionWins` | api/index.js:41-65 | the first row, in the order user → archived, refusing its value throws its error, with 400 |
| `ApiIndex.ValidatePassesIff` | api/index.js:41-65 | validation passes iff every row accepts its value; then only `archived` is coerced |
| `ApiIndex.OnlyArchivedRewritten` | api/index.js:57-63 | `per_page`, `page` and every other key keep their values; `archived` keeps its value or becomes `param === 'true'` for one of the two literals |
| `ApiIndex.NonBooleanRowsDoNotWrite` | api/index.js:47-56 | string and integer rows never write |
| `ApiIndex.ArchivedWrite` | api/index.js:57-63 | the `archived` row writes only `param === 'true'`, and only for a literal |
| `ApiIndex.PerPageCap` | api/index.js:54-56 | `per_page` above 10 throws "per_page cannot exceed 10." and nothing has been rewritten |
| `ApiIndex.PerPageOverCap` | api/index.js:54-56 | the `per_page` row's step for a number above 10: that throw, no write |
| `ApiIndex.UserRequired` | api/index.js:43-45 | a missing or empty `user` throws "user is required." with 400 |
| `ApiIndex.Keep` | api/index.js:85-93 | defines the filter: the language test, and `repo.archived === Boolean(archived)`, or not archived when `archived` is null |
| `ApiIndex.FetchRepositories` | api/index.js:69-112 | the method's answer is `Respond` with this file's filter; an error is the upstream failure's HttpError |
| `ApiIndex.UnsetArchivedExcludesArchived` | api/index.js:90 | with `archived` null no archived repository is returned, and each returned one is an upstream repository |
| `ApiIndex.WindowOfAllMatches` | api/index.js:101-104 | numbers p, u ≥ 1 give the window [p·(u−1), p·u) of all matches |
| `ApiIndex.UpstreamFailure` | api/index.js:105-111 | a failing request gives its HttpError exactly when the loop reaches it |
| `ApiIndex.Route` | api/index.js:115-122 | defines the route on the query as received: an error is validation's, with status 400, or the failing upstream request's HttpError |
| `ApiIndex.GetRepos` | api/index.js:115-136 | the route reads `language`, `per_page`, `page` and `archived` before validating, then validates in place and calls the aggregator with the raw values |
| `ApiIndex.RawPerPageConcatenates` | api/index.js:101-104 | as written: a digit-string `per_page` d, with `page` u given or defaulted to 1, gives the window [p·(u−1), p·(u−1)·10^\|d\| + p) of the accumulation |
| `ApiIndex.AcceptedPerPage` | api/index.js:51-56 | a validated digit-string `per_page` is a number 1..10 |
| `ApiIndex.ArchivedLiteralIsTruthy` | api/index.js:90 | as written: `archived` "true" and "false" both select archived repositories only |
| `ApiIndex.CorrectedArguments` | api/index.js:116-122 | reading the validated query: per_page and page as numbers 1..10 and ≥ 1 with defaults 5 and 1, archived as the requested boolean |
| `ApiIndex.CorrectedWindowOfAllMatches` | api/index.js:115-122 | as intended: a valid query gets the window [p·(u−1), p·u) of the repositories in the requested language and archived state, p and u as requested or 5 and 1 |
| `ApiIndexExamples.PerPageConcatExample` | api/index.js:101-104 | `?user=alice&per_page=5&page=2` over sixty repositories answers items 5..54: fifty, not five |
| `ApiIndexExamples.ArchivedFalseExample` | api/index.js:90 | `?user=alice&archived=false` over one archived repository returns it |
| `ApiIndexExamples.ArchivedFalseQueryValid` | api/index.js:41-65 | `?user=alice&archived=false` validates |
| `ApiIndexExamples.SixtyCollected` | api/index.js:97 | sixty repositories make one short page, all kept |
| `ApiIndexExamples.ExampleQueryValid` | api/index.js:41-65 | `?user=alice&per_page=5&page=2` validates |
| `RootIndex.CheckParam` | index.js:41-56 | defines one row: three independent checks on a present value; every throw has status 400, and it never writes |
| `RootIndex.ValidateQueryParams` | index.js:32-58 | the method's throw and (unchanged) query are `Walk` over the four-row table |
| `RootIndex.CheckParamAgrees` | index.js:40-57 | on string and integer rows the checks pass iff the value is acceptable, and never write |
| `RootIndex.ConfigsJudged` | index.js:33-38 | the names are distinct and each check accepts exactly the acceptable values |
| `RootIndex.NeverWrites` | index.js:40-57 | validation never changes the query |
| `RootIndex.FirstRejectionWins` | index.js:40-57 | the first row, in the order user, language, per_page, page, refusing its value throws its error with 400, and the query is unchanged |
| `RootIndex.ValidatePassesIff` | index.js:40-57 | validation passes iff every row accepts its value |
| `RootIndex.UserRequired` | index.js:42-44 | a missing or empty `user` throws "user is required." with 400, query unchanged |
| `RootIndex.PerPageCap` | index.js:53-55 | `per_page` above 10 throws "per_page cannot exceed 10.", query unchanged |
| `RootIndex.PerPageOverCap` | index.js:53-55 | the `per_page` row's step for a number above 10 |
| `RootIndex.Keep` | index.js:77-79 | defines the filter: the language test alone |
| `RootIndex.FetchRepositories` | index.js:61-98 | the method's answer is `Respond` with the language-only filter; an error is the upstream failure's HttpError |
| `RootIndex.WindowOfAllMatches` | index.js:87-90 | numbers p, u ≥ 1 give the window [p·(u−1), p·u) of all repositories in the language |
| `RootIndex.NoLanguageKeepsEverything` | index.js:77-79 | without a language and with the defaults the answer is the first five upstream repositories |
| `RootIndex.ArchivedIncluded` | index.js:77-79 | the archived state never affects the filter |
| `RootIndex.NullLanguageNeverMatches` | index.js:78 | a repository without a language never matches a given language |
| `RootIndex.UpstreamFailure` | index.js:91-97 | a failing request gives its HttpError exactly when the loop reaches it |
| `RootIndex.Route` | index.js:101-108 | defines the route on the query as received: an error is validation's, with status 400, or the failing upstream request's HttpError |
| `RootIndex.GetRepos` | index.js:101-122 | the route reads the raw values before validating, leaves the query unchanged and calls the aggregator with them |
| `RootIndex.RawPerPageConcatenates` | index.js:87-90 | as written: a digit-string `per_page` d, with `page` u given or defaulted to 1, gives the window [p·(u−1), p·(u−1)·10^\|d\| + p) of the accumulation |
| `RootIndex.AcceptedPerPage` | index.js:50-55 | a validated digit-string `per_page` is a number 1..10 |
| `RootIndex.CorrectedArguments` | index.js:102-108 | per_page and page read as numbers are 1..10 and ≥ 1, defaults 5 and 1 |
| `RootIndex.CorrectedWindowOfAllMatches` | index.js:101-108 | as intended: a valid query gets the window [p·(u−1), p·u) of all repositories in the language |
| `RootIndexExamples.PerPageConcatExample` | index.js:87-90 | `?user=alice&per_page=5&page=2` over sixty repositories answers fifty items |
| `RootIndexExamples.SixtyCollected` | index.js:83 | sixty repositories make one short page, all kept |
| `RootIndexExamples.ExampleQueryValid` | index.js:40-57 | `?user=alice&per_page=5&page=2` validates |

## Left out

- Express plumbing is not modelled: the app, `listen`, `PORT` and dotenv, the 404 handler, JSON responses and the catch-all 500 "Internal Server Error" branch of the routes. A route is modelled as a function from the query and the upstream to `Result<seq<Repo>, HttpError>`.
- The authorization middleware is not modelled: a header lookup and an HTTP response. The token it forwards plays no part in the model.
- `api/controllers/repoController.js` is not modelled as a member. Its one fact, that validation runs before destructuring, is the hypothesis of `GithubService.ValidatedQueryGetsWindow`.
- `api/utils/error.js` is the datatype `HttpError(message, status)`.
- Octokit, the network, `async`/`await`, the API-version header and `console.error` are not modelled. The upstream is a parameter: the user's full listing plus an optional failing request. The `user` and `token` arguments only choose that listing.
- `Number()` models the empty string, optional-sign decimal integers and NaN. It does not model whitespace, `"1.0"`, exponents, hex, `Infinity`, fractions or integers beyond 2^53. All numbers are integers.
- `toLowerCase` is ASCII-only.
- Query-string parsing (qs nested objects) is not modelled. A query value is a string, or an array of strings for a repeated key (`FromQueryString`).
- `Paging.RespondTextPerPage`, `ApiIndex.RawPerPageConcatenates`, `RootIndex.RawPerPageConcatenates`: the concatenated end index is stated only for a `per_page` of decimal digits, "05" included (its end index is start·100 + 5). Two other accepted forms are not covered by these lemmas. A signed "+5" passes api/index.js:51-56, and `start + "+5"` is a string that `Number` reads as NaN. An array from `per_page[]=5` passes api/index.js:50-56 and concatenates at api/index.js:102 as "55" (start 5). In both cases only `Paging.RespondWindow` applies, with the end index left as whatever `Number` makes of it.
- `GithubService.ValidatedQueryGetsWindow`: assumes per_page and page are not the empty string. `GithubService.EmptyPerPageAnswersNothing` covers `?per_page=`, and `GithubService.EmptyPageAnswersNothing` covers `?page=`: the answer is empty in both cases.
- `GithubService.ValidatedQueryGetsWindow`: the model takes `req.query` to be one object, so the validator's writes are what `api/controllers/repoController.js:9` then destructures. This holds for Express 4, whose query parser sets `req.query` once per request. In Express 5, `req.query` is a getter that parses the query string again on each read. There the destructuring would read the raw strings, `startIndex + perPage` at api/services/githubService.js:33 would concatenate, and `repo.archived === archived` at api/services/githubService.js:22 would never hold for a given `archived`. The model does not capture that behaviour, and `GithubService.ValidatedQueryGetsWindow` holds only under the Express 4 reading.
- Concurrency across requests is not modelled: requests share no state.

## Findings

| source | as written | input that shows it | evidently intended | confidence | as-written member | corrected member |
|---|---|---|---|---|---|---|
| api/index.js:101-104 | `per_page` reaches `fetchRepositories` as the raw query string, destructured before validation (api/index.js:116,122), so `startIndex + per_page` concatenates | `?user=alice&per_page=5&page=2`, sixty repositories: `slice(5, "55")` returns 50 items | the window `[perPage*(page-1), perPage*page)` of at most `per_page` items | not executed | `ApiIndexExamples.PerPageConcatExample`, `ApiIndex.RawPerPageConcatenates` | `ApiIndex.RouteCorrected`, `ApiIndex.CorrectedWindowOfAllMatches` |
| api/index.js:90 | `archived` reaches the filter as the raw string (api/index.js:116,122), and `Boolean("false")` is true | `?user=alice&archived=false` with one archived repository returns that repository | "false" selects unarchived repositories only | not executed | `ApiIndexExamples.ArchivedFalseExample`, `ApiIndex.ArchivedLiteralIsTruthy` | `ApiIndex.IntendedKeep`, `ApiIndex.CorrectedWindowOfAllMatches` |
| index.js:87-90 | `per_page` reaches `fetchRepositories` raw (index.js:102,108), so `startIndex + per_page` concatenates | `?user=alice&per_page=5&page=2`, sixty repositories: 50 items | at most `per_page` items | not executed | `RootIndexExamples.PerPageConcatExample`, `RootIndex.RawPerPageConcatenates` | `RootIndex.RouteCorrected`, `RootIndex.CorrectedWindowOfAllMatches` |

/**
 * The upstream listing and the paged aggregation loop shared by the three
 * `fetchRepositories` functions: request upstream pages 1, 2, 3, ... of 100
 * repositories, keep the ones the caller's filter accepts, stop once enough
 * are kept or after a short page, then slice out the caller's window.
 */
module Paging {

  import opened Wrappers
  import opened Js
  import opened HttpErrors

  /** The fields of an upstream repository summary the service looks at. */
  datatype Repo = Repo(name: string, language: Option<string>, archived: bool)

  /** The request for upstream page `page` fails; `status` is the status of the error's response, if it has one. */
  datatype Failure = Failure(page: nat, status: Option<nat>)

  /** One owner's repositories as the upstream lists them, and the request that fails, if any. */
  datatype Upstream = Upstream(all: seq<Repo>, failure: Option<Failure>)

  /** The `per_page` every upstream request asks for. */
  const PageSize: nat := 100

  function Min(a: int, b: int): int
  {
    if a <= b then a else b
  }

  function Max(a: int, b: int): int
  {
    if a <= b then b else a
  }

  /** The raw items of the first `pages` upstream pages. */
  function Consumed(all: seq<Repo>, pages: nat): seq<Repo>
  {
    all[..Min(pages * PageSize, |all|)]
  }

  /** `GET /users/{user}/repos?per_page=100&page=page`. */
  function FetchPage(up: Upstream, page: nat): (r: Result<seq<Repo>, Failure>)
    requires page >= 1
    ensures r.Ok? ==> |r.value| <= PageSize
    ensures r.Err? ==> up.failure == Some(r.error) && r.error.page == page
  {
    if up.failure.Some? && up.failure.value.page == page then
      Err(up.failure.value)
    else
      Ok(up.all[Min((page - 1) * PageSize, |up.all|)..Min(page * PageSize, |up.all|)])
  }

  /** The same upstream without its failing request. */
  function Healthy(up: Upstream): Upstream
  {
    Upstream(up.all, None)
  }

  /** The error a failed upstream request is rethrown as. */
  function ToHttpError(f: Failure): (e: HttpError)
    ensures f.status.Some? ==> e.status == f.status.value
    ensures f.status.None? ==> e.status == 500
  {
    match f.status
    case Some(status) => HttpError("GitHub API returned an error: " + NatToDecimal(status), status)
    case None => HttpError("Failed to fetch repositories from GitHub", 500)
  }

  /**
   * `language ? repo.language?.toLowerCase() === language.toLowerCase() : true`:
   * no language (or the empty one) accepts everything, a repository without a
   * language never matches a given one.
   */
  predicate LanguageMatches(language: Option<string>, repo: Repo)
  {
    language.None? || language.value == ""
    || (repo.language.Some? && Lower(repo.language.value) == Lower(language.value))
  }

  /**
   * The destructured `language` as the filter reads it: a string, or none
   * when the query has no such key (any other value is refused by validation
   * before it can reach the filter).
   */
  function LanguageArg(v: Option<Value>): Option<string>
  {
    if v.Some? && v.value.Str? then Some(v.value.s) else None
  }

  /** `s.filter(keep)`. */
  function Filter<T>(keep: T -> bool, s: seq<T>): (r: seq<T>)
    ensures |r| <= |s|
    ensures forall x :: x in r ==> x in s && keep(x)
  {
    if s == [] then [] else (if keep(s[0]) then [s[0]] else []) + Filter(keep, s[1..])
  }

  /** A filter that keeps every item of `s` returns `s`. */
  lemma {:induction false} FilterKeepsAll<T>(keep: T -> bool, s: seq<T>)
    requires forall i :: 0 <= i < |s| ==> keep(s[i])
    ensures Filter(keep, s) == s
  {
    if s != [] {
      assert forall i :: 0 <= i < |s[1..]| ==> keep(s[1..][i]) by {
        forall i | 0 <= i < |s[1..]| ensures keep(s[1..][i]) {
          assert s[1..][i] == s[i + 1];
        }
      }
      FilterKeepsAll(keep, s[1..]);
      assert keep(s[0]);
      assert [s[0]] + s[1..] == s;
    }
  }

  /** A filter that keeps nothing returns nothing. */
  lemma FilterKeepsNone<T>(keep: T -> bool, s: seq<T>)
    requires forall x :: !keep(x)
    ensures Filter(keep, s) == []
  {
    if |Filter(keep, s)| > 0 {
      assert Filter(keep, s)[0] in Filter(keep, s);
    }
  }

  predicate IsPrefix<T(==)>(a: seq<T>, b: seq<T>)
  {
    |a| <= |b| && a == b[..|a|]
  }

  /** `repositories.length < totalRepositories`, where the bound may be NaN. */
  predicate Below(n: int, target: Number)
  {
    target.Int? && n < target.i
  }

  /** The upstream page numbers 1, 2, ..., k. */
  function Pages(k: nat): seq<nat>
  {
    seq(k, i requires 0 <= i < k => i + 1)
  }

  /** What the loop returned and the upstream pages it requested, in order. */
  datatype Trace = Trace(outcome: Result<seq<Repo>, Failure>, requested: seq<nat>)

  /**
   * The loop from upstream page `page` on, with `acc` kept so far and
   * `requested` the pages requested so far.
   */
  function Run(up: Upstream, keep: Repo -> bool, target: Number, page: nat, acc: seq<Repo>, requested: seq<nat>): (t: Trace)
    requires 1 <= page && (page - 1) * PageSize <= |up.all|
    ensures IsPrefix(requested, t.requested)
    ensures t.outcome.Ok? ==> IsPrefix(acc, t.outcome.value)
    ensures t.outcome.Err? ==> up.failure == Some(t.outcome.error)
    decreases |up.all| - (page - 1) * PageSize
  {
    if !Below(|acc|, target) then
      Trace(Ok(acc), requested)
    else
      match FetchPage(up, page)
      case Err(f) => Trace(Err(f), requested + [page])
      case Ok(data) =>
        if |data| < PageSize then Trace(Ok(acc + Filter(keep, data)), requested + [page])
        else Run(up, keep, target, page + 1, acc + Filter(keep, data), requested + [page])
  }

  /** The whole loop, started as the source starts it. */
  function Collect(up: Upstream, keep: Repo -> bool, target: Number): Trace
  {
    Run(up, keep, target, 1, [], [])
  }

  /**
   * After `j` pages have been fetched without a stop, the loop requests page
   * j + 1: fewer than `target` repositories kept so far, and page j (if any)
   * was a full one.
   */
  predicate Continues(all: seq<Repo>, keep: Repo -> bool, target: Number, j: nat)
  {
    Below(|Filter(keep, Consumed(all, j))|, target) && j * PageSize <= |all|
  }

  /** None of upstream pages 1..k fails. */
  predicate NoFailureWithin(up: Upstream, k: nat)
  {
    up.failure.None? || !(1 <= up.failure.value.page <= k)
  }

  /**
   * The paging loop, `while (repositories.length < totalRepositories)`:
   * fetch page `page`, append its matches, stop after a short page.
   */
  method Accumulate(up: Upstream, keep: Repo -> bool, target: Number) returns (r: Result<seq<Repo>, Failure>, requested: seq<nat>)
    ensures Trace(r, requested) == Collect(up, keep, target)
    ensures requested == Pages(|requested|)
    ensures r.Ok? ==> IsPrefix(r.value, Filter(keep, up.all))
    ensures r.Ok? ==> !Below(|r.value|, target) || r.value == Filter(keep, up.all)
    ensures r.Err? ==> Some(r.error) == up.failure && |requested| == r.error.page
  {
    var repositories: seq<Repo> := [];
    var page: nat := 1;
    requested := [];
    while Below(|repositories|, target)
      invariant 1 <= page && (page - 1) * PageSize <= |up.all|
      invariant Run(up, keep, target, page, repositories, requested) == Collect(up, keep, target)
      decreases |up.all| - (page - 1) * PageSize
    {
      var data := FetchPage(up, page);
      requested := requested + [page];
      if data.Err? {
        r := Err(data.error);
        CollectFacts(up, keep, target);
        return;
      }
      repositories := repositories + Filter(keep, data.value);
      if |data.value| < PageSize {
        break;
      }
      page := page + 1;
    }
    r := Ok(repositories);
    CollectFacts(up, keep, target);
  }

  // ---------------------------------------------------------------------------
  // Facts about the filter and the upstream pages

  lemma {:induction false} FilterConcat<T>(keep: T -> bool, a: seq<T>, b: seq<T>)
    ensures Filter(keep, a + b) == Filter(keep, a) + Filter(keep, b)
  {
    if a == [] {
      assert a + b == b;
    } else {
      assert (a + b)[1..] == a[1..] + b;
      FilterConcat(keep, a[1..], b);
    }
  }

  /** The filtered items of a prefix of the upstream are a prefix of all filtered items. */
  lemma FilterPrefix<T>(keep: T -> bool, s: seq<T>, m: nat)
    requires m <= |s|
    ensures IsPrefix(Filter(keep, s[..m]), Filter(keep, s))
  {
    assert s == s[..m] + s[m..];
    FilterConcat(keep, s[..m], s[m..]);
  }

  lemma ConsumedNext(up: Upstream, page: nat)
    requires 1 <= page && (page - 1) * PageSize <= |up.all|
    requires FetchPage(up, page).Ok?
    ensures Consumed(up.all, page) == Consumed(up.all, page - 1) + FetchPage(up, page).value
  {
  }

  /**
   * A trace explained in declarative terms: the pages requested are
   * consecutive from 1; every page before the last one requested was
   * requested because the loop had to go on; a successful run stopped where
   * the loop must stop, passed no failing page and holds the matches of
   * exactly the pages it requested; a failed run failed on the last page it
   * requested.
   */
  predicate Explains(up: Upstream, keep: Repo -> bool, target: Number, t: Trace)
  {
    var k := |t.requested|;
    && t.requested == Pages(k)
    && (forall j :: 0 <= j < k ==> Continues(up.all, keep, target, j))
    && (t.outcome.Ok? ==>
          && !Continues(up.all, keep, target, k)
          && NoFailureWithin(up, k)
          && t.outcome.value == Filter(keep, Consumed(up.all, k)))
    && (t.outcome.Err? ==> k >= 1 && up.failure == Some(t.outcome.error) && t.outcome.error.page == k)
  }

  /** Every run from a point the loop can reach is explained. */
  lemma {:induction false} RunFacts(up: Upstream, keep: Repo -> bool, target: Number, page: nat, acc: seq<Repo>, requested: seq<nat>)
    requires 1 <= page && (page - 1) * PageSize <= |up.all|
    requires acc == Filter(keep, Consumed(up.all, page - 1))
    requires requested == Pages(page - 1)
    requires forall j :: 0 <= j < page - 1 ==> Continues(up.all, keep, target, j)
    requires NoFailureWithin(up, page - 1)
    ensures Explains(up, keep, target, Run(up, keep, target, page, acc, requested))
    decreases |up.all| - (page - 1) * PageSize
  {
    if !Below(|acc|, target) {
      assert !Continues(up.all, keep, target, page - 1);
      return;
    }
    assert Continues(up.all, keep, target, page - 1);
    var request := requested + [page];
    assert request == Pages(page);
    assert forall j :: 0 <= j < page ==> Continues(up.all, keep, target, j);
    match FetchPage(up, page)
    case Err(f) =>
      assert Run(up, keep, target, page, acc, requested) == Trace(Err(f), request);
    case Ok(data) =>
      var acc' := acc + Filter(keep, data);
      assert acc' == Filter(keep, Consumed(up.all, page)) by {
        ConsumedNext(up, page);
        FilterConcat(keep, Consumed(up.all, page - 1), data);
      }
      if |data| >= PageSize {
        RunFacts(up, keep, target, page + 1, acc', request);
      } else {
        assert Run(up, keep, target, page, acc, requested) == Trace(Ok(acc'), request);
        assert page * PageSize > |up.all|;
      }
  }

  /** The whole loop is explained, and what it keeps is a prefix of all matches that is long enough or is all of them. */
  lemma CollectFacts(up: Upstream, keep: Repo -> bool, target: Number)
    ensures Explains(up, keep, target, Collect(up, keep, target))
    ensures var t := Collect(up, keep, target);
      t.outcome.Ok? ==>
        && IsPrefix(t.outcome.value, Filter(keep, up.all))
        && (!Below(|t.outcome.value|, target) || t.outcome.value == Filter(keep, up.all))
  {
    assert Consumed(up.all, 0) == [];
    RunFacts(up, keep, target, 1, [], []);
    var t := Collect(up, keep, target);
    var k := |t.requested|;
    if t.outcome.Ok? {
      FilterPrefix(keep, up.all, Min(k * PageSize, |up.all|));
      if Below(|t.outcome.value|, target) {
        assert Consumed(up.all, k) == up.all;
      }
    }
  }

  /** Two stopping points of the loop are the same point. */
  lemma StopIsUnique(all: seq<Repo>, keep: Repo -> bool, target: Number, a: nat, b: nat)
    requires forall j :: 0 <= j < a ==> Continues(all, keep, target, j)
    requires forall j :: 0 <= j < b ==> Continues(all, keep, target, j)
    requires !Continues(all, keep, target, a) && !Continues(all, keep, target, b)
    ensures a == b
  {
  }

  lemma InPages(k: nat, x: nat)
    ensures x in Pages(k) <==> 1 <= x <= k
  {
    if 1 <= x <= k {
      assert Pages(k)[x - 1] == x;
    }
  }

  /**
   * A failing upstream request aborts the loop exactly when the loop would
   * have requested that page from a healthy upstream; otherwise the result is
   * the healthy one. No partial result is returned.
   */
  lemma FailureAbortsIffReached(up: Upstream, keep: Repo -> bool, target: Number)
    ensures var h := Collect(Healthy(up), keep, target);
      Collect(up, keep, target).outcome
        == if up.failure.Some? && up.failure.value.page in h.requested then Err(up.failure.value) else h.outcome
  {
    var t, h := Collect(up, keep, target), Collect(Healthy(up), keep, target);
    CollectFacts(up, keep, target);
    CollectFacts(Healthy(up), keep, target);
    var k, hk := |t.requested|, |h.requested|;
    assert h.outcome.Ok?;
    if t.outcome.Err? {
      if k > hk {
        assert false;
      }
      InPages(hk, k);
    } else {
      StopIsUnique(up.all, keep, target, k, hk);
      if up.failure.Some? {
        InPages(hk, up.failure.value.page);
      }
    }
  }

  /** A first page shorter than 100 ends the loop after one request, whatever the target. */
  lemma ShortFirstPageStops(up: Upstream, keep: Repo -> bool, target: Number)
    requires |up.all| < PageSize && up.failure.None? && Below(0, target)
    ensures Collect(up, keep, target) == Trace(Ok(Filter(keep, up.all)), [1])
  {
    assert FetchPage(up, 1) == Ok(up.all[0..|up.all|]);
    assert up.all[0..|up.all|] == up.all;
    assert [] + Filter(keep, up.all) == Filter(keep, up.all);
  }

  /**
   * Exactly 100 upstream items with too few matches among them: the full
   * first page makes the loop request page 2, which is empty and ends it.
   */
  lemma FullPageFetchesNext(up: Upstream, keep: Repo -> bool, target: Number)
    requires |up.all| == PageSize && up.failure.None? && Below(|Filter(keep, up.all)|, target)
    ensures Collect(up, keep, target) == Trace(Ok(Filter(keep, up.all)), [1, 2])
  {
    var m := Filter(keep, up.all);
    assert FetchPage(up, 2) == Ok([]) by {
      assert up.all[PageSize..PageSize] == [];
    }
    assert m + Filter(keep, []) == m;
    assert Run(up, keep, target, 2, m, [1]) == Trace(Ok(m), [1, 2]);
    assert FetchPage(up, 1) == Ok(up.all) by {
      assert up.all[0..PageSize] == up.all;
    }
    assert [] + m == m && [] + [1] == [1];
    assert Below(0, target);
    assert Collect(up, keep, target) == Run(up, keep, target, 2, [] + m, [] + [1]);
  }

  // ---------------------------------------------------------------------------
  // The requested window

  /** `s.slice(lo, hi)` for non-negative bounds. */
  function Window<T>(s: seq<T>, lo: nat, hi: nat): seq<T>
  {
    if lo < hi && lo < |s| then s[lo..Min(hi, |s|)] else []
  }

  /** `slice` with bounds that are non-negative integers once converted by `Number`. */
  lemma SliceIsWindow<T>(s: seq<T>, a: Value, b: Value, lo: nat, hi: nat)
    requires ToNumber(a) == Int(lo) && ToNumber(b) == Int(hi)
    ensures Slice(s, a, b) == Window(s, lo, hi)
  {
  }

  /** A window that ends within a prefix, or of a prefix that is everything, is the window of the whole. */
  lemma WindowOfPrefix<T>(acc: seq<T>, full: seq<T>, lo: nat, hi: nat)
    requires IsPrefix(acc, full) && (hi <= |acc| || acc == full)
    ensures Window(acc, lo, hi) == Window(full, lo, hi)
  {
  }

  /** Every item of a window is an item of the sequence. */
  lemma WindowMembers<T>(s: seq<T>, lo: nat, hi: nat)
    ensures |Window(s, lo, hi)| <= |s|
    ensures forall x :: x in Window(s, lo, hi) ==> x in s
  {
    if lo < hi && lo < |s| {
      forall x | x in Window(s, lo, hi) ensures x in s {
        var i :| 0 <= i < |Window(s, lo, hi)| && Window(s, lo, hi)[i] == x;
        assert s[lo + i] == x;
      }
    }
  }

  /** Every item of a slice is an item of the sequence. */
  lemma SliceMembers<T>(s: seq<T>, start: Value, end: Value)
    ensures forall x :: x in Slice(s, start, end) ==> x in s
  {
    var from, to := RelativeIndex(ToNumber(start), |s|), RelativeIndex(ToNumber(end), |s|);
    if from < to {
      forall x | x in s[from..to] ensures x in s {
        var i :| 0 <= i < to - from && s[from..to][i] == x;
        assert s[from + i] == x;
      }
    }
  }

  lemma PrefixMembers<T>(a: seq<T>, b: seq<T>)
    requires IsPrefix(a, b)
    ensures forall x :: x in a ==> x in b
  {
    forall x | x in a ensures x in b {
      var i :| 0 <= i < |a| && a[i] == x;
      assert b[i] == x;
    }
  }

  /** `perPage * (userPage - 1)`, the first index of page u of size p. */
  function StartIndex(p: nat, u: nat): (start: nat)
    requires u >= 1
    ensures start + p == p * u
  {
    p * (u - 1)
  }

  /** The window of page u of size p holds min(p, max(0, |s| - p*(u-1))) items. */
  lemma WindowLength<T>(s: seq<T>, p: nat, u: nat)
    requires p >= 1 && u >= 1
    ensures |Window(s, StartIndex(p, u), StartIndex(p, u) + p)| == Min(p, Max(0, |s| - StartIndex(p, u)))
  {
  }

  /**
   * The body of `fetchRepositories` after its defaults: loop up to
   * `perPage * userPage` matches, then `slice(startIndex, startIndex + perPage)`,
   * rethrowing an upstream failure as an HttpError.
   */
  function Respond(up: Upstream, keep: Repo -> bool, perPage: Value, userPage: Value): (r: Result<seq<Repo>, HttpError>)
    ensures r.Err? ==> up.failure.Some? && r.error == ToHttpError(up.failure.value)
    ensures r.Ok? ==> forall x :: x in r.value ==> x in up.all && keep(x)
  {
    var t := Collect(up, keep, ToNumber(Times(perPage, userPage)));
    match t.outcome
    case Err(f) => Err(ToHttpError(f))
    case Ok(acc) =>
      var start := Times(perPage, Minus(userPage, Num(Int(1))));
      CollectFacts(up, keep, ToNumber(Times(perPage, userPage)));
      PrefixMembers(acc, Filter(keep, up.all));
      SliceMembers(acc, start, Plus(start, perPage));
      Ok(Slice(acc, start, Plus(start, perPage)))
  }

  /**
   * With `Number(perPage)` = p and `Number(userPage)` = u, both at least 1, the
   * loop's target is p*u and the slice starts at p*(u-1).
   */
  lemma RespondBounds(up: Upstream, keep: Repo -> bool, perPage: Value, userPage: Value, p: nat, u: nat)
    requires ToNumber(perPage) == Int(p) && ToNumber(userPage) == Int(u) && u >= 1
    ensures var start := StartIndex(p, u); var t := Collect(up, keep, Int(start + p));
      Respond(up, keep, perPage, userPage)
        == match t.outcome
           case Err(f) => Err(ToHttpError(f))
           case Ok(acc) => Ok(Slice(acc, Num(Int(start)), Plus(Num(Int(start)), perPage)))
  {
    var start := StartIndex(p, u);
    assert Times(perPage, userPage) == Num(Int(start + p));
    assert Minus(userPage, Num(Int(1))) == Num(Int(u - 1));
    assert Times(perPage, Num(Int(u - 1))) == Num(Int(start));
  }

  /**
   * With numbers p, u >= 1 and a healthy upstream, the answer is the window
   * [p*(u-1), p*u) of ALL matching repositories, although the loop fetched
   * only as many pages as it needed.
   */
  lemma RespondNumeric(up: Upstream, keep: Repo -> bool, p: nat, u: nat)
    requires p >= 1 && u >= 1 && up.failure.None?
    ensures Respond(up, keep, Num(Int(p)), Num(Int(u)))
              == Ok(Window(Filter(keep, up.all), StartIndex(p, u), StartIndex(p, u) + p))
  {
    var start := StartIndex(p, u);
    var n := start + p;
    RespondBounds(up, keep, Num(Int(p)), Num(Int(u)), p, u);
    CollectFacts(up, keep, Int(n));
    var acc := Collect(up, keep, Int(n)).outcome.value;
    assert Plus(Num(Int(start)), Num(Int(p))) == Num(Int(n));
    SliceIsWindow(acc, Num(Int(start)), Num(Int(n)), start, n);
    WindowOfPrefix(acc, Filter(keep, up.all), start, n);
  }

  /** On a healthy upstream the loop toward target n keeps a prefix of all matches holding at least n of them, or all of them. */
  lemma HealthyCollect(up: Upstream, keep: Repo -> bool, n: nat)
    requires up.failure.None?
    ensures var t := Collect(up, keep, Int(n));
      && t.outcome.Ok?
      && IsPrefix(t.outcome.value, Filter(keep, up.all))
      && (|t.outcome.value| >= n || t.outcome.value == Filter(keep, up.all))
  {
    var t := Collect(up, keep, Int(n));
    assert t.outcome.Ok?;
    CollectFacts(up, keep, Int(n));
    assert !Below(|t.outcome.value|, Int(n)) || t.outcome.value == Filter(keep, up.all);
  }

  /**
   * With `Number(perPage)` = p, `Number(userPage)` = u and the end index
   * `startIndex + perPage` converting to e, a healthy upstream answers the
   * window [p*(u-1), e) of what the loop accumulated, which is a prefix of
   * all matches holding at least p*u of them (or all of them).
   */
  lemma RespondWindow(up: Upstream, keep: Repo -> bool, perPage: Value, userPage: Value, p: nat, u: nat, e: nat)
    requires ToNumber(perPage) == Int(p) && ToNumber(userPage) == Int(u) && u >= 1 && up.failure.None?
    requires ToNumber(Plus(Num(Int(StartIndex(p, u))), perPage)) == Int(e)
    ensures var start := StartIndex(p, u); var t := Collect(up, keep, Int(start + p));
      && t.outcome.Ok?
      && IsPrefix(t.outcome.value, Filter(keep, up.all))
      && (|t.outcome.value| >= start + p || t.outcome.value == Filter(keep, up.all))
      && Respond(up, keep, perPage, userPage) == Ok(Window(t.outcome.value, start, e))
  {
    var start := StartIndex(p, u);
    HealthyCollect(up, keep, start + p);
    var acc := Collect(up, keep, Int(start + p)).outcome.value;
    RespondBounds(up, keep, perPage, userPage, p, u);
    assert Respond(up, keep, perPage, userPage) == Ok(Slice(acc, Num(Int(start)), Plus(Num(Int(start)), perPage)));
    SliceIsWindow(acc, Num(Int(start)), Plus(Num(Int(start)), perPage), start, e);
  }

  /**
   * With `perPage` a digit string (as a raw query value) the end index is
   * the concatenation of start's digits and perPage's: the window is
   * [p*(u-1), p*(u-1)*10^|d| + p) of what the loop accumulated.
   */
  lemma RespondTextPerPage(up: Upstream, keep: Repo -> bool, d: string, userPage: Value, p: nat, u: nat)
    requires |d| >= 1 && AllDigits(d) && DigitsValue(d) == p && p >= 1
    requires ToNumber(userPage) == Int(u) && u >= 1 && up.failure.None?
    ensures var start := StartIndex(p, u);
      match Collect(up, keep, Int(start + p)).outcome
      case Ok(acc) => Respond(up, keep, Str(d), userPage) == Ok(Window(acc, start, AppendDigits(start, d)))
      case Err(_) => false
  {
    var start := StartIndex(p, u);
    DigitsAreNumber(d);
    ConcatenatedEndIndex(start, d);
    RespondWindow(up, keep, Str(d), userPage, p, u, AppendDigits(start, d));
  }
}

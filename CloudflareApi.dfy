/**
 * The client for Cloudflare's v4 REST API (src/utils.js): one request with the
 * envelope check (`fetchCloudflare`) and the page-by-page collection of a list
 * (`fetchAllCloudflare`).
 *
 * The network is a parameter. One request is answered by an `Exchange`: either a
 * response whose JSON body is the API's envelope, or `Unreachable` when `fetch`
 * rejects or the body is not JSON. A paginated listing is a sequence of exchanges,
 * the k-th one answering the request for page k; a request beyond its end is
 * `Unreachable`.
 */
module CloudflareApi {
  import opened Wrappers
  import opened Js
  import opened Strings

  const ApiBase: string := "https://api.cloudflare.com/client/v4"
  const PerPageQuery: string := "&per_page=50"

  /** `result_info`; `total_pages` is `None` when absent (it then compares false). */
  datatype ResultInfo = ResultInfo(totalPages: Option<int>)

  /** The API's JSON envelope; `errors` holds the `message` of each error, "" for
      one without a message. `result` is `None` when it is absent; on a listing
      page a `null` result is `None` too, since `if (data.result)` skips it. */
  datatype Envelope<R> = Envelope(success: bool, result: Option<R>, resultInfo: Option<ResultInfo>,
                                  errors: seq<string>)

  datatype Response<R> = Response(status: nat, data: Envelope<R>)

  datatype Exchange<R> = Answered(response: Response<R>) | Unreachable

  datatype FetchError = UpstreamError(message: string) | NetworkError

  /** The request `fetchCloudflare` sends; the body is serialised only when truthy. */
  datatype HttpRequest = HttpRequest(verb: string, url: string, body: Option<JsValue>)

  /** `res.ok`. */
  predicate Ok(status: nat) {
    200 <= status <= 299
  }

  predicate Succeeds<R>(x: Exchange<R>) {
    x.Answered? && Ok(x.response.status) && x.response.data.success
  }

  function CloudflareRequest(path: string, verb: string, body: JsValue): (q: HttpRequest)
    ensures |q.url| == |ApiBase| + |path| && q.url[..|ApiBase|] == ApiBase && q.url[|ApiBase|..] == path
    ensures q.verb == verb
    ensures q.body.Some? <==> Truthy(body)
    ensures q.body.Some? ==> q.body.value == body
  {
    HttpRequest(verb, ApiBase + path, if Truthy(body) then Some(body) else None)
  }

  /** `data.errors?.[0]?.message || \`Error ${res.status}\``. */
  function FailureMessage(status: nat, errors: seq<string>): string {
    if |errors| > 0 && errors[0] != "" then errors[0] else "Error " + NatToString(status)
  }

  /** The error thrown for a failed exchange. */
  function ErrorOf<R>(x: Exchange<R>): FetchError {
    if x.Unreachable? then NetworkError
    else UpstreamError(FailureMessage(x.response.status, x.response.data.errors))
  }

  /** `fetchCloudflare`: the envelope's `result` on a 2xx response whose envelope
      reports success, the thrown error otherwise. */
  function Attempt<R>(x: Exchange<R>): (r: Result<Option<R>, FetchError>)
    ensures r.Success? <==> Succeeds(x)
    ensures r.Success? ==> r.value == x.response.data.result
    ensures r.Failure? ==> r.error == ErrorOf(x)
  {
    if Succeeds(x) then Success(x.response.data.result) else Failure(ErrorOf(x))
  }

  /** A failure message is never empty: an error without a message becomes
      "Error <status>", from which the status can be read back. */
  lemma FailureMessageShape(status: nat, errors: seq<string>)
    ensures FailureMessage(status, errors) != ""
    ensures |errors| > 0 && errors[0] != "" ==> FailureMessage(status, errors) == errors[0]
    ensures !(|errors| > 0 && errors[0] != "") ==>
              var m := FailureMessage(status, errors);
              |m| > 6 && m[..6] == "Error " && AllDigits(m[6..]) && ParseDigits(m[6..]) == status
  {
    if !(|errors| > 0 && errors[0] != "") {
      var m := FailureMessage(status, errors);
      assert m[6..] == NatToString(status);
      ParseNatToString(status);
    }
  }

  // ---------------------------------------------------------------------------
  // Page URLs

  /** `path.includes('?') ? '&' : '?'`. */
  function Separator(path: string): char {
    if '?' in path then '&' else '?'
  }

  function PageUrl(path: string, page: nat): string {
    ApiBase + path + [Separator(path)] + "page=" + NatToString(page) + PerPageQuery
  }

  lemma CancelAround(a: string, x: string, y: string, b: string)
    requires a + x + b == a + y + b
    ensures x == y
  {
    assert |x| == |y|;
    assert x == (a + x + b)[|a|..|a| + |x|];
    assert y == (a + y + b)[|a|..|a| + |y|];
  }

  /** Different pages have different URLs: the page number can be read back. */
  lemma PageUrlInjective(path: string, m: nat, n: nat)
    requires PageUrl(path, m) == PageUrl(path, n)
    ensures m == n
  {
    var a := ApiBase + path + [Separator(path)] + "page=";
    assert PageUrl(path, m) == a + NatToString(m) + PerPageQuery;
    assert PageUrl(path, n) == a + NatToString(n) + PerPageQuery;
    CancelAround(a, NatToString(m), NatToString(n), PerPageQuery);
    NatToStringInjective(m, n);
  }

  /** The query is appended with '&' when the path already has one, with '?' otherwise. */
  lemma PageUrlSeparator(path: string, page: nat)
    ensures var u := PageUrl(path, page);
            && u[..|ApiBase| + |path|] == ApiBase + path
            && u[|ApiBase| + |path|] == (if '?' in path then '&' else '?')
  {
    var u := PageUrl(path, page);
    assert u == (ApiBase + path) + ([Separator(path)] + "page=" + NatToString(page) + PerPageQuery);
  }

  // ---------------------------------------------------------------------------
  // Pagination, specified

  function Info<R>(x: Exchange<R>): Option<ResultInfo> {
    if x.Answered? then x.response.data.resultInfo else None
  }

  function ResultOf<T>(x: Exchange<seq<T>>): seq<T> {
    if x.Answered? && x.response.data.result.Some? then x.response.data.result.value else []
  }

  /** `totalPages` after the given answers: 1 to begin with, then the
      `total_pages` of the last one that carried `result_info`. */
  function Reported<R>(answered: seq<Exchange<R>>): Option<int> {
    if answered == [] then Some(1)
    else if Info(answered[|answered| - 1]).Some? then Info(answered[|answered| - 1]).value.totalPages
    else Reported(answered[..|answered| - 1])
  }

  /** All results of the given answers, in page order. */
  function ConcatResults<T>(answered: seq<Exchange<seq<T>>>): seq<T> {
    if answered == [] then [] else ConcatResults(answered[..|answered| - 1]) + ResultOf(answered[|answered| - 1])
  }

  /** After page n has been taken in, `page <= totalPages` holds for page n + 1. */
  predicate Continues<R>(pages: seq<Exchange<R>>, n: nat)
    requires n <= |pages|
  {
    var t := Reported(pages[..n]); t.Some? && n + 1 <= t.value
  }

  /** The loop ends with the request for page n (n >= 1). */
  predicate Stops<R>(pages: seq<Exchange<R>>, n: nat)
  {
    n == 0 || n > |pages| || !Succeeds(pages[n - 1]) || !Continues(pages, n)
  }

  function CountFrom<R>(pages: seq<Exchange<R>>, n: nat): nat
    requires 1 <= n <= |pages| + 1
    decreases |pages| + 1 - n
  {
    if Stops(pages, n) then n else CountFrom(pages, n + 1)
  }

  /** The number of requests made: the first page at which the loop stops. */
  function Count<R>(pages: seq<Exchange<R>>): nat {
    CountFrom(pages, 1)
  }

  /** `fetchAllCloudflare`: the error of the page the loop stopped at, if it failed,
      otherwise the results of all pages requested, concatenated. */
  function Outcome<T>(pages: seq<Exchange<seq<T>>>): Result<seq<T>, FetchError> {
    var n := Count(pages);
    if n == 0 || n > |pages| then Failure(NetworkError)
    else if !Succeeds(pages[n - 1]) then Failure(ErrorOf(pages[n - 1]))
    else Success(ConcatResults(pages[..n]))
  }

  lemma {:induction false} CountFromIsFirstStop<R>(pages: seq<Exchange<R>>, n: nat)
    requires 1 <= n <= |pages| + 1
    ensures n <= CountFrom(pages, n) <= |pages| + 1
    ensures Stops(pages, CountFrom(pages, n))
    ensures forall k :: n <= k < CountFrom(pages, n) ==> !Stops(pages, k)
    decreases |pages| + 1 - n
  {
    if !Stops(pages, n) {
      CountFromIsFirstStop(pages, n + 1);
    }
  }

  lemma {:induction false} CountFromOfFirstStop<R>(pages: seq<Exchange<R>>, n: nat, k: nat)
    requires 1 <= n <= k <= |pages| + 1
    requires Stops(pages, k)
    requires forall j :: n <= j < k ==> !Stops(pages, j)
    ensures CountFrom(pages, n) == k
    decreases k - n
  {
    if n < k {
      CountFromOfFirstStop(pages, n + 1, k);
    }
  }

  /** At least one page is requested, and never more than one past the answers. */
  lemma CountBounds<R>(pages: seq<Exchange<R>>)
    ensures 1 <= Count(pages) <= |pages| + 1
    ensures Stops(pages, Count(pages))
    ensures forall k :: 1 <= k < Count(pages) ==> !Stops(pages, k)
  {
    CountFromIsFirstStop(pages, 1);
  }

  lemma ReportedSnoc<R>(pages: seq<Exchange<R>>, n: nat)
    requires 1 <= n <= |pages|
    ensures Reported(pages[..n]) == if Info(pages[n - 1]).Some? then Info(pages[n - 1]).value.totalPages
                                    else Reported(pages[..n - 1])
  {
    assert pages[..n][..n - 1] == pages[..n - 1];
  }

  lemma ConcatResultsSnoc<T>(pages: seq<Exchange<seq<T>>>, n: nat)
    requires 1 <= n <= |pages|
    ensures ConcatResults(pages[..n]) == ConcatResults(pages[..n - 1]) + ResultOf(pages[n - 1])
  {
    assert pages[..n][..n - 1] == pages[..n - 1];
  }

  /** A loop that fails at page n, after n - 1 pages that let it go on. */
  lemma OutcomeOfFailedPage<T>(pages: seq<Exchange<seq<T>>>, n: nat)
    requires 1 <= n <= |pages| + 1
    requires forall k :: 1 <= k < n ==> !Stops(pages, k)
    requires !Succeeds(if n <= |pages| then pages[n - 1] else Unreachable)
    ensures Count(pages) == n
    ensures Outcome(pages) == Failure(ErrorOf(if n <= |pages| then pages[n - 1] else Unreachable))
  {
    CountFromOfFirstStop(pages, 1, n);
  }

  /** A loop that ends normally with page n. */
  lemma OutcomeOfLastPage<T>(pages: seq<Exchange<seq<T>>>, n: nat)
    requires 1 <= n <= |pages|
    requires forall k :: 1 <= k < n ==> !Stops(pages, k)
    requires Succeeds(pages[n - 1]) && !Continues(pages, n)
    ensures Count(pages) == n
    ensures Outcome(pages) == Success(ConcatResults(pages[..n]))
  {
    CountFromOfFirstStop(pages, 1, n);
  }

  // ---------------------------------------------------------------------------
  // Pagination, implemented

  /** The `do … while (page <= totalPages)` loop. Returns the outcome and the URLs
      requested, in order. */
  method FetchAllCloudflare<T>(path: string, pages: seq<Exchange<seq<T>>>)
      returns (r: Result<seq<T>, FetchError>, urls: seq<string>)
    ensures r == Outcome(pages)
    ensures |urls| == Count(pages)
    ensures forall k :: 0 <= k < |urls| ==> urls[k] == PageUrl(path, k + 1)
  {
    var allResults: seq<T> := [];
    var page: nat := 1;
    var totalPages: Option<int> := Some(1);
    urls := [];
    while true
      invariant 1 <= page <= |pages| + 1
      invariant |urls| == page - 1
      invariant forall k :: 0 <= k < |urls| ==> urls[k] == PageUrl(path, k + 1)
      invariant forall k :: 1 <= k < page ==> !Stops(pages, k)
      invariant totalPages == Reported(pages[..page - 1])
      invariant allResults == ConcatResults(pages[..page - 1])
      decreases |pages| + 1 - page
    {
      urls := urls + [PageUrl(path, page)];
      var x := if page <= |pages| then pages[page - 1] else Unreachable;
      if !Succeeds(x) {
        OutcomeOfFailedPage(pages, page);
        r := Failure(ErrorOf(x));
        return;
      }
      ReportedSnoc(pages, page);
      ConcatResultsSnoc(pages, page);
      ghost var n := page;
      assert x == pages[n - 1];
      if x.response.data.result.Some? {
        allResults := allResults + x.response.data.result.value;
      }
      if x.response.data.resultInfo.Some? {
        totalPages := x.response.data.resultInfo.value.totalPages;
      }
      page := page + 1;
      assert allResults == ConcatResults(pages[..n]);
      assert totalPages == Reported(pages[..n]);
      if !(totalPages.Some? && page <= totalPages.value) {
        OutcomeOfLastPage(pages, n);
        r := Success(allResults);
        return;
      }
    }
  }

  // ---------------------------------------------------------------------------
  // Properties of pagination

  /** All or nothing: success means every requested page succeeded, and the result
      is the concatenation of their results; failure is the error of the last
      request, and every request before it succeeded. */
  lemma AllOrNothing<T>(pages: seq<Exchange<seq<T>>>)
    ensures var n := Count(pages);
            && 1 <= n <= |pages| + 1
            && (forall k :: 0 <= k < n - 1 ==> Succeeds(pages[k]))
            && (Outcome(pages).Success? ==>
                  (n <= |pages| && Succeeds(pages[n - 1]) && Outcome(pages).value == ConcatResults(pages[..n])))
            && (Outcome(pages).Failure? ==>
                  Outcome(pages).error == ErrorOf(if n <= |pages| then pages[n - 1] else Unreachable))
  {
    CountBounds(pages);
    var n := Count(pages);
    forall k | 0 <= k < n - 1
      ensures Succeeds(pages[k])
    {
      assert !Stops(pages, k + 1);
    }
  }

  /** Without `result_info` on the first page, only that page is requested, and the
      outcome is what a single `fetchCloudflare` of it gives. */
  lemma SinglePageWithoutInfo<T>(pages: seq<Exchange<seq<T>>>)
    requires |pages| >= 1 && Info(pages[0]).None?
    ensures Count(pages) == 1
    ensures Outcome(pages).Success? <==> Attempt(pages[0]).Success?
    ensures Outcome(pages).Success? ==> Outcome(pages).value == ResultOf(pages[0])
    ensures Outcome(pages).Failure? ==> Outcome(pages).error == Attempt(pages[0]).error
  {
    assert pages[..1][..0] == [];
    assert Reported(pages[..1]) == Some(1);
    assert Stops(pages, 1);
    assert ConcatResults(pages[..1]) == ConcatResults(pages[..0]) + ResultOf(pages[0]);
  }

  lemma ReportedConstant<R>(pages: seq<Exchange<R>>, t: int, n: nat)
    requires 1 <= n <= |pages|
    requires forall k :: 0 <= k < n ==> Info(pages[k]) == Some(ResultInfo(Some(t)))
    ensures Reported(pages[..n]) == Some(t)
  {
    ReportedSnoc(pages, n);
  }

  /** When every page reports the same total t, exactly t pages are requested and
      the outcome is all their results in order. */
  lemma AllPagesReportTotal<T>(pages: seq<Exchange<seq<T>>>, t: nat)
    requires 1 <= t <= |pages|
    requires forall k :: 0 <= k < t ==> Succeeds(pages[k]) && Info(pages[k]) == Some(ResultInfo(Some(t)))
    ensures Count(pages) == t
    ensures Outcome(pages) == Success(ConcatResults(pages[..t]))
  {
    forall n | 1 <= n <= t
      ensures Reported(pages[..n]) == Some(t)
    {
      ReportedConstant(pages, t, n);
    }
    assert Stops(pages, t);
    CountFromOfFirstStop(pages, 1, t);
  }

  lemma {:induction false} ConcatResultsAppend<T>(a: seq<Exchange<seq<T>>>, b: seq<Exchange<seq<T>>>)
    ensures ConcatResults(a + b) == ConcatResults(a) + ConcatResults(b)
    decreases |b|
  {
    if b == [] {
      assert a + b == a;
    } else {
      var b' := b[..|b| - 1];
      assert (a + b)[..|a + b| - 1] == a + b';
      assert (a + b)[|a + b| - 1] == b[|b| - 1];
      ConcatResultsAppend(a, b');
    }
  }

  function ListPage<T>(items: seq<T>, totalPages: int): Exchange<seq<T>> {
    Answered(Response(200, Envelope(true, Some(items), Some(ResultInfo(Some(totalPages))), [])))
  }

  /** Three full pages of 50 reporting three pages in all give 150 results, from
      three requests. */
  lemma ThreePagesExample<T>(a: seq<T>, b: seq<T>, c: seq<T>)
    requires |a| == 50 && |b| == 50 && |c| == 50
    ensures var pages := [ListPage(a, 3), ListPage(b, 3), ListPage(c, 3)];
            && Count(pages) == 3
            && Outcome(pages) == Success(a + b + c)
            && |Outcome(pages).value| == 150
  {
    var pages := [ListPage(a, 3), ListPage(b, 3), ListPage(c, 3)];
    AllPagesReportTotal(pages, 3);
    assert pages[..3] == pages;
    assert ResultOf(pages[0]) == a && ResultOf(pages[1]) == b && ResultOf(pages[2]) == c;
    ConcatResultsSnoc(pages, 3);
    ConcatResultsSnoc(pages, 2);
    ConcatResultsSnoc(pages, 1);
    assert [] + a == a;
  }
}

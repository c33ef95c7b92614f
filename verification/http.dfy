/** The crawler's HTTP layer (eval_crawler.py): the redirect-rewrite rule of
    `safe_get` and the bounded exponential back-off of `safe_get_retry`.
    The network is a parameter. `server(url, follow)` is what one
    `sess.get(url, allow_redirects=follow)` returns or raises, and a retry
    loop sees the outcome of each numbered attempt. */
module Http {
  import opened Wrappers
  import opened Text

  /** The poisoned host that the site's redirects sometimes point to. */
  const BAD := "wwww.evaluationkit.com"
  const GOOD := "www.evaluationkit.com"
  /** Total number of attempts `safe_get_retry` makes. */
  const N_RETRY: nat := 4
  /** The first back-off wait, in seconds; each later wait doubles it. */
  const BACKOFF: real := 1.0

  datatype Response = Response(
    status: int,
    location: Option<string>,
    contentType: Option<string>,
    text: string,
    url: string)

  /** The exceptions a request can raise: `HTTPError` (from
      `raise_for_status`), `ConnectionError`, `Timeout`, and anything else
      `requests` may raise (an invalid URL, too many redirects, ...). */
  datatype Error =
    | HttpError(status: int)
    | ConnectionError
    | Timeout
    | OtherError

  /** requests' `Response.is_redirect`: a `Location` header and one of the
      redirect statuses. */
  predicate IsRedirect(r: Response) {
    r.location.Some? && r.status in {301, 302, 303, 307, 308}
  }

  /** A redirect towards the poisoned host. */
  predicate Poisoned(r: Response) {
    IsRedirect(r) && Contains(r.location.value, BAD)
  }

  /** requests' `raise_for_status`: client and server errors raise. */
  predicate ErrorStatus(status: int) {
    400 <= status < 600
  }

  function RaiseForStatus(r: Response): (x: Result<Response, Error>)
    ensures x.Success? <==> !ErrorStatus(r.status)
    ensures x.Success? ==> x.value == r
    ensures x.Failure? ==> x.error == HttpError(r.status)
  {
    if ErrorStatus(r.status) then Failure(HttpError(r.status)) else Success(r)
  }

  /** One `safe_get`: the requests it sent and what it returned or raised. */
  datatype Exchange = Exchange(requests: seq<(string, bool)>, result: Result<Response, Error>)

  /** `safe_get(sess, url)`: a first request that does not follow redirects;
      a poisoned redirect is re-requested (following redirects) with every
      occurrence of the poisoned host rewritten; the final response must not
      be an error status. */
  function SafeGet(url: string, server: (string, bool) -> Result<Response, Error>): (x: Exchange)
    ensures 1 <= |x.requests| <= 2 && x.requests[0] == (url, false)
    ensures |x.requests| == 2 <==> server(url, false).Success? && Poisoned(server(url, false).value)
    ensures |x.requests| == 2 ==>
      x.requests[1] == (Replace(server(url, false).value.location.value, BAD, GOOD), true)
    ensures var last := server(x.requests[|x.requests| - 1].0, x.requests[|x.requests| - 1].1);
      && (last.Failure? ==> x.result == last)
      && (last.Success? ==> (x.result.Success? <==> !ErrorStatus(last.value.status)))
      && (last.Success? && x.result.Success? ==> x.result.value == last.value)
      && (last.Success? && x.result.Failure? ==> x.result.error == HttpError(last.value.status))
  {
    var first := server(url, false);
    if first.Failure? then Exchange([(url, false)], first)
    else if !Poisoned(first.value) then Exchange([(url, false)], RaiseForStatus(first.value))
    else
      var target := Replace(first.value.location.value, BAD, GOOD);
      var second := server(target, true);
      Exchange([(url, false), (target, true)],
               if second.Failure? then second else RaiseForStatus(second.value))
  }

  /** A redirect to any other host is handed back unfollowed: its status is
      below 400, so it is not an error either. */
  lemma SafeGetKeepsOtherRedirects(url: string, server: (string, bool) -> Result<Response, Error>, r: Response)
    requires server(url, false) == Success(r) && IsRedirect(r) && !Contains(r.location.value, BAD)
    ensures SafeGet(url, server) == Exchange([(url, false)], Success(r))
  {
  }

  // ------------------------------------------------------------ retrying

  /** The exceptions `safe_get_retry` catches. */
  predicate Caught(e: Error) {
    e.HttpError? || e.ConnectionError? || e.Timeout?
  }

  /** A client error other than 429 (Too Many Requests) is not retried. */
  predicate Fatal(e: Error) {
    e.HttpError? && 400 <= e.status < 500 && e.status != 429
  }

  /** An outcome after which another attempt is worth making. */
  predicate Retryable(o: Result<Response, Error>) {
    o.Failure? && Caught(o.error) && !Fatal(o.error)
  }

  /** `2^i` as a real number. */
  function Pow2(i: nat): (p: real)
    ensures p >= 1.0
  {
    if i == 0 then 1.0 else 2.0 * Pow2(i - 1)
  }

  /** The loop's result together with the waits it slept, in order. */
  datatype Retried = Retried(result: Result<Response, Error>, sleeps: seq<real>)

  /** The retry loop from attempt number `attempt` on. The wait, doubled
      after every sleep, is `BACKOFF * 2^(attempt - 1)` by then. */
  function RetryFrom(outcome: nat -> Result<Response, Error>, attempt: nat): (r: Retried)
    requires 1 <= attempt <= N_RETRY
    ensures attempt + |r.sleeps| <= N_RETRY
    ensures r.result == outcome(attempt + |r.sleeps|)
    ensures forall i :: 0 <= i < |r.sleeps| ==>
      r.sleeps[i] == BACKOFF * Pow2(attempt - 1 + i) && Retryable(outcome(attempt + i))
    ensures Retryable(r.result) ==> attempt + |r.sleeps| == N_RETRY
    decreases N_RETRY - attempt
  {
    var o := outcome(attempt);
    if !Retryable(o) || attempt == N_RETRY then Retried(o, [])
    else
      var rest := RetryFrom(outcome, attempt + 1);
      var r := Retried(rest.result, [BACKOFF * Pow2(attempt - 1)] + rest.sleeps);
      assert forall i :: 1 <= i < |r.sleeps| ==>
        r.sleeps[i] == rest.sleeps[i - 1] && attempt + 1 - 1 + (i - 1) == attempt - 1 + i;
      r
  }

  /** `safe_get_retry`: `outcome(k)` is what the k-th `safe_get` returns or
      raises. The loop ends at the first attempt that succeeds, raises an
      exception it does not catch, or fails fatally, and after `N_RETRY`
      attempts at the latest; the result is that attempt's. Between two
      attempts it sleeps, the waits doubling from `BACKOFF`. */
  function SafeGetRetry(outcome: nat -> Result<Response, Error>): (r: Retried)
    ensures |r.sleeps| < N_RETRY
    ensures r.result == outcome(|r.sleeps| + 1)
    ensures forall i :: 0 <= i < |r.sleeps| ==> r.sleeps[i] == BACKOFF * Pow2(i)
    ensures forall k :: 1 <= k <= |r.sleeps| ==> Retryable(outcome(k))
    ensures Retryable(r.result) ==> |r.sleeps| == N_RETRY - 1
  {
    RetryFrom(outcome, 1)
  }

  /** The number of attempts is the first one whose outcome ends the loop. */
  lemma {:induction false} RetryStopsAtFirstFinal(outcome: nat -> Result<Response, Error>, k: nat)
    requires 1 <= k <= N_RETRY && !Retryable(outcome(k))
    requires forall j :: 1 <= j < k ==> Retryable(outcome(j))
    ensures SafeGetRetry(outcome).result == outcome(k)
    ensures |SafeGetRetry(outcome).sleeps| == k - 1
  {
  }

  /** Three 503 responses and then a success: three sleeps of 1, 2 and 4
      seconds, and the fourth attempt's response. */
  lemma RetryThreeUnavailable(ok: Response)
    ensures SafeGetRetry(k => if k <= 3 then Failure(HttpError(503)) else Success(ok))
         == Retried(Success(ok), [1.0, 2.0, 4.0])
  {
    var outcome: nat -> Result<Response, Error> := k => if k <= 3 then Failure(HttpError(503)) else Success(ok);
    RetryStopsAtFirstFinal(outcome, 4);
    var r := SafeGetRetry(outcome);
    assert r.sleeps[1] == 2.0 && r.sleeps[2] == 4.0;
  }

  /** A 404 ends the loop at once, without sleeping. */
  lemma RetryNotFound(rest: nat -> Result<Response, Error>)
    ensures SafeGetRetry((k: nat) => if k == 1 then Failure(HttpError(404)) else rest(k))
         == Retried(Failure(HttpError(404)), [])
  {
    var outcome: nat -> Result<Response, Error> := (k: nat) => if k == 1 then Failure(HttpError(404)) else rest(k);
    RetryStopsAtFirstFinal(outcome, 1);
  }

  /** Four transport failures: the last one is raised after three sleeps. */
  lemma RetryGivesUp(outcome: nat -> Result<Response, Error>)
    requires forall k :: 1 <= k <= N_RETRY ==> outcome(k) == Failure(ConnectionError)
    ensures SafeGetRetry(outcome).result == Failure(ConnectionError)
    ensures |SafeGetRetry(outcome).sleeps| == N_RETRY - 1
  {
  }
}

/**
 * The GitHub REST client's statistics poller. The endpoint answers 202 while
 * it is still computing the statistics; the client retries, with a delay,
 * up to a bounded number of attempts.
 */
module Client {
  import opened Wrappers
  import opened ClientModel

  const Accepted := 202
  const DefaultMaxStatAttempts := 60
  const DefaultRetryDelay := 2000

  /** What the body of a response deserializes to. */
  datatype Body =
    | Decoded(stats: seq<ContributorStatistics>)   // a JSON array of contributor entries
    | JsonNull                                     // the literal `null`
    | Malformed                                    // not the expected shape: the deserializer throws

  datatype HttpResponse = HttpResponse(status: int, body: Body)

  datatype AuthenticationHeader = AuthenticationHeader(scheme: string, parameter: string)

  /** A request as the transport sees it: the relative URI and the Authorization header it carried. */
  datatype HttpRequest = HttpRequest(uri: string, authorization: Option<AuthenticationHeader>)

  /** The exceptions the poller can end with. */
  datatype ClientError =
    | RetryExhausted(maxAttempts: int)   // still 202 on the last permitted attempt
    | HttpStatus(status: int)            // a status outside 2xx other than 202
    | JsonDecode                         // a success body that does not deserialize

  predicate IsSuccessStatus(status: int) {
    200 <= status <= 299
  }

  function StatsUri(owner: string, repository: string): string {
    "repos/" + owner + "/" + repository + "/stats/contributors"
  }

  /** The header a token installs; a missing or empty token installs none. */
  function TokenHeader(token: Option<string>): Option<AuthenticationHeader> {
    if token.Some? && token.value != "" then Some(AuthenticationHeader("Bearer", token.value)) else None
  }

  /**
   * The remote endpoint's behaviour: the n-th request it receives is answered
   * with `script[n]`, and every request after the script with `otherwise`.
   * The poller sends a bounded number of requests, so every behaviour it can
   * observe is one of these.
   */
  datatype Endpoint = Endpoint(script: seq<HttpResponse>, otherwise: HttpResponse) {
    function Respond(n: nat): HttpResponse {
      if n < |script| then script[n] else otherwise
    }
  }

  /**
   * The shared HTTP client. `server.Respond(n)` is the
   * response to the n-th request this client ever sends.
   */
  class HttpClient {
    const server: Endpoint
    var authorization: Option<AuthenticationHeader>
    var sent: seq<HttpRequest>

    constructor (server: Endpoint)
      ensures this.server == server && authorization == None && sent == []
    {
      this.server := server;
      authorization := None;
      sent := [];
    }

    method GetAsync(uri: string) returns (response: HttpResponse)
      modifies this
      ensures sent == old(sent) + [HttpRequest(uri, authorization)]
      ensures authorization == old(authorization)
      ensures response == server.Respond(|old(sent)|)
    {
      response := server.Respond(|sent|);
      sent := sent + [HttpRequest(uri, authorization)];
    }
  }

  /** How a poll ends: its result, how many requests it sent and how many delays it waited. */
  datatype PollOutcome = PollOutcome(result: Result<seq<ContributorStatistics>, ClientError>, requests: nat, delays: nat)

  /** The outcome of an earlier request followed by `rest`, with `delay` waits between them. */
  function After(rest: PollOutcome, delay: nat): PollOutcome {
    rest.(requests := rest.requests + 1, delays := rest.delays + delay)
  }

  /** What one response makes the poller do: go round again after `delay` waits, or stop with a result. */
  datatype Step =
    | Retry(delay: nat)
    | Stop(result: Result<seq<ContributorStatistics>, ClientError>)

  /** The poller's reading of one response; `isLast` says that no further attempt is permitted. */
  function StepOf(response: HttpResponse, isLast: bool, maxAttempts: int): (s: Step)
    ensures s.Retry? <==>
              (response.status == Accepted && !isLast)
              || (response.status != Accepted && IsSuccessStatus(response.status) && response.body.JsonNull?)
    ensures s.Retry? ==> (s.delay == 1 <==> response.status == Accepted) && s.delay <= 1
    ensures s.Stop? ==> (response.status == Accepted <==> s.result == Failure(RetryExhausted(maxAttempts)))
    ensures s.Stop? && response.status != Accepted ==>
              (!IsSuccessStatus(response.status) <==> s.result == Failure(HttpStatus(response.status)))
    ensures s.Stop? && s.result.Success? ==> response.body == Decoded(s.result.value)
  {
    if response.status == Accepted then
      if isLast then Stop(Failure(RetryExhausted(maxAttempts))) else Retry(1)
    else if !IsSuccessStatus(response.status) then Stop(Failure(HttpStatus(response.status)))
    else
      match response.body
      case Malformed => Stop(Failure(JsonDecode))
      case JsonNull => Retry(0)
      case Decoded(stats) => Stop(Success(stats))
  }

  /**
   * The poll after `made` requests have been sent: `server.Respond(base + i)` answers
   * the (i+1)-th request and `maxAttempts` bounds the requests.
   */
  function PollFrom(server: Endpoint, base: nat, maxAttempts: int, made: nat): (o: PollOutcome)
    ensures made >= maxAttempts ==> o == PollOutcome(Success([]), 0, 0)
    ensures made < maxAttempts ==> 1 <= o.requests <= maxAttempts - made && o.delays < o.requests
    decreases if made < maxAttempts then maxAttempts - made else 0
  {
    if made + 1 > maxAttempts then PollOutcome(Success([]), 0, 0)
    else
      match StepOf(server.Respond(base + made), made + 1 >= maxAttempts, maxAttempts)
      case Stop(result) => PollOutcome(result, 1, 0)
      case Retry(delay) => After(PollFrom(server, base, maxAttempts, made + 1), delay)
  }

  /**
   * The poller's state between two passes of its loop: the requests made so
   * far, the delays waited so far, and the result once one is decided.
   */
  datatype PollState = PollState(made: nat, waited: nat, decided: Option<Result<seq<ContributorStatistics>, ClientError>>)

  const Start := PollState(0, 0, None)

  /** The state after the next request, whose response the poller read as `step`. */
  function Advance(state: PollState, step: Step): PollState {
    match step
    case Stop(result) => PollState(state.made + 1, state.waited, Some(result))
    case Retry(delay) => PollState(state.made + 1, state.waited + delay, None)
  }

  /** Runs the poller from `state` until a result is decided or no attempt is left. */
  function Run(server: Endpoint, base: nat, maxAttempts: int, state: PollState): PollState
    decreases if state.made < maxAttempts then maxAttempts - state.made else 0
  {
    if state.decided.Some? || state.made + 1 > maxAttempts then state
    else
      Run(server, base, maxAttempts,
          Advance(state, StepOf(server.Respond(base + state.made), state.made + 1 >= maxAttempts, maxAttempts)))
  }

  /** An undecided poll with an attempt left continues from the state its next response leads to. */
  lemma RunAdvance(server: Endpoint, base: nat, maxAttempts: int, state: PollState, step: Step)
    requires state.decided.None? && state.made < maxAttempts
    requires step == StepOf(server.Respond(base + state.made), state.made + 1 >= maxAttempts, maxAttempts)
    ensures Run(server, base, maxAttempts, state) == Run(server, base, maxAttempts, Advance(state, step))
  {
  }

  /** A poll that has decided, or has no attempt left, stays where it is. */
  lemma RunStops(server: Endpoint, base: nat, maxAttempts: int, state: PollState)
    requires state.decided.Some? || state.made >= maxAttempts
    ensures Run(server, base, maxAttempts, state) == state
  {
  }

  /**
   * The loop-state form of the poll agrees with the recursive reference
   * definition, from any undecided state onward.
   */
  lemma {:induction false} RunMatchesPollFrom(server: Endpoint, base: nat, maxAttempts: int, state: PollState)
    requires state.decided.None?
    ensures var final := Run(server, base, maxAttempts, state);
            var o := PollFrom(server, base, maxAttempts, state.made);
            && final.decided.GetOr(Success([])) == o.result
            && final.made == state.made + o.requests
            && final.waited == state.waited + o.delays
    decreases if state.made < maxAttempts then maxAttempts - state.made else 0
  {
    if state.made + 1 <= maxAttempts {
      var step := StepOf(server.Respond(base + state.made), state.made + 1 >= maxAttempts, maxAttempts);
      var next := Advance(state, step);
      RunAdvance(server, base, maxAttempts, state, step);
      var final := Run(server, base, maxAttempts, next);
      match step
      case Retry(delay) =>
        RunMatchesPollFrom(server, base, maxAttempts, next);
        var rest := PollFrom(server, base, maxAttempts, state.made + 1);
        assert PollFrom(server, base, maxAttempts, state.made) == After(rest, delay);
        assert final.made == state.made + 1 + rest.requests;
        assert final.waited == state.waited + delay + rest.delays;
      case Stop(result) =>
        RunStops(server, base, maxAttempts, next);
        assert PollFrom(server, base, maxAttempts, state.made) == PollOutcome(result, 1, 0);
        assert final == PollState(state.made + 1, state.waited, Some(result));
    } else {
      RunStops(server, base, maxAttempts, state);
    }
  }

  /**
   * The poll a client makes when `base` requests preceded it; no decided result
   * means an empty list. It is the reference poll from the first request, so
   * it sends at most `maxAttempts` requests, none when that is zero or less,
   * and waits only between requests.
   */
  function Poll(server: Endpoint, base: nat, maxAttempts: int): (o: PollOutcome)
    ensures o == PollFrom(server, base, maxAttempts, 0)
    ensures maxAttempts <= 0 ==> o == PollOutcome(Success([]), 0, 0)
    ensures maxAttempts > 0 ==> 1 <= o.requests <= maxAttempts && o.delays <= o.requests - 1
  {
    var final := Run(server, base, maxAttempts, Start);
    RunMatchesPollFrom(server, base, maxAttempts, Start);
    PollOutcome(final.decided.GetOr(Success([])), final.made, final.waited)
  }

  /** `value` repeated `n` times. */
  function Repeat<T>(value: T, n: nat): (r: seq<T>)
    ensures |r| == n
  {
    if n == 0 then [] else Repeat(value, n - 1) + [value]
  }

  /** Appending `n` more copies of `value` to a log that ends in `m` copies. */
  lemma {:induction false} RepeatAppend<T>(log: seq<T>, value: T, m: nat, n: nat)
    ensures (log + Repeat(value, m)) + Repeat(value, n) == log + Repeat(value, m + n)
    decreases n
  {
    if n > 0 {
      RepeatAppend(log, value, m, n - 1);
      calc {
        (log + Repeat(value, m)) + Repeat(value, n);
        (log + Repeat(value, m)) + (Repeat(value, n - 1) + [value]);
        ((log + Repeat(value, m)) + Repeat(value, n - 1)) + [value];
        (log + Repeat(value, m + n - 1)) + [value];
        log + (Repeat(value, m + n - 1) + [value]);
      }
    } else {
      assert Repeat(value, n) == [];
    }
  }

  /** Appending one more copy of `value` to a log that ends in `m` copies. */
  lemma RepeatSnoc<T>(log: seq<T>, value: T, m: nat)
    ensures (log + Repeat(value, m)) + [value] == log + Repeat(value, m + 1)
  {
    RepeatAppend(log, value, m, 1);
    assert Repeat(value, 1) == [value];
  }

  class GitHubClient {
    const httpClient: HttpClient
    var maxStatAttempts: int
    /** Milliseconds; only recorded, never waited. */
    var retryDelay: int
    /** The delays waited so far, in order. */
    var delays: seq<int>

    constructor (httpClient: HttpClient)
      ensures this.httpClient == httpClient
      ensures maxStatAttempts == DefaultMaxStatAttempts && retryDelay == DefaultRetryDelay && delays == []
    {
      this.httpClient := httpClient;
      maxStatAttempts := DefaultMaxStatAttempts;
      retryDelay := DefaultRetryDelay;
      delays := [];
    }

    /**
     * One pass of the polling loop: sends the request, reads the response and,
     * when the statistics are still being computed, waits before the next pass.
     */
    method Attempt(apiUrl: string, attempts: int) returns (step: Step)
      modifies this`delays, httpClient
      ensures httpClient.sent == old(httpClient.sent) + [HttpRequest(apiUrl, httpClient.authorization)]
      ensures httpClient.authorization == old(httpClient.authorization)
      ensures step == StepOf(httpClient.server.Respond(|old(httpClient.sent)|), attempts >= maxStatAttempts, maxStatAttempts)
      ensures step.Retry? ==> delays == old(delays) + Repeat(retryDelay, step.delay)
      ensures step.Stop? ==> delays == old(delays)
    {
      var response := httpClient.GetAsync(apiUrl);
      if response.status == Accepted {
        if attempts >= maxStatAttempts {
          return Stop(Failure(RetryExhausted(maxStatAttempts)));
        }
        // Still being computed: wait and try again.
        delays := delays + [retryDelay];
        return Retry(1);
      }
      if !IsSuccessStatus(response.status) {
        return Stop(Failure(HttpStatus(response.status)));
      }
      match response.body {
        case Malformed => step := Stop(Failure(JsonDecode));
        case JsonNull => step := Retry(0);
        case Decoded(s) => step := Stop(Success(s));
      }
    }

    /**
     * Fetches the contributor statistics of owner/repository, installing the
     * token's bearer header first, then polling as `Poll` describes.
     */
    method GetContributorStatistics(owner: string, repository: string, token: Option<string>)
      returns (r: Result<seq<ContributorStatistics>, ClientError>)
      modifies this`delays, httpClient
      ensures var o := Poll(httpClient.server, |old(httpClient.sent)|, maxStatAttempts);
        && r == o.result
        && httpClient.sent == old(httpClient.sent)
                              + Repeat(HttpRequest(StatsUri(owner, repository), httpClient.authorization), o.requests)
        && delays == old(delays) + Repeat(retryDelay, o.delays)
      ensures httpClient.authorization ==
        if TokenHeader(token).Some? then TokenHeader(token) else old(httpClient.authorization)
    {
      if token.Some? && token.value != "" {
        httpClient.authorization := Some(AuthenticationHeader("Bearer", token.value));
      }
      r := PollStatistics(StatsUri(owner, repository));
    }

    /** The polling loop: requests `apiUrl` until the statistics arrive or the attempts run out. */
    method PollStatistics(apiUrl: string) returns (r: Result<seq<ContributorStatistics>, ClientError>)
      modifies this`delays, httpClient
      ensures var o := Poll(httpClient.server, |old(httpClient.sent)|, maxStatAttempts);
        && r == o.result
        && httpClient.sent == old(httpClient.sent) + Repeat(HttpRequest(apiUrl, httpClient.authorization), o.requests)
        && delays == old(delays) + Repeat(retryDelay, o.delays)
      ensures httpClient.authorization == old(httpClient.authorization)
    {
      var stats: Option<seq<ContributorStatistics>> := None;
      var attempts := 0;
      ghost var base := |httpClient.sent|;
      ghost var request := HttpRequest(apiUrl, httpClient.authorization);
      ghost var server := httpClient.server;
      ghost var max := maxStatAttempts;
      ghost var state := Start;
      ghost var final := Run(server, base, max, state);

      attempts := attempts + 1;
      while attempts <= maxStatAttempts && stats.None?
        invariant max == maxStatAttempts
        invariant attempts == state.made + 1
        invariant stats.None? <==> state.decided.None?
        invariant stats.Some? ==> state.decided == Some(Success(stats.value))
        invariant httpClient.authorization == request.authorization
        invariant httpClient.sent == old(httpClient.sent) + Repeat(request, state.made)
        invariant delays == old(delays) + Repeat(retryDelay, state.waited)
        invariant Run(server, base, max, state) == final
        decreases max - attempts
      {
        assert |httpClient.sent| == base + state.made;
        var step := Attempt(apiUrl, attempts);
        RunAdvance(server, base, max, state, step);
        RepeatSnoc(old(httpClient.sent), request, state.made);
        if step.Retry? {
          RepeatAppend(old(delays), retryDelay, state.waited, step.delay);
        }
        state := Advance(state, step);
        if step.Stop? {
          if step.result.Failure? {
            RunStops(server, base, max, state);
            return step.result;
          }
          stats := Some(step.result.value);
        }
        attempts := attempts + 1;
      }

      RunStops(server, base, max, state);
      return Success(stats.GetOr([]));
    }
  }
}

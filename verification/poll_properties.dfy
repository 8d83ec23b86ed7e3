/**
 * What the statistics poller promises, stated about `Client.Poll`, the
 * function the client's polling loop is proved to follow, and about
 * `Client.PollFrom`, its recursive reference definition.
 */
module PollProperties {
  import opened Wrappers
  import opened ClientModel
  import opened Client

  /** A response after which the poller asks again: 202, or a success whose body is `null`. */
  predicate Continues(response: HttpResponse) {
    response.status == Accepted || (IsSuccessStatus(response.status) && response.body.JsonNull?)
  }

  /** The number of 202 responses among requests `from` up to, not including, `to`. */
  function CountAccepted(server: Endpoint, base: nat, from: nat, to: nat): nat
    decreases if from < to then to - from else 0
  {
    if from >= to then 0
    else (if server.Respond(base + from).status == Accepted then 1 else 0) + CountAccepted(server, base, from + 1, to)
  }

  /** What the last response of a poll decides: its result, or an empty list when it says to go on. */
  function Decision(step: Step): Result<seq<ContributorStatistics>, ClientError> {
    if step.Stop? then step.result else Success([])
  }

  /**
   * The whole course of a poll from request `made`: every response before
   * the last one is a 202 or a null body, there was one wait per 202 among
   * them, a poll that ends before the limit ends on a response that stops it,
   * and the last response decides the result.
   */
  lemma {:induction false} PollFromTrace(server: Endpoint, base: nat, maxAttempts: int, made: nat)
    requires made < maxAttempts
    ensures var o := PollFrom(server, base, maxAttempts, made);
            && 1 <= o.requests <= maxAttempts - made
            && var lastIndex: nat := made + o.requests - 1;
               var last := StepOf(server.Respond(base + lastIndex), lastIndex + 1 >= maxAttempts, maxAttempts);
               && (forall n :: base + made <= n < base + lastIndex ==> Continues(server.Respond(n)))
               && o.delays == CountAccepted(server, base, made, lastIndex)
               && (lastIndex + 1 < maxAttempts ==> last.Stop?)
               && o.result == Decision(last)
    decreases maxAttempts - made
  {
    var step := StepOf(server.Respond(base + made), made + 1 >= maxAttempts, maxAttempts);
    if step.Retry? && made + 1 < maxAttempts {
      PollFromTrace(server, base, maxAttempts, made + 1);
      var rest := PollFrom(server, base, maxAttempts, made + 1);
      assert Continues(server.Respond(base + made));
      assert CountAccepted(server, base, made, made + 1 + rest.requests - 1)
          == (if server.Respond(base + made).status == Accepted then 1 else 0)
             + CountAccepted(server, base, made + 1, made + 1 + rest.requests - 1);
    } else if step.Retry? {
      // the last attempt read a null body: nothing was decided
    }
  }

  /** The course of a whole poll, as `PollFromTrace` describes it from the first request. */
  lemma PollTrace(server: Endpoint, base: nat, maxAttempts: int)
    requires maxAttempts > 0
    ensures var o := Poll(server, base, maxAttempts);
            && 1 <= o.requests <= maxAttempts
            && var lastIndex: nat := o.requests - 1;
               var last := StepOf(server.Respond(base + lastIndex), o.requests >= maxAttempts, maxAttempts);
               && (forall n :: base <= n < base + lastIndex ==> Continues(server.Respond(n)))
               && o.delays == CountAccepted(server, base, 0, lastIndex)
               && (o.requests < maxAttempts ==> last.Stop?)
               && o.result == Decision(last)
  {
    PollFromTrace(server, base, maxAttempts, 0);
  }

  /** From request `made` on, an endpoint that always answers 202 exhausts the attempts. */
  lemma {:induction false} AlwaysAcceptedFrom(server: Endpoint, base: nat, maxAttempts: int, made: nat)
    requires made < maxAttempts
    requires forall n :: base + made <= n < base + maxAttempts ==> server.Respond(n).status == Accepted
    ensures PollFrom(server, base, maxAttempts, made)
         == PollOutcome(Failure(RetryExhausted(maxAttempts)), maxAttempts - made, maxAttempts - made - 1)
    decreases maxAttempts - made
  {
    assert server.Respond(base + made).status == Accepted;
    if made + 1 < maxAttempts {
      AlwaysAcceptedFrom(server, base, maxAttempts, made + 1);
    }
  }

  /**
   * An endpoint that answers 202 to every permitted request: the poller sends
   * exactly `maxAttempts` requests, waits between each two, and fails with the
   * retry exception on the last one.
   */
  lemma AlwaysAccepted(server: Endpoint, base: nat, maxAttempts: int)
    requires maxAttempts > 0
    requires forall n :: base <= n < base + maxAttempts ==> server.Respond(n).status == Accepted
    ensures Poll(server, base, maxAttempts)
         == PollOutcome(Failure(RetryExhausted(maxAttempts)), maxAttempts, maxAttempts - 1)
  {
    AlwaysAcceptedFrom(server, base, maxAttempts, 0);
  }

  /** From request `made` on, an endpoint whose every success body is `null` leaves the result empty. */
  lemma {:induction false} AlwaysNullFrom(server: Endpoint, base: nat, maxAttempts: int, made: nat)
    requires made < maxAttempts
    requires forall n :: base + made <= n < base + maxAttempts ==>
      server.Respond(n).status != Accepted && IsSuccessStatus(server.Respond(n).status) && server.Respond(n).body.JsonNull?
    ensures PollFrom(server, base, maxAttempts, made) == PollOutcome(Success([]), maxAttempts - made, 0)
    decreases maxAttempts - made
  {
    assert server.Respond(base + made).body.JsonNull?;
    if made + 1 < maxAttempts {
      AlwaysNullFrom(server, base, maxAttempts, made + 1);
    }
  }

  /**
   * An endpoint that answers every permitted request with a `null` success
   * body: the poller uses up every attempt without waiting and returns an
   * empty list.
   */
  lemma AlwaysNull(server: Endpoint, base: nat, maxAttempts: int)
    requires maxAttempts > 0
    requires forall n :: base <= n < base + maxAttempts ==>
      server.Respond(n).status != Accepted && IsSuccessStatus(server.Respond(n).status) && server.Respond(n).body.JsonNull?
    ensures Poll(server, base, maxAttempts) == PollOutcome(Success([]), maxAttempts, 0)
  {
    AlwaysNullFrom(server, base, maxAttempts, 0);
  }

  /**
   * A 202 followed by a success carrying statistics: two requests, one wait,
   * and the statistics exactly as decoded (each entry's own total included).
   */
  lemma AcceptedThenStatistics(server: Endpoint, base: nat, maxAttempts: int, stats: seq<ContributorStatistics>)
    requires maxAttempts >= 2
    requires server.Respond(base).status == Accepted
    requires server.Respond(base + 1).status != Accepted && IsSuccessStatus(server.Respond(base + 1).status)
    requires server.Respond(base + 1).body == Decoded(stats)
    ensures Poll(server, base, maxAttempts) == PollOutcome(Success(stats), 2, 1)
  {
    assert PollFrom(server, base, maxAttempts, 1) == PollOutcome(Success(stats), 1, 0);
  }

  /**
   * A first response outside 2xx (and not 202) ends the poll on the spot with
   * that status: one request, no wait, no retry.
   */
  lemma FailingStatus(server: Endpoint, base: nat, maxAttempts: int)
    requires maxAttempts >= 1
    requires server.Respond(base).status != Accepted && !IsSuccessStatus(server.Respond(base).status)
    ensures Poll(server, base, maxAttempts) == PollOutcome(Failure(HttpStatus(server.Respond(base).status)), 1, 0)
  {
  }

  /** With the client's defaults, at most 60 requests are sent and at most 59 delays of 2000 ms waited. */
  lemma DefaultBudget(server: Endpoint, base: nat)
    ensures var o := Poll(server, base, DefaultMaxStatAttempts);
            && o.requests <= 60
            && o.delays * DefaultRetryDelay <= 118000
  {
  }
}

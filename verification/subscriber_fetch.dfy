/**
  `fetch_subreddit_stats`: one logical request for a subreddit's statistics,
  tried by its decorator up to three times in all.  The HTTP layer is abstract: a
  `Reply` says what the server answered to one attempt.
 */
module SubscriberFetch {
  import opened Wrappers

  /** One element of `subscriberCountTimeSeries`; either key may be missing
      or null. */
  datatype Point = Point(utcDay: Option<int>, count: Option<int>)

  /** The decoded JSON body of a reply: a falsy value (`null`, `false`, `0`,
      `""`, `[]`, `{}`), a truthy value that is not an object, or a non-empty
      object, whose `subscriberCountTimeSeries` is `None` when the key is
      missing or null. */
  datatype Payload =
    | Falsy
    | NonObject
    | StatsObject(series: Option<seq<Point>>)

  /** The server's answer to one attempt: a transport-level error (timeout,
      connection reset), or a status code with a body that is `None` when it
      is not valid JSON. */
  datatype Reply =
    | TransportError
    | Response(status: int, body: Option<Payload>)

  /** What one call of `fetch_subreddit_stats` produces: it raised, it
      returned `None` (a 404), or it returned the decoded body. */
  datatype Fetched =
    | Raised
    | NotFound
    | Body(payload: Payload)

  /** `stop_after_attempt(3)`. */
  const MaxAttempts := 3

  const StatusNotFound := 404

  /** `raise_for_status` raises for every status outside 2xx. */
  predicate RaisesForStatus(status: int) {
    !(200 <= status < 300)
  }

  /** One attempt: a 404 is answered with `None` before the status is
      checked; any other non-2xx status, a transport error or a body that is
      not JSON raises. */
  function Attempt(reply: Reply): (r: Fetched)
    ensures r.NotFound? <==> reply.Response? && reply.status == StatusNotFound
    ensures r.Body? <==>
      reply.Response? && reply.status != StatusNotFound
      && !RaisesForStatus(reply.status) && reply.body.Some?
    ensures r.Body? ==> r.payload == reply.body.value
  {
    match reply
    case TransportError => Raised
    case Response(status, body) =>
      if status == StatusNotFound then NotFound
      else if RaisesForStatus(status) then Raised
      else if body.None? then Raised
      else Body(body.value)
  }

  /** Attempts `j`, `j + 1`, ... up to the ceiling; the first attempt that
      does not raise ends the call. */
  function RetryFrom(replies: nat -> Reply, j: nat): (r: Fetched)
    ensures r.Raised? <==> forall k :: j <= k < MaxAttempts ==> Attempt(replies(k)).Raised?
    ensures !r.Raised? ==>
      exists k :: j <= k < MaxAttempts && r == Attempt(replies(k))
        && forall i :: j <= i < k ==> Attempt(replies(i)).Raised?
    decreases MaxAttempts - j
  {
    if j >= MaxAttempts then Raised
    else
      var r := Attempt(replies(j));
      if r.Raised? then RetryFrom(replies, j + 1) else r
  }

  /** `fetch_subreddit_stats(subreddit)`, where `replies(k)` is the server's
      answer to attempt `k` of this call.  The call raises exactly when all
      three attempts raise; otherwise it returns what the first attempt that
      did not raise returned. */
  function FetchStats(replies: nat -> Reply): (r: Fetched)
    ensures r.Raised? <==> forall k :: 0 <= k < MaxAttempts ==> Attempt(replies(k)).Raised?
    ensures !r.Raised? ==>
      exists k :: 0 <= k < MaxAttempts && r == Attempt(replies(k))
        && forall i :: 0 <= i < k ==> Attempt(replies(i)).Raised?
  {
    RetryFrom(replies, 0)
  }

  /** A 404 is an answer, not a failure: it is never retried, and later
      replies cannot change the outcome. */
  lemma NotFoundIsNotRetried(replies: nat -> Reply, body: Option<Payload>)
    requires replies(0) == Response(StatusNotFound, body)
    ensures FetchStats(replies) == NotFound
  {
  }

  /** Three failures in a row exhaust the retries. */
  lemma ThreeFailuresRaise(replies: nat -> Reply)
    requires replies(0) == TransportError
    requires replies(1) == Response(503, None)
    requires replies(2) == Response(500, Some(Falsy))
    ensures FetchStats(replies) == Raised
  {
  }
}

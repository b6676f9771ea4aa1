/** One upload with re-authentication and retries (source-mock/ingest/sender.py). */
module Sender {
  import opened Wrappers
  import opened Ledger

  const MAX_BACKOFF_ATTEMPTS := 3
  const BACKOFF_BASE := 0.5

  /** A pacing header: absent, not a number, or a number of seconds. */
  datatype Header = Absent | Unparsable | Seconds(value: real)

  datatype Response = Response(status: int, retryAfter: Header, rateLimitReset: Header)

  datatype Failure = ReauthFailed | MissingScope | Rejected | RetriesExhausted | Unexpected

  datatype SendOutcome = SendOutcome(result: SendResult, httpStatus: Option<int>, failure: Option<Failure>)

  function Pow2(k: nat): nat {
    if k == 0 then 1 else 2 * Pow2(k - 1)
  }

  /** The server's pacing wins over exponential backoff. */
  function BackoffSeconds(resp: Response, attempt: nat): real
    requires attempt >= 1
  {
    if resp.retryAfter.Seconds? then resp.retryAfter.value
    else if resp.rateLimitReset.Seconds? then resp.rateLimitReset.value
    else BACKOFF_BASE * Pow2(attempt - 1) as real
  }

  predicate Throttles(status: int) { status == 429 || status >= 500 }

  /** The responses among the first `n` that refused the token, and those that asked to wait. */
  function Refusals(rs: nat -> Response, n: nat): nat {
    if n == 0 then 0 else Refusals(rs, n - 1) + if rs(n - 1).status == 401 then 1 else 0
  }

  function Waits(rs: nat -> Response, n: nat): nat {
    if n == 0 then 0 else Waits(rs, n - 1) + if Throttles(rs(n - 1).status) then 1 else 0
  }

  /** Response `n` settles the upload: it is neither a first 401 nor a first or second throttle. */
  predicate Settles(rs: nat -> Response, n: nat) {
    && (rs(n).status == 401 ==> Refusals(rs, n) >= 1)
    && (Throttles(rs(n).status) ==> Waits(rs, n) + 1 >= MAX_BACKOFF_ATTEMPTS)
  }

  function Classify(status: int): SendResult {
    if status == 202 then Sent else if status == 413 then TooLarge else Error
  }

  function Reason(status: int): Option<Failure> {
    if status == 202 || status == 413 then None
    else if status == 401 then Some(ReauthFailed)
    else if status == 403 then Some(MissingScope)
    else if status == 400 || status == 415 then Some(Rejected)
    else if Throttles(status) then Some(RetriesExhausted)
    else Some(Unexpected)
  }

  /** The delays asked for by the throttling responses among the first `n`, in order. */
  function Delays(rs: nat -> Response, n: nat): (d: seq<real>)
    ensures |d| == Waits(rs, n)
  {
    if n == 0 then []
    else Delays(rs, n - 1) + if Throttles(rs(n - 1).status) then [BackoffSeconds(rs(n - 1), Waits(rs, n))] else []
  }

  /**
    The retry loop against any stream of responses. The upload stops at the first settling one,
    which alone decides the outcome.
  */
  method Send(size: int, maxBytes: int, rs: nat -> Response)
    returns (outcome: SendOutcome, posts: nat, refreshes: nat, sleeps: seq<real>)
    ensures size > maxBytes ==> outcome == SendOutcome(TooLarge, None, None) && posts == refreshes == |sleeps| == 0
    ensures size <= maxBytes ==>
              && posts >= 1 && Settles(rs, posts - 1) && (forall i: nat | i < posts - 1 :: !Settles(rs, i))
              && refreshes == Refusals(rs, posts - 1) && sleeps == Delays(rs, posts - 1)
              && (var status := rs(posts - 1).status;
                  outcome == SendOutcome(Classify(status), Some(status), Reason(status)))
    ensures posts <= 4 && refreshes <= 1 && |sleeps| <= 2
  {
    posts, refreshes, sleeps := 0, 0, [];
    if size > maxBytes {
      return SendOutcome(TooLarge, None, None), posts, refreshes, sleeps;
    }
    var refreshed, backoffAttempts := false, 0;
    while true
      invariant refreshes == Refusals(rs, posts) == if refreshed then 1 else 0
      invariant sleeps == Delays(rs, posts) && backoffAttempts == Waits(rs, posts) < MAX_BACKOFF_ATTEMPTS
      invariant posts == refreshes + backoffAttempts
      invariant forall i: nat | i < posts :: !Settles(rs, i)
      decreases MAX_BACKOFF_ATTEMPTS - backoffAttempts, if refreshed then 0 else 1
    {
      var resp := rs(posts);
      posts := posts + 1;
      var status := resp.status;
      if status == 202 {
        return SendOutcome(Sent, Some(202), None), posts, refreshes, sleeps;
      }
      if status == 401 {
        if refreshed {
          return SendOutcome(Error, Some(401), Some(ReauthFailed)), posts, refreshes, sleeps;
        }
        refreshed := true;
        refreshes := refreshes + 1;
        continue;
      }
      if status == 413 {
        return SendOutcome(TooLarge, Some(413), None), posts, refreshes, sleeps;
      }
      if status == 403 {
        return SendOutcome(Error, Some(403), Some(MissingScope)), posts, refreshes, sleeps;
      }
      if status == 400 || status == 415 {
        return SendOutcome(Error, Some(status), Some(Rejected)), posts, refreshes, sleeps;
      }
      if status == 429 || status >= 500 {
        backoffAttempts := backoffAttempts + 1;
        if backoffAttempts >= MAX_BACKOFF_ATTEMPTS {
          return SendOutcome(Error, Some(status), Some(RetriesExhausted)), posts, refreshes, sleeps;
        }
        sleeps := sleeps + [BackoffSeconds(resp, backoffAttempts)];
        continue;
      }
      return SendOutcome(Error, Some(status), Some(Unexpected)), posts, refreshes, sleeps;
    }
  }

  lemma {:induction false} CountsCoverResponses(rs: nat -> Response, n: nat)
    requires forall i: nat | i < n :: !Settles(rs, i)
    ensures n == Refusals(rs, n) + Waits(rs, n) && Refusals(rs, n) <= 1 && Waits(rs, n) <= 2
  {
    if n > 0 {
      CountsCoverResponses(rs, n - 1);
      assert !Settles(rs, n - 1);
    }
  }

  /** No server can keep the loop going past a fourth post. */
  lemma EveryStreamSettles(rs: nat -> Response) returns (n: nat)
    ensures n < 4 && Settles(rs, n) && forall i: nat | i < n :: !Settles(rs, i)
  {
    n := 0;
    while !Settles(rs, n)
      invariant forall i: nat | i < n :: !Settles(rs, i)
      invariant n <= 3
      decreases 4 - n
    {
      CountsCoverResponses(rs, n + 1);
      n := n + 1;
    }
  }

  /** Four posts are needed exactly when the first three hold one 401 and two throttles. */
  lemma FourthPost(rs: nat -> Response)
    ensures (forall i: nat | i < 3 :: !Settles(rs, i)) <==> Refusals(rs, 3) == 1 && Waits(rs, 3) == 2
  {
    assert Refusals(rs, 1) == Refusals(rs, 0) + if rs(0).status == 401 then 1 else 0;
    assert Waits(rs, 1) == Waits(rs, 0) + if Throttles(rs(0).status) then 1 else 0;
    assert Refusals(rs, 2) == Refusals(rs, 1) + if rs(1).status == 401 then 1 else 0;
    assert Waits(rs, 2) == Waits(rs, 1) + if Throttles(rs(1).status) then 1 else 0;
    if forall i: nat | i < 3 :: !Settles(rs, i) {
      CountsCoverResponses(rs, 3);
    }
  }

  // ----- the outcome in the protocol's own numbers

  /** The responses among the first `n` that asked to wait, by position. */
  ghost function Throttled(rs: nat -> Response, n: nat): set<nat> {
    set i: nat | i < n && (rs(i).status == 429 || rs(i).status >= 500)
  }

  lemma {:induction false} CountsAreSizes(rs: nat -> Response, n: nat)
    ensures Waits(rs, n) == |Throttled(rs, n)|
    ensures Refusals(rs, n) >= 1 <==> exists i: nat :: i < n && rs(i).status == 401
  {
    if n > 0 {
      CountsAreSizes(rs, n - 1);
      var before := Throttled(rs, n - 1);
      assert Throttled(rs, n) == if rs(n - 1).status == 429 || rs(n - 1).status >= 500 then before + {n - 1} else before;
    }
  }

  /** The upload goes on only after a first 401, or after a 429 or 5xx with at most one such before. */
  lemma SettlesExactly(rs: nat -> Response, n: nat)
    ensures !Settles(rs, n) <==>
            || (rs(n).status == 401 && forall i: nat | i < n :: rs(i).status != 401)
            || ((rs(n).status == 429 || rs(n).status >= 500) && |Throttled(rs, n)| <= 1)
  {
    CountsAreSizes(rs, n);
  }

  /** A record counts as sent on 202 alone and as too large on 413 alone; every other end is an error with its cause. */
  lemma OutcomeExactly(status: int)
    ensures Classify(status) == Sent <==> status == 202
    ensures Classify(status) == TooLarge <==> status == 413
    ensures Reason(status) == None <==> status == 202 || status == 413
    ensures Reason(status) == Some(ReauthFailed) <==> status == 401
    ensures Reason(status) == Some(MissingScope) <==> status == 403
    ensures Reason(status) == Some(Rejected) <==> status == 400 || status == 415
    ensures Reason(status) == Some(RetriesExhausted) <==> status == 429 || status >= 500
  {
  }

  /**
    What the client waits after a throttling response: the seconds of `Retry-After`; failing that
    those of `RateLimit-Reset`; failing that half a second the first time and a second the next.
  */
  lemma {:induction false} DelayExactly(rs: nat -> Response, n: nat, i: nat)
    requires i < n && (rs(i).status == 429 || rs(i).status >= 500)
    ensures var k := |Throttled(rs, i)|;
            && k < |Delays(rs, n)|
            && (rs(i).retryAfter.Seconds? ==> Delays(rs, n)[k] == rs(i).retryAfter.value)
            && (!rs(i).retryAfter.Seconds? && rs(i).rateLimitReset.Seconds? ==> Delays(rs, n)[k] == rs(i).rateLimitReset.value)
            && (!rs(i).retryAfter.Seconds? && !rs(i).rateLimitReset.Seconds? ==>
                  && (k == 0 ==> Delays(rs, n)[k] == 0.5) && (k == 1 ==> Delays(rs, n)[k] == 1.0))
  {
    CountsAreSizes(rs, i);
    assert Pow2(0) == 1 && Pow2(1) == 2;
    if n > i + 1 {
      DelayExactly(rs, n - 1, i);
    } else {
      assert Delays(rs, n) == Delays(rs, i) + [BackoffSeconds(rs(i), Waits(rs, i) + 1)];
    }
  }
}

/**
 Retrying (migration.go:462-491, 655-695; bqsink.go:738-756): an operation is attempted
 until it succeeds, fails for good or uses up its retries. The order of the answers is an
 oracle; backoff times and cancellation during them are not modelled.
 */
module Retry {
  import opened Wrappers

  /** The gRPC codes isRetryable tells apart. */
  datatype StatusCode = Unavailable | DeadlineExceeded | ResourceExhausted | Internal | Aborted | OtherStatus

  /** http is the code of the googleapi.Error in the chain, where there is one. */
  datatype Error = Error(http: Option<nat>, status: StatusCode)

  datatype Outcome = Landed | Failed(error: Error)

  predicate IsConcurrentChange(e: Error) {
    e.http == Some(412) || e.http == Some(409)
  }

  predicate IsRetryable(e: Error) {
    || IsConcurrentChange(e)
    || (e.http.Some? && e.http.value in {429, 500, 502, 503, 504})
    || !e.status.OtherStatus?
  }

  const MIGRATE_MAX_RETRIES: nat := 4

  /** A nil policy, or an attemptLimiter over an OnErrorFunc. */
  datatype Policy = RunOnce | UpTo(retryable: Error -> bool, max: nat)

  const DEFAULT_RETRY_POLICY := UpTo(IsRetryable, MIGRATE_MAX_RETRIES)

  class AttemptLimiter {
    const retryable: Error -> bool
    const max: nat
    var retries: nat

    constructor (retryable: Error -> bool, max: nat)
      ensures this.retryable == retryable && this.max == max && retries == 0
    {
      this.retryable, this.max, retries := retryable, max, 0;
    }

    method Retry(error: Error) returns (again: bool)
      modifies this
      ensures again <==> old(retries) < max && retryable(error)
      ensures retries == if old(retries) < max then old(retries) + 1 else old(retries)
    {
      if retries >= max {
        return false;
      }
      retries := retries + 1;
      return retryable(error);
    }
  }

  /** What rows are handed to: answers[k] is its answer to the k-th attempt it sees. */
  class JobLoader {
    const answers: nat -> Outcome
    var seen: seq<string>

    constructor (answers: nat -> Outcome)
      ensures this.answers == answers && seen == []
    {
      this.answers, seen := answers, [];
    }

    method Load(rows: string) returns (outcome: Outcome)
      modifies this
      ensures seen == old(seen) + [rows]
      ensures outcome == answers(|old(seen)|)
    {
      outcome := answers(|seen|);
      seen := seen + [rows];
    }
  }

  /** A later attempt follows an attempt answered so. */
  predicate Again(outcome: Outcome, retryable: Error -> bool) {
    outcome.Failed? && retryable(outcome.error)
  }

  /** How many attempts are made when the first one gets answers(from) and retries is left. */
  function Attempts(answers: nat -> Outcome, from: nat, retryable: Error -> bool, retries: nat): (n: nat)
    ensures 1 <= n <= retries + 1
    decreases retries
  {
    if retries == 0 || !Again(answers(from), retryable) then 1
    else 1 + Attempts(answers, from + 1, retryable, retries - 1)
  }

  function AttemptsUnder(policy: Policy, answers: nat -> Outcome, from: nat): nat {
    match policy
    case RunOnce => 1
    case UpTo(retryable, max) => Attempts(answers, from, retryable, max)
  }

  /**
   Attempts stop at the n-th, and at no other, exactly when every one before it failed in a
   way worth retrying and it did not, or was the last one allowed.
   */
  lemma {:induction false} StopsExactlyWhen(answers: nat -> Outcome, from: nat, retryable: Error -> bool, retries: nat, n: nat)
    ensures n == Attempts(answers, from, retryable, retries)
       <==> && 1 <= n <= retries + 1
            && (forall k | from <= k < from + n - 1 :: Again(answers(k), retryable))
            && (n == retries + 1 || !Again(answers(from + n - 1), retryable))
    decreases retries
  {
    if retries > 0 && Again(answers(from), retryable) && n > 0 {
      StopsExactlyWhen(answers, from + 1, retryable, retries - 1, n - 1);
    }
  }

  /** An answer after which the default policy tries again: a conflict, too many requests, or a fault of the server. */
  predicate WorthRetrying(outcome: Outcome) {
    outcome.Failed? &&
    (outcome.error.http in {Some(409), Some(412), Some(429), Some(500), Some(502), Some(503), Some(504)}
     || outcome.error.status in {Unavailable, DeadlineExceeded, ResourceExhausted, Internal, Aborted})
  }

  /** Under the default policy attempts stop at the n-th exactly when it is the first not worth retrying, or the fifth. */
  lemma DefaultStopsExactlyWhen(answers: nat -> Outcome, from: nat, n: nat)
    ensures n == AttemptsUnder(DEFAULT_RETRY_POLICY, answers, from)
       <==> && 1 <= n <= 5
            && (forall k | from <= k < from + n - 1 :: WorthRetrying(answers(k)))
            && (n == 5 || !WorthRetrying(answers(from + n - 1)))
  {
    StopsExactlyWhen(answers, from, IsRetryable, MIGRATE_MAX_RETRIES, n);
    assert forall outcome :: Again(outcome, IsRetryable) <==> WorthRetrying(outcome);
  }

  /** after is before and n more attempts, each with the same rows. */
  predicate Resent(before: seq<string>, after: seq<string>, rows: string, n: nat) {
    && |after| == |before| + n
    && after[..|before|] == before
    && forall i | |before| <= i < |after| :: after[i] == rows
  }

  /** The attempt loop: gax.Invoke asks the policy after each failure. */
  method Retrying(policy: Policy, loader: JobLoader, rows: string) returns (outcome: Outcome)
    modifies loader
    ensures Resent(old(loader.seen), loader.seen, rows, AttemptsUnder(policy, loader.answers, |old(loader.seen)|))
    ensures outcome == loader.answers(|loader.seen| - 1)
  {
    if policy.RunOnce? {
      outcome := loader.Load(rows);
      return;
    }
    var limiter := new AttemptLimiter(policy.retryable, policy.max);
    ghost var before, from := loader.seen, |loader.seen|;
    var attempt, again := 0, true;
    outcome := Landed;
    while again
      invariant limiter.retryable == policy.retryable && limiter.max == policy.max
      invariant Resent(before, loader.seen, rows, attempt)
      invariant again ==> limiter.retries == attempt <= policy.max
      invariant Attempts(loader.answers, from, policy.retryable, policy.max)
             == if again then attempt + Attempts(loader.answers, from + attempt, policy.retryable, policy.max - attempt)
                else attempt
      invariant !again ==> attempt >= 1 && outcome == loader.answers(from + attempt - 1)
      decreases again, policy.max - attempt
    {
      outcome := loader.Load(rows);
      attempt := attempt + 1;
      if outcome.Landed? {
        again := false;
      } else {
        again := limiter.Retry(outcome.error);
      }
    }
  }
}

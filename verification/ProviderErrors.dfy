/** The normalized provider failures and their class-level routing flags (app/providers/errors.py). */
module ProviderErrors {
  import opened Common

  datatype ProviderError =
    | RateLimited(retryAfter: Option<real>)
    | Unavailable
    | AuthFailed
    | BadRequest
    | ContextTooLong
    | ContentFiltered
    | EmptyResponse
  {
    predicate BreakerEligible() {
      RateLimited? || Unavailable? || AuthFailed?
    }

    predicate FailoverEligible() {
      BreakerEligible() || EmptyResponse?
    }

    /** Only a rate limit carries a retry hint. */
    function Hint(): Option<real> {
      if RateLimited? then retryAfter else None
    }
  }
}

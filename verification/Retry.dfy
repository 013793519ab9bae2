/** GET with retries on 429, 5xx and transport errors, with exponential backoff. */
module Retry {
  import opened Wrappers

  // What one GET gives. Transport errors carry a number that tells them apart.
  datatype Outcome = TransportError(error: int) | Response(status: int)

  // How the call ends: a response is returned, raise_for_status raised for a status, the last
  // transport error is raised again, or there was no attempt to report on.
  datatype Ending = Returned(status: int) | StatusError(status: int) | Raised(error: int) | NothingTried

  predicate Retryable(o: Outcome) {
    o.TransportError? || o.status == 429 || o.status >= 500
  }

  // raise_for_status raises unless the status is 2xx.
  predicate IsError(status: int) {
    status < 200 || 300 <= status
  }

  // How the outcome of a last attempt is passed on.
  function Settle(o: Outcome): Ending {
    match o
    case TransportError(error) => Raised(error)
    case Response(status) => if IsError(status) then StatusError(status) else Returned(status)
  }

  // The number of retryable outcomes at the start, counted up to the limit.
  function Leading(outcomes: nat -> Outcome, limit: nat): (n: nat)
    ensures n <= limit
    ensures forall k: nat | k < n :: Retryable(outcomes(k))
    ensures n < limit ==> !Retryable(outcomes(n))
  {
    if limit == 0 then 0
    else
      var n := Leading(outcomes, limit - 1);
      if n == limit - 1 && Retryable(outcomes(n)) then limit else n
  }

  // The number of attempts made when the first n outcomes are retryable.
  function Calls(n: nat, attempts: int): int { if n < attempts then n + 1 else attempts }

  function Power2(n: nat): nat { if n == 0 then 1 else 2 * Power2(n - 1) }

  // The waits after the first n attempts.
  function Delays(base: real, n: nat): real {
    if n == 0 then 0.0 else Delays(base, n - 1) + base * Power2(n - 1) as real
  }

  // base * (2^n - 1)
  lemma {:induction false} DelaysSum(base: real, n: nat)
    ensures Delays(base, n) == base * (Power2(n) - 1) as real
  {
    if n > 0 { DelaysSum(base, n - 1); }
  }

  // Attempt k of 1.. gives outcomes(k - 1). slept is the time spent between the tries.
  method GetWithRetry(outcomes: nat -> Outcome, attempts: int, baseDelay: real)
    returns (ending: Ending, calls: nat, slept: real)
    ensures attempts <= 0 ==> ending == NothingTried && calls == 0 && slept == 0.0
    ensures attempts > 0 ==>
              var n := Leading(outcomes, attempts);
              && calls == Calls(n, attempts)
              && ending == Settle(outcomes(calls - 1))
              && slept == Delays(baseDelay, calls - 1)
  {
    var lastResponse: Option<int> := None;
    var lastExc: Option<int> := None;
    calls, slept := 0, 0.0;
    if attempts <= 0 { return NothingTried, 0, 0.0; }
    for attempt := 1 to attempts + 1
      invariant calls == attempt - 1
      invariant forall k: nat | k < calls :: Retryable(outcomes(k))
      invariant calls > 0 ==> lastResponse.Some? != lastExc.Some?
      invariant calls > 0 ==> outcomes(calls - 1) == (if lastExc.Some? then TransportError(lastExc.value)
                                                      else Response(lastResponse.value))
      invariant slept == Delays(baseDelay, if calls < attempts then calls else attempts - 1)
    {
      var outcome := outcomes(calls);
      calls := calls + 1;
      match outcome {
        case TransportError(error) =>
          lastExc, lastResponse := Some(error), None;
        case Response(status) =>
          if status != 429 && status < 500 {
            LeadingIs(outcomes, attempts, calls - 1);
            ending := if IsError(status) then StatusError(status) else Returned(status);
            return;
          }
          lastResponse, lastExc := Some(status), None;
      }
      if attempt < attempts {
        slept := slept + baseDelay * Power2(attempt - 1) as real;
      }
    }
    AllLeading(outcomes, attempts);
    if lastResponse.Some? {
      ending := if IsError(lastResponse.value) then StatusError(lastResponse.value) else Returned(lastResponse.value);
    } else {
      ending := Raised(lastExc.value);
    }
  }

  // The outcome that decides how the call ends: the first that is not retried, or the last.
  function Deciding(outcomes: nat -> Outcome, attempts: nat): Outcome
    requires attempts > 0
  {
    outcomes(Calls(Leading(outcomes, attempts), attempts) - 1)
  }

  // The call returns a response exactly when the deciding outcome is one with a 2xx status; any other
  // response is raised.
  lemma ReturnedIff(outcomes: nat -> Outcome, attempts: nat, status: int)
    requires attempts > 0
    ensures Settle(Deciding(outcomes, attempts)) == Returned(status)
       <==> Deciding(outcomes, attempts) == Response(status) && 200 <= status < 300
    ensures Settle(Deciding(outcomes, attempts)) == StatusError(status)
       <==> Deciding(outcomes, attempts) == Response(status) && !(200 <= status < 300)
  {}

  // With the statuses written out: what is tried again is a transport error, a 429 or a 5xx.
  ghost predicate Transient(o: Outcome) {
    match o
    case TransportError(_) => true
    case Response(status) => status == 429 || 500 <= status
  }

  // The call ends at the first outcome that is not transient, as soon as it comes.
  lemma EndsAtFirst(outcomes: nat -> Outcome, attempts: nat, n: nat)
    requires n < attempts && !Transient(outcomes(n)) && forall k: nat | k < n :: Transient(outcomes(k))
    ensures Calls(Leading(outcomes, attempts), attempts) == n + 1 && Deciding(outcomes, attempts) == outcomes(n)
  {
    LeadingIs(outcomes, attempts, n);
  }

  // If all are transient, every attempt is made and the last outcome decides: a transport error is raised
  // again, and a 429 or 5xx raised for its status.
  lemma EndsExhausted(outcomes: nat -> Outcome, attempts: nat)
    requires attempts > 0 && forall k: nat | k < attempts :: Transient(outcomes(k))
    ensures Calls(Leading(outcomes, attempts), attempts) == attempts
    ensures Settle(Deciding(outcomes, attempts))
         == match outcomes(attempts - 1)
            case TransportError(error) => Raised(error)
            case Response(status) => StatusError(status)
  {
    AllLeading(outcomes, attempts);
  }

  // The docstring has a 404 returned: whenever it comes it is neither retried nor returned, but raised.
  lemma NotFoundIsRaised(outcomes: nat -> Outcome, attempts: nat, n: nat)
    requires n < attempts && outcomes(n) == Response(404) && forall k: nat | k < n :: Retryable(outcomes(k))
    ensures Calls(Leading(outcomes, attempts), attempts) == n + 1
    ensures Settle(Deciding(outcomes, attempts)) == StatusError(404)
  {
    LeadingIs(outcomes, attempts, n);
  }

  lemma {:induction false} AllLeading(outcomes: nat -> Outcome, limit: nat)
    requires forall k: nat | k < limit :: Retryable(outcomes(k))
    ensures Leading(outcomes, limit) == limit
  {
    if limit > 0 { AllLeading(outcomes, limit - 1); }
  }

  lemma {:induction false} LeadingIs(outcomes: nat -> Outcome, limit: nat, n: nat)
    requires n < limit && !Retryable(outcomes(n)) && forall k: nat | k < n :: Retryable(outcomes(k))
    ensures Leading(outcomes, limit) == n
  {
    if n == limit - 1 { AllLeading(outcomes, n); } else { LeadingIs(outcomes, limit - 1, n); }
  }
}

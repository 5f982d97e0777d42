/** The retry policy wrapped around every ESearch and EFetch call: at most
    `MaxAttempts` attempts, a retry only after a transport failure (the
    `RequestException` class, which a 4xx/5xx status also raises), and any
    other exception passed on at once. The fixed wait between attempts is
    not modelled; only attempts are counted. */
module Retry {

  /** How one attempt at a remote call ends. */
  datatype Attempt<T> =
    | Ok(value: T)   // the call returned
    | Transient      // a RequestException: connection error, timeout, 4xx/5xx status
    | Other          // any other exception: not retried

  /** Why a call, or the resolution of one gene, failed. */
  datatype Fault =
    | RetriesExhausted   // the sixth attempt failed transiently (tenacity's RetryError)
    | Propagated         // a non-retryable exception from the call itself
    | Malformed          // the response could not be read (JSON lookup or XML parse)

  /** The outcome of a whole retried call. */
  datatype CallResult<T> = Done(value: T) | Failed(fault: Fault)

  /** stop_after_attempt(6) */
  const MaxAttempts: nat := 6

  /** The outcome of the call when attempt number `k` (1-based) is the next
      one to be made and every earlier one failed transiently. */
  function RetryFrom<T>(attempt: nat -> Attempt<T>, k: nat): (r: CallResult<T>)
    requires 1 <= k <= MaxAttempts
    ensures r.Done? ==> exists n :: k <= n <= MaxAttempts && attempt(n) == Ok(r.value)
    ensures r.Failed? ==> r.fault == RetriesExhausted || r.fault == Propagated
    ensures r == Failed(RetriesExhausted) ==> attempt(MaxAttempts).Transient?
    decreases MaxAttempts - k
  {
    match attempt(k)
    case Ok(v) => Done(v)
    case Other => Failed(Propagated)
    case Transient => if k == MaxAttempts then Failed(RetriesExhausted) else RetryFrom(attempt, k + 1)
  }

  /** The outcome of a retried call whose `k`-th attempt ends as `attempt(k)`. */
  function Retried<T>(attempt: nat -> Attempt<T>): (r: CallResult<T>)
    ensures r.Done? ==> exists n :: 1 <= n <= MaxAttempts && attempt(n) == Ok(r.value)
    ensures r.Failed? ==> r.fault == RetriesExhausted || r.fault == Propagated
  {
    RetryFrom(attempt, 1)
  }

  /** The number of the attempt that settles the call: the first one that does
      not fail transiently, or the last one allowed. */
  function SettlingFrom<T>(attempt: nat -> Attempt<T>, k: nat): (n: nat)
    requires 1 <= k <= MaxAttempts
    ensures k <= n <= MaxAttempts
    ensures forall j :: k <= j < n ==> attempt(j).Transient?
    ensures n < MaxAttempts ==> !attempt(n).Transient?
    decreases MaxAttempts - k
  {
    if attempt(k).Transient? && k < MaxAttempts then SettlingFrom(attempt, k + 1) else k
  }

  /** The outcome of a retried call is decided by its settling attempt alone:
      that attempt's value if it returned, the exception itself if it was not
      retryable, and exhaustion if even the last allowed attempt failed
      transiently. */
  lemma {:induction false} RetryFromSettles<T>(attempt: nat -> Attempt<T>, k: nat)
    requires 1 <= k <= MaxAttempts
    ensures var n := SettlingFrom(attempt, k);
      RetryFrom(attempt, k) ==
        match attempt(n)
        case Ok(v) => Done(v)
        case Other => Failed(Propagated)
        case Transient => Failed(RetriesExhausted)
    decreases MaxAttempts - k
  {
    if attempt(k).Transient? && k < MaxAttempts {
      RetryFromSettles(attempt, k + 1);
    }
  }

  /** An attempt that does not fail transiently, after attempts that all did,
      is the settling attempt. */
  lemma {:induction false} SettlingAt<T>(attempt: nat -> Attempt<T>, k: nat, n: nat)
    requires 1 <= k <= n <= MaxAttempts
    requires !attempt(n).Transient?
    requires forall j :: k <= j < n ==> attempt(j).Transient?
    ensures SettlingFrom(attempt, k) == n
    decreases n - k
  {
    if k < n {
      SettlingAt(attempt, k + 1, n);
    }
  }

  /** A transport that fails transiently on every attempt is tried exactly
      `MaxAttempts` times and the call then fails with exhaustion. */
  lemma AlwaysTransientExhausts<T>(attempt: nat -> Attempt<T>)
    requires forall k :: 1 <= k <= MaxAttempts ==> attempt(k).Transient?
    ensures SettlingFrom(attempt, 1) == MaxAttempts
    ensures Retried(attempt) == Failed(RetriesExhausted)
  {
    RetryFromSettles(attempt, 1);
  }

  /** A retried call fails with exhaustion iff every allowed attempt failed
      transiently. */
  lemma {:induction false} RetriedExhausts<T>(attempt: nat -> Attempt<T>)
    ensures Retried(attempt) == Failed(RetriesExhausted) <==>
      forall k :: 1 <= k <= MaxAttempts ==> attempt(k).Transient?
  {
    RetryFromSettles(attempt, 1);
  }

  /** A retried call returns a value iff some allowed attempt returned it and
      every attempt before that one failed transiently. */
  lemma {:induction false} RetriedDone<T>(attempt: nat -> Attempt<T>, v: T)
    ensures Retried(attempt) == Done(v) <==>
      exists n :: 1 <= n <= MaxAttempts && attempt(n) == Ok(v) &&
        forall j :: 1 <= j < n ==> attempt(j).Transient?
  {
    RetryFromSettles(attempt, 1);
    if n :| 1 <= n <= MaxAttempts && attempt(n) == Ok(v) && forall j :: 1 <= j < n ==> attempt(j).Transient? {
      SettlingAt(attempt, 1, n);
    }
  }

  /** A retried call ends in the caller's exception only when an allowed
      attempt raised a non-retryable exception after transient failures only:
      such an exception is never retried. */
  lemma {:induction false} RetriedPropagates<T>(attempt: nat -> Attempt<T>)
    ensures Retried(attempt) == Failed(Propagated) <==>
      exists n :: 1 <= n <= MaxAttempts && attempt(n).Other? &&
        forall j :: 1 <= j < n ==> attempt(j).Transient?
  {
    RetryFromSettles(attempt, 1);
    if n :| 1 <= n <= MaxAttempts && attempt(n).Other? && forall j :: 1 <= j < n ==> attempt(j).Transient? {
      SettlingAt(attempt, 1, n);
    }
  }

  /** The attempt loop of the retry decorator: makes attempts until one does
      not fail transiently or the ceiling is reached, and reports how many
      attempts it made. */
  method CallWithRetry<T>(attempt: nat -> Attempt<T>) returns (r: CallResult<T>, tries: nat)
    ensures 1 <= tries <= MaxAttempts
    ensures forall j :: 1 <= j < tries ==> attempt(j).Transient?
    ensures r.Done? <==> attempt(tries).Ok?
    ensures r.Done? ==> r.value == attempt(tries).value
    ensures r == Failed(Propagated) <==> attempt(tries).Other?
    ensures r == Failed(RetriesExhausted) <==> tries == MaxAttempts && attempt(tries).Transient?
    ensures r == Retried(attempt) && tries == SettlingFrom(attempt, 1)
  {
    tries := 1;
    while true
      invariant 1 <= tries <= MaxAttempts
      invariant forall j :: 1 <= j < tries ==> attempt(j).Transient?
      invariant RetryFrom(attempt, tries) == Retried(attempt)
      invariant SettlingFrom(attempt, tries) == SettlingFrom(attempt, 1)
      decreases MaxAttempts - tries
    {
      match attempt(tries)
      case Ok(v) =>
        return Done(v), tries;
      case Other =>
        return Failed(Propagated), tries;
      case Transient =>
        if tries == MaxAttempts {
          return Failed(RetriesExhausted), tries;
        }
        tries := tries + 1;
    }
  }
}

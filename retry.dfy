/** The `backoff.on_exception` decorators: an operation is attempted again only when it
    raised one of RETRIABLE_EXCEPTIONS, and at most `maxTries` times in all; the fault of
    the last attempt is then raised unchanged. The waiting between attempts is not part
    of this model. `attempt(i)` is what the i-th attempt (from 0) returns or raises. */
module Retry {
  import opened Common

  /** max_tries of every decorated operation except `exists`. */
  const DefaultTries: nat := 10
  /** max_tries of `exists`, which serves a user-facing read path. */
  const ExistsTries: nat := 4

  /** An attempt that the decorator answers by trying again. */
  predicate Retries<T>(o: Result<T>) {
    o.Failure? && Retriable(o.error)
  }

  /** The outcome of the attempts from number `i` on, with the number of attempts made in
      all: the first attempt that succeeds or raises a non-retriable fault decides, unless
      the budget runs out first, in which case the last attempt's fault is raised. */
  function Attempts<T>(maxTries: nat, attempt: nat -> Result<T>, i: nat): (r: (Result<T>, nat))
    requires i < maxTries
    ensures i < r.1 <= maxTries
    ensures r.0 == attempt(r.1 - 1)
    ensures forall j :: i <= j < r.1 - 1 ==> Retries(attempt(j))
    ensures r.1 < maxTries ==> !Retries(r.0)
    decreases maxTries - i
  {
    var o := attempt(i);
    if Retries(o) && i + 1 < maxTries then Attempts(maxTries, attempt, i + 1) else (o, i + 1)
  }

  function Backoff<T>(maxTries: nat, attempt: nat -> Result<T>): (r: (Result<T>, nat))
    requires maxTries >= 1
  {
    Attempts(maxTries, attempt, 0)
  }

  /** The decorator as a loop: call the operation until it settles or the budget is spent. */
  method Run<T>(maxTries: nat, attempt: nat -> Result<T>) returns (r: Result<T>, tries: nat)
    requires maxTries >= 1
    ensures (r, tries) == Backoff(maxTries, attempt)
  {
    r := attempt(0);
    tries := 1;
    while Retries(r) && tries < maxTries
      invariant 1 <= tries <= maxTries
      invariant r == attempt(tries - 1)
      invariant Attempts(maxTries, attempt, tries - 1) == Backoff(maxTries, attempt)
    {
      r := attempt(tries);
      tries := tries + 1;
    }
  }

  /** The attempt that decides is the first one that is not retried. */
  lemma BackoffSettlesAtFirst<T>(maxTries: nat, attempt: nat -> Result<T>, k: nat)
    requires k < maxTries
    requires !Retries(attempt(k))
    requires forall j :: 0 <= j < k ==> Retries(attempt(j))
    ensures Backoff(maxTries, attempt) == (attempt(k), k + 1)
  {
  }

  /** Retry exhaustion: an operation that raises a retriable fault every time is attempted
      exactly `maxTries` times, and the last fault is raised. */
  lemma BackoffExhausts<T>(maxTries: nat, attempt: nat -> Result<T>)
    requires maxTries >= 1
    requires forall j :: 0 <= j < maxTries ==> Retries(attempt(j))
    ensures Backoff(maxTries, attempt) == (attempt(maxTries - 1), maxTries)
    ensures Backoff(maxTries, attempt).0.Failure? && Retriable(Backoff(maxTries, attempt).0.error)
  {
  }
}

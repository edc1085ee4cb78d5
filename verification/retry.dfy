/** The `retry` decorator: what a run of the retrying wrapper may look like,
    stated over the outcomes of the calls it made and the sleeps between
    them. The loop itself wraps the driver's refresh (see Drivers). */
module Retry {
  import opened Outcomes

  /** The decorator's defaults: four tries, three seconds, doubling. */
  const DefaultTries: int := 4
  const DefaultDelay: real := 3.0
  const DefaultBackoff: real := 2.0

  /** How many calls the wrapper makes at most: `tries`, but never fewer
      than the one final call after the loop. */
  function Budget(tries: int): (n: nat)
    ensures n >= 1 && n >= tries
    ensures n == 1 || n == tries
  {
    if tries > 1 then tries else 1
  }

  function Power(b: real, k: nat): real {
    if k == 0 then 1.0 else b * Power(b, k - 1)
  }

  /** The k-th sleep, counting from 0: the delay multiplied k times by the
      backoff. */
  function DelayAt(delay: real, backoff: real, k: nat): real {
    delay * Power(backoff, k)
  }

  /** The first n sleeps. */
  function Delays(delay: real, backoff: real, n: nat): (ds: seq<real>)
    ensures |ds| == n
    ensures forall k :: 0 <= k < n ==> ds[k] == DelayAt(delay, backoff, k)
  {
    if n == 0 then [] else Delays(delay, backoff, n - 1) + [DelayAt(delay, backoff, n - 1)]
  }

  /** The delay after one more sleep, and the sleeps so far with it. */
  lemma NextDelay(delay: real, backoff: real, n: nat)
    ensures DelayAt(delay, backoff, n) * backoff == DelayAt(delay, backoff, n + 1)
    ensures Delays(delay, backoff, n + 1) == Delays(delay, backoff, n) + [DelayAt(delay, backoff, n)]
  {
    var p := Power(backoff, n);
    assert Power(backoff, n + 1) == backoff * p;
    assert delay * p * backoff == delay * (backoff * p);
  }

  /** An outcome after which the wrapper makes no further call: a return,
      or an exception it does not catch. */
  predicate Stops<T>(o: Outcome<T>, catches: Error -> bool) {
    o.Returned? || !catches(o.error)
  }

  /** The outcomes of the calls of one run of the wrapper, in order: within
      the budget, every call but the last raised an exception the wrapper
      catches, and the last one either stops the wrapper or used up the
      budget. The run returns or raises what the last call did. */
  predicate Retried<T>(calls: seq<Outcome<T>>, tries: int, catches: Error -> bool) {
    && 1 <= |calls| <= Budget(tries)
    && (forall k :: 0 <= k < |calls| - 1 ==> calls[k].Raised? && catches(calls[k].error))
    && (Stops(calls[|calls| - 1], catches) || |calls| == Budget(tries))
  }

  /** Given the outcomes the wrapped function would produce call after call,
      the run is determined: no run is a proper prefix of another. */
  lemma RetriedIsDetermined<T>(a: seq<Outcome<T>>, b: seq<Outcome<T>>, tries: int,
                                                 catches: Error -> bool)
    requires Retried(a, tries, catches) && Retried(b, tries, catches)
    requires a <= b
    ensures a == b
  {
  }

  /** The first call that returns ends the run, and its value is what the
      wrapper returns. */
  lemma FirstReturnEndsRun<T>(calls: seq<Outcome<T>>, tries: int, catches: Error -> bool, k: nat)
    requires Retried(calls, tries, catches)
    requires k < |calls| && calls[k].Returned?
    ensures k == |calls| - 1
    ensures calls[|calls| - 1] == Returned(calls[k].value)
  {
  }

  /** A run in which no call returns and every exception is caught makes all
      the calls of the budget and raises the exception of the final one. */
  lemma ExhaustionRaisesLast<T>(calls: seq<Outcome<T>>, tries: int, catches: Error -> bool)
    requires Retried(calls, tries, catches)
    requires forall k :: 0 <= k < |calls| ==> calls[k].Raised? && catches(calls[k].error)
    ensures |calls| == Budget(tries)
    ensures calls[|calls| - 1] == Raised(calls[Budget(tries) - 1].error)
  {
  }

  /** Every call but the last is followed by one sleep, so a run sleeps at
      most `tries - 1` times. */
  lemma SleepsWithinBudget<T>(calls: seq<Outcome<T>>, tries: int, catches: Error -> bool, delay: real, backoff: real)
    requires Retried(calls, tries, catches)
    ensures |Delays(delay, backoff, |calls| - 1)| <= Budget(tries) - 1
    ensures tries >= 1 ==> |Delays(delay, backoff, |calls| - 1)| <= tries - 1
  {
  }

  /** With a backoff of at least 1 the delays never shrink. */
  lemma DelaysGrow(delay: real, backoff: real, n: nat)
    requires delay >= 0.0 && backoff >= 1.0
    ensures forall k :: 0 <= k < n - 1 ==> Delays(delay, backoff, n)[k] <= Delays(delay, backoff, n)[k + 1]
  {
    forall k | 0 <= k < n - 1 ensures Delays(delay, backoff, n)[k] <= Delays(delay, backoff, n)[k + 1] {
      DelayGrows(delay, backoff, k);
    }
  }

  /** One sleep is at least as long as the one before it. */
  lemma DelayGrows(delay: real, backoff: real, k: nat)
    requires delay >= 0.0 && backoff >= 1.0
    ensures DelayAt(delay, backoff, k) <= DelayAt(delay, backoff, k + 1)
  {
    var p := Power(backoff, k);
    PowerPositive(backoff, k);
    assert Power(backoff, k + 1) == backoff * p;
    ScaleMonotone(p, 1.0, backoff);
    assert p <= backoff * p;
    ScaleMonotone(delay, p, backoff * p);
  }

  lemma {:induction false} PowerPositive(b: real, k: nat)
    requires b >= 1.0
    ensures Power(b, k) >= 1.0
  {
    if k > 0 {
      PowerPositive(b, k - 1);
    }
  }

  lemma ScaleMonotone(x: real, y: real, z: real)
    requires x >= 0.0 && y <= z
    ensures x * y <= x * z
  {
    assert x * z - x * y == x * (z - y);
  }
}

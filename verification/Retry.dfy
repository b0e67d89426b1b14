/** Retry delays (include/resilience/RetryPolicy.hpp). A random draw is any whole delay up to the backoff. */
module Retry {

  function Pow2(n: nat): (p: nat)
    ensures p >= 1
  {
    if n == 0 then 1 else 2 * Pow2(n - 1)
  }

  function Backoff(base: nat, cap: nat, attempt: nat): nat {
    var full := base * Pow2(attempt);
    if full < cap then full else cap
  }

  predicate IsRetryable(status: int) {
    status < 0 || status == 502 || status == 503 || status == 504
  }

  /** The most that sleeping before retries 0 .. n-1 can take. */
  function TotalBackoff(base: nat, cap: nat, n: nat): nat {
    if n == 0 then 0 else TotalBackoff(base, cap, n - 1) + Backoff(base, cap, n - 1)
  }

  /** Each backoff is twice the one before, up to the cap. */
  lemma BackoffDoubles(base: nat, cap: nat, n: nat)
    ensures Backoff(base, cap, 0) == if base < cap then base else cap
    ensures var twice := 2 * Backoff(base, cap, n); Backoff(base, cap, n + 1) == if twice < cap then twice else cap
  {
    Doubled(base, Pow2(n));
  }

  lemma Doubled(base: int, p: int)
    ensures base * (2 * p) == 2 * (base * p)
    ensures base * (2 * p - 1) == base * (p - 1) + base * p
  {
  }

  lemma {:induction false} TotalBelowCaps(base: nat, cap: nat, n: nat)
    ensures TotalBackoff(base, cap, n) <= n * cap
  {
    if n == 0 {
    } else {
      TotalBelowCaps(base, cap, n - 1);
      assert n * cap == (n - 1) * cap + cap;
    }
  }

  /** The total is bounded by the cap and by the geometric sum, which it reaches exactly if no delay is cut by the cap. */
  lemma {:induction false} TotalBackoffBound(base: nat, cap: nat, n: nat)
    ensures TotalBackoff(base, cap, n) <= n * cap
    ensures TotalBackoff(base, cap, n) <= base * (Pow2(n) - 1)
    ensures TotalBackoff(base, cap, n) == base * (Pow2(n) - 1) <==> n == 0 || base * Pow2(n - 1) <= cap
  {
    TotalBelowCaps(base, cap, n);
    if n == 0 {
    } else {
      TotalBackoffBound(base, cap, n - 1);
      Doubled(base, Pow2(n - 1));
      if n > 1 { Doubled(base, Pow2(n - 2)); }
    }
  }

  lemma {:induction false} TotalBackoffGrows(base: nat, cap: nat, m: nat, n: nat)
    requires m <= n
    ensures TotalBackoff(base, cap, m) <= TotalBackoff(base, cap, n)
    decreases n
  {
    if m == n {
    } else {
      TotalBackoffGrows(base, cap, m, n - 1);
    }
  }
}

/**
 Retry with capped exponential backoff (crates/ingest-core/src/retry.rs).  The outcomes of the
 attempts and the random jitters are inputs; sleeping is the list of delays that were slept.
 */
module Retry {
  datatype RetryConfig = RetryConfig(maxRetries: nat, baseDelayMs: nat, maxDelayMs: nat, jitterFactor: real)

  const DEFAULT_CONFIG := RetryConfig(5, 250, 10000, 0.2)

  datatype Attempt<+T, +E> = Ok(value: T) | Err(error: E)

  function Pow2(n: nat): (r: nat)
    ensures r >= 1
  {
    if n == 0 then 1 else 2 * Pow2(n - 1)
  }

  /** The delay before randomisation, in milliseconds. */
  function Capped(c: RetryConfig, attempt: nat): real {
    var expDelay := c.baseDelayMs * Pow2(attempt);
    if expDelay <= c.maxDelayMs then expDelay as real else c.maxDelayMs as real
  }

  /** The jitter the random generator may draw for this attempt. */
  predicate JitterInRange(c: RetryConfig, attempt: nat, jitter: real) {
    -Capped(c, attempt) * c.jitterFactor <= jitter <= Capped(c, attempt) * c.jitterFactor
  }

  /** Truncation to whole milliseconds of a delay that is never negative. */
  function DelayMs(c: RetryConfig, attempt: nat, jitter: real): nat {
    var d := Capped(c, attempt) + jitter;
    if d <= 0.0 then 0 else d.Floor
  }

  method RetryWithBackoff<T, E>(c: RetryConfig, outcomes: seq<Attempt<T, E>>, shouldRetry: E -> bool, jitters: seq<real>)
    returns (result: Attempt<T, E>, delays: seq<nat>)
    requires |outcomes| == c.maxRetries + 1 && |jitters| == c.maxRetries
    ensures |delays| <= c.maxRetries && result == outcomes[|delays|]
    ensures forall k :: 0 <= k < |delays| ==> outcomes[k].Err? && shouldRetry(outcomes[k].error)
    ensures result.Ok? || |delays| == c.maxRetries || !shouldRetry(result.error)
    ensures forall k :: 0 <= k < |delays| ==> delays[k] == DelayMs(c, k, jitters[k])
  {
    delays := [];
    var attempt := 0;
    while true
      invariant attempt == |delays| <= c.maxRetries
      invariant forall k :: 0 <= k < attempt ==> outcomes[k].Err? && shouldRetry(outcomes[k].error)
      invariant forall k :: 0 <= k < attempt ==> delays[k] == DelayMs(c, k, jitters[k])
      decreases c.maxRetries - attempt
    {
      match outcomes[attempt] {
        case Ok(v) =>
          return Ok(v), delays;
        case Err(e) =>
          if attempt >= c.maxRetries || !shouldRetry(e) {
            return Err(e), delays;
          }
          delays := delays + [DelayMs(c, attempt, jitters[attempt])];
          attempt := attempt + 1;
      }
    }
  }

  function Sum(xs: seq<nat>): nat {
    if xs == [] then 0 else Sum(xs[..|xs| - 1]) + xs[|xs| - 1]
  }

  lemma {:induction false} DelayBound(c: RetryConfig, attempt: nat, jitter: real)
    requires c.jitterFactor >= 0.0 && JitterInRange(c, attempt, jitter)
    ensures DelayMs(c, attempt, jitter) as real <= (1.0 + c.jitterFactor) * Capped(c, attempt)
  {
    assert Capped(c, attempt) * c.jitterFactor >= 0.0;
  }

  /** The backoff is exponential up to the maximum: it starts at the base and doubles. */
  lemma {:induction false} CappedDoubles(c: RetryConfig, attempt: nat)
    ensures Capped(c, 0) == if c.baseDelayMs <= c.maxDelayMs then c.baseDelayMs as real else c.maxDelayMs as real
    ensures var doubled := 2.0 * Capped(c, attempt);
      Capped(c, attempt + 1) == if doubled <= c.maxDelayMs as real then doubled else c.maxDelayMs as real
  {
    assert c.baseDelayMs * Pow2(attempt + 1) == 2 * (c.baseDelayMs * Pow2(attempt));
  }

  /**
   The slept milliseconds are the jittered delay without its fraction, 0 when it is negative, which a jitter
   factor of at most 1 excludes.
   */
  lemma {:induction false} DelayIsJittered(c: RetryConfig, attempt: nat, jitter: real)
    requires c.jitterFactor >= 0.0 && JitterInRange(c, attempt, jitter)
    ensures var delay, jittered := DelayMs(c, attempt, jitter) as real, Capped(c, attempt) + jitter;
      && (jittered >= 0.0 ==> delay <= jittered < delay + 1.0)
      && (jittered < 0.0 ==> delay == 0.0)
    ensures Capped(c, attempt) * (1.0 - c.jitterFactor) - 1.0 < DelayMs(c, attempt, jitter) as real
    ensures DelayMs(c, attempt, jitter) as real <= Capped(c, attempt) * (1.0 + c.jitterFactor)
    ensures c.jitterFactor <= 1.0 ==> Capped(c, attempt) + jitter >= 0.0
  {
    WholePart(c, attempt, jitter);
    CappedNonnegative(c, attempt);
    hide Capped, DelayMs;
    var x, range := Capped(c, attempt), Capped(c, attempt) * c.jitterFactor;
    Factors(x, c.jitterFactor);
    ProductNonnegative(x, c.jitterFactor);
    assert -range <= jitter <= range;
    if c.jitterFactor <= 1.0 {
      ProductNonnegative(x, 1.0 - c.jitterFactor);
      assert x - range >= 0.0;
    }
  }

  lemma {:induction false} WholePart(c: RetryConfig, attempt: nat, jitter: real)
    ensures var delay, jittered := DelayMs(c, attempt, jitter) as real, Capped(c, attempt) + jitter;
      && (jittered >= 0.0 ==> delay <= jittered < delay + 1.0)
      && (jittered < 0.0 ==> delay == 0.0)
  {
    hide Capped;
  }

  lemma {:induction false} CappedNonnegative(c: RetryConfig, attempt: nat)
    ensures Capped(c, attempt) >= 0.0
  {
  }

  lemma {:induction false} ProductNonnegative(x: real, y: real)
    requires x >= 0.0 && y >= 0.0
    ensures x * y >= 0.0
  {
  }

  lemma {:induction false} Factors(x: real, j: real)
    ensures -x * j == -(x * j)
    ensures x * (1.0 - j) == x - x * j
    ensures x * (1.0 + j) == x + x * j
  {
  }

  /** By default a slot is attempted at most six times, and its retry `k` waits 250 * 2^k ms, 20 % more or less. */
  lemma {:induction false} DefaultDelays(attempt: nat, jitter: real)
    requires attempt < 5 && JitterInRange(DEFAULT_CONFIG, attempt, jitter)
    ensures DEFAULT_CONFIG == RetryConfig(5, 250, 10000, 0.2)
    ensures var nominal := [250.0, 500.0, 1000.0, 2000.0, 4000.0][attempt];
      && -0.2 * nominal <= jitter <= 0.2 * nominal
      && DelayMs(DEFAULT_CONFIG, attempt, jitter) == (nominal + jitter).Floor
  {
    assert Pow2(1) == 2;
    assert Pow2(2) == 4;
    assert Pow2(3) == 8;
    assert Pow2(4) == 16;
  }

  // ---------------- How long one slot can sleep ----------------

  ghost function RealSum(xs: seq<real>): real {
    if xs == [] then 0.0 else RealSum(xs[..|xs| - 1]) + xs[|xs| - 1]
  }

  /** The capped delays of the first `k` retries. */
  ghost function CappedDelays(c: RetryConfig, k: nat): seq<real> {
    seq(k, i requires 0 <= i < k => Capped(c, i))
  }

  /** The smaller of base * (2^k - 1) and k * max. */
  function DelayLimit(c: RetryConfig, k: nat): nat {
    var exponential, flat := c.baseDelayMs * (Pow2(k) - 1), c.maxDelayMs * k;
    if exponential <= flat then exponential else flat
  }

  lemma {:induction false} CappedSumBound(c: RetryConfig, k: nat)
    ensures RealSum(CappedDelays(c, k)) <= DelayLimit(c, k) as real
  {
    ExponentialBound(c, k);
    FlatBound(c, k);
  }

  lemma {:induction false} ExponentialBound(c: RetryConfig, k: nat)
    ensures RealSum(CappedDelays(c, k)) <= (c.baseDelayMs * (Pow2(k) - 1)) as real
  {
    if k > 0 {
      ExponentialBound(c, k - 1);
      assert CappedDelays(c, k)[..k - 1] == CappedDelays(c, k - 1);
      DistributeNat(c.baseDelayMs, Pow2(k - 1) - 1, Pow2(k - 1));
    }
  }

  lemma {:induction false} FlatBound(c: RetryConfig, k: nat)
    ensures RealSum(CappedDelays(c, k)) <= (c.maxDelayMs * k) as real
  {
    if k > 0 {
      FlatBound(c, k - 1);
      assert CappedDelays(c, k)[..k - 1] == CappedDelays(c, k - 1);
      DistributeNat(c.maxDelayMs, k - 1, 1);
    }
  }

  lemma {:induction false} DistributeNat(a: nat, x: nat, y: nat)
    ensures a * (x + y) == a * x + a * y
  {
  }

  /** Every delay is at most `f` times its capped delay. */
  ghost predicate Within(f: real, caps: seq<real>, delays: seq<nat>) {
    |caps| == |delays| && forall k :: 0 <= k < |caps| ==> delays[k] as real <= f * caps[k]
  }

  lemma {:induction false} SumScaled(f: real, caps: seq<real>, delays: seq<nat>)
    requires Within(f, caps, delays)
    ensures Sum(delays) as real <= f * RealSum(caps)
    decreases |delays|
  {
    if delays != [] {
      var n := |delays| - 1;
      SumScaled(f, caps[..n], delays[..n]);
      assert f * (RealSum(caps[..n]) + caps[n]) == f * RealSum(caps[..n]) + f * caps[n];
    }
  }

  /** The sleeps of k retries add up to at most (1 + jitter) * min(base * (2^k - 1), k * max) milliseconds. */
  lemma {:induction false} TotalDelayBound(c: RetryConfig, jitters: seq<real>, delays: seq<nat>, f: real, limit: real)
    requires c.jitterFactor >= 0.0 && |delays| <= |jitters|
    requires forall k :: 0 <= k < |delays| ==> JitterInRange(c, k, jitters[k]) && delays[k] == DelayMs(c, k, jitters[k])
    requires f == 1.0 + c.jitterFactor && limit == DelayLimit(c, |delays|) as real
    ensures Sum(delays) as real <= f * limit
  {
    EachDelayBound(c, jitters, delays, f);
    assert RealSum(CappedDelays(c, |delays|)) <= limit by { CappedSumBound(c, |delays|); }
    SumBelowLimit(f, CappedDelays(c, |delays|), delays, limit);
  }

  lemma {:induction false} EachDelayBound(c: RetryConfig, jitters: seq<real>, delays: seq<nat>, f: real)
    requires c.jitterFactor >= 0.0 && f == 1.0 + c.jitterFactor && |delays| <= |jitters|
    requires forall k :: 0 <= k < |delays| ==> JitterInRange(c, k, jitters[k]) && delays[k] == DelayMs(c, k, jitters[k])
    ensures Within(f, CappedDelays(c, |delays|), delays)
  {
    hide Capped, DelayMs, JitterInRange;
    forall k | 0 <= k < |delays| ensures delays[k] as real <= f * CappedDelays(c, |delays|)[k] {
      DelayBound(c, k, jitters[k]);
    }
  }

  lemma {:induction false} SumBelowLimit(f: real, caps: seq<real>, delays: seq<nat>, limit: real)
    requires f >= 0.0 && RealSum(caps) <= limit
    requires Within(f, caps, delays)
    ensures Sum(delays) as real <= f * limit
  {
    SumScaled(f, caps, delays);
    ScaleUp(f, RealSum(caps), limit, Sum(delays) as real);
  }

  lemma {:induction false} ScaleUp(f: real, x: real, y: real, a: real)
    requires f >= 0.0 && x <= y && a <= f * x
    ensures a <= f * y
  {
    assert f * (y - x) >= 0.0;
  }
}

/**
 The token bucket (crates/ingest-core/src/rate_limiter.rs).  Times are seconds as reals and arrive
 from outside; the mutex makes each pass through the critical section one call of `Poll`.  The
 sequence of all polls, by whichever callers, is what the whole-run statements are about.

 The specification measures time on the refill clock: a reading is the time multiplied by the
 rate, so that the difference of two readings is the number of tokens that flow in between them.
 */
module RateLimiter {
  import opened Numbers

  datatype Bucket = Bucket(tokens: real, reading: real)

  function Refilled(capacity: real, b: Bucket, reading: real): real {
    MinReal(b.tokens + (reading - b.reading), capacity)
  }

  predicate Grants(capacity: real, b: Bucket, reading: real) { Refilled(capacity, b, reading) >= 1.0 }

  function Next(capacity: real, b: Bucket, reading: real): Bucket {
    Bucket(Refilled(capacity, b, reading) - if Grants(capacity, b, reading) then 1.0 else 0.0, reading)
  }

  /** The tokens that flow in during `seconds`; of a time, its reading on the refill clock. */
  function Inflow(rate: real, seconds: real): real { seconds * rate }

  lemma {:induction false} InflowBetween(rate: real, t: real, u: real)
    ensures Inflow(rate, u) - Inflow(rate, t) == (u - t) * rate
  {
  }

  lemma {:induction false} InflowMonotone(t: real, u: real, rate: real)
    requires rate >= 0.0 && t <= u
    ensures 0.0 <= t ==> 0.0 <= Inflow(rate, t)
    ensures Inflow(rate, t) <= Inflow(rate, u)
  {
    assert (u - t) * rate >= 0.0;
  }

  /** The `Duration` the source computes holds fewer than 2^64 seconds. */
  const DURATION_LIMIT: real := 18446744073709551616.0

  /**
   `deficit / rate` is a `Duration`: neither negative, nor infinite, nor too long.  Otherwise the
   conversion panics.
   */
  predicate IsDuration(deficit: real, rate: real) { rate > 0.0 && deficit < Inflow(rate, DURATION_LIMIT) }

  datatype PollResult = Granted | Sleep(seconds: real) | Panics

  lemma {:induction false} SleepsOff(deficit: real, rate: real)
    requires deficit > 0.0 && rate > 0.0
    ensures deficit / rate > 0.0 && Inflow(rate, deficit / rate) == deficit
  {
    assert deficit / rate * rate == deficit;
  }

  /** A poll in terms of clock times. */
  lemma {:induction false} PollIsNext(capacity: real, tokens: real, lastRefill: real, rate: real, now: real)
    ensures var b, reading := Bucket(tokens, Inflow(rate, lastRefill)), Inflow(rate, now);
      var found := MinReal(tokens + (now - lastRefill) * rate, capacity);
      && (Grants(capacity, b, reading) <==> found >= 1.0)
      && Next(capacity, b, reading) == Bucket(if found >= 1.0 then found - 1.0 else found, reading)
  {
    InflowBetween(rate, lastRefill, now);
    hide Inflow;
  }

  class TokenBucketLimiter {
    const capacity: real
    const refillPerSec: real
    var tokens: real
    var lastRefill: real

    function State(): Bucket reads this { Bucket(tokens, Inflow(refillPerSec, lastRefill)) }

    constructor (ratePerSec: real, burst: real, now: real)
      ensures capacity == burst && refillPerSec == ratePerSec && tokens == burst && lastRefill == now
    {
      capacity, refillPerSec := burst, ratePerSec;
      tokens, lastRefill := burst, now;
    }

    /** One critical section: refill, then take a token or compute how long to sleep. */
    method Poll(now: real) returns (r: PollResult)
      modifies this`tokens, this`lastRefill
      ensures var inflow := (now - old(lastRefill)) * refillPerSec;
        var found := if old(tokens) + inflow <= capacity then old(tokens) + inflow else capacity;
        && (r.Granted? <==> found >= 1.0)
        && tokens == (if r.Granted? then found - 1.0 else found)
      ensures r.Sleep? ==> r.seconds > 0.0 && r.seconds * refillPerSec == 1.0 - tokens
      ensures r.Panics? <==>
        !r.Granted? && (refillPerSec <= 0.0 || 1.0 - tokens >= refillPerSec * 18446744073709551616.0)
      ensures State() == Next(capacity, old(State()), Inflow(refillPerSec, now)) && lastRefill == now
      ensures r.Granted? <==> Grants(capacity, old(State()), Inflow(refillPerSec, now))
    {
      var elapsed := now - lastRefill;
      PollIsNext(capacity, tokens, lastRefill, refillPerSec, now);
      hide Next, Grants, Refilled;
      tokens := MinReal(tokens + elapsed * refillPerSec, capacity);
      lastRefill := now;
      if tokens >= 1.0 {
        tokens := tokens - 1.0;
        r := Granted;
      } else {
        var deficit := 1.0 - tokens;
        if !IsDuration(deficit, refillPerSec) {
          r := Panics;
        } else {
          SleepsOff(deficit, refillPerSec);
          r := Sleep(deficit / refillPerSec);
        }
      }
    }

    /**
     A lone caller of `acquire`: nobody else polls in between, and every sleep ends `oversleep`
     late.  It is granted at the first poll, or at the second after sleeping off exactly the deficit,
     unless the deficit takes no representable time to flow in.
     */
    method AcquireAlone(start: real, oversleep: real) returns (now: real, sleeps: nat, asleep: real, panics: bool)
      requires capacity >= 1.0 && oversleep >= 0.0
      modifies this`tokens, this`lastRefill
      ensures var first := Refilled(capacity, old(State()), Inflow(refillPerSec, start));
        && (panics <==> first < 1.0 && !IsDuration(1.0 - first, refillPerSec))
        && (!panics ==> sleeps == if first >= 1.0 then 0 else 1)
      ensures !panics && sleeps == 0 ==> now == start && State() == Next(capacity, old(State()), Inflow(refillPerSec, start))
      ensures !panics && sleeps == 1 ==>
        && now == start + asleep + oversleep && lastRefill == now
        && Inflow(refillPerSec, asleep) == 1.0 - Refilled(capacity, old(State()), Inflow(refillPerSec, start))
        && tokens == MinReal(1.0 + Inflow(refillPerSec, oversleep), capacity) - 1.0
    {
      now, sleeps, asleep, panics := start, 0, 0.0, false;
      ghost var first := Next(capacity, State(), Inflow(refillPerSec, start));
      while true
        invariant sleeps == 0 ==> now == start && State() == old(State())
        invariant sleeps == 0 || sleeps == 1
        invariant !panics
        invariant sleeps == 1 ==>
          && refillPerSec > 0.0 && IsDuration(1.0 - first.tokens, refillPerSec)
          && !Grants(capacity, old(State()), Inflow(refillPerSec, start))
          && State() == first
          && now == start + asleep + oversleep
          && Inflow(refillPerSec, asleep) == 1.0 - first.tokens
          && first.tokens + (Inflow(refillPerSec, now) - first.reading) == 1.0 + Inflow(refillPerSec, oversleep)
        decreases 1 - sleeps
      {
        if refillPerSec > 0.0 { InflowMonotone(0.0, oversleep, refillPerSec); }
        var r := Poll(now);
        if r.Granted? { return; }
        if r.Panics? {
          panics := true;
          return;
        }
        asleep := r.seconds;
        AfterSleep(refillPerSec, tokens, now, asleep, oversleep);
        now := now + asleep + oversleep;
        sleeps := sleeps + 1;
      }
    }
  }

  /** What has flowed in after sleeping off a deficit. */
  lemma {:induction false} AfterSleep(rate: real, tokens: real, now: real, asleep: real, oversleep: real)
    requires Inflow(rate, asleep) == 1.0 - tokens
    ensures tokens + (Inflow(rate, now + asleep + oversleep) - Inflow(rate, now)) == 1.0 + Inflow(rate, oversleep)
  {
    assert (now + asleep + oversleep) * rate == now * rate + asleep * rate + oversleep * rate;
  }

  // ---------------- Whole runs ----------------

  /** The refill-clock readings of a list of times. */
  ghost function Readings(rate: real, times: seq<real>): (r: seq<real>)
    ensures |r| == |times| && forall k :: 0 <= k < |times| ==> r[k] == Inflow(rate, times[k])
  {
    seq(|times|, k requires 0 <= k < |times| => Inflow(rate, times[k]))
  }

  ghost predicate Nondecreasing(xs: seq<real>) {
    forall k, l :: 0 <= k <= l < |xs| ==> xs[k] <= xs[l]
  }

  /** The bucket after a run of polls. */
  ghost function After(capacity: real, b: Bucket, readings: seq<real>): Bucket
    decreases |readings|
  {
    if readings == [] then b
    else Next(capacity, After(capacity, b, readings[..|readings| - 1]), readings[|readings| - 1])
  }

  /** The tokens poll `k` of the run finds after refilling. */
  ghost function Found(capacity: real, b: Bucket, readings: seq<real>, k: nat): real
    requires k < |readings|
  {
    Refilled(capacity, After(capacity, b, readings[..k]), readings[k])
  }

  /** Poll `k` of the run is granted. */
  ghost predicate GrantedAt(capacity: real, b: Bucket, readings: seq<real>, k: nat)
    requires k < |readings|
  {
    Found(capacity, b, readings, k) >= 1.0
  }

  /** How many of the polls i, ..., j - 1 are granted. */
  ghost function GrantCount(capacity: real, b: Bucket, readings: seq<real>, i: nat, j: nat): nat
    requires i <= j <= |readings|
    decreases j
  {
    if i == j then 0
    else GrantCount(capacity, b, readings, i, j - 1) + if GrantedAt(capacity, b, readings, j - 1) then 1 else 0
  }

  /** A run of polls on a limiter in service: the clock does not go back. */
  ghost predicate IsRun(capacity: real, b: Bucket, readings: seq<real>) {
    && 0.0 <= b.tokens <= capacity
    && Nondecreasing([b.reading] + readings)
  }

  lemma {:induction false} ReadingsNondecreasing(rate: real, t0: real, times: seq<real>)
    requires rate >= 0.0 && Nondecreasing([t0] + times)
    ensures Nondecreasing([Inflow(rate, t0)] + Readings(rate, times))
  {
    var r := [Inflow(rate, t0)] + Readings(rate, times);
    forall k, l | 0 <= k <= l < |r| ensures r[k] <= r[l] {
      InflowMonotone(([t0] + times)[k], ([t0] + times)[l], rate);
    }
  }

  /** Tokens stay between 0 and the burst after any number of polls. */
  lemma {:induction false} TokensStayBounded(capacity: real, b: Bucket, readings: seq<real>, k: nat)
    requires IsRun(capacity, b, readings) && k <= |readings|
    ensures 0.0 <= After(capacity, b, readings[..k]).tokens <= capacity
    ensures After(capacity, b, readings[..k]).reading == ([b.reading] + readings)[k]
  {
    if k > 0 {
      TokensStayBounded(capacity, b, readings, k - 1);
      AfterStep(capacity, b, readings, k - 1);
      assert ([b.reading] + readings)[k - 1] <= ([b.reading] + readings)[k];
    }
  }

  lemma {:induction false} AfterStep(capacity: real, b: Bucket, readings: seq<real>, k: nat)
    requires k < |readings|
    ensures After(capacity, b, readings[..k + 1]) == Next(capacity, After(capacity, b, readings[..k]), readings[k])
  {
    assert readings[..k + 1][..k] == readings[..k];
  }

  /** Grants of the polls i, ..., j - 1 plus tokens left never outrun the burst plus the inflow. */
  lemma {:induction false} Potential(capacity: real, b: Bucket, readings: seq<real>, i: nat, j: nat)
    requires IsRun(capacity, b, readings) && i < j <= |readings|
    ensures GrantCount(capacity, b, readings, i, j) as real + After(capacity, b, readings[..j]).tokens
      <= capacity + (readings[j - 1] - readings[i])
    decreases j
  {
    AfterStep(capacity, b, readings, j - 1);
    if i < j - 1 {
      Potential(capacity, b, readings, i, j - 1);
      TokensStayBounded(capacity, b, readings, j - 1);
    } else {
      assert GrantCount(capacity, b, readings, i, i) == 0;
    }
  }

  /**
   The rate bound.  Take any run of polls, however many callers interleave in it, and any window
   of time.  The polls i, ..., j - 1 that fall into the window contain at most
   burst + rate * length-of-window grants.
   */
  lemma {:induction false} RateBound(
      rate: real, capacity: real, t0: real, times: seq<real>, b: Bucket, i: nat, j: nat, from: real, to: real)
    requires rate >= 0.0 && 0.0 <= b.tokens <= capacity && b.reading == Inflow(rate, t0) && Nondecreasing([t0] + times)
    requires i <= j <= |times| && from <= to
    requires forall k :: i <= k < j ==> from <= times[k] <= to
    ensures GrantCount(capacity, b, Readings(rate, times), i, j) as real <= capacity + Inflow(rate, to - from)
  {
    var g := GrantCount(capacity, b, Readings(rate, times), i, j);
    if i < j {
      ReadingsNondecreasing(rate, t0, times);
      GrantsWithinInflow(capacity, b, Readings(rate, times), i, j);
      InflowWithin(rate, times, i, j - 1, from, to);
    } else {
      InflowNonnegative(rate, to - from);
      assert g == 0;
    }
  }

  lemma {:induction false} InflowNonnegative(rate: real, seconds: real)
    requires rate >= 0.0 && seconds >= 0.0
    ensures Inflow(rate, seconds) >= 0.0
  {
    InflowMonotone(0.0, seconds, rate);
  }

  lemma {:induction false} InflowWithin(rate: real, times: seq<real>, i: nat, j: nat, from: real, to: real)
    requires rate >= 0.0 && i <= j < |times| && from <= times[i] && times[j] <= to
    ensures Readings(rate, times)[j] - Readings(rate, times)[i] <= Inflow(rate, to - from)
  {
    InflowMonotone(times[j] - times[i], to - from, rate);
    InflowBetween(rate, times[i], times[j]);
  }

  lemma {:induction false} GrantsWithinInflow(capacity: real, b: Bucket, readings: seq<real>, i: nat, j: nat)
    requires IsRun(capacity, b, readings) && i < j <= |readings|
    ensures GrantCount(capacity, b, readings, i, j) as real <= capacity + (readings[j - 1] - readings[i])
  {
    Potential(capacity, b, readings, i, j);
    TokensStayBounded(capacity, b, readings, j);
  }

  /** Polls added later do not change which of the first polls were granted. */
  lemma {:induction false} GrantCountPrefix(capacity: real, b: Bucket, xs: seq<real>, ys: seq<real>, j: nat)
    requires j <= |xs| <= |ys| && xs == ys[..|xs|]
    ensures GrantCount(capacity, b, xs, 0, j) == GrantCount(capacity, b, ys, 0, j)
  {
    if j > 0 {
      GrantCountPrefix(capacity, b, xs, ys, j - 1);
      assert xs[..j - 1] == ys[..j - 1];
    }
  }

  /**
   Polls at one instant, as of workers that start together: of `j` polls on a bucket that holds `x`
   tokens exactly min(j, floor(x)) are granted, and each of them takes one token.
   */
  lemma {:induction false} InstantPolls(capacity: real, b: Bucket, readings: seq<real>)
    requires 0.0 <= b.tokens <= capacity
    requires forall k :: 0 <= k < |readings| ==> readings[k] == b.reading
    ensures var granted := Min(|readings|, b.tokens.Floor);
      && GrantCount(capacity, b, readings, 0, |readings|) == granted
      && After(capacity, b, readings) == Bucket(b.tokens - granted as real, b.reading)
    decreases |readings|
  {
    if readings != [] {
      var before := readings[..|readings| - 1];
      InstantPolls(capacity, b, before);
      GrantCountPrefix(capacity, b, before, readings, |before|);
    }
  }

  /** The refill before poll `k` does not reach the burst, so nothing that flowed in is lost. */
  ghost predicate NothingSpilled(capacity: real, b: Bucket, readings: seq<real>, k: nat)
    requires k < |readings|
  {
    After(capacity, b, readings[..k]).tokens + (readings[k] - ([b.reading] + readings)[k]) <= capacity
  }

  /**
   Conservation of tokens: in a run whose refills never reach the burst, the tokens left and the
   tokens granted are the initial tokens and what has flowed in.
   */
  lemma {:induction false} TokensAccounted(capacity: real, b: Bucket, readings: seq<real>, j: nat)
    requires IsRun(capacity, b, readings) && j <= |readings|
    requires forall k :: 0 <= k < j ==> NothingSpilled(capacity, b, readings, k)
    ensures After(capacity, b, readings[..j]).tokens + GrantCount(capacity, b, readings, 0, j) as real
      == b.tokens + (([b.reading] + readings)[j] - b.reading)
  {
    if j > 0 {
      TokensAccounted(capacity, b, readings, j - 1);
      AfterStep(capacity, b, readings, j - 1);
      TokensStayBounded(capacity, b, readings, j - 1);
      assert NothingSpilled(capacity, b, readings, j - 1);
    }
  }

  /** While polls are denied, refilling in many small pieces is refilling once. */
  lemma {:induction false} DeniedPollsOnlyRefill(capacity: real, b: Bucket, readings: seq<real>, i: nat, j: nat)
    requires IsRun(capacity, b, readings) && i < j < |readings|
    requires forall k :: i <= k < j ==> !GrantedAt(capacity, b, readings, k)
    ensures Found(capacity, b, readings, j)
      == MinReal(Found(capacity, b, readings, i) + (readings[j] - readings[i]), capacity)
    decreases j
  {
    AfterStep(capacity, b, readings, j - 1);
    assert !GrantedAt(capacity, b, readings, j - 1);
    assert ([b.reading] + readings)[j] <= ([b.reading] + readings)[j + 1];
    if i < j - 1 { DeniedPollsOnlyRefill(capacity, b, readings, i, j - 1); }
  }

  /**
   System-wide progress with burst >= 1: when poll `i` is denied and told to sleep for `wait`,
   then up to any poll `j` at least that much later some caller has been granted.
   */
  lemma {:induction false} SomeoneIsGranted(
      rate: real, capacity: real, t0: real, times: seq<real>, b: Bucket, readings: seq<real>, i: nat, j: nat,
      wait: real)
    requires rate > 0.0 && capacity >= 1.0 && 0.0 <= b.tokens <= capacity
    requires b.reading == Inflow(rate, t0) && readings == Readings(rate, times) && Nondecreasing([t0] + times)
    requires i < j < |times| && !GrantedAt(capacity, b, readings, i)
    requires Inflow(rate, wait) == 1.0 - Found(capacity, b, readings, i) && times[j] >= times[i] + wait
    ensures exists k :: i < k <= j && GrantedAt(capacity, b, readings, k)
  {
    ReadingsNondecreasing(rate, t0, times);
    if forall k :: i < k < j ==> !GrantedAt(capacity, b, readings, k) {
      DeniedPollsOnlyRefill(capacity, b, readings, i, j);
      InflowMonotone(wait, times[j] - times[i], rate);
      InflowBetween(rate, times[i], times[j]);
      assert GrantedAt(capacity, b, readings, j);
    }
  }

  /** With a burst below 1 no poll of any run is granted, whatever the rate. */
  lemma {:induction false} NeverBelowOne(capacity: real, b: Bucket, readings: seq<real>, k: nat)
    requires capacity < 1.0 && k < |readings|
    ensures !GrantedAt(capacity, b, readings, k)
  {
  }

  /** The clock time of the last poll, or of the start. */
  ghost function LastTime(t0: real, times: seq<real>): real { ([t0] + times)[|times|] }

  /** The run can go on with a poll at time `t`, and that poll is granted. */
  ghost predicate GrantedNext(rate: real, capacity: real, t0: real, times: seq<real>, b: Bucket, t: real) {
    Nondecreasing([t0] + (times + [t])) && GrantedAt(capacity, b, Readings(rate, times + [t]), |times|)
  }

  /** What one more poll finds: what was left plus what has flowed in since the last poll. */
  lemma {:induction false} NextFinds(rate: real, capacity: real, t0: real, times: seq<real>, b: Bucket, t: real)
    requires rate >= 0.0 && 0.0 <= b.tokens <= capacity && b.reading == Inflow(rate, t0) && Nondecreasing([t0] + times)
    ensures Found(capacity, b, Readings(rate, times + [t]), |times|)
      == MinReal(After(capacity, b, Readings(rate, times)).tokens + Inflow(rate, t - LastTime(t0, times)), capacity)
    ensures 0.0 <= After(capacity, b, Readings(rate, times)).tokens <= capacity
  {
    hide Inflow, After, Nondecreasing;
    var readings, more := Readings(rate, times), Readings(rate, times + [t]);
    assert more[..|times|] == readings && readings[..|times|] == readings;
    ReadingsNondecreasing(rate, t0, times);
    TokensStayBounded(capacity, b, readings, |times|);
    assert After(capacity, b, readings).reading == Inflow(rate, LastTime(t0, times));
    InflowSince(rate, LastTime(t0, times), t);
  }

  lemma {:induction false} InflowSince(rate: real, t: real, u: real)
    ensures Inflow(rate, u) - Inflow(rate, t) == Inflow(rate, u - t)
  {
    InflowBetween(rate, t, u);
  }

  lemma {:induction false} OneMoreTime(t0: real, times: seq<real>, t: real)
    requires Nondecreasing([t0] + times)
    ensures Nondecreasing([t0] + (times + [t])) <==> LastTime(t0, times) <= t
  {
    var before, more := [t0] + times, [t0] + (times + [t]);
    assert more == before + [t];
    if Nondecreasing(more) {
      assert more[|times|] <= more[|times| + 1];
    }
  }

  /**
   A run can go on with a poll that is granted exactly when the burst is at least 1 and tokens flow
   in, or, at rate 0, when the bucket still holds a token.
   */
  lemma {:induction false} LaterGrantIff(rate: real, capacity: real, t0: real, times: seq<real>, b: Bucket)
    requires rate >= 0.0 && 0.0 <= b.tokens <= capacity && b.reading == Inflow(rate, t0) && Nondecreasing([t0] + times)
    ensures (exists t :: GrantedNext(rate, capacity, t0, times, b, t)) <==>
      capacity >= 1.0 && (rate > 0.0 || After(capacity, b, Readings(rate, times)).tokens >= 1.0)
  {
    hide Inflow, After, Nondecreasing, Found;
    var last := LastTime(t0, times);
    if t :| GrantedNext(rate, capacity, t0, times, b, t) {
      NextFinds(rate, capacity, t0, times, b, t);
      if rate == 0.0 { NoInflow(t - last); }
    }
    if capacity >= 1.0 && (rate > 0.0 || After(capacity, b, Readings(rate, times)).tokens >= 1.0) {
      var wait := if rate > 0.0 then 1.0 / rate else 0.0;
      NextFinds(rate, capacity, t0, times, b, last + wait);
      if rate > 0.0 { OneToken(rate); } else { NoInflow(wait); }
      OneMoreTime(t0, times, last + wait);
      assert GrantedNext(rate, capacity, t0, times, b, last + wait);
    }
  }

  lemma {:induction false} NoInflow(seconds: real)
    ensures Inflow(0.0, seconds) == 0.0
  {
  }

  lemma {:induction false} OneToken(rate: real)
    requires rate > 0.0
    ensures 1.0 / rate > 0.0 && Inflow(rate, 1.0 / rate) == 1.0
  {
    SleepsOff(1.0, rate);
  }

  /**
   At a positive rate a caller can ever be granted exactly when the burst is at least 1: below that no
   poll of any run is granted, from there on every run can go on with a poll that is granted.
   */
  lemma {:induction false} GrantedEverIffBurstAtLeastOne(rate: real, capacity: real, t0: real, times: seq<real>, b: Bucket)
    requires rate > 0.0 && 0.0 <= b.tokens <= capacity && b.reading == Inflow(rate, t0) && Nondecreasing([t0] + times)
    ensures capacity < 1.0 ==> forall k :: 0 <= k < |times| ==> !GrantedAt(capacity, b, Readings(rate, times), k)
    ensures capacity >= 1.0 ==> exists t :: GrantedNext(rate, capacity, t0, times, b, t)
  {
    hide GrantedAt, GrantedNext;
    if capacity < 1.0 {
      forall k | 0 <= k < |times| ensures !GrantedAt(capacity, b, Readings(rate, times), k) {
        NeverBelowOne(capacity, b, Readings(rate, times), k);
      }
    }
    LaterGrantIff(rate, capacity, t0, times, b);
  }
}

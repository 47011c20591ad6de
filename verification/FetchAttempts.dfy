/**
 All fetch workers together, over time (crates/ingest-core/src/block_fetch.rs, lines 67-90): every
 slot first acquires once from the shared limiter and then attempts `get_block` inside the retry
 loop.  The workers are one transition system; each step happens at a time that never goes back,
 and any slot may take the next step.
 */
module FetchAttempts {
  import opened RateLimiter

  datatype Phase = Idle | Acquiring | Attempting(used: nat) | Done(used: nat)

  /** The limiter's rate and burst and the retry limit, fixed for the run. */
  datatype Engine = Engine(rate: real, capacity: real, maxRetries: nat, startTime: real)

  datatype State = State(now: real, phases: seq<Phase>, polls: seq<real>, attempts: nat)

  ghost function StartBucket(e: Engine): Bucket { Bucket(e.capacity, Inflow(e.rate, e.startTime)) }

  ghost predicate Init(e: Engine, s: State) {
    && s.now == e.startTime && s.polls == [] && s.attempts == 0
    && forall i :: 0 <= i < |s.phases| ==> s.phases[i] == Idle
  }

  /** The worker pool takes slot `i` in. */
  ghost predicate Dispatch(e: Engine, s: State, s': State, i: nat) {
    && i < |s.phases| && s.phases[i].Idle?
    && s' == s.(now := s'.now, phases := s.phases[i := Acquiring])
  }

  /** One pass of slot `i` through `acquire`; denied, it stays where it is. */
  ghost predicate Poll(e: Engine, s: State, s': State, i: nat) {
    && i < |s.phases| && s.phases[i].Acquiring?
    && s'.polls == s.polls + [s'.now]
    && s'.attempts == s.attempts
    && var granted := GrantedAt(e.capacity, StartBucket(e), Readings(e.rate, s'.polls), |s.polls|);
       s'.phases == if granted then s.phases[i := Attempting(0)] else s.phases
  }

  /** One `get_block` of slot `i`; `again` says that the error was transient. */
  ghost predicate Try(e: Engine, s: State, s': State, i: nat, again: bool) {
    && i < |s.phases| && s.phases[i].Attempting?
    && s'.polls == s.polls
    && s'.attempts == s.attempts + 1
    && var used := s.phases[i].used;
       s'.phases == s.phases[i := if again && used < e.maxRetries then Attempting(used + 1) else Done(used + 1)]
  }

  ghost predicate StepOf(e: Engine, s: State, s': State, i: nat) {
    || Dispatch(e, s, s', i)
    || Poll(e, s, s', i)
    || exists again :: Try(e, s, s', i, again)
  }

  ghost predicate Step(e: Engine, s: State, s': State) {
    && s.now <= s'.now
    && exists i: nat :: StepOf(e, s, s', i)
  }

  ghost predicate Behaviour(e: Engine, states: seq<State>) {
    && states != [] && Init(e, states[0])
    && forall k :: 0 < k < |states| ==> Step(e, states[k - 1], states[k])
  }

  // ---------------- Invariant ----------------

  ghost predicate Granted(p: Phase) { p.Attempting? || p.Done? }

  ghost function Used(p: Phase): nat { if p.Attempting? || p.Done? then p.used else 0 }

  ghost function GrantedCount(phases: seq<Phase>): nat {
    if phases == [] then 0
    else GrantedCount(phases[..|phases| - 1]) + if Granted(phases[|phases| - 1]) then 1 else 0
  }

  ghost function UsedTotal(phases: seq<Phase>): nat {
    if phases == [] then 0 else UsedTotal(phases[..|phases| - 1]) + Used(phases[|phases| - 1])
  }

  ghost predicate Inv(e: Engine, s: State) {
    && Nondecreasing([e.startTime] + s.polls + [s.now])
    && (forall i :: 0 <= i < |s.phases| ==> Used(s.phases[i]) <= e.maxRetries + 1)
    && (forall i :: 0 <= i < |s.phases| && s.phases[i].Attempting? ==> s.phases[i].used <= e.maxRetries)
    && s.attempts == UsedTotal(s.phases)
    && GrantedCount(s.phases) == GrantCount(e.capacity, StartBucket(e), Readings(e.rate, s.polls), 0, |s.polls|)
  }

  lemma {:induction false} UpdateTotals(phases: seq<Phase>, i: nat, p: Phase)
    requires i < |phases|
    ensures UsedTotal(phases[i := p]) == UsedTotal(phases) - Used(phases[i]) + Used(p)
    ensures GrantedCount(phases[i := p])
      == GrantedCount(phases) - (if Granted(phases[i]) then 1 else 0) + (if Granted(p) then 1 else 0)
  {
    var n := |phases| - 1;
    if i < n {
      UpdateTotals(phases[..n], i, p);
      assert phases[i := p][..n] == phases[..n][i := p];
    } else {
      assert phases[i := p][..n] == phases[..n];
    }
  }

  lemma {:induction false} IdleTotals(phases: seq<Phase>)
    requires forall i :: 0 <= i < |phases| ==> phases[i] == Idle
    ensures UsedTotal(phases) == 0 && GrantedCount(phases) == 0
  {
    if phases != [] { IdleTotals(phases[..|phases| - 1]); }
  }

  lemma {:induction false} InvStep(e: Engine, s: State, s': State)
    requires Inv(e, s) && Step(e, s, s')
    ensures Inv(e, s')
  {
    var i: nat :| StepOf(e, s, s', i);
    if Dispatch(e, s, s', i) {
      TimesStep(e.startTime, s.polls, s.now, s'.now);
      UpdateTotals(s.phases, i, Acquiring);
    } else if Poll(e, s, s', i) {
      InvPoll(e, s, s', i);
    } else {
      InvTry(e, s, s', i);
    }
  }

  lemma {:induction false} InvPoll(e: Engine, s: State, s': State, i: nat)
    requires Inv(e, s) && s.now <= s'.now && Poll(e, s, s', i)
    ensures Inv(e, s')
  {
    hide Nondecreasing, GrantedCount, UsedTotal, GrantedAt, Inflow;
    TimesStep(e.startTime, s.polls, s.now, s'.now);
    UpdateTotals(s.phases, i, Attempting(0));
    var xs, ys := Readings(e.rate, s.polls), Readings(e.rate, s'.polls);
    assert xs == ys[..|xs|];
    GrantCountPrefix(e.capacity, StartBucket(e), xs, ys, |s.polls|);
  }

  lemma {:induction false} InvTry(e: Engine, s: State, s': State, i: nat)
    requires Inv(e, s) && s.now <= s'.now && exists again :: Try(e, s, s', i, again)
    ensures Inv(e, s')
  {
    TimesStep(e.startTime, s.polls, s.now, s'.now);
    var used := s.phases[i].used;
    UpdateTotals(s.phases, i, Attempting(used + 1));
    UpdateTotals(s.phases, i, Done(used + 1));
  }

  lemma {:induction false} TimesStep(t0: real, polls: seq<real>, now: real, now': real)
    requires Nondecreasing([t0] + polls + [now]) && now <= now'
    ensures Nondecreasing([t0] + polls + [now'])
    ensures Nondecreasing([t0] + (polls + [now']) + [now'])
  {
    var before, a, b := [t0] + polls + [now], [t0] + polls + [now'], [t0] + (polls + [now']) + [now'];
    assert forall k :: 0 <= k < |polls| + 1 ==> a[k] == before[k] && b[k] == before[k];
    assert forall k :: 0 <= k < |polls| + 1 ==> before[k] <= before[|polls| + 1];
  }

  lemma {:induction false} InvHolds(e: Engine, states: seq<State>, k: nat)
    requires Behaviour(e, states) && k < |states|
    ensures Inv(e, states[k])
  {
    if k == 0 {
      IdleTotals(states[0].phases);
      assert [e.startTime] + states[0].polls + [states[0].now] == [e.startTime, e.startTime];
    } else {
      InvHolds(e, states, k - 1);
      InvStep(e, states[k - 1], states[k]);
    }
  }

  lemma {:induction false} UsedAtMost(phases: seq<Phase>, bound: nat)
    requires forall i :: 0 <= i < |phases| ==> Used(phases[i]) <= bound
    ensures UsedTotal(phases) <= bound * GrantedCount(phases)
  {
    if phases != [] {
      var n := |phases| - 1;
      UsedAtMost(phases[..n], bound);
      var g := GrantedCount(phases[..n]);
      assert bound * (g + 1) == bound * g + bound;
    }
  }

  /**
   In every state of every run, the `get_block` attempts made so far number at most
   (max_retries + 1) * (burst + rate * time since the start).
   */
  lemma {:induction false} AttemptBound(e: Engine, states: seq<State>, k: nat)
    requires e.rate >= 0.0 && e.capacity >= 0.0 && Behaviour(e, states) && k < |states|
    ensures states[k].attempts as real
      <= (e.maxRetries + 1) as real * (e.capacity + Inflow(e.rate, states[k].now - e.startTime))
  {
    InvHolds(e, states, k);
    AttemptBoundFromInv(e, states[k]);
  }

  lemma {:induction false} AttemptBoundFromInv(e: Engine, s: State)
    requires e.rate >= 0.0 && e.capacity >= 0.0 && Inv(e, s)
    ensures s.attempts as real <= (e.maxRetries + 1) as real * (e.capacity + Inflow(e.rate, s.now - e.startTime))
  {
    hide GrantedCount, UsedTotal, GrantCount, Nondecreasing, Inflow;
    var bound, grants, limit := e.maxRetries + 1, GrantedCount(s.phases), e.capacity + Inflow(e.rate, s.now - e.startTime);
    assert s.attempts <= bound * grants by { UsedAtMost(s.phases, bound); }
    assert grants as real <= limit by { GrantBound(e, s); }
    Multiply(bound, s.attempts, grants, limit);
  }

  lemma {:induction false} GrantBound(e: Engine, s: State)
    requires e.rate >= 0.0 && e.capacity >= 0.0 && Inv(e, s)
    ensures GrantedCount(s.phases) as real <= e.capacity + Inflow(e.rate, s.now - e.startTime)
  {
    PollsInOrder(e.startTime, s.polls, s.now);
    RateBound(e.rate, e.capacity, e.startTime, s.polls, StartBucket(e), 0, |s.polls|, e.startTime, s.now);
  }

  lemma {:induction false} PollsInOrder(t0: real, polls: seq<real>, now: real)
    requires Nondecreasing([t0] + polls + [now])
    ensures Nondecreasing([t0] + polls) && t0 <= now
    ensures forall i :: 0 <= i < |polls| ==> t0 <= polls[i] <= now
  {
    var times := [t0] + polls + [now];
    assert [t0] + polls == times[..|polls| + 1];
    assert times[0] <= times[|polls| + 1];
    forall i | 0 <= i < |polls| ensures t0 <= polls[i] <= now {
      assert times[0] <= times[i + 1] <= times[|polls| + 1];
    }
  }

  lemma {:induction false} Multiply(bound: nat, attempts: nat, grants: nat, limit: real)
    requires attempts <= bound * grants && grants as real <= limit
    ensures attempts as real <= bound as real * limit
  {
    assert (bound * grants) as real == bound as real * grants as real;
  }

  // ---------------- The bound is attained ----------------

  /** All at the start time: the first `k` of `n` slots have used every attempt, the others are idle. */
  ghost predicate Exhausted(e: Engine, s: State, n: nat, k: nat)
    requires k <= n
  {
    && s.now == e.startTime && |s.phases| == n
    && (forall i :: 0 <= i < k ==> s.phases[i] == Done(e.maxRetries + 1))
    && (forall i :: k <= i < n ==> s.phases[i] == Idle)
    && |s.polls| == k && (forall p :: p in s.polls ==> p == e.startTime)
    && s.attempts == k * (e.maxRetries + 1)
  }

  lemma {:induction false} Extend(e: Engine, states: seq<State>, s: State)
    requires Behaviour(e, states) && Step(e, states[|states| - 1], s)
    ensures Behaviour(e, states + [s])
  {
    hide Step;
    var more := states + [s];
    forall k | 0 < k < |more| ensures Step(e, more[k - 1], more[k]) {
      if k < |states| { assert Step(e, states[k - 1], states[k]); }
    }
  }

  /** A burst of `k + 1` tokens grants the next of the polls made at the start time. */
  lemma {:induction false} StartPollGranted(e: Engine, polls: seq<real>)
    requires e.capacity >= |polls| as real && polls != [] && forall p :: p in polls ==> p == e.startTime
    ensures GrantedAt(e.capacity, StartBucket(e), Readings(e.rate, polls), |polls| - 1)
  {
    hide Inflow;
    var readings := Readings(e.rate, polls);
    forall k | 0 <= k < |polls| ensures readings[k] == Inflow(e.rate, e.startTime) {
      assert polls[k] in polls;
    }
    InstantPolls(e.capacity, StartBucket(e), readings[..|polls| - 1]);
  }

  /** Slot `i` is dispatched and granted, at the start time. */
  lemma {:induction false} GrantOne(e: Engine, states: seq<State>, i: nat) returns (more: seq<State>)
    requires Behaviour(e, states)
    requires var s := states[|states| - 1];
      i < |s.phases| && Exhausted(e, s, |s.phases|, i) && e.capacity >= (i + 1) as real
    ensures Behaviour(e, more)
    ensures var s, t := states[|states| - 1], more[|more| - 1];
      && t == s.(phases := s.phases[i := Attempting(0)], polls := s.polls + [e.startTime])
  {
    hide GrantedAt, Inflow;
    var s := states[|states| - 1];
    var dispatched := s.(phases := s.phases[i := Acquiring]);
    assert StepOf(e, s, dispatched, i);
    Extend(e, states, dispatched);
    var granted := s.(phases := s.phases[i := Attempting(0)], polls := s.polls + [e.startTime]);
    StartPollGranted(e, granted.polls);
    assert dispatched.phases[i := Attempting(0)] == granted.phases;
    assert StepOf(e, dispatched, granted, i);
    Extend(e, states + [dispatched], granted);
    more := states + [dispatched] + [granted];
  }

  /** A slot whose errors are all transient uses every attempt it has left. */
  lemma {:induction false} UseUp(e: Engine, states: seq<State>, i: nat) returns (more: seq<State>)
    requires Behaviour(e, states)
    requires var s := states[|states| - 1];
      i < |s.phases| && s.phases[i].Attempting? && s.phases[i].used <= e.maxRetries
    ensures Behaviour(e, more)
    ensures var s, t := states[|states| - 1], more[|more| - 1];
      t == s.(phases := s.phases[i := Done(e.maxRetries + 1)], attempts := s.attempts + e.maxRetries + 1 - s.phases[i].used)
    decreases e.maxRetries - states[|states| - 1].phases[i].used
  {
    var s := states[|states| - 1];
    var used := s.phases[i].used;
    var phase := if used < e.maxRetries then Attempting(used + 1) else Done(used + 1);
    var t := s.(phases := s.phases[i := phase], attempts := s.attempts + 1);
    assert StepOf(e, s, t, i) by { assert Try(e, s, t, i, true); }
    Extend(e, states, t);
    more := states + [t];
    if used < e.maxRetries {
      more := UseUp(e, more, i);
      assert t.phases[i := Done(e.maxRetries + 1)] == s.phases[i := Done(e.maxRetries + 1)];
    }
  }

  lemma {:induction false} ExhaustSlots(e: Engine, n: nat, k: nat) returns (states: seq<State>)
    requires k <= n && e.capacity >= k as real
    ensures Behaviour(e, states) && Exhausted(e, states[|states| - 1], n, k)
  {
    if k == 0 {
      states := [State(e.startTime, seq(n, _ => Idle), [], 0)];
    } else {
      states := ExhaustSlots(e, n, k - 1);
      var before := states[|states| - 1];
      states := GrantOne(e, states, k - 1);
      states := UseUp(e, states, k - 1);
      assert (k - 1) * (e.maxRetries + 1) + (e.maxRetries + 1) == k * (e.maxRetries + 1);
    }
  }

  /**
   The bound is the best one: with a burst of `n` tokens there is a run in which no time has passed and
   `n` slots have made (max_retries + 1) * n attempts.
   */
  lemma {:induction false} AttemptBoundIsAttained(e: Engine, n: nat) returns (states: seq<State>)
    requires e.rate >= 0.0 && e.capacity == n as real
    ensures Behaviour(e, states) && states[|states| - 1].now == e.startTime
    ensures states[|states| - 1].attempts as real == (e.maxRetries + 1) as real * e.capacity
  {
    states := ExhaustSlots(e, n, n);
    assert (n * (e.maxRetries + 1)) as real == (e.maxRetries + 1) as real * n as real;
  }
}

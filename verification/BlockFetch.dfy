/**
 The bounded worker pool (crates/ingest-core/src/block_fetch.rs).  The unordered set of in-flight
 fetches may finish in any order: the method picks an arbitrary member of the set, so what it
 ensures holds under every completion order.
 */
module BlockFetch {
  import opened Numbers

  /** The slots waiting on the stack: the last element is popped first, so the oldest slot comes first. */
  function SlotStack(startSlot: nat, from: nat, count: nat): (r: seq<nat>)
    requires from <= count
    ensures |r| == count - from
    decreases count - from
  {
    if from == count then [] else SlotStack(startSlot, from + 1, count) + [startSlot + from]
  }

  lemma {:induction false} PopSlot(startSlot: nat, from: nat, count: nat)
    requires from < count
    ensures var r := SlotStack(startSlot, from, count);
      r[|r| - 1] == startSlot + from && r[..|r| - 1] == SlotStack(startSlot, from + 1, count)
  {
  }

  /** The first `next` slots of the range are each in flight or delivered once; no other slot is. */
  ghost predicate ExactlyOnce(startSlot: nat, next: nat, inFlight: set<nat>, delivered: seq<nat>) {
    && (forall s: nat :: s in inFlight || s in delivered <==> startSlot <= s < startSlot + next)
    && (forall s: nat :: s in inFlight ==> s !in delivered)
    && (forall k, l :: 0 <= k < l < |delivered| ==> delivered[k] != delivered[l])
  }

  lemma {:induction false} DispatchKeeps(startSlot: nat, next: nat, inFlight: set<nat>, delivered: seq<nat>)
    requires ExactlyOnce(startSlot, next, inFlight, delivered)
    ensures ExactlyOnce(startSlot, next + 1, inFlight + {startSlot + next}, delivered)
    ensures |inFlight + {startSlot + next}| == |inFlight| + 1
  {
    assert startSlot + next !in inFlight && startSlot + next !in delivered;
  }

  lemma {:induction false} DeliverKeeps(startSlot: nat, next: nat, inFlight: set<nat>, delivered: seq<nat>, slot: nat)
    requires ExactlyOnce(startSlot, next, inFlight, delivered) && slot in inFlight
    ensures ExactlyOnce(startSlot, next, inFlight - {slot}, delivered + [slot])
    ensures |inFlight - {slot}| == |inFlight| - 1 && slot < startSlot + next
  {
    var more := delivered + [slot];
    forall s: nat ensures s in more <==> s in delivered || s == slot {
      if s in delivered {
        var k :| 0 <= k < |delivered| && delivered[k] == s;
        assert more[k] == s;
      }
    }
  }

  /** The pool between two outcomes: it is full while slots are left. */
  ghost predicate PoolFull(
      startSlot: nat, count: nat, maxConcurrency: nat, next: nat, inFlight: set<nat>, delivered: seq<nat>) {
    && next <= count && |delivered| + |inFlight| == next
    && |inFlight| <= maxConcurrency && (next < count ==> |inFlight| == maxConcurrency)
    && (maxConcurrency == 0 ==> next == 0)
    && ExactlyOnce(startSlot, next, inFlight, delivered)
    && forall k :: 0 <= k < |delivered| ==> delivered[k] < startSlot + maxConcurrency + k
  }

  /** One outcome is delivered and the next slot, if any, takes its place. */
  lemma {:induction false} NextOutcome(
      startSlot: nat, count: nat, maxConcurrency: nat, next: nat, inFlight: set<nat>, delivered: seq<nat>, slot: nat)
    requires PoolFull(startSlot, count, maxConcurrency, next, inFlight, delivered) && slot in inFlight
    ensures |inFlight - {slot}| == |inFlight| - 1
    ensures next < count ==>
      PoolFull(startSlot, count, maxConcurrency, next + 1, inFlight - {slot} + {startSlot + next}, delivered + [slot])
    ensures next == count ==>
      PoolFull(startSlot, count, maxConcurrency, next, inFlight - {slot}, delivered + [slot])
  {
    DeliverKeeps(startSlot, next, inFlight, delivered, slot);
    DispatchKeeps(startSlot, next, inFlight - {slot}, delivered + [slot]);
  }

  /** The first loop of `fetch_block_range`: fill the pool up to `maxConcurrency`. */
  method PrimePool(startSlot: nat, count: nat, maxConcurrency: nat) returns (slots: seq<nat>, inFlight: set<nat>)
    ensures PoolFull(startSlot, count, maxConcurrency, |inFlight|, inFlight, [])
    ensures slots == SlotStack(startSlot, |inFlight|, count)
  {
    slots, inFlight := SlotStack(startSlot, 0, count), {};
    while |inFlight| < maxConcurrency && slots != []
      invariant |inFlight| <= count && slots == SlotStack(startSlot, |inFlight|, count)
      invariant |inFlight| <= maxConcurrency
      invariant ExactlyOnce(startSlot, |inFlight|, inFlight, [])
      decreases |slots|
    {
      PopSlot(startSlot, |inFlight|, count);
      DispatchKeeps(startSlot, |inFlight|, inFlight, []);
      inFlight := inFlight + {slots[|slots| - 1]};
      slots := slots[..|slots| - 1];
    }
  }

  /**
   `delivered` lists the slots in the order in which their outcomes reach the callback.  With at
   least one worker each slot of the range is delivered exactly once; with none, nothing is.
   The outcome number k (from 0) belongs to a slot below startSlot + maxConcurrency + k.
   */
  method FetchBlockRange(startSlot: nat, count: nat, maxConcurrency: nat) returns (delivered: seq<nat>)
    requires startSlot + count < U64_LIMIT
    ensures ExactlyOnce(startSlot, if maxConcurrency == 0 then 0 else count, {}, delivered)
    ensures |delivered| == if maxConcurrency == 0 then 0 else count
    ensures forall k :: 0 <= k < |delivered| ==> delivered[k] < startSlot + maxConcurrency + k
  {
    var slots, inFlight := PrimePool(startSlot, count, maxConcurrency);
    ghost var next := |inFlight|;
    delivered := [];
    while inFlight != {}
      invariant 0 <= next <= count && slots == SlotStack(startSlot, next, count)
      invariant PoolFull(startSlot, count, maxConcurrency, next, inFlight, delivered)
      decreases |slots| + |inFlight|, |slots|
    {
      var slot :| slot in inFlight;
      NextOutcome(startSlot, count, maxConcurrency, next, inFlight, delivered, slot);
      inFlight := inFlight - {slot};
      delivered := delivered + [slot];
      if slots != [] {
        PopSlot(startSlot, next, count);
        inFlight := inFlight + {slots[|slots| - 1]};
        slots := slots[..|slots| - 1];
        next := next + 1;
      }
    }
  }
}

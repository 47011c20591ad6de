/**
 The order-preserving scheduler of one block (crates/contention/src/lib.rs).

 The method `BuildSchedule` keeps, per account, only the step of the last write and the steps
 of the reads since then.  It is proved against definitions that mention the whole block: the
 conflict relation between any two transactions, the schedules that respect it, the chains of
 conflicting transactions, and the places where an account had been locked before.
 */
module Contention {
  import opened Options

  datatype AccountLock = AccountLock(account: string, isWritable: bool)

  datatype TxLocks = TxLocks(signature: string, programIds: seq<string>, locks: seq<AccountLock>)

  datatype ConflictEvent = ConflictEvent(
    account: string, txSignature: string, programIds: seq<string>, step: nat, causedByWrite: bool)

  datatype ScheduleResult = ScheduleResult(
    steps: seq<nat>, depth: nat, widthPerStep: map<nat, nat>, conflicts: seq<ConflictEvent>)

  datatype AccountState = AccountState(lastWriteStep: Option<nat>, readerStepsSinceWrite: seq<nat>)

  // ---------------- What a schedule has to satisfy ----------------

  /** Two locks clash when they name the same account and at least one of them is a write. */
  predicate Clash(p: AccountLock, q: AccountLock) {
    p.account == q.account && (p.isWritable || q.isWritable)
  }

  /** Two transactions conflict when some lock of one clashes with some lock of the other. */
  ghost predicate Conflict(x: TxLocks, y: TxLocks) {
    exists p, q :: p in x.locks && q in y.locks && Clash(p, q)
  }

  /** Every transaction runs strictly after each earlier one it conflicts with. */
  ghost predicate Respects(txs: seq<TxLocks>, steps: seq<nat>) {
    && |steps| == |txs|
    && forall j, i :: 0 <= j < i < |txs| && Conflict(txs[j], txs[i]) ==> steps[j] < steps[i]
  }

  /** `steps` is the pointwise least assignment of steps that respects the conflicts. */
  ghost predicate LeastSchedule(txs: seq<TxLocks>, steps: seq<nat>) {
    && Respects(txs, steps)
    && forall other: seq<nat>, i :: Respects(txs, other) && 0 <= i < |txs| ==> steps[i] <= other[i]
  }

  /** Transaction `i` runs at step 0 or directly after an earlier transaction it conflicts with. */
  ghost predicate Tight(txs: seq<TxLocks>, steps: seq<nat>, i: nat)
    requires i < |steps| <= |txs|
  {
    steps[i] == 0 || exists j :: 0 <= j < i && Conflict(txs[j], txs[i]) && steps[j] + 1 == steps[i]
  }

  /** Indices in block order, each transaction conflicting with the next one. */
  ghost predicate IsChain(txs: seq<TxLocks>, c: seq<nat>) {
    && (forall k :: 0 <= k < |c| ==> c[k] < |txs|)
    && (forall k :: 0 < k < |c| ==> c[k - 1] < c[k] && Conflict(txs[c[k - 1]], txs[c[k]]))
  }

  /** `d` is the number of transactions in the longest chain of the block. */
  ghost predicate IsLongestChainLength(txs: seq<TxLocks>, d: nat) {
    && (exists c :: IsChain(txs, c) && |c| == d)
    && (forall c :: IsChain(txs, c) ==> |c| <= d)
  }

  /** The account was locked by an earlier transaction, or by an earlier lock of transaction `i`. */
  ghost predicate Touched(txs: seq<TxLocks>, i: nat, k: nat, account: string)
    requires i < |txs| && k <= |txs[i].locks|
  {
    || (exists j, p :: 0 <= j < i && p in txs[j].locks && p.account == account)
    || (exists p :: p in txs[i].locks[..k] && p.account == account)
  }

  /** The events of the first `k` locks of transaction `i`: one per write lock on a touched account. */
  ghost function TxEvents(txs: seq<TxLocks>, steps: seq<nat>, i: nat, k: nat): seq<ConflictEvent>
    requires i < |txs| && i < |steps| && k <= |txs[i].locks|
  {
    if k == 0 then []
    else
      var p := txs[i].locks[k - 1];
      TxEvents(txs, steps, i, k - 1) +
      if p.isWritable && Touched(txs, i, k - 1, p.account)
      then [ConflictEvent(p.account, txs[i].signature, txs[i].programIds, steps[i], true)] else []
  }

  /** The events of the first `n` transactions, in block order. */
  ghost function BlockEvents(txs: seq<TxLocks>, steps: seq<nat>, n: nat): seq<ConflictEvent>
    requires n <= |txs| && n <= |steps|
  {
    if n == 0 then []
    else BlockEvents(txs, steps, n - 1) + TxEvents(txs, steps, n - 1, |txs[n - 1].locks|)
  }

  /**
   The result of scheduling a block: the least schedule, its depth, the number of transactions at
   each of its steps, and one event per write lock on an account locked before.
   */
  ghost predicate IsScheduleOf(txs: seq<TxLocks>, r: ScheduleResult) {
    && LeastSchedule(txs, r.steps)
    && IsLongestChainLength(txs, r.depth)
    && (forall s :: s in r.steps <==> 0 <= s < r.depth)
    && (forall s :: s in r.widthPerStep <==> 0 <= s < r.depth)
    && (forall s :: s in r.widthPerStep ==> r.widthPerStep[s] == multiset(r.steps)[s] >= 1)
    && r.conflicts == BlockEvents(txs, r.steps, |txs|)
  }

  // ---------------- What the per-account state remembers ----------------

  /** One lock of the block together with the index of the transaction that holds it. */
  datatype Access = Access(lock: AccountLock, tx: nat)

  function StateOf(states: map<string, AccountState>, account: string): AccountState {
    if account in states then states[account] else AccountState(None, [])
  }

  /**
   The state of one account summarises all accesses seen so far: the last write is at or after
   every write and after every forgotten read, and both parts of the state come from real accesses.
   */
  ghost predicate Summarises(st: AccountState, seen: set<Access>, steps: seq<nat>, account: string)
    requires forall h :: h in seen ==> h.tx < |steps|
  {
    && (forall h :: h in seen && h.lock.account == account ==>
          || (st.lastWriteStep.Some? && steps[h.tx] <= st.lastWriteStep.value)
          || (!h.lock.isWritable && steps[h.tx] in st.readerStepsSinceWrite))
    && (st.lastWriteStep.Some? ==>
          exists h :: h in seen && h.lock == AccountLock(account, true) && steps[h.tx] == st.lastWriteStep.value)
    && (forall r :: r in st.readerStepsSinceWrite ==>
          exists h :: h in seen && h.lock == AccountLock(account, false) && steps[h.tx] == r)
  }

  ghost predicate AllSummarised(states: map<string, AccountState>, seen: set<Access>, steps: seq<nat>) {
    && (forall h :: h in seen ==> h.tx < |steps|)
    && forall a :: Summarises(StateOf(states, a), seen, steps, a)
  }

  /** `seen` holds exactly the locks of the first `n` transactions and the first `k` of transaction `n`. */
  ghost predicate SeenExactly(txs: seq<TxLocks>, n: nat, k: nat, seen: set<Access>)
    requires n <= |txs| && (k == 0 || (n < |txs| && k <= |txs[n].locks|))
  {
    forall h :: h in seen <==>
      || (h.tx < n && h.lock in txs[h.tx].locks)
      || (k > 0 && h.tx == n && h.lock in txs[n].locks[..k])
  }

  // ---------------- The algorithm ----------------

  /** The step a new lock has to wait for, from the state of its account. */
  method BlockingStep(st: AccountState, isWritable: bool) returns (b: Option<nat>)
    ensures isWritable ==> (b == None <==> st.lastWriteStep == None && st.readerStepsSinceWrite == [])
    ensures isWritable && b.Some? ==>
      && (b == st.lastWriteStep || b.value in st.readerStepsSinceWrite)
      && (st.lastWriteStep.Some? ==> st.lastWriteStep.value <= b.value)
      && (forall r :: r in st.readerStepsSinceWrite ==> r <= b.value)
    ensures !isWritable ==> b == st.lastWriteStep
  {
    b := st.lastWriteStep;
    if isWritable {
      var i := 0;
      while i < |st.readerStepsSinceWrite|
        invariant 0 <= i <= |st.readerStepsSinceWrite|
        invariant b == None <==> st.lastWriteStep == None && i == 0
        invariant b.Some? ==>
          && (b == st.lastWriteStep || b.value in st.readerStepsSinceWrite)
          && (st.lastWriteStep.Some? ==> st.lastWriteStep.value <= b.value)
          && (forall j :: 0 <= j < i ==> st.readerStepsSinceWrite[j] <= b.value)
      {
        var r := st.readerStepsSinceWrite[i];
        b := Some(if b.None? || b.value < r then r else b.value);
        i := i + 1;
      }
    }
  }

  /** Step 1 of the loop body: the earliest step transaction `|steps|` can run at. */
  method EarliestStep(txs: seq<TxLocks>, steps: seq<nat>, states: map<string, AccountState>, ghost seen: set<Access>)
    returns (earliest: nat)
    requires |steps| < |txs|
    requires AllSummarised(states, seen, steps) && SeenExactly(txs, |steps|, 0, seen)
    ensures forall j :: 0 <= j < |steps| && Conflict(txs[j], txs[|steps|]) ==> steps[j] < earliest
    ensures Tight(txs, steps + [earliest], |steps|)
  {
    var n := |steps|;
    var tx := txs[n];
    earliest := 0;
    ghost var w: nat := 0;
    var k := 0;
    while k < |tx.locks|
      invariant 0 <= k <= |tx.locks|
      invariant forall h, q :: h in seen && q in tx.locks[..k] && Clash(h.lock, q) ==> steps[h.tx] < earliest
      invariant earliest == 0 || (w < n && Conflict(txs[w], tx) && steps[w] + 1 == earliest)
    {
      var lock := tx.locks[k];
      var st := StateOf(states, lock.account);
      assert Summarises(st, seen, steps, lock.account);
      var b := BlockingStep(st, lock.isWritable);
      if b.Some? && earliest < b.value + 1 {
        ghost var h :| h in seen && h.lock.account == lock.account && steps[h.tx] == b.value && Clash(h.lock, lock);
        w := h.tx;
        assert Clash(h.lock, lock) && h.lock in txs[w].locks && lock in tx.locks;
        earliest := b.value + 1;
      }
      assert tx.locks[..k + 1] == tx.locks[..k] + [lock];
      k := k + 1;
    }
    assert tx.locks[..k] == tx.locks;
    forall j | 0 <= j < n && Conflict(txs[j], tx) ensures steps[j] < earliest {
      var p, q :| p in txs[j].locks && q in tx.locks && Clash(p, q);
      assert Access(p, j) in seen;
    }
  }

  /** Step 2 of the loop body: record the events of transaction `n` and update the account states. */
  method RecordLocks(txs: seq<TxLocks>, steps: seq<nat>, states0: map<string, AccountState>, ghost seen0: set<Access>)
    returns (states: map<string, AccountState>, events: seq<ConflictEvent>, ghost seen: set<Access>)
    requires 0 < |steps| <= |txs|
    requires AllSummarised(states0, seen0, steps) && SeenExactly(txs, |steps| - 1, 0, seen0)
    requires forall j :: 0 <= j < |steps| - 1 && Conflict(txs[j], txs[|steps| - 1]) ==> steps[j] < steps[|steps| - 1]
    ensures AllSummarised(states, seen, steps) && SeenExactly(txs, |steps|, 0, seen)
    ensures events == TxEvents(txs, steps, |steps| - 1, |txs[|steps| - 1].locks|)
  {
    hide Touched, Summarises, Conflict;
    var n := |steps| - 1;
    var tx := txs[n];
    states, events, seen := states0, [], seen0;
    var k := 0;
    while k < |tx.locks|
      invariant 0 <= k <= |tx.locks|
      invariant AllSummarised(states, seen, steps) && SeenExactly(txs, n, k, seen)
      invariant events == TxEvents(txs, steps, n, k)
    {
      var lock := tx.locks[k];
      var st := StateOf(states, lock.account);
      var hadPriorActivity := st.lastWriteStep.Some? || st.readerStepsSinceWrite != [];
      PriorActivity(txs, n, k, seen, steps, lock.account, st);
      NotAfter(txs, steps, k, seen);
      if lock.isWritable {
        if hadPriorActivity {
          events := events + [ConflictEvent(lock.account, tx.signature, tx.programIds, steps[n], true)];
        }
        st := AccountState(Some(steps[n]), []);
      } else {
        st := st.(readerStepsSinceWrite := st.readerStepsSinceWrite + [steps[n]]);
      }
      RecordOne(states, seen, steps, lock, n, st);
      states := states[lock.account := st];
      seen := seen + {Access(lock, n)};
      assert tx.locks[..k + 1] == tx.locks[..k] + [lock];
      k := k + 1;
    }
    assert tx.locks[..k] == tx.locks;
  }

  /** The state is non-empty exactly when the account had been locked before this point. */
  lemma {:induction false} PriorActivity(
      txs: seq<TxLocks>, n: nat, k: nat, seen: set<Access>, steps: seq<nat>, a: string, st: AccountState)
    requires n < |txs| && k <= |txs[n].locks| && SeenExactly(txs, n, k, seen)
    requires forall h :: h in seen ==> h.tx < |steps|
    requires Summarises(st, seen, steps, a)
    ensures (st.lastWriteStep.Some? || st.readerStepsSinceWrite != []) <==> Touched(txs, n, k, a)
  {
    if st.lastWriteStep.Some? || st.readerStepsSinceWrite != [] {
      if st.lastWriteStep.None? { assert st.readerStepsSinceWrite[0] in st.readerStepsSinceWrite; }
      var h :| h in seen && h.lock.account == a;
    }
    if Touched(txs, n, k, a) {
      if j, p :| 0 <= j < n && p in txs[j].locks && p.account == a {
        assert Access(p, j) in seen;
      } else {
        var p :| p in txs[n].locks[..k] && p.account == a;
        assert Access(p, n) in seen;
      }
    }
  }

  /** No access seen so far that clashes with a lock of the last transaction has a later step. */
  lemma {:induction false} NotAfter(txs: seq<TxLocks>, steps: seq<nat>, k: nat, seen: set<Access>)
    requires 0 < |steps| <= |txs| && k <= |txs[|steps| - 1].locks|
    requires SeenExactly(txs, |steps| - 1, k, seen)
    requires forall j :: 0 <= j < |steps| - 1 && Conflict(txs[j], txs[|steps| - 1]) ==> steps[j] < steps[|steps| - 1]
    ensures forall h, q :: h in seen && q in txs[|steps| - 1].locks && Clash(h.lock, q) ==> steps[h.tx] <= steps[|steps| - 1]
  {
    forall h, q | h in seen && q in txs[|steps| - 1].locks && Clash(h.lock, q)
      ensures steps[h.tx] <= steps[|steps| - 1]
    {
      if h.tx < |steps| - 1 { assert Conflict(txs[h.tx], txs[|steps| - 1]); }
    }
  }

  /** Updating one account's state for one more access keeps every account summarised. */
  lemma {:induction false} RecordOne(
      states: map<string, AccountState>, seen: set<Access>, steps: seq<nat>, lock: AccountLock, n: nat,
      st: AccountState)
    requires AllSummarised(states, seen, steps) && n < |steps|
    requires lock.isWritable ==> st == AccountState(Some(steps[n]), [])
    requires var st0 := StateOf(states, lock.account);
      !lock.isWritable ==> st == st0.(readerStepsSinceWrite := st0.readerStepsSinceWrite + [steps[n]])
    requires forall h :: h in seen && Clash(h.lock, lock) ==> steps[h.tx] <= steps[n]
    ensures AllSummarised(states[lock.account := st], seen + {Access(lock, n)}, steps)
  {
    var states', seen' := states[lock.account := st], seen + {Access(lock, n)};
    assert Access(lock, n) in seen';
    forall a ensures Summarises(StateOf(states', a), seen', steps, a) {
      assert Summarises(StateOf(states, a), seen, steps, a);
      if a == lock.account && !lock.isWritable {
        assert lock == AccountLock(a, false);
      }
    }
  }

  /** How many transactions run at each step. */
  method CountWidths(steps: seq<nat>) returns (width: map<nat, nat>)
    ensures forall s :: s in width <==> s in steps
    ensures forall s :: s in width ==> width[s] == multiset(steps)[s]
  {
    width := map[];
    var i := 0;
    while i < |steps|
      invariant 0 <= i <= |steps|
      invariant forall s :: s in width <==> s in steps[..i]
      invariant forall s :: s in width ==> width[s] == multiset(steps[..i])[s]
    {
      assert steps[..i + 1] == steps[..i] + [steps[i]];
      var s := steps[i];
      width := width[s := (if s in width then width[s] else 0) + 1];
      i := i + 1;
    }
    assert steps[..i] == steps;
  }

  /** One more than the largest step, or 0 for an empty block. */
  method DepthOf(steps: seq<nat>) returns (depth: nat)
    ensures forall s :: s in steps ==> s < depth
    ensures depth == 0 || depth - 1 in steps
  {
    depth := 0;
    var i := 0;
    while i < |steps|
      invariant 0 <= i <= |steps|
      invariant forall j :: 0 <= j < i ==> steps[j] < depth
      invariant depth == 0 || depth - 1 in steps
    {
      if depth <= steps[i] { depth := steps[i] + 1; }
      i := i + 1;
    }
  }

  /** The first `|steps|` transactions have their final steps. */
  ghost predicate ScheduledSoFar(txs: seq<TxLocks>, steps: seq<nat>) {
    && |steps| <= |txs|
    && (forall j, i :: 0 <= j < i < |steps| && Conflict(txs[j], txs[i]) ==> steps[j] < steps[i])
    && forall i :: 0 <= i < |steps| ==> Tight(txs, steps, i)
  }

  /** The loop over the transactions of the block. */
  method AssignSteps(txs: seq<TxLocks>) returns (steps: seq<nat>, conflicts: seq<ConflictEvent>)
    ensures |steps| == |txs|
    ensures ScheduledSoFar(txs, steps)
    ensures conflicts == BlockEvents(txs, steps, |txs|)
  {
    var states: map<string, AccountState> := map[];
    steps, conflicts := [], [];
    ghost var seen: set<Access> := {};
    while |steps| < |txs|
      invariant ScheduledSoFar(txs, steps)
      invariant AllSummarised(states, seen, steps) && SeenExactly(txs, |steps|, 0, seen)
      invariant conflicts == BlockEvents(txs, steps, |steps|)
      decreases |txs| - |steps|
    {
      var assignedStep := EarliestStep(txs, steps, states, seen);
      MoreSteps(states, seen, txs, steps, assignedStep);
      steps := steps + [assignedStep];
      var events;
      states, events, seen := RecordLocks(txs, steps, states, seen);
      conflicts := conflicts + events;
    }
  }

  method BuildSchedule(txs: seq<TxLocks>) returns (r: ScheduleResult)
    ensures |r.steps| == |txs|
    ensures LeastSchedule(txs, r.steps)
    ensures IsLongestChainLength(txs, r.depth)
    ensures forall s :: s in r.steps <==> 0 <= s < r.depth
    ensures forall s :: s in r.widthPerStep <==> 0 <= s < r.depth
    ensures forall s :: s in r.widthPerStep ==> r.widthPerStep[s] == multiset(r.steps)[s] >= 1
    ensures r.conflicts == BlockEvents(txs, r.steps, |txs|)
  {
    var steps, conflicts := AssignSteps(txs);
    var widthPerStep := CountWidths(steps);
    var depth := DepthOf(steps);
    FinalSteps(txs, steps, depth);
    r := ScheduleResult(steps, depth, widthPerStep, conflicts);
  }

  /** What holds of the final steps of a block and their depth. */
  lemma {:induction false} FinalSteps(txs: seq<TxLocks>, steps: seq<nat>, depth: nat)
    requires |steps| == |txs| && ScheduledSoFar(txs, steps)
    requires (forall s :: s in steps ==> s < depth) && (depth == 0 || depth - 1 in steps)
    ensures LeastSchedule(txs, steps) && IsLongestChainLength(txs, depth)
    ensures forall s :: s in steps <==> 0 <= s < depth
  {
    assert Respects(txs, steps);
    TightIsLeast(txs, steps);
    DepthIsLongestChain(txs, steps, depth);
    StepsAreGapless(txs, steps, depth);
  }

  /** Assigning one more step changes nothing about the transactions already scheduled. */
  lemma {:induction false} MoreSteps(
      states: map<string, AccountState>, seen: set<Access>, txs: seq<TxLocks>, steps: seq<nat>, s: nat)
    requires |steps| < |txs| && AllSummarised(states, seen, steps) && ScheduledSoFar(txs, steps)
    requires forall j :: 0 <= j < |steps| && Conflict(txs[j], txs[|steps|]) ==> steps[j] < s
    requires Tight(txs, steps + [s], |steps|)
    ensures AllSummarised(states, seen, steps + [s]) && ScheduledSoFar(txs, steps + [s])
    ensures forall j :: 0 <= j < |steps| && Conflict(txs[j], txs[|steps|]) ==> (steps + [s])[j] < (steps + [s])[|steps|]
    ensures BlockEvents(txs, steps + [s], |steps|) == BlockEvents(txs, steps, |steps|)
  {
    var more := steps + [s];
    forall a ensures Summarises(StateOf(states, a), seen, more, a) {
      assert Summarises(StateOf(states, a), seen, steps, a);
    }
    forall i | 0 <= i < |steps| ensures Tight(txs, more, i) {
      assert Tight(txs, steps, i);
    }
    BlockEventsPrefix(txs, steps, more, |steps|);
  }

  lemma {:induction false} TxEventsPrefix(txs: seq<TxLocks>, steps: seq<nat>, more: seq<nat>, i: nat, k: nat)
    requires i < |txs| && i < |steps| <= |more| && k <= |txs[i].locks| && steps[i] == more[i]
    ensures TxEvents(txs, steps, i, k) == TxEvents(txs, more, i, k)
  {
    if k > 0 { TxEventsPrefix(txs, steps, more, i, k - 1); }
  }

  lemma {:induction false} BlockEventsPrefix(txs: seq<TxLocks>, steps: seq<nat>, more: seq<nat>, n: nat)
    requires n <= |txs| && n <= |steps| <= |more| && forall i :: 0 <= i < n ==> steps[i] == more[i]
    ensures BlockEvents(txs, steps, n) == BlockEvents(txs, more, n)
  {
    if n > 0 {
      BlockEventsPrefix(txs, steps, more, n - 1);
      TxEventsPrefix(txs, steps, more, n - 1, |txs[n - 1].locks|);
    }
  }

  // ---------------- Consequences ----------------

  /** A respectful schedule without slack is the least one. */
  lemma {:induction false} TightIsLeast(txs: seq<TxLocks>, steps: seq<nat>)
    requires Respects(txs, steps)
    requires forall i :: 0 <= i < |txs| ==> Tight(txs, steps, i)
    ensures LeastSchedule(txs, steps)
  {
    forall other: seq<nat>, i | Respects(txs, other) && 0 <= i < |txs| ensures steps[i] <= other[i] {
      TightBelow(txs, steps, other, i);
    }
  }

  lemma {:induction false} TightBelow(txs: seq<TxLocks>, steps: seq<nat>, other: seq<nat>, i: nat)
    requires Respects(txs, steps) && Respects(txs, other) && i < |txs|
    requires forall k :: 0 <= k < |txs| ==> Tight(txs, steps, k)
    ensures steps[i] <= other[i]
  {
    assert Tight(txs, steps, i);
    if steps[i] != 0 {
      var j :| 0 <= j < i && Conflict(txs[j], txs[i]) && steps[j] + 1 == steps[i];
      TightBelow(txs, steps, other, j);
    }
  }

  /** The least schedule leaves no slack: lowering a slack step would still respect the conflicts. */
  lemma {:induction false} LeastIsTight(txs: seq<TxLocks>, steps: seq<nat>, i: nat)
    requires LeastSchedule(txs, steps) && i < |txs|
    ensures Tight(txs, steps, i)
  {
    if !Tight(txs, steps, i) {
      var lower := steps[i := steps[i] - 1];
      forall a, b | 0 <= a < b < |txs| && Conflict(txs[a], txs[b]) ensures lower[a] < lower[b] {
        assert steps[a] < steps[b];
      }
      assert lower[i] < steps[i];
      assert Respects(txs, lower);
    }
  }

  /** A chain that ends at transaction `i` and has one transaction per step up to `steps[i]`. */
  lemma {:induction false} ChainTo(txs: seq<TxLocks>, steps: seq<nat>, i: nat) returns (c: seq<nat>)
    requires |steps| == |txs| && i < |txs| && forall k :: 0 <= k < |txs| ==> Tight(txs, steps, k)
    ensures IsChain(txs, c) && |c| == steps[i] + 1 && c[|c| - 1] == i
  {
    assert Tight(txs, steps, i);
    if steps[i] == 0 {
      c := [i];
    } else {
      var j :| 0 <= j < i && Conflict(txs[j], txs[i]) && steps[j] + 1 == steps[i];
      var c' := ChainTo(txs, steps, j);
      c := c' + [i];
    }
  }

  lemma {:induction false} ChainClimbs(txs: seq<TxLocks>, steps: seq<nat>, c: seq<nat>)
    requires Respects(txs, steps) && IsChain(txs, c) && c != []
    ensures |c| <= steps[c[|c| - 1]] + 1
  {
    if |c| > 1 {
      var init := c[..|c| - 1];
      assert IsChain(txs, init) by {
        assert forall k :: 0 <= k < |init| ==> init[k] == c[k];
      }
      ChainClimbs(txs, steps, init);
      var last := |c| - 1;
      assert c[last - 1] < c[last] && Conflict(txs[c[last - 1]], txs[c[last]]);
    }
  }

  lemma {:induction false} DepthIsLongestChain(txs: seq<TxLocks>, steps: seq<nat>, depth: nat)
    requires LeastSchedule(txs, steps)
    requires (forall s :: s in steps ==> s < depth) && (depth == 0 || depth - 1 in steps)
    ensures IsLongestChainLength(txs, depth)
  {
    forall i | 0 <= i < |txs| ensures Tight(txs, steps, i) { LeastIsTight(txs, steps, i); }
    if depth == 0 {
      var none: seq<nat> := [];
      assert IsChain(txs, none) && |none| == depth;
    } else {
      var i :| 0 <= i < |steps| && steps[i] == depth - 1;
      var c := ChainTo(txs, steps, i);
    }
    forall c | IsChain(txs, c) ensures |c| <= depth {
      if c != [] {
        ChainClimbs(txs, steps, c);
        assert steps[c[|c| - 1]] in steps;
      }
    }
  }

  /** The used steps are exactly 0, ..., depth - 1. */
  lemma {:induction false} StepsAreGapless(txs: seq<TxLocks>, steps: seq<nat>, depth: nat)
    requires LeastSchedule(txs, steps)
    requires (forall s :: s in steps ==> s < depth) && (depth == 0 || depth - 1 in steps)
    ensures forall s :: s in steps <==> 0 <= s < depth
  {
    forall s | 0 <= s < depth ensures s in steps { StepUsed(txs, steps, depth, s); }
  }

  lemma {:induction false} StepUsed(txs: seq<TxLocks>, steps: seq<nat>, depth: nat, s: nat)
    requires LeastSchedule(txs, steps) && s < depth && depth - 1 in steps
    ensures s in steps
    decreases depth - s
  {
    if s < depth - 1 {
      StepUsed(txs, steps, depth, s + 1);
      var i :| 0 <= i < |steps| && steps[i] == s + 1;
      LeastIsTight(txs, steps, i);
    }
  }

  // ---------------- Widths ----------------

  ghost function TotalWidth(width: map<nat, nat>, depth: nat): nat
    requires forall s :: 0 <= s < depth ==> s in width
  {
    if depth == 0 then 0 else TotalWidth(width, depth - 1) + width[depth - 1]
  }

  /** The widths of the steps sum to the number of transactions. */
  lemma {:induction false} WidthsPartitionTheBlock(steps: seq<nat>, width: map<nat, nat>, depth: nat)
    requires forall s :: 0 <= s < depth ==> s in width && width[s] == multiset(steps)[s]
    requires forall s :: s in steps ==> s < depth
    ensures TotalWidth(width, depth) == |steps|
    decreases depth
  {
    assert |steps| > 0 ==> steps[0] in steps;
    if depth > 0 {
      var rest := Below(steps, depth - 1);
      var counts: multiset<nat> := multiset(rest);
      var width': map<nat, nat> := map s: nat | s < depth - 1 :: counts[s];
      WidthsPartitionTheBlock(rest, width', depth - 1);
      SameTotal(width, width', depth - 1);
    }
  }

  lemma {:induction false} SameTotal(w: map<nat, nat>, w': map<nat, nat>, depth: nat)
    requires forall s :: 0 <= s < depth ==> s in w && s in w' && w[s] == w'[s]
    ensures TotalWidth(w, depth) == TotalWidth(w', depth)
  {
    if depth > 0 { SameTotal(w, w', depth - 1); }
  }

  /** The steps below `d`; when no step is above `d`, only the occurrences of `d` are missing. */
  ghost function Below(steps: seq<nat>, d: nat): (r: seq<nat>)
    ensures forall s :: s in r ==> s < d
    ensures forall s :: s < d ==> multiset(r)[s] == multiset(steps)[s]
    ensures (forall s :: s in steps ==> s <= d) ==> |r| + multiset(steps)[d] == |steps|
  {
    if steps == [] then []
    else
      var n := |steps| - 1;
      assert steps == steps[..n] + [steps[n]];
      assert steps[n] in steps && forall s :: s in steps[..n] ==> s in steps;
      if steps[n] < d then Below(steps[..n], d) + [steps[n]] else Below(steps[..n], d)
  }
}

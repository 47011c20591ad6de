/**
 What the stored data says about the blocks it came from: the queried depth is the schedule's depth,
 the queried lock counts are the conflict events up to one per account and block, and the stored
 token rows are the balance changes of the transactions that did not fail.
 */
module EndToEnd {
  import opened ConflictEvents
  import opened Contention
  import opened Decoding
  import opened Flushing
  import opened Numbers
  import opened Options
  import opened Parsing
  import opened Sequences
  import opened Storage
  import opened Tables
  import opened TokenDeltas
  import opened TokenNetting

  // ---------------- What a stored block amounts to ----------------

  /** Each transaction with its step, and no other transaction of the slot. */
  ghost predicate HoldsTransactions(db: Database, b: DecodedBlock, steps: seq<nat>) {
    && |steps| == |b.transactions|
    && (forall i :: 0 <= i < |b.transactions| ==>
          var t := b.transactions[i];
          t.signature in db.transactions && db.transactions[t.signature]
            == Stored(b.slot, TxValue(b.blockTime, t.failed, t.programIds, Some(AsI32(steps[i])))))
    && forall sig :: sig in db.transactions && db.transactions[sig].slot == b.slot ==>
         exists i :: 0 <= i < |b.transactions| && b.transactions[i].signature == sig
  }

  ghost predicate IsKeyOfLock(txs: seq<DecodedTransaction>, p: (nat, nat), key: PairKey) {
    IsLock(txs, p) && key == (txs[p.0].signature, txs[p.0].locks[p.1].account)
  }

  /** Each lock, read locks included, and no other lock of the slot. */
  ghost predicate HoldsLocks(db: Database, b: DecodedBlock) {
    && (forall p: (nat, nat), key :: IsKeyOfLock(b.transactions, p, key) ==>
          key in db.locks && db.locks[key] == Stored(b.slot, b.transactions[p.0].locks[p.1].isWritable))
    && forall key :: key in db.locks && db.locks[key].slot == b.slot ==> exists p: (nat, nat) :: IsKeyOfLock(b.transactions, p, key)
  }

  /** Each of the rows and no other token row of the slot. */
  ghost predicate HoldsTokenRows(db: Database, b: DecodedBlock, rows: seq<Row<PairKey>>) {
    && (forall m :: 0 <= m < |rows| ==>
          rows[m].key in db.tokens && db.tokens[rows[m].key]
            == Stored(b.slot, TokenValue(b.blockTime, rows[m].pre, rows[m].post, rows[m].decimals)))
    && forall key :: key in db.tokens && db.tokens[key].slot == b.slot ==> exists m :: 0 <= m < |rows| && rows[m].key == key
  }

  /** The balance changes of the transactions that did not fail, netted per transaction and mint. */
  ghost predicate HoldsTokens(db: Database, b: DecodedBlock) {
    exists changes, places, rows, pos ::
      && TokenRowsAt(b.transactions, changes, places)
      && NettedAt(changes, rows, pos)
      && HoldsTokenRows(db, b, rows)
  }

  /** The slot of the decoded block holds the block with these steps, and nothing else. */
  ghost predicate HoldsDecoded(db: Database, b: DecodedBlock, steps: seq<nat>) {
    && b.slot in db.blocks && db.blocks[b.slot] == BlockRow(b.blockTime, AsI32(|b.transactions|))
    && HoldsTransactions(db, b, steps) && HoldsLocks(db, b) && HoldsTokens(db, b)
  }

  lemma {:induction false} HeldTransactions(db: Database, b: DecodedBlock, p: ParsedBlock)
    requires HoldsBlock(db, p) && IsParsed(b, p)
    ensures HoldsTransactions(db, b, p.schedule.steps)
  {
    hide IsScheduleOf, AllLockRows, AllTokenRows, AsI32, AsMap;
    assert |p.data.transactions| == |b.transactions|;
    forall i | 0 <= i < |b.transactions|
      ensures var t := b.transactions[i];
        t.signature in db.transactions && db.transactions[t.signature]
          == Stored(b.slot, TxValue(b.blockTime, t.failed, t.programIds, Some(AsI32(p.schedule.steps[i]))))
    {
      assert db.transactions[p.data.transactions[i].signature] == FinalRow(p, i);
    }
    forall sig | sig in db.transactions && db.transactions[sig].slot == b.slot
      ensures exists i :: 0 <= i < |b.transactions| && b.transactions[i].signature == sig
    {
      var i :| 0 <= i < |p.data.transactions| && p.data.transactions[i].signature == sig;
      assert b.transactions[i].signature == sig;
    }
  }

  lemma {:induction false} HeldLocks(db: Database, b: DecodedBlock, p: ParsedBlock)
    requires HoldsBlock(db, p) && IsParsed(b, p)
    ensures HoldsLocks(db, b)
  {
    hide IsScheduleOf, AllLockRows, AllTokenRows, AsMap, FinalRow, InOrder;
    var txs, rows := b.transactions, p.data.LockRows();
    var pos := LockRowPositions(txs);
    forall q: (nat, nat), key | IsKeyOfLock(txs, q, key)
      ensures key in db.locks && db.locks[key] == Stored(b.slot, txs[q.0].locks[q.1].isWritable)
    {
      var m :| 0 <= m < |pos| && pos[m] == q;
      assert IsLockRow(p.data.locks[m], txs[q.0], q.1);
      AsMapAt(rows, m);
      assert key in SlotRows(db.locks, b.slot) && SlotRows(db.locks, b.slot)[key] == rows[m].1;
    }
    forall key | key in db.locks && db.locks[key].slot == b.slot ensures exists q: (nat, nat) :: IsKeyOfLock(txs, q, key) {
      assert key in SlotRows(db.locks, b.slot);
      AsMapKeys(rows);
      var m :| 0 <= m < |rows| && rows[m].0 == key;
      assert IsLockRow(p.data.locks[m], txs[pos[m].0], pos[m].1);
      assert IsKeyOfLock(txs, pos[m], key);
    }
  }

  lemma {:induction false} HeldTokens(db: Database, b: DecodedBlock, p: ParsedBlock)
    requires HoldsBlock(db, p) && IsParsed(b, p)
    ensures HoldsTokens(db, b)
  {
    hide IsScheduleOf, AllLockRows, AllTokenRows, TokenRowsAt, NettedAt;
    var places := TokenRowPositions(b.transactions);
    var pos := CoalescedInOrder(p.data.tokenChanges);
    HeldTokenRows(db, b, p);
  }

  lemma {:induction false} HeldTokenRows(db: Database, b: DecodedBlock, p: ParsedBlock)
    requires HoldsBlock(db, p) && IsParsed(b, p)
    ensures HoldsTokenRows(db, b, Coalesced(p.data.tokenChanges))
  {
    hide IsScheduleOf, AllLockRows, AllTokenRows, AsMap, FinalRow, Coalesced;
    var rows, stored := Coalesced(p.data.tokenChanges), p.data.TokenRows();
    forall m | 0 <= m < |rows|
      ensures rows[m].key in db.tokens && db.tokens[rows[m].key]
        == Stored(b.slot, TokenValue(b.blockTime, rows[m].pre, rows[m].post, rows[m].decimals))
    {
      AsMapAt(stored, m);
      assert stored[m].0 in SlotRows(db.tokens, b.slot) && SlotRows(db.tokens, b.slot)[stored[m].0] == stored[m].1;
    }
    forall key | key in db.tokens && db.tokens[key].slot == b.slot
      ensures exists m :: 0 <= m < |rows| && rows[m].key == key
    {
      assert key in SlotRows(db.tokens, b.slot);
      AsMapKeys(stored);
      var m :| 0 <= m < |stored| && stored[m].0 == key;
      assert rows[m].key == key;
    }
  }

  lemma {:induction false} HeldBlock(db: Database, b: DecodedBlock, p: ParsedBlock)
    requires HoldsBlock(db, p) && IsParsed(b, p)
    ensures HoldsDecoded(db, b, p.schedule.steps)
  {
    HeldTransactions(db, b, p);
    HeldLocks(db, b, p);
    HeldTokens(db, b, p);
    hide HoldsTransactions, HoldsLocks, HoldsTokens, IsScheduleOf, AllLockRows, AllTokenRows, AsMap;
  }

  // ---------------- Depth ----------------

  /** The block that the run leaves in the slot. */
  ghost function StoredBlock(flushes: seq<seq<ParsedBlock>>, s: u64): Option<ParsedBlock> {
    LastFlushed(EMPTY, flushes, s)
  }

  ghost predicate HasDepth(flushes: seq<seq<ParsedBlock>>, fromSlot: u64, toSlot: u64, depth: nat) {
    exists s: u64 ::
      && Between(s, fromSlot, toSlot) && StoredBlock(flushes, s).Some?
      && StoredBlock(flushes, s).value.schedule.depth == depth
  }

  /** The cast to i64 keeps slots apart. */
  lemma {:induction false} OnlySlot(s: u64, slot: u64)
    ensures Between(s, slot, slot) <==> s == slot
  {
  }

  /** No block has so many transactions that a step overflows i32. */
  ghost predicate StepsFit(flushes: seq<seq<ParsedBlock>>) {
    forall f, k :: 0 <= f < |flushes| && 0 <= k < |flushes[f]| ==> |flushes[f][k].data.transactions| <= 0x8000_0000
  }

  lemma {:induction false} StoredBlockIsGood(flushes: seq<seq<ParsedBlock>>, s: u64)
    requires GoodRun(flushes) && StoredBlock(flushes, s).Some?
    ensures Consistent(StoredBlock(flushes, s).value)
    ensures StepsFit(flushes) ==> |StoredBlock(flushes, s).value.data.transactions| <= 0x8000_0000
  {
    var f, k := OriginOfBlock(EMPTY, flushes, s);
  }

  /** The row of a transaction carries its step as it is. */
  lemma {:induction false} StoredStep(db: Database, p: ParsedBlock, i: nat)
    requires HoldsBlock(db, p) && Consistent(p) && i < |p.data.transactions| <= 0x8000_0000
    ensures i < |p.schedule.steps| && p.data.transactions[i].signature in db.transactions
    ensures var row := db.transactions[p.data.transactions[i].signature];
      row.slot == p.data.slot && row.value.step == Some(p.schedule.steps[i])
  {
    hide AsI32, TokensFromSucceeded;
    assert db.transactions[p.data.transactions[i].signature] == FinalRow(p, i);
    AsI32Meaning(p.schedule.steps[i]);
  }

  lemma {:induction false} DepthBoundsSteps(db: Database, p: ParsedBlock, fromSlot: u64, toSlot: u64, depth: nat)
    requires HoldsBlock(db, p) && Consistent(p) && Between(p.data.slot, fromSlot, toSlot)
    requires |p.data.transactions| <= 0x8000_0000
    requires IsStoredDepth(db.transactions, fromSlot, toSlot, depth)
    ensures p.schedule.depth <= depth
  {
    hide Between, AsI32, HoldsBlock, TokensFromSucceeded;
    if p.schedule.depth > 0 {
      assert p.schedule.depth - 1 in p.schedule.steps;
      var i :| 0 <= i < |p.schedule.steps| && p.schedule.steps[i] == p.schedule.depth - 1;
      StoredStep(db, p, i);
    }
  }

  /** Over a range of slots the queried depth is the greatest depth of the blocks stored in it. */
  lemma {:induction false} QueriedDepthIsMaximum(flushes: seq<seq<ParsedBlock>>, fromSlot: u64, toSlot: u64, depth: nat)
    requires GoodRun(flushes) && StepsFit(flushes)
    requires IsStoredDepth(FlushRun(EMPTY, flushes).transactions, fromSlot, toSlot, depth)
    ensures forall s: u64 :: Between(s, fromSlot, toSlot) && StoredBlock(flushes, s).Some? ==>
      StoredBlock(flushes, s).value.schedule.depth <= depth
    ensures depth == 0 || HasDepth(flushes, fromSlot, toSlot, depth)
  {
    hide Between, HoldsBlock, Consistent;
    var db := FlushRun(EMPTY, flushes);
    forall s: u64 | Between(s, fromSlot, toSlot) && StoredBlock(flushes, s).Some?
      ensures StoredBlock(flushes, s).value.schedule.depth <= depth
    {
      RunHoldsLastBlocks(flushes, s);
      StoredBlockIsGood(flushes, s);
      DepthBoundsSteps(db, StoredBlock(flushes, s).value, fromSlot, toSlot, depth);
    }
    if depth > 0 {
      var sig :| sig in db.transactions && InRange(db.transactions[sig], fromSlot, toSlot)
        && db.transactions[sig].value.step.value == depth - 1;
      StepComesFromBlock(flushes, sig);
    }
  }

  /** Every stored transaction belongs to the block stored for its slot, whose depth exceeds its step. */
  lemma {:induction false} StepComesFromBlock(flushes: seq<seq<ParsedBlock>>, sig: string)
    requires GoodRun(flushes) && StepsFit(flushes) && sig in FlushRun(EMPTY, flushes).transactions
    ensures var row := FlushRun(EMPTY, flushes).transactions[sig];
      && StoredBlock(flushes, row.slot).Some? && row.value.step.Some?
      && 0 <= row.value.step.value < StoredBlock(flushes, row.slot).value.schedule.depth
  {
    hide GoodRun, FlushRun, LastFlushed, Consistent, HoldsBlock;
    var db := FlushRun(EMPTY, flushes);
    var s := db.transactions[sig].slot;
    RunHoldsLastBlocks(flushes, s);
    StoredBlockIsGood(flushes, s);
    StepBelowDepth(db, StoredBlock(flushes, s).value, sig);
  }

  lemma {:induction false} StepBelowDepth(db: Database, p: ParsedBlock, sig: string)
    requires HoldsBlock(db, p) && Consistent(p) && |p.data.transactions| <= 0x8000_0000
    requires sig in db.transactions && db.transactions[sig].slot == p.data.slot
    ensures var step := db.transactions[sig].value.step; step.Some? && 0 <= step.value < p.schedule.depth
  {
    hide AsI32, TokensFromSucceeded;
    var i :| 0 <= i < |p.data.transactions| && p.data.transactions[i].signature == sig;
    StoredStep(db, p, i);
    assert p.schedule.steps[i] in p.schedule.steps;
  }

  /** For one slot the queried depth is the length of the longest conflict chain of its block. */
  lemma {:induction false} QueriedDepthIsLongestChain(
      flushes: seq<seq<ParsedBlock>>, b: DecodedBlock, p: ParsedBlock, depth: nat)
    requires GoodRun(flushes) && StepsFit(flushes) && StoredBlock(flushes, b.slot) == Some(p) && IsParsed(b, p)
    requires IsStoredDepth(FlushRun(EMPTY, flushes).transactions, b.slot, b.slot, depth)
    ensures depth == p.schedule.depth && IsLongestChainLength(TxLocksOf(b.transactions), depth)
  {
    hide GoodRun, StepsFit, IsStoredDepth, FlushRun, LastFlushed;
    QueriedDepthIsMaximum(flushes, b.slot, b.slot, depth);
    forall s: u64 | Between(s, b.slot, b.slot) ensures s == b.slot { OnlySlot(s, b.slot); }
  }

  // ---------------- Lock counts and conflict events ----------------

  /** The write locks on the account among the rows. */
  function LockCount(rows: seq<AccountLockRow>, account: string): nat {
    if rows == [] then 0
    else
      var r := rows[|rows| - 1];
      LockCount(rows[..|rows| - 1], account) + if r.isWritable && r.account == account then 1 else 0
  }

  lemma {:induction false} LockCountAppend(xs: seq<AccountLockRow>, ys: seq<AccountLockRow>, account: string)
    ensures LockCount(xs + ys, account) == LockCount(xs, account) + LockCount(ys, account)
  {
    if ys == [] {
      assert xs + ys == xs;
    } else {
      assert (xs + ys)[..|xs + ys| - 1] == xs + ys[..|ys| - 1];
      LockCountAppend(xs, ys[..|ys| - 1], account);
    }
  }

  lemma {:induction false} LockCountOfOne(t: DecodedTransaction, k: nat, account: string)
    requires k <= |t.locks|
    ensures LockCount(LockRows(t)[..k], account) == WriteLockCount(t.locks[..k], account)
  {
    if k > 0 {
      LockCountOfOne(t, k - 1, account);
      assert LockRows(t)[..k][..k - 1] == LockRows(t)[..k - 1];
      assert t.locks[..k] == t.locks[..k - 1] + [t.locks[k - 1]];
    }
  }

  lemma {:induction false} LockCountOfTransaction(t: DecodedTransaction, account: string)
    ensures LockCount(LockRows(t), account) == WriteLockCount(t.locks, account)
  {
    LockCountOfOne(t, |t.locks|, account);
    assert t.locks[..|t.locks|] == t.locks && LockRows(t)[..|t.locks|] == LockRows(t);
  }

  lemma {:induction false} LockCountOfBlock(txs: seq<DecodedTransaction>, n: nat, account: string)
    requires n <= |txs|
    ensures LockCount(AllLockRows(txs[..n]), account) == WriteLockCount(AllLocks(TxLocksOf(txs), n), account)
  {
    hide LockRows;
    if n > 0 {
      LockCountOfBlock(txs, n - 1, account);
      assert txs[..n][..n - 1] == txs[..n - 1];
      LockCountAppend(AllLockRows(txs[..n - 1]), LockRows(txs[n - 1]), account);
      LockCountOfTransaction(txs[n - 1], account);
    }
  }

  /** The keys of the write locks on the account. */
  ghost function WriteKeys(rows: map<PairKey, bool>, account: string): set<PairKey> {
    set k | k in rows && rows[k] && k.1 == account
  }

  lemma {:induction false} WriteKeysCount(d: SlotData, account: string)
    requires DistinctRowKeys(d.LockRows())
    ensures |WriteKeys(AsMap(d.LockRows()), account)| == LockCount(d.locks, account)
    decreases |d.locks|
  {
    var rows := d.LockRows();
    if d.locks == [] {
      assert WriteKeys(AsMap(rows), account) == {};
    } else {
      var n := |d.locks| - 1;
      var init := d.(locks := d.locks[..n]);
      assert init.LockRows() == rows[..n];
      WriteKeysCount(init, account);
      AsMapKeys(rows[..n]);
      OneMoreKey(AsMap(rows[..n]), rows[n].0, rows[n].1, account);
    }
  }

  lemma {:induction false} OneMoreKey(m: map<PairKey, bool>, key: PairKey, writable: bool, account: string)
    requires key !in m
    ensures |WriteKeys(m[key := writable], account)|
      == |WriteKeys(m, account)| + if writable && key.1 == account then 1 else 0
  {
    assert WriteKeys(m[key := writable], account)
      == WriteKeys(m, account) + if writable && key.1 == account then {key} else {};
  }

  lemma {:induction false} WriteLocksOfSlot(locks: Table<PairKey, bool>, s: u64, account: string)
    ensures WriteLocksOn(locks, s, s, account) == WriteKeys(SlotRows(locks, s), account)
  {
    hide Between;
    forall k | k in locks ensures Between(locks[k].slot, s, s) <==> locks[k].slot == s { OnlySlot(locks[k].slot, s); }
  }

  lemma {:induction false} StoredLockCount(db: Database, p: ParsedBlock, account: string)
    requires HoldsBlock(db, p)
    ensures |WriteLocksOn(db.locks, p.data.slot, p.data.slot, account)| == LockCount(p.data.locks, account)
  {
    hide LockCount, AsMap;
    WriteLocksOfSlot(db.locks, p.data.slot, account);
    WriteKeysCount(p.data, account);
  }

  /**
   The number of write locks queried for an account in one block is its number of conflict events,
   plus one when the first lock on the account is a write.
   */
  lemma {:induction false} QueriedCountsNearEvents(
      flushes: seq<seq<ParsedBlock>>, b: DecodedBlock, p: ParsedBlock, account: string)
    requires GoodRun(flushes) && StoredBlock(flushes, b.slot) == Some(p) && IsParsed(b, p)
    ensures var txs := TxLocksOf(b.transactions);
      |WriteLocksOn(FlushRun(EMPTY, flushes).locks, b.slot, b.slot, account)|
        == EventCount(p.schedule.conflicts, account) + if FirstLockIsWrite(AllLocks(txs, |txs|), account) then 1 else 0
  {
    hide HoldsBlock, GoodRun, FlushRun, LastFlushed, WriteLocksOn, FirstLockIsWrite, IsScheduleOf;
    var db, txs, n := FlushRun(EMPTY, flushes), TxLocksOf(b.transactions), |b.transactions|;
    RunHoldsLastBlocks(flushes, b.slot);
    StoredLockCount(db, p, account);
    LockCountOfBlock(b.transactions, n, account);
    assert b.transactions[..n] == b.transactions;
    ParsedEventsAccounted(b, p, account);
  }

  lemma {:induction false} ParsedEventsAccounted(b: DecodedBlock, p: ParsedBlock, account: string)
    requires IsParsed(b, p)
    ensures var txs := TxLocksOf(b.transactions);
      Accounted(p.schedule.conflicts, AllLocks(txs, |txs|), account)
  {
    var txs := TxLocksOf(b.transactions);
    assert |p.schedule.steps| == |txs|;
    hide LeastSchedule, IsLongestChainLength, Accounted;
    EventsCountWriteLocks(txs, p.schedule.steps, |txs|, account);
  }

  /** The stored write locks on the account in any of the slots. */
  ghost function WriteLocksIn(locks: Table<PairKey, bool>, slots: seq<u64>, account: string): set<PairKey> {
    set k | k in locks && locks[k].slot in slots && locks[k].value && k.1 == account
  }

  /** The write locks of the single slots, added up. */
  ghost function SlotCounts(locks: Table<PairKey, bool>, slots: seq<u64>, account: string): nat {
    if slots == [] then 0
    else
      var s := slots[|slots| - 1];
      SlotCounts(locks, slots[..|slots| - 1], account) + |WriteLocksOn(locks, s, s, account)|
  }

  lemma {:induction false} CountsAddUp(locks: Table<PairKey, bool>, slots: seq<u64>, account: string)
    requires Distinct(slots)
    ensures |WriteLocksIn(locks, slots, account)| == SlotCounts(locks, slots, account)
  {
    hide Between, WriteLocksOn;
    if slots == [] {
      assert WriteLocksIn(locks, slots, account) == {};
    } else {
      var n := |slots| - 1;
      var init, s := slots[..n], slots[n];
      CountsAddUp(locks, init, account);
      assert slots == init + [s];
      OneMoreSlot(locks, init, s, account);
    }
  }

  lemma {:induction false} OneMoreSlot(locks: Table<PairKey, bool>, slots: seq<u64>, s: u64, account: string)
    requires s !in slots
    ensures |WriteLocksIn(locks, slots + [s], account)|
      == |WriteLocksIn(locks, slots, account)| + |WriteLocksOn(locks, s, s, account)|
  {
    hide WriteLocksOn;
    WriteLocksOfSlot(locks, s, account);
    var before, last := WriteLocksIn(locks, slots, account), WriteKeys(SlotRows(locks, s), account);
    assert WriteLocksIn(locks, slots + [s], account) == before + last;
    assert before !! last;
  }

  /** The blocks that are stored in the range, each once, with the decoded blocks they were parsed from. */
  ghost predicate AreStoredBlocks(
      flushes: seq<seq<ParsedBlock>>, fromSlot: u64, toSlot: u64, bs: seq<DecodedBlock>, ps: seq<ParsedBlock>) {
    && |bs| == |ps| && Distinct(SlotsOfDecoded(bs))
    && (forall k :: 0 <= k < |bs| ==>
          Between(bs[k].slot, fromSlot, toSlot) && StoredBlock(flushes, bs[k].slot) == Some(ps[k]) && IsParsed(bs[k], ps[k]))
    && (forall s: u64 :: Between(s, fromSlot, toSlot) && StoredBlock(flushes, s).Some? ==> s in SlotsOfDecoded(bs))
  }

  ghost function SlotsOfDecoded(bs: seq<DecodedBlock>): (r: seq<u64>)
    ensures |r| == |bs|
    ensures forall k :: 0 <= k < |bs| ==> r[k] == bs[k].slot
  {
    seq(|bs|, k requires 0 <= k < |bs| => bs[k].slot)
  }

  /** The block's conflict events on the account, and one when its first lock on the account is a write. */
  ghost function EventsAndFirst(b: DecodedBlock, p: ParsedBlock, account: string): nat {
    var txs := TxLocksOf(b.transactions);
    EventCount(p.schedule.conflicts, account) + if FirstLockIsWrite(AllLocks(txs, |txs|), account) then 1 else 0
  }

  ghost function TotalEventsAndFirst(bs: seq<DecodedBlock>, ps: seq<ParsedBlock>, account: string, n: nat): nat
    requires n <= |bs| == |ps|
  {
    if n == 0 then 0 else TotalEventsAndFirst(bs, ps, account, n - 1) + EventsAndFirst(bs[n - 1], ps[n - 1], account)
  }

  ghost function TotalEvents(ps: seq<ParsedBlock>, account: string, n: nat): nat
    requires n <= |ps|
  {
    if n == 0 then 0 else TotalEvents(ps, account, n - 1) + EventCount(ps[n - 1].schedule.conflicts, account)
  }

  lemma {:induction false} CountsAreEvents(
      flushes: seq<seq<ParsedBlock>>, fromSlot: u64, toSlot: u64, bs: seq<DecodedBlock>, ps: seq<ParsedBlock>,
      account: string, n: nat)
    requires GoodRun(flushes) && AreStoredBlocks(flushes, fromSlot, toSlot, bs, ps) && n <= |bs|
    ensures SlotCounts(FlushRun(EMPTY, flushes).locks, SlotsOfDecoded(bs)[..n], account) == TotalEventsAndFirst(bs, ps, account, n)
    ensures TotalEvents(ps, account, n) <= TotalEventsAndFirst(bs, ps, account, n) <= TotalEvents(ps, account, n) + n
  {
    hide GoodRun, FlushRun, Between, IsParsed, WriteLocksOn, FirstLockIsWrite, AllLocks, EventCount;
    if n > 0 {
      CountsAreEvents(flushes, fromSlot, toSlot, bs, ps, account, n - 1);
      QueriedCountsNearEvents(flushes, bs[n - 1], ps[n - 1], account);
      assert SlotsOfDecoded(bs)[..n][..n - 1] == SlotsOfDecoded(bs)[..n - 1];
    }
  }

  /** Every stored lock belongs to the block stored for its slot. */
  lemma {:induction false} LockHasBlock(flushes: seq<seq<ParsedBlock>>, key: PairKey)
    requires GoodRun(flushes) && key in FlushRun(EMPTY, flushes).locks
    ensures StoredBlock(flushes, FlushRun(EMPTY, flushes).locks[key].slot).Some?
  {
    hide HoldsBlock, GoodRun, LastFlushed;
    var db := FlushRun(EMPTY, flushes);
    var s := db.locks[key].slot;
    hide FlushRun;
    assert key in SlotRows(db.locks, s);
    RunHoldsLastBlocks(flushes, s);
  }

  /**
   Over a range the number of write locks queried for an account is the sum, over the blocks stored
   in the range, of its conflict events and one for each block whose first lock on it is a write; so
   it exceeds the events by at most one per block.
   */
  lemma {:induction false} QueriedRangeCounts(
      flushes: seq<seq<ParsedBlock>>, fromSlot: u64, toSlot: u64, bs: seq<DecodedBlock>, ps: seq<ParsedBlock>, account: string)
    requires GoodRun(flushes) && AreStoredBlocks(flushes, fromSlot, toSlot, bs, ps)
    ensures |WriteLocksOn(FlushRun(EMPTY, flushes).locks, fromSlot, toSlot, account)|
      == TotalEventsAndFirst(bs, ps, account, |bs|)
    ensures TotalEvents(ps, account, |ps|)
      <= |WriteLocksOn(FlushRun(EMPTY, flushes).locks, fromSlot, toSlot, account)|
      <= TotalEvents(ps, account, |ps|) + |bs|
  {
    hide GoodRun, FlushRun, Between, IsParsed;
    var locks, slots := FlushRun(EMPTY, flushes).locks, SlotsOfDecoded(bs);
    forall k | k in locks ensures locks[k].slot in slots <==> Between(locks[k].slot, fromSlot, toSlot) {
      LockHasBlock(flushes, k);
      if locks[k].slot in slots { var i :| 0 <= i < |slots| && slots[i] == locks[k].slot; }
    }
    assert WriteLocksOn(locks, fromSlot, toSlot, account) == WriteLocksIn(locks, slots, account);
    CountsAddUp(locks, slots, account);
    CountsAreEvents(flushes, fromSlot, toSlot, bs, ps, account, |bs|);
    assert slots[..|bs|] == slots;
  }

  // ---------------- Stored token rows ----------------

  /** `b` was decoded from `raw`, and the balances of its successful transactions are consistent. */
  ghost predicate IsDecodedBlock(raw: seq<RawTransaction>, b: DecodedBlock) {
    && |raw| == |b.transactions|
    && (forall i :: 0 <= i < |raw| ==> IsDecoded(raw[i], b.transactions[i]))
    && forall i :: 0 <= i < |raw| && !raw[i].Failed() ==> ConsistentBalances(raw[i])
  }

  ghost predicate RowsRecord(r: RawTransaction, rows: seq<MintRow>) {
    RecordsChanges(rows, r.PreBalances(), r.PostBalances()) && Canonical(rows)
  }

  /** What matters of that for the token rows. */
  ghost predicate IsFaithful(raw: seq<RawTransaction>, txs: seq<DecodedTransaction>) {
    && |raw| == |txs|
    && (forall i :: 0 <= i < |raw| ==> txs[i].signature == raw[i].Signature() && txs[i].failed == raw[i].Failed())
    && forall i :: 0 <= i < |raw| && !raw[i].Failed() ==> RowsRecord(raw[i], txs[i].tokenDeltas)
  }

  lemma {:induction false} DecodedBlockIsFaithful(raw: seq<RawTransaction>, b: DecodedBlock)
    requires IsDecodedBlock(raw, b)
    ensures IsFaithful(raw, b.transactions)
  {
    forall i | 0 <= i < |raw| && !raw[i].Failed() ensures RowsRecord(raw[i], b.transactions[i].tokenDeltas) {
      DecodedRowsConserve(raw[i], b.transactions[i]);
    }
  }

  lemma {:induction false} StoredSignaturesDistinct(b: DecodedBlock, d: SlotData)
    requires d == BlockData(b) && DistinctRowKeys(d.TxRows())
    ensures DistinctSignatures(b.transactions)
  {
    var rows, txs := d.TxRows(), b.transactions;
    assert forall i :: 0 <= i < |txs| ==> rows[i].0 == txs[i].signature;
  }

  /** Transaction `i` did not fail and changed the total of the mint. */
  ghost predicate Moves(raw: seq<RawTransaction>, i: nat, key: PairKey) {
    && i < |raw| && !raw[i].Failed() && raw[i].Signature() == key.0
    && TotalOf(raw[i].PreBalances(), key.1) != TotalOf(raw[i].PostBalances(), key.1)
  }

  /** The change of the mint's total, with one zero side. */
  ghost predicate IsBalanceChange(pre: u64, post: u64, r: RawTransaction, mint: string) {
    && post - pre == TotalOf(r.PostBalances(), mint) - TotalOf(r.PreBalances(), mint)
    && (pre == 0 || post == 0)
  }

  lemma {:induction false} RowOfMove(
      raw: seq<RawTransaction>, txs: seq<DecodedTransaction>, i: nat, key: PairKey) returns (r: Row<PairKey>)
    requires IsFaithful(raw, txs) && Moves(raw, i, key)
    ensures r in AllTokenRows(txs) && r.key == key && IsBalanceChange(r.pre, r.post, raw[i], key.1)
  {
    var rows := txs[i].tokenDeltas;
    assert MentionsMint(rows, key.1);
    var k :| 0 <= k < |rows| && rows[k].key == key.1;
    assert OneSided(rows[k]) && rows[k] in rows;
    r := TokenRow(txs[i], rows[k]);
    OnlySucceededRows(txs, r);
  }

  lemma {:induction false} MoveOfRow(
      raw: seq<RawTransaction>, txs: seq<DecodedTransaction>, r: Row<PairKey>) returns (i: nat)
    requires IsFaithful(raw, txs) && r in AllTokenRows(txs)
    ensures Moves(raw, i, r.key) && IsBalanceChange(r.pre, r.post, raw[i], r.key.1)
  {
    OnlySucceededRows(txs, r);
    var j, d :| 0 <= j < |txs| && !txs[j].failed && d in txs[j].tokenDeltas && r == TokenRow(txs[j], d);
    i := j;
    assert MentionsMint(txs[i].tokenDeltas, d.key);
    var k :| 0 <= k < |txs[i].tokenDeltas| && txs[i].tokenDeltas[k] == d;
    assert OneSided(txs[i].tokenDeltas[k]);
  }

  /** For one key: a row exactly when a transaction moves the mint, and the row is that move. */
  ghost predicate RecordsMoves(
      rows: map<PairKey, TokenValue>, raw: seq<RawTransaction>, blockTime: Option<int>, key: PairKey) {
    if key in rows then
      && rows[key].blockTime == blockTime
      && exists i: nat :: Moves(raw, i, key) && IsBalanceChange(rows[key].pre, rows[key].post, raw[i], key.1)
    else forall i: nat :: !Moves(raw, i, key)
  }

  lemma {:induction false} BlockRecordsMoves(
      raw: seq<RawTransaction>, txs: seq<DecodedTransaction>, d: SlotData, key: PairKey)
    requires IsFaithful(raw, txs) && d.tokenChanges == AllTokenRows(txs) == Coalesced(d.tokenChanges)
    requires DistinctRowKeys(d.TokenRows())
    ensures RecordsMoves(AsMap(d.TokenRows()), raw, d.blockTime, key)
  {
    AsMapKeys(d.TokenRows());
    forall i: nat | Moves(raw, i, key) ensures key in AsMap(d.TokenRows()) {
      var r := RowOfMove(raw, txs, i, key);
      var k :| 0 <= k < |d.tokenChanges| && d.tokenChanges[k] == r;
      assert d.TokenRows()[k].0 == key;
    }
    if key in AsMap(d.TokenRows()) {
      var k :| 0 <= k < |d.TokenRows()| && d.TokenRows()[k].0 == key;
      AsMapAt(d.TokenRows(), k);
      assert d.tokenChanges[k] in d.tokenChanges;
      var i := MoveOfRow(raw, txs, d.tokenChanges[k]);
    }
  }

  /**
   End to end for balances: the stored rows of a slot are exactly the mints whose totals the
   transactions of its block changed, failed transactions left out, each with the change itself.
   */
  lemma {:induction false} StoredRowsAreBalanceChanges(
      flushes: seq<seq<ParsedBlock>>, raw: seq<RawTransaction>, b: DecodedBlock, p: ParsedBlock, key: PairKey)
    requires GoodRun(flushes) && StoredBlock(flushes, b.slot) == Some(p) && IsParsed(b, p) && IsDecodedBlock(raw, b)
    ensures RecordsMoves(SlotRows(FlushRun(EMPTY, flushes).tokens, b.slot), raw, b.blockTime, key)
  {
    RunHoldsLastBlocks(flushes, b.slot);
    StoredSignaturesDistinct(b, p.data);
    DecodedBlockIsFaithful(raw, b);
    assert CanonicalBlock(b.transactions) by { FaithfulIsCanonical(raw, b.transactions); }
    SecondPassIsIdentity(b.transactions);
    BlockRecordsMoves(raw, b.transactions, p.data, key);
  }

  lemma {:induction false} FaithfulIsCanonical(raw: seq<RawTransaction>, txs: seq<DecodedTransaction>)
    requires IsFaithful(raw, txs)
    ensures CanonicalBlock(txs)
  {
    forall i | 0 <= i < |txs| && !txs[i].failed ensures Canonical(txs[i].tokenDeltas) {
      assert RowsRecord(raw[i], txs[i].tokenDeltas);
    }
  }
}

/**
 The repository over its tables (crates/storage/src/repository.rs, crates/storage/src/schema.rs).
 The database engine is taken at its word: statements outside a transaction take effect at once,
 ROLLBACK restores the state at BEGIN, and a primary-key violation or a value outside the range of its
 column is an error.  Slots are u64 values; the queries compare them after the cast to i64.
 */
module Storage {
  import opened Numbers
  import opened Options
  import opened Tables
  import opened TokenNetting

  /** (tx_signature, account) or (tx_signature, mint). */
  type PairKey = (string, string)

  datatype BlockRow = BlockRow(blockTime: Option<int>, txCount: int)
  datatype TxValue = TxValue(blockTime: Option<int>, failed: bool, programIds: seq<string>, step: Option<int>)
  datatype TokenValue = TokenValue(blockTime: Option<int>, pre: u64, post: u64, decimals: u8)

  datatype Database = Database(
    blocks: map<u64, BlockRow>, transactions: Table<string, TxValue>,
    locks: Table<PairKey, bool>, tokens: Table<PairKey, TokenValue>)

  const EMPTY := Database(map[], map[], map[], map[])

  datatype TransactionRow = TransactionRow(signature: string, failed: bool, programIds: seq<string>, step: Option<int>)
  datatype AccountLockRow = AccountLockRow(signature: string, account: string, isWritable: bool)

  /** Everything one slot brings along: one element of a batch. */
  datatype SlotData = SlotData(
    slot: u64, blockTime: Option<int>, transactions: seq<TransactionRow>,
    locks: seq<AccountLockRow>, tokenChanges: seq<Row<PairKey>>)
  {
    function TxRows(): (r: seq<(string, TxValue)>)
      ensures |r| == |transactions|
      ensures forall i :: 0 <= i < |r| ==> r[i] == TxRow(transactions[i])
    {
      seq(|transactions|, i requires 0 <= i < |transactions| => TxRow(transactions[i]))
    }

    function TxRow(t: TransactionRow): (string, TxValue) {
      (t.signature, TxValue(blockTime, t.failed, t.programIds, t.step))
    }

    function LockRows(): (r: seq<(PairKey, bool)>)
      ensures |r| == |locks|
      ensures forall i :: 0 <= i < |r| ==> r[i] == ((locks[i].signature, locks[i].account), locks[i].isWritable)
    {
      seq(|locks|, i requires 0 <= i < |locks| => ((locks[i].signature, locks[i].account), locks[i].isWritable))
    }

    function TokenRows(): (r: seq<(PairKey, TokenValue)>)
      ensures var rows := Coalesced(tokenChanges);
        |r| == |rows| && forall i :: 0 <= i < |r| ==>
          r[i] == (rows[i].key, TokenValue(blockTime, rows[i].pre, rows[i].post, rows[i].decimals))
    {
      var rows := Coalesced(tokenChanges);
      seq(|rows|, i requires 0 <= i < |rows| =>
        (rows[i].key, TokenValue(blockTime, rows[i].pre, rows[i].post, rows[i].decimals)))
    }
  }

  /** Cast to i64 and i32, the values lie in the ranges of their columns, UBIGINT and TINYINT. */
  predicate InColumns(rows: seq<Row<PairKey>>) {
    forall i :: 0 <= i < |rows| ==>
      rows[i].pre < 0x8000_0000_0000_0000 && rows[i].post < 0x8000_0000_0000_0000 && rows[i].decimals < 128
  }

  /** A row is refused exactly when its cast amount is negative or its decimals exceed a signed byte. */
  lemma {:induction false} ColumnsIff(rows: seq<Row<PairKey>>)
    ensures InColumns(rows) <==> forall r :: r in rows ==> AsI64(r.pre) >= 0 && AsI64(r.post) >= 0 && r.decimals <= 127
  {
    if forall r :: r in rows ==> AsI64(r.pre) >= 0 && AsI64(r.post) >= 0 && r.decimals <= 127 {
      forall i | 0 <= i < |rows|
        ensures rows[i].pre < 0x8000_0000_0000_0000 && rows[i].post < 0x8000_0000_0000_0000 && rows[i].decimals < 128
      {
        assert rows[i] in rows;
      }
    }
  }

  // ---------------- Specification ----------------

  function ReplaceSlot(db: Database, d: SlotData): Option<Database> {
    if !InColumns(Coalesced(d.tokenChanges)) then None
    else
      match (Replace(db.transactions, d.slot, d.TxRows()), Replace(db.locks, d.slot, d.LockRows()),
             Replace(db.tokens, d.slot, d.TokenRows()))
      case (Some(tx), Some(lk), Some(tk)) =>
        Some(Database(db.blocks[d.slot := BlockRow(d.blockTime, AsI32(|d.transactions|))], tx, lk, tk))
      case _ => None
  }

  function ReplaceBatch(db: Database, batch: seq<SlotData>): Option<Database> {
    if batch == [] then Some(db)
    else
      match ReplaceBatch(db, batch[..|batch| - 1])
      case None => None
      case Some(db') => ReplaceSlot(db', batch[|batch| - 1])
  }

  /** The database after a batch was attempted: a failed batch is rolled back. */
  function AfterBatch(db: Database, batch: seq<SlotData>): Database {
    if ReplaceBatch(db, batch).Some? then ReplaceBatch(db, batch).value else db
  }

  function SetStep(transactions: Table<string, TxValue>, signature: string, step: nat): Table<string, TxValue> {
    if signature in transactions then
      var row := transactions[signature];
      transactions[signature := Stored(row.slot, row.value.(step := Some(AsI32(step))))]
    else transactions
  }

  /** The first `n` pairs of signature and step have been written. */
  function WithSteps(
      transactions: Table<string, TxValue>, signatures: seq<string>, steps: seq<nat>, n: nat): Table<string, TxValue>
    requires n <= |signatures| && n <= |steps|
  {
    if n == 0 then transactions
    else SetStep(WithSteps(transactions, signatures, steps, n - 1), signatures[n - 1], steps[n - 1])
  }

  /** `slot BETWEEN fromSlot AND toSlot`, all three cast to i64. */
  predicate Between(slot: u64, fromSlot: u64, toSlot: u64) { AsI64(fromSlot) <= AsI64(slot) <= AsI64(toSlot) }

  /** Slots below 2^63 are compared as they are; the cast moves the others below all of these. */
  lemma {:induction false} BetweenMeaning(slot: u64, fromSlot: u64, toSlot: u64)
    ensures Between(slot, fromSlot, toSlot) <==>
      if fromSlot < 0x8000_0000_0000_0000 && toSlot >= 0x8000_0000_0000_0000 then false
      else if fromSlot >= 0x8000_0000_0000_0000 && toSlot < 0x8000_0000_0000_0000 then fromSlot <= slot || slot <= toSlot
      else fromSlot <= slot <= toSlot
  {
  }

  predicate InRange(row: Stored<TxValue>, fromSlot: u64, toSlot: u64) {
    Between(row.slot, fromSlot, toSlot) && row.value.step.Some?
  }

  ghost predicate HasStep(transactions: Table<string, TxValue>, fromSlot: u64, toSlot: u64, step: nat) {
    exists sig ::
      && sig in transactions && InRange(transactions[sig], fromSlot, toSlot)
      && transactions[sig].value.step.value == step
  }

  /** One more than the largest step stored for the slots of the range; 0 when there is none. */
  ghost predicate IsStoredDepth(transactions: Table<string, TxValue>, fromSlot: u64, toSlot: u64, depth: nat) {
    && (forall sig :: sig in transactions && InRange(transactions[sig], fromSlot, toSlot) ==>
          transactions[sig].value.step.value < depth)
    && (depth == 0 || HasStep(transactions, fromSlot, toSlot, depth - 1))
  }

  /** The stored write locks on an account, over a range of slots. */
  ghost function WriteLocksOn(locks: Table<PairKey, bool>, fromSlot: u64, toSlot: u64, account: string): set<PairKey> {
    set k | k in locks && Between(locks[k].slot, fromSlot, toSlot) && locks[k].value && k.1 == account
  }

  ghost predicate Listed(top: seq<(string, nat)>, account: string) { exists i :: 0 <= i < |top| && top[i].0 == account }

  /** At most 20 accounts, each with its number of write locks, by descending number; none that is left out has more. */
  ghost predicate IsTopList(locks: Table<PairKey, bool>, fromSlot: u64, toSlot: u64, top: seq<(string, nat)>) {
    && |top| <= 20
    && (forall i :: 0 <= i < |top| ==> top[i].1 == |WriteLocksOn(locks, fromSlot, toSlot, top[i].0)| > 0)
    && (forall i, j :: 0 <= i < j < |top| ==> top[i].0 != top[j].0 && top[i].1 >= top[j].1)
    && forall a :: !Listed(top, a) && WriteLocksOn(locks, fromSlot, toSlot, a) != {} ==>
         |top| == 20 && |WriteLocksOn(locks, fromSlot, toSlot, a)| <= top[19].1
  }

  // ---------------- Grouping write locks ----------------

  /** The write locks among the first keys that were looked at. */
  ghost function Among(
      locks: Table<PairKey, bool>, seen: set<PairKey>, fromSlot: u64, toSlot: u64, account: string): set<PairKey> {
    WriteLocksOn(locks, fromSlot, toSlot, account) * seen
  }

  ghost predicate Counted(
      locks: Table<PairKey, bool>, seen: set<PairKey>, fromSlot: u64, toSlot: u64, counts: map<string, nat>) {
    forall a :: CountedFor(Among(locks, seen, fromSlot, toSlot, a), counts, a)
  }

  ghost predicate CountedFor(found: set<PairKey>, counts: map<string, nat>, account: string) {
    if account in counts then counts[account] == |found| > 0 else found == {}
  }

  function Incremented(counts: map<string, nat>, account: string): map<string, nat> {
    counts[account := (if account in counts then counts[account] else 0) + 1]
  }

  lemma {:induction false} CountOne(
      locks: Table<PairKey, bool>, seen: set<PairKey>, fromSlot: u64, toSlot: u64, counts: map<string, nat>, k: PairKey)
    requires Counted(locks, seen, fromSlot, toSlot, counts) && k in locks && k !in seen
    ensures Counted(locks, seen + {k}, fromSlot, toSlot,
                    if Between(locks[k].slot, fromSlot, toSlot) && locks[k].value then Incremented(counts, k.1) else counts)
  {
    var counts' := if Between(locks[k].slot, fromSlot, toSlot) && locks[k].value then Incremented(counts, k.1) else counts;
    forall a ensures CountedFor(Among(locks, seen + {k}, fromSlot, toSlot, a), counts', a) {
      assert CountedFor(Among(locks, seen, fromSlot, toSlot, a), counts, a);
      if Between(locks[k].slot, fromSlot, toSlot) && locks[k].value && k.1 == a {
        assert Among(locks, seen + {k}, fromSlot, toSlot, a) == Among(locks, seen, fromSlot, toSlot, a) + {k};
      } else {
        assert Among(locks, seen + {k}, fromSlot, toSlot, a) == Among(locks, seen, fromSlot, toSlot, a);
      }
    }
  }

  /** GROUP BY account, COUNT(*). */
  method CountWriteLocks(locks: Table<PairKey, bool>, fromSlot: u64, toSlot: u64) returns (counts: map<string, nat>)
    ensures Counted(locks, locks.Keys, fromSlot, toSlot, counts)
  {
    counts := map[];
    var rest := locks.Keys;
    while rest != {}
      invariant rest <= locks.Keys
      invariant Counted(locks, locks.Keys - rest, fromSlot, toSlot, counts)
      decreases |rest|
    {
      var k :| k in rest;
      CountOne(locks, locks.Keys - rest, fromSlot, toSlot, counts, k);
      assert locks.Keys - (rest - {k}) == locks.Keys - rest + {k};
      rest := rest - {k};
      if Between(locks[k].slot, fromSlot, toSlot) && locks[k].value {
        counts := Incremented(counts, k.1);
      }
    }
    assert locks.Keys - {} == locks.Keys;
  }

  lemma {:induction false} AllAmong(locks: Table<PairKey, bool>, fromSlot: u64, toSlot: u64, a: string)
    ensures Among(locks, locks.Keys, fromSlot, toSlot, a) == WriteLocksOn(locks, fromSlot, toSlot, a)
  {
  }

  method Largest(counts: map<string, nat>, candidates: set<string>) returns (best: string)
    requires candidates != {} && candidates <= counts.Keys
    ensures best in candidates && forall a :: a in candidates ==> counts[a] <= counts[best]
  {
    var rest := candidates;
    best :| best in rest;
    while rest != {}
      invariant rest <= candidates && best in candidates
      invariant forall a :: a in candidates - rest ==> counts[a] <= counts[best]
      decreases |rest|
    {
      var a :| a in rest;
      rest := rest - {a};
      if counts[a] > counts[best] { best := a; }
    }
  }

  /** ORDER BY the count, descending, LIMIT 20. */
  method TopTwenty(counts: map<string, nat>) returns (top: seq<(string, nat)>)
    ensures |top| <= 20
    ensures forall i :: 0 <= i < |top| ==> top[i].0 in counts && top[i].1 == counts[top[i].0]
    ensures forall i, j :: 0 <= i < j < |top| ==> top[i].0 != top[j].0 && top[i].1 >= top[j].1
    ensures forall a :: a in counts && !Listed(top, a) ==> |top| == 20 && counts[a] <= top[19].1
  {
    top := [];
    var rest := counts.Keys;
    while rest != {} && |top| < 20
      invariant |top| <= 20 && rest <= counts.Keys
      invariant forall i :: 0 <= i < |top| ==> top[i].0 in counts && top[i].0 !in rest && top[i].1 == counts[top[i].0]
      invariant forall i, j :: 0 <= i < j < |top| ==> top[i].0 != top[j].0 && top[i].1 >= top[j].1
      invariant forall a :: a in counts && !Listed(top, a) ==> a in rest
      invariant forall i, a :: 0 <= i < |top| && a in rest ==> counts[a] <= top[i].1
      decreases |rest|
    {
      var best := Largest(counts, rest);
      rest := rest - {best};
      OneMoreListed(top, (best, counts[best]));
      top := top + [(best, counts[best])];
    }
  }

  lemma {:induction false} OneMoreListed(top: seq<(string, nat)>, entry: (string, nat))
    ensures forall a :: Listed(top + [entry], a) <==> Listed(top, a) || a == entry.0
  {
    var more := top + [entry];
    assert more[|top|] == entry && forall i :: 0 <= i < |top| ==> more[i] == top[i];
  }

  // ---------------- The repository ----------------

  class Repository {
    var blocks: map<u64, BlockRow>
    var transactions: Table<string, TxValue>
    var accountLocks: Table<PairKey, bool>
    var tokenBalanceChanges: Table<PairKey, TokenValue>

    function State(): Database reads this {
      Database(blocks, transactions, accountLocks, tokenBalanceChanges)
    }

    constructor ()
      ensures State() == EMPTY
    {
      blocks, transactions, accountLocks, tokenBalanceChanges := map[], map[], map[], map[];
    }

    /** Runs inside a transaction: after a failure the state is whatever had been done until then. */
    method ReplaceSlotDataInner(d: SlotData) returns (ok: bool)
      modifies this
      ensures ok <==> ReplaceSlot(old(State()), d).Some?
      ensures ok ==> State() == ReplaceSlot(old(State()), d).value
    {
      accountLocks := WithoutSlot(accountLocks, d.slot);
      tokenBalanceChanges := WithoutSlot(tokenBalanceChanges, d.slot);
      transactions := WithoutSlot(transactions, d.slot);
      blocks := blocks[d.slot := BlockRow(d.blockTime, AsI32(|d.transactions|))];
      ok, transactions := AppendRows(transactions, d.slot, d.TxRows());
      if !ok { return; }
      ok, accountLocks := AppendRows(accountLocks, d.slot, d.LockRows());
      if !ok { return; }
      var coalesced := Coalesce(d.tokenChanges);
      if !InColumns(coalesced) { return false; }
      var rows := seq(|coalesced|, i requires 0 <= i < |coalesced| =>
        (coalesced[i].key, TokenValue(d.blockTime, coalesced[i].pre, coalesced[i].post, coalesced[i].decimals)));
      assert rows == d.TokenRows();
      ok, tokenBalanceChanges := AppendRows(tokenBalanceChanges, d.slot, rows);
    }

    method ReplaceSlotsBatch(batch: seq<SlotData>) returns (ok: bool)
      modifies this
      ensures ok <==> ReplaceBatch(old(State()), batch).Some?
      ensures State() == AfterBatch(old(State()), batch)
    {
      hide ReplaceSlot;
      var begin := State();
      ok := true;
      var i := 0;
      while i < |batch| && ok
        invariant 0 <= i <= |batch|
        invariant ok ==> ReplaceBatch(begin, batch[..i]) == Some(State())
        invariant !ok ==> ReplaceBatch(begin, batch).None?
        decreases |batch| - i
      {
        BatchStep(begin, batch, i);
        ok := ReplaceSlotDataInner(batch[i]);
        i := i + 1;
      }
      assert batch[..|batch|] == batch;
      if !ok {
        blocks, transactions := begin.blocks, begin.transactions;
        accountLocks, tokenBalanceChanges := begin.locks, begin.tokens;
      }
    }

    method WriteScheduleSteps(signatures: seq<string>, steps: seq<nat>)
      modifies this`transactions
      ensures transactions == WithSteps(old(transactions), signatures, steps, Min(|signatures|, |steps|))
    {
      var i := 0;
      while i < |signatures| && i < |steps|
        invariant 0 <= i <= Min(|signatures|, |steps|)
        invariant transactions == WithSteps(old(transactions), signatures, steps, i)
      {
        transactions := SetStep(transactions, signatures[i], steps[i]);
        i := i + 1;
      }
    }

    /** The depth part of `query_contention_summary`. */
    method QueryDepth(fromSlot: u64, toSlot: u64) returns (depth: nat)
      ensures IsStoredDepth(transactions, fromSlot, toSlot, depth)
    {
      depth := 0;
      var rest := transactions.Keys;
      while rest != {}
        invariant rest <= transactions.Keys
        invariant forall sig :: sig in transactions.Keys - rest && InRange(transactions[sig], fromSlot, toSlot) ==>
          transactions[sig].value.step.value < depth
        invariant depth == 0 || HasStep(transactions, fromSlot, toSlot, depth - 1)
        decreases |rest|
      {
        var sig :| sig in rest;
        rest := rest - {sig};
        var row := transactions[sig];
        if InRange(row, fromSlot, toSlot) && depth <= row.value.step.value {
          depth := row.value.step.value + 1;
        }
      }
    }

    /** Both parts of the contention summary. */
    method QueryContentionSummary(fromSlot: u64, toSlot: u64) returns (depth: nat, topAccounts: seq<(string, nat)>)
      ensures IsStoredDepth(transactions, fromSlot, toSlot, depth)
      ensures IsTopList(accountLocks, fromSlot, toSlot, topAccounts)
    {
      depth := QueryDepth(fromSlot, toSlot);
      var counts := CountWriteLocks(accountLocks, fromSlot, toSlot);
      topAccounts := TopTwenty(counts);
      forall a ensures CountedFor(WriteLocksOn(accountLocks, fromSlot, toSlot, a), counts, a) {
        AllAmong(accountLocks, fromSlot, toSlot, a);
        assert CountedFor(Among(accountLocks, accountLocks.Keys, fromSlot, toSlot, a), counts, a);
      }
    }
  }

  lemma {:induction false} BatchStep(db: Database, batch: seq<SlotData>, i: nat)
    requires i < |batch| && ReplaceBatch(db, batch[..i]).Some?
    ensures ReplaceBatch(db, batch[..i + 1]) == ReplaceSlot(ReplaceBatch(db, batch[..i]).value, batch[i])
    ensures ReplaceBatch(db, batch[..i + 1]).None? ==> ReplaceBatch(db, batch).None?
  {
    assert batch[..i + 1][..i] == batch[..i];
    if ReplaceBatch(db, batch[..i + 1]).None? { BatchFailsForGood(db, batch, i + 1); }
  }

  lemma {:induction false} BatchFailsForGood(db: Database, batch: seq<SlotData>, i: nat)
    requires i <= |batch| && ReplaceBatch(db, batch[..i]).None?
    ensures ReplaceBatch(db, batch).None?
    decreases |batch|
  {
    if i < |batch| {
      assert batch[..|batch| - 1][..i] == batch[..i];
      BatchFailsForGood(db, batch[..|batch| - 1], i);
    } else {
      assert batch[..i] == batch;
    }
  }

  // ---------------- Refinement: one slot, one value ----------------

  /** What the database holds for one slot. */
  datatype SlotView = SlotView(
    block: Option<BlockRow>, transactions: map<string, TxValue>,
    locks: map<PairKey, bool>, tokens: map<PairKey, TokenValue>)

  const NOTHING := SlotView(None, map[], map[], map[])

  ghost function View(db: Database, slot: u64): SlotView {
    SlotView(if slot in db.blocks then Some(db.blocks[slot]) else None,
             SlotRows(db.transactions, slot), SlotRows(db.locks, slot), SlotRows(db.tokens, slot))
  }

  /** What the database should hold for a slot after its data was stored. */
  ghost function Expected(d: SlotData): SlotView {
    SlotView(Some(BlockRow(d.blockTime, AsI32(|d.transactions|))), AsMap(d.TxRows()), AsMap(d.LockRows()), AsMap(d.TokenRows()))
  }

  /** The last element of the batch for the slot. */
  function LastFor(batch: seq<SlotData>, slot: u64): Option<SlotData> {
    if batch == [] then None
    else if batch[|batch| - 1].slot == slot then Some(batch[|batch| - 1])
    else LastFor(batch[..|batch| - 1], slot)
  }

  lemma {:induction false} ReplaceSlotMeaning(db: Database, d: SlotData, s: u64)
    requires ReplaceSlot(db, d).Some?
    ensures View(ReplaceSlot(db, d).value, s) == if s == d.slot then Expected(d) else View(db, s)
  {
    ReplaceMeaning(db.transactions, d.slot, d.TxRows());
    ReplaceMeaning(db.locks, d.slot, d.LockRows());
    ReplaceMeaning(db.tokens, d.slot, d.TokenRows());
  }

  /** A committed batch: each of its slots holds its last data, every other slot is untouched. */
  lemma {:induction false} BatchMeaning(db: Database, batch: seq<SlotData>, s: u64)
    requires ReplaceBatch(db, batch).Some?
    ensures View(ReplaceBatch(db, batch).value, s)
      == if LastFor(batch, s).Some? then Expected(LastFor(batch, s).value) else View(db, s)
  {
    if batch != [] {
      var init := batch[..|batch| - 1];
      BatchMeaning(db, init, s);
      ReplaceSlotMeaning(ReplaceBatch(db, init).value, batch[|batch| - 1], s);
    }
  }

  /** The database after a run of batches, some of which may have failed. */
  function Run(db: Database, batches: seq<seq<SlotData>>): Database {
    if batches == [] then db else AfterBatch(Run(db, batches[..|batches| - 1]), batches[|batches| - 1])
  }

  /** The data of the slot in the last batch of the run that mentions it and was committed. */
  function LastCommitted(db: Database, batches: seq<seq<SlotData>>, slot: u64): Option<SlotData> {
    if batches == [] then None
    else
      var before, batch := batches[..|batches| - 1], batches[|batches| - 1];
      if ReplaceBatch(Run(db, before), batch).Some? && LastFor(batch, slot).Some? then LastFor(batch, slot)
      else LastCommitted(db, before, slot)
  }

  /**
   Refinement: over any run of batches, successful or not, the database is a map from slots to
   their last committed data, token rows coalesced.
   */
  lemma {:induction false} StoreIsSlotMap(batches: seq<seq<SlotData>>, slot: u64)
    ensures View(Run(EMPTY, batches), slot)
      == match LastCommitted(EMPTY, batches, slot) case None => NOTHING case Some(d) => Expected(d)
  {
    if batches == [] {
      assert SlotRows(EMPTY.transactions, slot) == map[];
      assert SlotRows(EMPTY.locks, slot) == map[];
      assert SlotRows(EMPTY.tokens, slot) == map[];
    } else {
      var before, batch := batches[..|batches| - 1], batches[|batches| - 1];
      StoreIsSlotMap(before, slot);
      if ReplaceBatch(Run(EMPTY, before), batch).Some? { BatchMeaning(Run(EMPTY, before), batch, slot); }
    }
  }

  lemma {:induction false} SameDatabase(db: Database, db': Database)
    requires forall s :: View(db, s) == View(db', s)
    ensures db == db'
  {
    forall s ensures SlotRows(db.transactions, s) == SlotRows(db'.transactions, s)
      && SlotRows(db.locks, s) == SlotRows(db'.locks, s) && SlotRows(db.tokens, s) == SlotRows(db'.tokens, s)
    {
      assert View(db, s) == View(db', s);
    }
    SameTable(db.transactions, db'.transactions);
    SameTable(db.locks, db'.locks);
    SameTable(db.tokens, db'.tokens);
    forall s ensures s in db.blocks <==> s in db'.blocks { assert View(db, s) == View(db', s); }
    forall s | s in db.blocks ensures db.blocks[s] == db'.blocks[s] { assert View(db, s) == View(db', s); }
  }

  ghost predicate DistinctKeysIn(d: SlotData) {
    DistinctRowKeys(d.TxRows()) && DistinctRowKeys(d.LockRows()) && DistinctRowKeys(d.TokenRows())
  }

  /** Nothing in the data itself stands in the way of storing it. */
  ghost predicate Sound(d: SlotData) { DistinctKeysIn(d) && InColumns(Coalesced(d.tokenChanges)) }

  /** The keys of a slot's new rows are distinct and not taken by other slots. */
  ghost predicate KeysFree(db: Database, d: SlotData) {
    && DistinctKeysIn(d)
    && (forall k :: 0 <= k < |d.TxRows()| && d.TxRows()[k].0 in db.transactions ==>
          db.transactions[d.TxRows()[k].0].slot == d.slot)
    && (forall k :: 0 <= k < |d.LockRows()| && d.LockRows()[k].0 in db.locks ==>
          db.locks[d.LockRows()[k].0].slot == d.slot)
    && (forall k :: 0 <= k < |d.TokenRows()| && d.TokenRows()[k].0 in db.tokens ==>
          db.tokens[d.TokenRows()[k].0].slot == d.slot)
  }

  /** Storing a slot succeeds exactly when its keys are free and its values fit their columns. */
  lemma {:induction false} ReplaceSlotSucceedsIff(db: Database, d: SlotData)
    ensures ReplaceSlot(db, d).Some? <==> KeysFree(db, d) && InColumns(Coalesced(d.tokenChanges))
  {
    ReplaceSucceedsIff(db.transactions, d.slot, d.TxRows());
    ReplaceSucceedsIff(db.locks, d.slot, d.LockRows());
    ReplaceSucceedsIff(db.tokens, d.slot, d.TokenRows());
  }

  lemma {:induction false} CommittedKeysDistinct(db: Database, batch: seq<SlotData>, k: nat)
    requires k < |batch| && ReplaceBatch(db, batch).Some?
    ensures DistinctKeysIn(batch[k])
  {
    var init := batch[..|batch| - 1];
    if k < |batch| - 1 {
      CommittedKeysDistinct(db, init, k);
    } else {
      ReplaceSlotSucceedsIff(ReplaceBatch(db, init).value, batch[k]);
    }
  }

  lemma {:induction false} PrefixSucceeds(db: Database, batch: seq<SlotData>, l: nat)
    requires l <= |batch| && ReplaceBatch(db, batch).Some?
    ensures ReplaceBatch(db, batch[..l]).Some?
  {
    if ReplaceBatch(db, batch[..l]).None? { BatchFailsForGood(db, batch, l); }
  }
}

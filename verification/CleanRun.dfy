/**
 When no flush fails.  Blocks whose transactions carry signatures that occur only once in the whole
 run, and lock no account twice, never violate a primary key; if their token amounts fit their
 columns as well, every batch is committed, and every ingested block stays in the database.
 */
module CleanRun {
  import opened AccountResolution
  import opened Decoding
  import opened EndToEnd
  import opened Flushing
  import opened IngestRun
  import opened Numbers
  import opened Options
  import opened Parsing
  import opened Sequences
  import opened Storage
  import opened Tables
  import opened TokenNetting

  // ---------------- The data of one block ----------------

  /** The signatures of the block's transactions. */
  ghost function Signers(d: SlotData): set<string> {
    set i | 0 <= i < |d.transactions| :: d.transactions[i].signature
  }

  /** Locks and token rows belong to the block's own transactions. */
  ghost predicate SelfContained(d: SlotData) {
    && (forall k :: 0 <= k < |d.LockRows()| ==> d.LockRows()[k].0.0 in Signers(d))
    && (forall k :: 0 <= k < |d.TokenRows()| ==> d.TokenRows()[k].0.0 in Signers(d))
  }

  /** Nothing in the data itself stands in the way of storing it, and all of it is the block's own. */
  ghost predicate Insertable(d: SlotData) { Sound(d) && SelfContained(d) }

  /** A decoded block with distinct signatures, distinct locks per transaction, and amounts that fit. */
  ghost predicate CleanBlock(b: DecodedBlock) {
    && DistinctSignatures(b.transactions)
    && (forall i :: 0 <= i < |b.transactions| ==> Distinct(Accounts(b.transactions[i].locks)))
    && InColumns(Coalesced(AllTokenRows(b.transactions)))
  }

  /** A message that lists no key twice gives its transaction distinct locks. */
  lemma {:induction false} DistinctKeysGiveDistinctLocks(raw: RawTransaction, t: DecodedTransaction)
    requires IsDecoded(raw, t)
    ensures Distinct(Accounts(t.locks)) <==> Distinct(raw.accountKeys + raw.Loaded().writable + raw.Loaded().readonly)
  {
    DistinctKeysLockOnce(raw.accountKeys, raw.header, raw.Loaded().writable, raw.Loaded().readonly);
  }

  ghost predicate DistinctLockRows(rows: seq<AccountLockRow>) {
    forall k, l :: 0 <= k < l < |rows| ==> rows[k].signature != rows[l].signature || rows[k].account != rows[l].account
  }

  lemma {:induction false} LockRowsOfOne(t: DecodedTransaction)
    requires Distinct(Accounts(t.locks))
    ensures DistinctLockRows(LockRows(t))
  {
    forall k, l | 0 <= k < l < |t.locks| ensures t.locks[k].account != t.locks[l].account {
      assert Accounts(t.locks)[k] != Accounts(t.locks)[l];
    }
  }

  ghost predicate SignedBy(txs: seq<DecodedTransaction>, signature: string) {
    exists i :: 0 <= i < |txs| && txs[i].signature == signature
  }

  lemma {:induction false} LockRowsOfAll(txs: seq<DecodedTransaction>)
    requires DistinctSignatures(txs) && forall i :: 0 <= i < |txs| ==> Distinct(Accounts(txs[i].locks))
    ensures DistinctLockRows(AllLockRows(txs))
    ensures forall k :: 0 <= k < |AllLockRows(txs)| ==> SignedBy(txs, AllLockRows(txs)[k].signature)
  {
    if txs != [] {
      var n := |txs| - 1;
      LockRowsOfAll(txs[..n]);
      LockRowsOfOne(txs[n]);
      var before := AllLockRows(txs[..n]);
      forall k | 0 <= k < |before| ensures before[k].signature != txs[n].signature && SignedBy(txs, before[k].signature) {
        var i :| 0 <= i < n && txs[..n][i].signature == before[k].signature;
        assert txs[i].signature == before[k].signature;
      }
      assert SignedBy(txs, txs[n].signature);
    }
  }

  lemma {:induction false} CoalescedKeysDistinct<K(!new)>(rows: seq<Row<K>>)
    ensures DistinctKeys(Coalesced(rows))
    ensures forall k :: 0 <= k < |Coalesced(rows)| ==> exists r :: r in rows && r.key == Coalesced(rows)[k].key
  {
    CoalescedMeaning(rows);
    forall k | 0 <= k < |Coalesced(rows)| ensures exists r :: r in rows && r.key == Coalesced(rows)[k].key {
      CoalescedHasRow(rows, k);
    }
  }

  lemma {:induction false} CleanBlockIsInsertable(b: DecodedBlock)
    requires CleanBlock(b)
    ensures Insertable(BlockData(b))
  {
    var d, txs := BlockData(b), b.transactions;
    LockRowsOfAll(txs);
    forall i | 0 <= i < |txs| ensures txs[i].signature in Signers(d) {
      assert d.transactions[i].signature == txs[i].signature;
    }
    forall k, l | 0 <= k < l < |d.TxRows()| ensures d.TxRows()[k].0 != d.TxRows()[l].0 {
      assert txs[k].signature != txs[l].signature;
    }
    forall k | 0 <= k < |d.LockRows()| ensures d.LockRows()[k].0.0 in Signers(d) {
      assert SignedBy(txs, d.locks[k].signature);
    }
    CoalescedKeysDistinct(d.tokenChanges);
    forall k | 0 <= k < |d.TokenRows()| ensures d.TokenRows()[k].0.0 in Signers(d) {
      var r :| r in d.tokenChanges && r.key == Coalesced(d.tokenChanges)[k].key;
      OnlySucceededRows(txs, r);
    }
  }

  // ---------------- What a database knows ----------------

  /** Every stored row belongs to one of the signatures. */
  ghost predicate KnownTo(db: Database, known: set<string>) {
    && (forall sig :: sig in db.transactions ==> sig in known)
    && (forall key :: key in db.locks ==> key.0 in known)
    && (forall key :: key in db.tokens ==> key.0 in known)
  }

  lemma {:induction false} ReplacedKeys<K, V>(m: Table<K, V>, slot: u64, rows: seq<(K, V)>, key: K)
    requires Replace(m, slot, rows).Some? && key in Replace(m, slot, rows).value
    ensures key in m || exists k :: 0 <= k < |rows| && rows[k].0 == key
  {
    AppendMeaning(WithoutSlot(m, slot), slot, rows);
    AsMapKeys(rows);
  }

  /** Data with fresh signatures can be stored. */
  lemma {:induction false} StoreFresh(db: Database, known: set<string>, d: SlotData)
    requires KnownTo(db, known) && Insertable(d) && Signers(d) !! known
    ensures ReplaceSlot(db, d).Some? && KnownTo(ReplaceSlot(db, d).value, known + Signers(d))
  {
    FreshKeysFree(db, known, d);
    ReplaceSlotSucceedsIff(db, d);
    FreshKnown(db, known, d);
  }

  lemma {:induction false} FreshKeysFree(db: Database, known: set<string>, d: SlotData)
    requires KnownTo(db, known) && Insertable(d) && Signers(d) !! known
    ensures KeysFree(db, d)
  {
    forall k | 0 <= k < |d.TxRows()| ensures d.TxRows()[k].0 !in db.transactions {
      assert d.transactions[k].signature in Signers(d);
    }
  }

  lemma {:induction false} FreshKnown(db: Database, known: set<string>, d: SlotData)
    requires KnownTo(db, known) && SelfContained(d) && ReplaceSlot(db, d).Some?
    ensures KnownTo(ReplaceSlot(db, d).value, known + Signers(d))
  {
    var db' := ReplaceSlot(db, d).value;
    forall sig | sig in db'.transactions ensures sig in known + Signers(d) {
      ReplacedKeys(db.transactions, d.slot, d.TxRows(), sig);
      if k :| 0 <= k < |d.TxRows()| && d.TxRows()[k].0 == sig {
        assert d.transactions[k].signature == sig;
      }
    }
    forall key | key in db'.locks ensures key.0 in known + Signers(d) {
      ReplacedKeys(db.locks, d.slot, d.LockRows(), key);
    }
    forall key | key in db'.tokens ensures key.0 in known + Signers(d) {
      ReplacedKeys(db.tokens, d.slot, d.TokenRows(), key);
    }
  }

  ghost function SignersOfAll(batch: seq<SlotData>): set<string> {
    if batch == [] then {} else SignersOfAll(batch[..|batch| - 1]) + Signers(batch[|batch| - 1])
  }

  lemma {:induction false} SignersMembers(batch: seq<SlotData>, sig: string)
    ensures sig in SignersOfAll(batch) <==> exists k :: 0 <= k < |batch| && sig in Signers(batch[k])
  {
    if batch != [] { SignersMembers(batch[..|batch| - 1], sig); }
  }

  /** Insertable data, no signature of which is known or occurs twice in the batch. */
  ghost predicate FreshBatch(batch: seq<SlotData>, known: set<string>) {
    && (forall k :: 0 <= k < |batch| ==> Insertable(batch[k]) && Signers(batch[k]) !! known)
    && (forall k, l :: 0 <= k < l < |batch| ==> Signers(batch[k]) !! Signers(batch[l]))
  }

  lemma {:induction false} StoreFreshBatch(db: Database, known: set<string>, batch: seq<SlotData>)
    requires KnownTo(db, known) && FreshBatch(batch, known)
    ensures ReplaceBatch(db, batch).Some? && KnownTo(ReplaceBatch(db, batch).value, known + SignersOfAll(batch))
  {
    hide KnownTo, Insertable, Signers, ReplaceSlot;
    if batch == [] {
      assert known + SignersOfAll(batch) == known;
    } else {
      var n := |batch| - 1;
      var init, d := batch[..n], batch[n];
      StoreFreshBatch(db, known, init);
      forall sig ensures sig in SignersOfAll(init) ==> sig !in Signers(d) { SignersMembers(init, sig); }
      StoreFresh(ReplaceBatch(db, init).value, known + SignersOfAll(init), d);
      assert known + SignersOfAll(init) + Signers(d) == known + SignersOfAll(batch);
    }
  }

  lemma {:induction false} FlushKeepsKnown(db: Database, known: set<string>, blocks: seq<ParsedBlock>)
    requires Committed(db, blocks) && KnownTo(ReplaceBatch(db, DataOf(blocks)).value, known)
    ensures KnownTo(AfterFlush(db, blocks), known)
  {
    hide ReplaceBatch, WithAllSteps;
    StepsOfAllBlocks(ReplaceBatch(db, DataOf(blocks)).value.transactions, blocks, |blocks|);
  }

  // ---------------- Runs ----------------

  /** No two blocks of the run share a signature. */
  ghost predicate SignaturesOnce(flushes: seq<seq<ParsedBlock>>) {
    forall f, k, g, l ::
      0 <= f < |flushes| && 0 <= k < |flushes[f]| && 0 <= g < |flushes| && 0 <= l < |flushes[g]| && (f, k) != (g, l) ==>
        Signers(flushes[f][k].data) !! Signers(flushes[g][l].data)
  }

  ghost predicate AllInsertable(flushes: seq<seq<ParsedBlock>>) {
    forall f, k :: 0 <= f < |flushes| && 0 <= k < |flushes[f]| ==> Insertable(flushes[f][k].data)
  }

  ghost function SignersOfRun(flushes: seq<seq<ParsedBlock>>): set<string> {
    if flushes == [] then {} else SignersOfRun(flushes[..|flushes| - 1]) + SignersOfAll(DataOf(flushes[|flushes| - 1]))
  }

  lemma {:induction false} RunMembers(flushes: seq<seq<ParsedBlock>>, sig: string)
    requires sig in SignersOfRun(flushes)
    ensures exists f, k :: 0 <= f < |flushes| && 0 <= k < |flushes[f]| && sig in Signers(flushes[f][k].data)
  {
    hide Signers;
    var n := |flushes| - 1;
    if sig in SignersOfRun(flushes[..n]) {
      RunMembers(flushes[..n], sig);
      var f, k :| 0 <= f < n && 0 <= k < |flushes[..n][f]| && sig in Signers(flushes[..n][f][k].data);
      assert flushes[..n][f] == flushes[f];
    } else {
      SignersMembers(DataOf(flushes[n]), sig);
      var k :| 0 <= k < |flushes[n]| && sig in Signers(DataOf(flushes[n])[k]);
      assert DataOf(flushes[n])[k] == flushes[n][k].data;
    }
  }

  /** The last flush of the run is fresh with respect to the ones before. */
  lemma {:induction false} LastFlushIsFresh(flushes: seq<seq<ParsedBlock>>)
    requires flushes != [] && SignaturesOnce(flushes) && AllInsertable(flushes)
    ensures FreshBatch(DataOf(flushes[|flushes| - 1]), SignersOfRun(flushes[..|flushes| - 1]))
  {
    hide Signers, Insertable, SignersOfRun;
    var n := |flushes| - 1;
    forall k | 0 <= k < |flushes[n]| ensures Signers(flushes[n][k].data) !! SignersOfRun(flushes[..n]) {
      forall sig | sig in SignersOfRun(flushes[..n]) ensures sig !in Signers(flushes[n][k].data) {
        RunMembers(flushes[..n], sig);
        var f, l :| 0 <= f < n && 0 <= l < |flushes[..n][f]| && sig in Signers(flushes[..n][f][l].data);
        assert flushes[..n][f] == flushes[f] && (f, l) != (n, k);
      }
    }
    forall k, l | 0 <= k < l < |flushes[n]| ensures Signers(flushes[n][k].data) !! Signers(flushes[n][l].data) {
      assert (n, k) != (n, l);
    }
  }

  /** Every batch of such a run is committed. */
  lemma {:induction false} EveryBatchCommits(flushes: seq<seq<ParsedBlock>>)
    requires SignaturesOnce(flushes) && AllInsertable(flushes)
    ensures KnownTo(FlushRun(EMPTY, flushes), SignersOfRun(flushes))
    ensures forall f :: 0 <= f < |flushes| ==> Commits(flushes, f)
  {
    hide KnownTo, AfterFlush, ReplaceBatch, FreshBatch, Signers, Insertable;
    if flushes == [] {
      NothingKnown();
    } else {
      var n := |flushes| - 1;
      PrefixIsClean(flushes);
      EveryBatchCommits(flushes[..n]);
      LastFlushIsFresh(flushes);
      StoreFreshBatch(FlushRun(EMPTY, flushes[..n]), SignersOfRun(flushes[..n]), DataOf(flushes[n]));
      FlushKeepsKnown(FlushRun(EMPTY, flushes[..n]), SignersOfRun(flushes), flushes[n]);
      forall f | 0 <= f < n ensures Commits(flushes, f) {
        assert Commits(flushes[..n], f) && flushes[..n][..f] == flushes[..f];
      }
    }
  }

  lemma {:induction false} NothingKnown()
    ensures KnownTo(EMPTY, {})
  {
  }

  lemma {:induction false} PrefixIsClean(flushes: seq<seq<ParsedBlock>>)
    requires flushes != [] && SignaturesOnce(flushes) && AllInsertable(flushes)
    ensures SignaturesOnce(flushes[..|flushes| - 1]) && AllInsertable(flushes[..|flushes| - 1])
  {
    hide Signers, Insertable;
    var init := flushes[..|flushes| - 1];
    assert forall f :: 0 <= f < |init| ==> init[f] == flushes[f];
  }

  // ---------------- The whole ingest ----------------

  /** The flushes carry the parsed forms of clean blocks, and no signature occurs in two of them. */
  ghost predicate CleanBatches(batches: seq<seq<DecodedBlock>>, flushes: seq<seq<ParsedBlock>>) {
    && AllParsed(batches, flushes)
    && (forall f, k :: 0 <= f < |batches| && 0 <= k < |batches[f]| ==> CleanBlock(batches[f][k]))
    && SignaturesOnce(flushes)
  }

  lemma {:induction false} CleanIsInsertable(batches: seq<seq<DecodedBlock>>, flushes: seq<seq<ParsedBlock>>)
    requires CleanBatches(batches, flushes)
    ensures AllInsertable(flushes)
  {
    hide Insertable, CleanBlock, SignaturesOnce;
    forall f, k | 0 <= f < |flushes| && 0 <= k < |flushes[f]| ensures Insertable(flushes[f][k].data) {
      assert AreParsed(batches[f], flushes[f]);
      CleanBlockIsInsertable(batches[f][k]);
      assert IsParsed(batches[f][k], flushes[f][k]);
    }
  }

  /**
   The whole ingest, with nothing assumed about flushes: at the end of every run of the pipeline whose
   blocks are clean, no flush has failed, every flushed block is in the database, and the slots that
   hold a block are exactly those the worker pool delivered with one.
   */
  lemma {:induction false} IngestedBlocksAreStored(
      p: P.Params, states: seq<P.State>, s: P.State, batches: seq<seq<DecodedBlock>>, flushes: seq<seq<ParsedBlock>>)
    requires RunEnded(p, states, s) && Realises(s.store.flushes, flushes) && CleanBatches(batches, flushes)
    ensures NoFlushFailed(s.store.flushes)
    ensures forall f, k :: 0 <= f < |flushes| && 0 <= k < |flushes[f]| ==>
      StoredBlock(flushes, flushes[f][k].data.slot) == Some(flushes[f][k])
    ensures IsComplete(s.fetch.delivered, flushes)
  {
    hide RunEnded, CleanBatches, AllInsertable, Commits;
    CleanIsInsertable(batches, flushes);
    assert SignaturesOnce(flushes) by { CleanMeansOnce(batches, flushes); }
    hide SignaturesOnce;
    EveryBatchCommits(flushes);
    StoredAreIngested(p, states, s, flushes);
  }

  lemma {:induction false} CleanMeansOnce(batches: seq<seq<DecodedBlock>>, flushes: seq<seq<ParsedBlock>>)
    requires CleanBatches(batches, flushes)
    ensures SignaturesOnce(flushes)
  {
  }
}

/**
 Exactly when no flush fails.  The slots of a run are distinct, so that no row is ever replaced: all
 batches are committed if and only if every block's keys are distinct and its values fit their
 columns, and no two blocks of the run share a key.
 */
module RunCommits {
  import opened Decoding
  import opened Flushing
  import opened IngestRun
  import opened Numbers
  import opened Options
  import opened Parsing
  import opened Repetition
  import opened Storage
  import opened Tables
  import opened TokenNetting

  /** Every element is sound, and no two share a transaction, lock or token key. */
  ghost predicate Compatible(ds: seq<SlotData>) {
    && (forall k :: 0 <= k < |ds| ==> Sound(ds[k]))
    && (forall j, k :: 0 <= j < k < |ds| ==> !SharesKey(ds[k], ds[j]))
  }

  ghost predicate SharesWithSlot(ds: seq<SlotData>, s: u64, d: SlotData) {
    exists k :: 0 <= k < |ds| && ds[k].slot == s && SharesKey(d, ds[k])
  }

  /** As far as keys go, the database holds exactly these data. */
  ghost predicate Mirrors(db: Database, ds: seq<SlotData>) {
    forall s: u64, d: SlotData :: Meets(View(db, s), d) <==> SharesWithSlot(ds, s, d)
  }

  ghost predicate NewSlot(ds: seq<SlotData>, x: SlotData) { forall k :: 0 <= k < |ds| ==> ds[k].slot != x.slot }

  ghost predicate FitsWith(ds: seq<SlotData>, x: SlotData) {
    Sound(x) && forall k :: 0 <= k < |ds| ==> !SharesKey(x, ds[k])
  }

  lemma {:induction false} StoreOne(db: Database, ds: seq<SlotData>, x: SlotData)
    requires Mirrors(db, ds) && NewSlot(ds, x)
    ensures ReplaceSlot(db, x).Some? <==> FitsWith(ds, x)
    ensures ReplaceSlot(db, x).Some? ==> Mirrors(ReplaceSlot(db, x).value, ds + [x])
  {
    hide ReplaceSlot, KeysFree, Meets, View, SharesKey, DistinctKeysIn, InColumns;
    ReplaceSlotSucceedsIff(db, x);
    KeysFreeIff(db, x);
    assert Mirrors(db, ds);
    if KeysFree(db, x) {
      forall k | 0 <= k < |ds| ensures !SharesKey(x, ds[k]) {
        assert !Meets(View(db, ds[k].slot), x);
      }
    }
    if ReplaceSlot(db, x).Some? {
      forall s: u64, d: SlotData ensures Meets(View(ReplaceSlot(db, x).value, s), d) <==> SharesWithSlot(ds + [x], s, d) {
        ReplaceSlotMeaning(db, x, s);
        MeetsExpected(d, x);
        OneMoreShares(ds, x, s, d);
        assert Meets(View(db, s), d) <==> SharesWithSlot(ds, s, d);
      }
    }
  }

  lemma {:induction false} OneMoreShares(ds: seq<SlotData>, x: SlotData, s: u64, d: SlotData)
    requires NewSlot(ds, x)
    ensures SharesWithSlot(ds + [x], s, d) <==> if s == x.slot then SharesKey(d, x) else SharesWithSlot(ds, s, d)
  {
    hide SharesKey;
    var more := ds + [x];
    assert more[|ds|] == x && forall k :: 0 <= k < |ds| ==> more[k] == ds[k];
  }

  lemma {:induction false} OneMoreCompatible(ds: seq<SlotData>, x: SlotData)
    ensures Compatible(ds + [x]) <==> Compatible(ds) && FitsWith(ds, x)
  {
    hide SharesKey, Sound;
    var more := ds + [x];
    assert more[|ds|] == x && forall k :: 0 <= k < |ds| ==> more[k] == ds[k];
  }

  /** A batch on top of data that are stored already. */
  lemma {:induction false} StoreMany(db: Database, ds: seq<SlotData>, batch: seq<SlotData>)
    requires Mirrors(db, ds) && Compatible(ds) && DistinctSlots(ds + batch)
    ensures ReplaceBatch(db, batch).Some? <==> Compatible(ds + batch)
    ensures ReplaceBatch(db, batch).Some? ==> Mirrors(ReplaceBatch(db, batch).value, ds + batch)
  {
    hide Mirrors, Compatible, FitsWith, ReplaceSlot;
    if batch == [] {
      assert ds + batch == ds;
    } else {
      var n := |batch| - 1;
      var init, x := batch[..n], batch[n];
      assert ds + batch == (ds + init) + [x];
      assert DistinctSlots(ds + init) && NewSlot(ds + init, x) by { SlotsOfPrefix(ds + init, x); }
      StoreMany(db, ds, init);
      OneMoreCompatible(ds + init, x);
      if ReplaceBatch(db, init).Some? { StoreOne(ReplaceBatch(db, init).value, ds + init, x); }
    }
  }

  lemma {:induction false} SlotsOfPrefix(ds: seq<SlotData>, x: SlotData)
    requires DistinctSlots(ds + [x])
    ensures DistinctSlots(ds) && NewSlot(ds, x)
  {
    var more := ds + [x];
    assert more[|ds|] == x && forall k :: 0 <= k < |ds| ==> more[k] == ds[k];
  }

  // ---------------- Runs ----------------

  /** The data of all flushes, in order. */
  ghost function AllData(flushes: seq<seq<ParsedBlock>>): seq<SlotData> {
    if flushes == [] then [] else AllData(flushes[..|flushes| - 1]) + DataOf(flushes[|flushes| - 1])
  }

  ghost predicate EveryFlushCommits(flushes: seq<seq<ParsedBlock>>) {
    forall f :: 0 <= f < |flushes| ==> Commits(flushes, f)
  }

  /** Writing steps moves no key. */
  lemma {:induction false} StepsKeepKeys(db: Database, blocks: seq<ParsedBlock>, ds: seq<SlotData>)
    requires Committed(db, blocks) && Mirrors(ReplaceBatch(db, DataOf(blocks)).value, ds)
    ensures Mirrors(AfterFlush(db, blocks), ds)
  {
    hide ReplaceBatch, WithAllSteps, SharesWithSlot;
    var before, after := ReplaceBatch(db, DataOf(blocks)).value, AfterFlush(db, blocks);
    StepsOfAllBlocks(before.transactions, blocks, |blocks|);
    forall s: u64, d: SlotData ensures Meets(View(after, s), d) <==> SharesWithSlot(ds, s, d) {
      SameKeysMeet(before, after, s, d);
    }
  }

  lemma {:induction false} SameKeysMeet(db: Database, db': Database, s: u64, d: SlotData)
    requires db'.locks == db.locks && db'.tokens == db.tokens && SameButSteps(db.transactions, db'.transactions)
    ensures Meets(View(db, s), d) <==> Meets(View(db', s), d)
  {
    forall key ensures key in SlotRows(db.transactions, s) <==> key in SlotRows(db'.transactions, s) {
    }
  }

  lemma {:induction false} MirrorsAtFirst()
    ensures Mirrors(EMPTY, [])
  {
  }

  lemma {:induction false} CompatiblePrefix(ds: seq<SlotData>, es: seq<SlotData>)
    requires Compatible(ds + es)
    ensures Compatible(ds)
  {
    hide SharesKey, Sound;
    assert forall k :: 0 <= k < |ds| ==> (ds + es)[k] == ds[k];
  }

  lemma {:induction false} DistinctPrefix(ds: seq<SlotData>, es: seq<SlotData>)
    requires DistinctSlots(ds + es)
    ensures DistinctSlots(ds)
  {
    assert forall k :: 0 <= k < |ds| ==> (ds + es)[k] == ds[k];
  }

  /** Commits of the first flushes do not depend on the last one. */
  lemma {:induction false} CommitsOfPrefix(flushes: seq<seq<ParsedBlock>>)
    requires flushes != []
    ensures EveryFlushCommits(flushes) <==>
      EveryFlushCommits(flushes[..|flushes| - 1]) && Committed(FlushRun(EMPTY, flushes[..|flushes| - 1]), flushes[|flushes| - 1])
  {
    hide Committed, FlushRun;
    var n := |flushes| - 1;
    forall f | 0 <= f < n ensures Commits(flushes[..n], f) <==> Commits(flushes, f) {
      assert flushes[..n][..f] == flushes[..f];
    }
    if EveryFlushCommits(flushes) { assert Commits(flushes, n); }
    if EveryFlushCommits(flushes[..n]) {
      forall f | 0 <= f < n ensures Commits(flushes, f) { assert Commits(flushes[..n], f); }
    }
  }

  /**
   All batches of a run whose slots are distinct are committed if and only if its data are compatible:
   keys are distinct within each block and between blocks, and values fit their columns.
   */
  lemma {:induction false} EveryFlushCommitsIff(flushes: seq<seq<ParsedBlock>>)
    requires DistinctSlots(AllData(flushes))
    ensures EveryFlushCommits(flushes) <==> Compatible(AllData(flushes))
    ensures EveryFlushCommits(flushes) ==> Mirrors(FlushRun(EMPTY, flushes), AllData(flushes))
  {
    hide EveryFlushCommits, Mirrors, Compatible, ReplaceBatch, AfterFlush, DistinctSlots;
    if flushes == [] {
      assert EveryFlushCommits(flushes) && Compatible(AllData(flushes)) by { NothingFlushed(flushes); }
      MirrorsAtFirst();
    } else {
      var n := |flushes| - 1;
      var init, blocks := flushes[..n], flushes[n];
      DistinctPrefix(AllData(init), DataOf(blocks));
      EveryFlushCommitsIff(init);
      CommitsOfPrefix(flushes);
      if Compatible(AllData(flushes)) { CompatiblePrefix(AllData(init), DataOf(blocks)); }
      if EveryFlushCommits(init) {
        StoreMany(FlushRun(EMPTY, init), AllData(init), DataOf(blocks));
        if Committed(FlushRun(EMPTY, init), blocks) {
          StepsKeepKeys(FlushRun(EMPTY, init), blocks, AllData(flushes));
        }
      }
    }
  }

  lemma {:induction false} NothingFlushed(flushes: seq<seq<ParsedBlock>>)
    requires flushes == []
    ensures EveryFlushCommits(flushes) && Compatible(AllData(flushes))
  {
  }

  // ---------------- The whole ingest ----------------

  lemma {:induction false} SlotsOfAllData(fs: seq<P.Flush>, flushes: seq<seq<ParsedBlock>>)
    requires Realises(fs, flushes)
    ensures |P.FlushedSlots(fs)| == |AllData(flushes)|
    ensures forall k :: 0 <= k < |AllData(flushes)| ==> P.FlushedSlots(fs)[k] == AllData(flushes)[k].slot
  {
    hide Commits;
    if fs != [] {
      var n := |fs| - 1;
      RealisedPrefix(fs, flushes);
      SlotsOfAllData(fs[..n], flushes[..n]);
      assert SlotsOfBlocks(flushes[n]) == fs[n].slots;
    }
  }

  lemma {:induction false} OkMeansCommitted(fs: seq<P.Flush>, flushes: seq<seq<ParsedBlock>>)
    requires Realises(fs, flushes)
    ensures NoFlushFailed(fs) <==> EveryFlushCommits(flushes)
  {
    hide Commits;
  }

  /**
   Exactly when an ingest is complete: at the end of every run of the pipeline, the slots that hold a
   block are those the worker pool delivered with one if and only if the flushed data are compatible.
   */
  lemma {:induction false} IngestIsCompleteIff(p: P.Params, states: seq<P.State>, s: P.State, flushes: seq<seq<ParsedBlock>>)
    requires RunEnded(p, states, s) && Realises(s.store.flushes, flushes)
    ensures IsComplete(s.fetch.delivered, flushes) <==> Compatible(AllData(flushes))
    ensures NoFlushFailed(s.store.flushes) <==> Compatible(AllData(flushes))
  {
    hide Compatible, IsComplete, EveryFlushCommits;
    StoredAreIngested(p, states, s, flushes);
    FlushedOnce(p, states, s);
    hide RunEnded;
    SlotsOfAllData(s.store.flushes, flushes);
    OkMeansCommitted(s.store.flushes, flushes);
    hide Realises;
    EveryFlushCommitsIff(flushes);
  }

  // ---------------- A flush that fails ----------------

  /** A block with one transaction that receives 2^63 units of a token. */
  function Oversized(slot: u64, signature: string, mint: string): DecodedBlock {
    DecodedBlock(slot, None, [DecodedTransaction(signature, slot, None, [], [], [Row(mint, 0, 0x8000_0000_0000_0000, 6)], false)])
  }

  lemma {:induction false} OversizedRows(slot: u64, signature: string, mint: string)
    ensures !InColumns(Coalesced(BlockData(Oversized(slot, signature, mint)).tokenChanges))
  {
    var b := Oversized(slot, signature, mint);
    var t := b.transactions[0];
    var none: seq<DecodedTransaction> := b.transactions[..0];
    assert AllTokenRows(none) == [];
    var rows := AllTokenRows(b.transactions);
    assert TokenRows(t) == [TokenRow(t, t.tokenDeltas[0])];
    assert rows == AllTokenRows(none) + TokenRows(t) == TokenRows(t);
    CanonicalRowsAreFixed(rows);
    assert rows[0].post == 0x8000_0000_0000_0000;
  }

  lemma {:induction false} BadElementFailsBatch(db: Database, batch: seq<SlotData>, k: nat)
    requires k < |batch| && !InColumns(Coalesced(batch[k].tokenChanges))
    ensures ReplaceBatch(db, batch).None?
  {
    if ReplaceBatch(db, batch[..k]).Some? {
      BatchStep(db, batch, k);
    } else {
      BatchFailsForGood(db, batch, k);
    }
  }

  /** Whatever else a batch holds, and whatever is stored already, such a block makes its flush fail. */
  lemma {:induction false} FlushCanFail(
      db: Database, blocks: seq<ParsedBlock>, k: nat, slot: u64, signature: string, mint: string)
    requires k < |blocks| && IsParsed(Oversized(slot, signature, mint), blocks[k])
    ensures !Committed(db, blocks) && AfterFlush(db, blocks) == db
  {
    OversizedRows(slot, signature, mint);
    BadElementFailsBatch(db, DataOf(blocks), k);
  }
}

/**
 Flushing parsed blocks to the repository (crates/cli/src/main.rs, lines 450-473) and what the
 database holds after any run of flushes, successful or not.
 */
module Flushing {
  import opened Contention
  import opened Decoding
  import opened Numbers
  import opened Options
  import opened Parsing
  import opened Sequences
  import opened Storage
  import opened Tables

  function DataOf(blocks: seq<ParsedBlock>): (r: seq<SlotData>)
    ensures |r| == |blocks| && forall i :: 0 <= i < |r| ==> r[i] == blocks[i].data
  {
    seq(|blocks|, i requires 0 <= i < |blocks| => blocks[i].data)
  }

  /** The steps of the first `n` blocks have been written, in order. */
  function WithAllSteps(transactions: Table<string, TxValue>, blocks: seq<ParsedBlock>, n: nat): Table<string, TxValue>
    requires n <= |blocks|
  {
    if n == 0 then transactions
    else
      var p := blocks[n - 1];
      WithSteps(WithAllSteps(transactions, blocks, n - 1), p.signatures, p.schedule.steps,
                Min(|p.signatures|, |p.schedule.steps|))
  }

  /** The batch of the flush is committed. */
  predicate Committed(db: Database, blocks: seq<ParsedBlock>) { ReplaceBatch(db, DataOf(blocks)).Some? }

  /** A failed batch leaves the database alone, and no step is written. */
  function AfterFlush(db: Database, blocks: seq<ParsedBlock>): Database {
    match ReplaceBatch(db, DataOf(blocks))
    case None => db
    case Some(db') => db'.(transactions := WithAllSteps(db'.transactions, blocks, |blocks|))
  }

  method FlushParsedBatch(repo: Repository, blocks: seq<ParsedBlock>) returns (ok: bool)
    modifies repo
    ensures ok <==> Committed(old(repo.State()), blocks)
    ensures repo.State() == AfterFlush(old(repo.State()), blocks)
  {
    hide ReplaceBatch, WithSteps;
    ok := repo.ReplaceSlotsBatch(DataOf(blocks));
    if !ok { return; }
    ghost var committed := repo.State();
    for i := 0 to |blocks|
      invariant repo.State() == committed.(transactions := WithAllSteps(committed.transactions, blocks, i))
    {
      repo.WriteScheduleSteps(blocks[i].signatures, blocks[i].schedule.steps);
    }
  }

  // ---------------- Writing steps ----------------

  /** Only steps differ. */
  ghost predicate SameButSteps(t: Table<string, TxValue>, t': Table<string, TxValue>) {
    && t.Keys == t'.Keys
    && forall sig :: sig in t ==> t'[sig] == Stored(t[sig].slot, t[sig].value.(step := t'[sig].value.step))
  }

  lemma {:induction false} StepsOfOneBlock(t: Table<string, TxValue>, signatures: seq<string>, steps: seq<nat>, n: nat)
    requires n <= |signatures| && n <= |steps|
    ensures SameButSteps(t, WithSteps(t, signatures, steps, n))
    ensures forall sig :: sig in t && sig !in signatures ==> WithSteps(t, signatures, steps, n)[sig] == t[sig]
  {
    if n > 0 {
      StepsOfOneBlock(t, signatures, steps, n - 1);
      assert signatures[n - 1] in signatures;
    }
  }

  lemma {:induction false} StepWritten(
      t: Table<string, TxValue>, signatures: seq<string>, steps: seq<nat>, n: nat, i: nat)
    requires i < n <= |signatures| && n <= |steps| && signatures[i] in t
    requires forall j :: i < j < n ==> signatures[j] != signatures[i]
    ensures signatures[i] in WithSteps(t, signatures, steps, n)
    ensures WithSteps(t, signatures, steps, n)[signatures[i]].value.step == Some(AsI32(steps[i]))
  {
    StepsOfOneBlock(t, signatures, steps, n - 1);
    if i < n - 1 { StepWritten(t, signatures, steps, n - 1, i); }
  }

  /** A signature keeps the step of the last block that mentions it. */
  lemma {:induction false} StepsOfAllBlocks(t: Table<string, TxValue>, blocks: seq<ParsedBlock>, n: nat)
    requires n <= |blocks|
    ensures SameButSteps(t, WithAllSteps(t, blocks, n))
    ensures forall sig :: sig in t && (forall l :: 0 <= l < n ==> sig !in blocks[l].signatures) ==>
      WithAllSteps(t, blocks, n)[sig] == t[sig]
  {
    if n > 0 {
      StepsOfAllBlocks(t, blocks, n - 1);
      var p, before := blocks[n - 1], WithAllSteps(t, blocks, n - 1);
      StepsOfOneBlock(before, p.signatures, p.schedule.steps, Min(|p.signatures|, |p.schedule.steps|));
    }
  }

  lemma {:induction false} StepOfLastBlock(t: Table<string, TxValue>, blocks: seq<ParsedBlock>, n: nat, k: nat, i: nat)
    requires k < n <= |blocks| && i < |blocks[k].signatures| == |blocks[k].schedule.steps|
    requires blocks[k].signatures[i] in t && Distinct(blocks[k].signatures)
    requires forall l :: k < l < n ==> blocks[k].signatures[i] !in blocks[l].signatures
    ensures blocks[k].signatures[i] in WithAllSteps(t, blocks, n)
    ensures WithAllSteps(t, blocks, n)[blocks[k].signatures[i]].value.step == Some(AsI32(blocks[k].schedule.steps[i]))
  {
    var p, before := blocks[n - 1], WithAllSteps(t, blocks, n - 1);
    StepsOfAllBlocks(t, blocks, n - 1);
    if k < n - 1 {
      StepOfLastBlock(t, blocks, n - 1, k, i);
      StepsOfOneBlock(before, p.signatures, p.schedule.steps, Min(|p.signatures|, |p.schedule.steps|));
    } else {
      StepWritten(before, p.signatures, p.schedule.steps, |p.signatures|, i);
    }
  }

  // ---------------- One signature, one slot ----------------

  /** A signature that another slot holds at that moment cannot be stored. */
  lemma {:induction false} NotStoredTwice(db: Database, batch: seq<SlotData>, l: nat, s: u64, sig: string)
    requires ReplaceBatch(db, batch).Some? && l < |batch| && batch[l].slot != s
    requires ReplaceBatch(db, batch[..l]).Some?
    requires sig in SlotRows(ReplaceBatch(db, batch[..l]).value.transactions, s)
    ensures forall j :: 0 <= j < |batch[l].transactions| ==> batch[l].transactions[j].signature != sig
  {
    PrefixSucceeds(db, batch, l + 1);
    BatchStep(db, batch, l);
    ReplaceSlotSucceedsIff(ReplaceBatch(db, batch[..l]).value, batch[l]);
    forall j | 0 <= j < |batch[l].transactions| ensures batch[l].transactions[j].signature != sig {
      assert batch[l].TxRows()[j].0 == batch[l].transactions[j].signature;
    }
  }

  // ---------------- What the database holds ----------------

  /** The token rows name transactions that did not fail. */
  ghost predicate TokensFromSucceeded(d: SlotData) {
    forall r :: r in d.tokenChanges ==>
      exists i :: 0 <= i < |d.transactions| && !d.transactions[i].failed && d.transactions[i].signature == r.key.0
  }

  /**
   One signature and one step per transaction; no step exceeds its index; the steps are 0..depth-1;
   no token row comes from a failed transaction.
   */
  ghost predicate Consistent(p: ParsedBlock) {
    && |p.signatures| == |p.schedule.steps| == |p.data.transactions|
    && (forall i :: 0 <= i < |p.signatures| ==> p.signatures[i] == p.data.transactions[i].signature)
    && (forall i :: 0 <= i < |p.signatures| ==> p.schedule.steps[i] <= i)
    && (forall s :: s in p.schedule.steps <==> 0 <= s < p.schedule.depth)
    && TokensFromSucceeded(p.data)
  }

  lemma {:induction false} ParsedIsConsistent(b: DecodedBlock, p: ParsedBlock)
    requires IsParsed(b, p)
    ensures Consistent(p)
  {
    var txs := TxLocksOf(b.transactions);
    var inOrder: seq<nat> := seq(|txs|, i requires 0 <= i < |txs| => i);
    assert Respects(txs, inOrder);
    forall i | 0 <= i < |p.signatures| ensures p.schedule.steps[i] <= i {
      assert p.schedule.steps[i] <= inOrder[i];
    }
    ParsedTokensFromSucceeded(b);
  }

  lemma {:induction false} ParsedTokensFromSucceeded(b: DecodedBlock)
    ensures TokensFromSucceeded(BlockData(b))
  {
    var d := BlockData(b);
    forall r | r in d.tokenChanges
      ensures exists i :: 0 <= i < |d.transactions| && !d.transactions[i].failed && d.transactions[i].signature == r.key.0
    {
      OnlySucceededRows(b.transactions, r);
      var i, t :|
        && 0 <= i < |b.transactions| && !b.transactions[i].failed
        && t in b.transactions[i].tokenDeltas && r == TokenRow(b.transactions[i], t);
      assert !d.transactions[i].failed && d.transactions[i].signature == r.key.0;
    }
  }

  /** Block `k` is the last one of the batch for its slot. */
  ghost predicate LastForItsSlot(blocks: seq<ParsedBlock>, k: nat) {
    k < |blocks| && forall l :: k < l < |blocks| ==> blocks[l].data.slot != blocks[k].data.slot
  }

  ghost predicate WithoutTheSlot(blocks: seq<ParsedBlock>, slot: u64) {
    forall l :: 0 <= l < |blocks| ==> blocks[l].data.slot != slot
  }

  /** The last block of the batch for the slot. */
  function LastParsed(blocks: seq<ParsedBlock>, slot: u64): Option<ParsedBlock> {
    if blocks == [] then None
    else if blocks[|blocks| - 1].data.slot == slot then Some(blocks[|blocks| - 1])
    else LastParsed(blocks[..|blocks| - 1], slot)
  }

  lemma {:induction false} NoneParsed(blocks: seq<ParsedBlock>, slot: u64)
    requires LastParsed(blocks, slot).None?
    ensures WithoutTheSlot(blocks, slot)
  {
    if blocks != [] { NoneParsed(blocks[..|blocks| - 1], slot); }
  }

  lemma {:induction false} IndexOfLastParsed(blocks: seq<ParsedBlock>, slot: u64) returns (k: nat)
    requires LastParsed(blocks, slot).Some?
    ensures LastForItsSlot(blocks, k) && blocks[k] == LastParsed(blocks, slot).value && blocks[k].data.slot == slot
  {
    k := |blocks| - 1;
    if blocks[k].data.slot != slot { k := IndexOfLastParsed(blocks[..k], slot); }
  }

  /** The row that transaction `i` of a block ends up with. */
  function FinalRow(p: ParsedBlock, i: nat): Stored<TxValue>
    requires i < |p.data.transactions| && i < |p.schedule.steps|
  {
    var t := p.data.transactions[i];
    Stored(p.data.slot, TxValue(p.data.blockTime, t.failed, t.programIds, Some(AsI32(p.schedule.steps[i]))))
  }

  /** The slot holds exactly this block: its row, its transactions with their steps, its locks and token rows. */
  ghost predicate HoldsBlock(db: Database, p: ParsedBlock) {
    var s := p.data.slot;
    && s in db.blocks && db.blocks[s] == BlockRow(p.data.blockTime, AsI32(|p.data.transactions|))
    && |p.data.transactions| == |p.schedule.steps|
    && (forall sig :: sig in db.transactions && db.transactions[sig].slot == s ==>
          exists i :: 0 <= i < |p.data.transactions| && p.data.transactions[i].signature == sig)
    && (forall i :: 0 <= i < |p.data.transactions| ==>
          && p.data.transactions[i].signature in db.transactions
          && db.transactions[p.data.transactions[i].signature] == FinalRow(p, i))
    && SlotRows(db.locks, s) == AsMap(p.data.LockRows()) && SlotRows(db.tokens, s) == AsMap(p.data.TokenRows())
    && DistinctRowKeys(p.data.TxRows()) && DistinctRowKeys(p.data.LockRows()) && DistinctRowKeys(p.data.TokenRows())
  }

  ghost predicate HoldsNothing(db: Database, s: u64) {
    && s !in db.blocks && SlotRows(db.locks, s) == map[] && SlotRows(db.tokens, s) == map[]
    && forall sig :: sig in db.transactions ==> db.transactions[sig].slot != s
  }

  ghost predicate HoldsFor(db: Database, s: u64, p: Option<ParsedBlock>) {
    if p.None? then HoldsNothing(db, s) else p.value.data.slot == s && HoldsBlock(db, p.value)
  }

  ghost predicate AllGood(blocks: seq<ParsedBlock>) {
    forall k :: 0 <= k < |blocks| ==> Consistent(blocks[k])
  }

  /** The distinct keys of a block that was committed as part of a batch. */
  lemma {:induction false} CommittedBlock(db: Database, blocks: seq<ParsedBlock>, k: nat)
    requires AllGood(blocks) && k < |blocks| && Committed(db, blocks)
    ensures var d := blocks[k].data;
      DistinctRowKeys(d.TxRows()) && DistinctRowKeys(d.LockRows()) && DistinctRowKeys(d.TokenRows())
    ensures Distinct(blocks[k].signatures)
  {
    CommittedKeysDistinct(db, DataOf(blocks), k);
    var rows, sigs := blocks[k].data.TxRows(), blocks[k].signatures;
    assert forall i :: 0 <= i < |sigs| ==> rows[i].0 == sigs[i];
  }

  /** The steps that the flush leaves with the transactions of a slot that is in the batch. */
  lemma {:induction false} StepsAfterFlush(db: Database, blocks: seq<ParsedBlock>, k: nat, i: nat)
    requires AllGood(blocks) && k < |blocks| && Committed(db, blocks)
    requires LastForItsSlot(blocks, k)
    requires i < |blocks[k].data.transactions|
    ensures |blocks[k].data.transactions| == |blocks[k].schedule.steps|
    ensures var sig := blocks[k].data.transactions[i].signature;
      sig in AfterFlush(db, blocks).transactions && AfterFlush(db, blocks).transactions[sig] == FinalRow(blocks[k], i)
  {
    hide ReplaceBatch, WithAllSteps, LastFor, AsMap;
    var batch, p := DataOf(blocks), blocks[k];
    var db1, s, sig := ReplaceBatch(db, batch).value, p.data.slot, p.data.transactions[i].signature;
    CommittedBlock(db, blocks, k);
    RowOfLastBlock(db, batch, k, i, |batch|);
    assert batch[..|batch|] == batch;
    forall l | k < l < |blocks| ensures sig !in blocks[l].signatures {
      RowOfLastBlock(db, batch, k, i, l);
      PrefixSucceeds(db, batch, l);
      NotStoredTwice(db, batch, l, s, sig);
    }
    StepOfLastBlock(db1.transactions, blocks, |blocks|, k, i);
    StepsOfAllBlocks(db1.transactions, blocks, |blocks|);
  }

  /** From its insertion on, and until its slot is replaced, a transaction is stored for its slot. */
  lemma {:induction false} RowOfLastBlock(db: Database, batch: seq<SlotData>, k: nat, i: nat, l: nat)
    requires k < l <= |batch| && i < |batch[k].transactions| && ReplaceBatch(db, batch).Some?
    requires forall m :: k < m < l ==> batch[m].slot != batch[k].slot
    requires DistinctRowKeys(batch[k].TxRows())
    ensures ReplaceBatch(db, batch[..l]).Some?
    ensures var t := batch[k].transactions[i];
      var rows := SlotRows(ReplaceBatch(db, batch[..l]).value.transactions, batch[k].slot);
      t.signature in rows && rows[t.signature] == batch[k].TxRow(t).1
  {
    PrefixSucceeds(db, batch, l);
    LastIs(batch[..l], k);
    BatchMeaning(db, batch[..l], batch[k].slot);
    AsMapAt(batch[k].TxRows(), i);
  }

  lemma {:induction false} LastIs(batch: seq<SlotData>, k: nat)
    requires k < |batch| && forall m :: k < m < |batch| ==> batch[m].slot != batch[k].slot
    ensures LastFor(batch, batch[k].slot) == Some(batch[k])
  {
    if k < |batch| - 1 { LastIs(batch[..|batch| - 1], k); }
  }

  lemma {:induction false} AsMapAt<K, V>(rows: seq<(K, V)>, i: nat)
    requires i < |rows| && DistinctRowKeys(rows)
    ensures rows[i].0 in AsMap(rows) && AsMap(rows)[rows[i].0] == rows[i].1
  {
    if i < |rows| - 1 { AsMapAt(rows[..|rows| - 1], i); }
  }

  /** A committed flush stores its last block of a slot completely. */
  lemma {:induction false} FlushStores(db: Database, blocks: seq<ParsedBlock>, k: nat)
    requires AllGood(blocks) && k < |blocks| && Committed(db, blocks)
    requires LastForItsSlot(blocks, k)
    ensures HoldsBlock(AfterFlush(db, blocks), blocks[k])
  {
    hide ReplaceBatch, WithAllSteps, LastFor, AsMap;
    var p := blocks[k];
    CommittedBlock(db, blocks, k);
    LastIs(DataOf(blocks), k);
    BatchMeaning(db, DataOf(blocks), p.data.slot);
    forall i | 0 <= i < |p.data.transactions|
      ensures p.data.transactions[i].signature in AfterFlush(db, blocks).transactions
      ensures AfterFlush(db, blocks).transactions[p.data.transactions[i].signature] == FinalRow(p, i)
    {
      StepsAfterFlush(db, blocks, k, i);
    }
    forall sig | sig in AfterFlush(db, blocks).transactions && AfterFlush(db, blocks).transactions[sig].slot == p.data.slot
      ensures exists i :: 0 <= i < |p.data.transactions| && p.data.transactions[i].signature == sig
    {
      NoOtherTransaction(db, blocks, k, sig);
    }
  }

  lemma {:induction false} NoOtherTransaction(db: Database, blocks: seq<ParsedBlock>, k: nat, sig: string)
    requires k < |blocks| && Committed(db, blocks) && LastForItsSlot(blocks, k)
    requires var t := AfterFlush(db, blocks).transactions; sig in t && t[sig].slot == blocks[k].data.slot
    ensures exists i :: 0 <= i < |blocks[k].data.transactions| && blocks[k].data.transactions[i].signature == sig
  {
    hide ReplaceBatch, WithAllSteps, LastFor;
    var d, db1 := blocks[k].data, ReplaceBatch(db, DataOf(blocks)).value;
    LastIs(DataOf(blocks), k);
    BatchMeaning(db, DataOf(blocks), d.slot);
    StepsOfAllBlocks(db1.transactions, blocks, |blocks|);
    assert sig in SlotRows(db1.transactions, d.slot);
    AsMapKeys(d.TxRows());
    var i :| 0 <= i < |d.TxRows()| && d.TxRows()[i].0 == sig;
    assert d.transactions[i].signature == sig;
  }

  /** A committed flush leaves the slots that are not in it as they were, steps included. */
  lemma {:induction false} FlushKeeps(db: Database, blocks: seq<ParsedBlock>, s: u64)
    requires AllGood(blocks) && Committed(db, blocks)
    requires WithoutTheSlot(blocks, s)
    ensures View(AfterFlush(db, blocks), s) == View(db, s)
  {
    hide ReplaceBatch, WithAllSteps, LastFor;
    var db1 := ReplaceBatch(db, DataOf(blocks)).value;
    NotMentioned(DataOf(blocks), s);
    BatchMeaning(db, DataOf(blocks), s);
    StepsOfAllBlocks(db1.transactions, blocks, |blocks|);
    forall sig | sig in SlotRows(db1.transactions, s) ensures AfterFlush(db, blocks).transactions[sig] == db1.transactions[sig] {
      StepUntouched(db, blocks, s, sig);
    }
    assert SlotRows(AfterFlush(db, blocks).transactions, s) == SlotRows(db1.transactions, s);
  }

  lemma {:induction false} StepUntouched(db: Database, blocks: seq<ParsedBlock>, s: u64, sig: string)
    requires AllGood(blocks) && Committed(db, blocks) && WithoutTheSlot(blocks, s)
    requires sig in SlotRows(db.transactions, s)
    requires sig in ReplaceBatch(db, DataOf(blocks)).value.transactions
    ensures sig in AfterFlush(db, blocks).transactions
    ensures AfterFlush(db, blocks).transactions[sig] == ReplaceBatch(db, DataOf(blocks)).value.transactions[sig]
  {
    hide ReplaceBatch, WithAllSteps, LastFor;
    var batch := DataOf(blocks);
    forall l | 0 <= l < |blocks| ensures sig !in blocks[l].signatures {
      PrefixSucceeds(db, batch, l);
      NotMentioned(batch[..l], s);
      BatchMeaning(db, batch[..l], s);
      NotStoredTwice(db, batch, l, s, sig);
    }
    StepsOfAllBlocks(ReplaceBatch(db, batch).value.transactions, blocks, |blocks|);
  }

  lemma {:induction false} NotMentioned(batch: seq<SlotData>, s: u64)
    requires forall l :: 0 <= l < |batch| ==> batch[l].slot != s
    ensures LastFor(batch, s).None?
  {
    if batch != [] { NotMentioned(batch[..|batch| - 1], s); }
  }

  lemma {:induction false} HoldsByView(db: Database, db': Database, s: u64, p: Option<ParsedBlock>)
    requires HoldsFor(db, s, p) && View(db', s) == View(db, s)
    ensures HoldsFor(db', s, p)
  {
    forall sig ensures sig in db'.transactions && db'.transactions[sig].slot == s
      <==> sig in db.transactions && db.transactions[sig].slot == s
    {
      assert sig in SlotRows(db'.transactions, s) <==> sig in SlotRows(db.transactions, s);
    }
    if p.Some? {
      forall i | 0 <= i < |p.value.data.transactions|
        ensures p.value.data.transactions[i].signature in db'.transactions
        ensures db'.transactions[p.value.data.transactions[i].signature] == FinalRow(p.value, i)
      {
        var sig := p.value.data.transactions[i].signature;
        assert sig in SlotRows(db.transactions, s);
        assert SlotRows(db'.transactions, s)[sig] == SlotRows(db.transactions, s)[sig];
      }
    }
  }

  // ---------------- Runs of flushes ----------------

  /** The database after a run of flushes, some of which may have failed. */
  function FlushRun(db: Database, flushes: seq<seq<ParsedBlock>>): Database {
    if flushes == [] then db else AfterFlush(FlushRun(db, flushes[..|flushes| - 1]), flushes[|flushes| - 1])
  }

  /** The block of the slot in the last flush of the run that mentions it and was committed. */
  function LastFlushed(db: Database, flushes: seq<seq<ParsedBlock>>, slot: u64): Option<ParsedBlock> {
    if flushes == [] then None
    else
      var before, blocks := flushes[..|flushes| - 1], flushes[|flushes| - 1];
      if Committed(FlushRun(db, before), blocks) && LastParsed(blocks, slot).Some?
      then LastParsed(blocks, slot)
      else LastFlushed(db, before, slot)
  }

  ghost predicate GoodRun(flushes: seq<seq<ParsedBlock>>) {
    forall f :: 0 <= f < |flushes| ==> AllGood(flushes[f])
  }

  /**
   End to end: after any run of flushes, of which any may fail, every slot holds exactly the block
   committed for it last, each of its transactions with its step in the schedule of that block.
   Nothing is assumed about distinct slots or signatures: the primary keys see to that.
   */
  lemma {:induction false} RunHoldsLastBlocks(flushes: seq<seq<ParsedBlock>>, s: u64)
    requires GoodRun(flushes)
    ensures HoldsFor(FlushRun(EMPTY, flushes), s, LastFlushed(EMPTY, flushes, s))
  {
    if flushes == [] {
      NothingAtFirst(s);
    } else {
      var before, blocks := flushes[..|flushes| - 1], flushes[|flushes| - 1];
      RunHoldsLastBlocks(before, s);
      OneMoreFlush(FlushRun(EMPTY, before), blocks, s, LastFlushed(EMPTY, before, s));
    }
  }

  lemma {:induction false} NothingAtFirst(s: u64)
    ensures HoldsNothing(EMPTY, s)
  {
    assert SlotRows(EMPTY.locks, s).Keys == {} && SlotRows(EMPTY.tokens, s).Keys == {};
  }

  lemma {:induction false} OneMoreFlush(db: Database, blocks: seq<ParsedBlock>, s: u64, p: Option<ParsedBlock>)
    requires AllGood(blocks) && HoldsFor(db, s, p)
    ensures HoldsFor(AfterFlush(db, blocks), s,
                     if Committed(db, blocks) && LastParsed(blocks, s).Some? then LastParsed(blocks, s) else p)
  {
    if Committed(db, blocks) {
      if LastParsed(blocks, s).Some? {
        var k := IndexOfLastParsed(blocks, s);
        FlushStores(db, blocks, k);
      } else {
        NoneParsed(blocks, s);
        FlushKeeps(db, blocks, s);
        HoldsByView(db, AfterFlush(db, blocks), s, p);
      }
    }
  }

  /** The block left in a slot is one of the blocks of the run. */
  lemma {:induction false} OriginOfBlock(db: Database, flushes: seq<seq<ParsedBlock>>, s: u64) returns (f: nat, k: nat)
    requires LastFlushed(db, flushes, s).Some?
    ensures f < |flushes| && k < |flushes[f]| && flushes[f][k] == LastFlushed(db, flushes, s).value
    ensures flushes[f][k].data.slot == s
  {
    var before, blocks := flushes[..|flushes| - 1], flushes[|flushes| - 1];
    if Committed(FlushRun(db, before), blocks) && LastParsed(blocks, s).Some? {
      f := |flushes| - 1;
      k := IndexOfLastParsed(blocks, s);
    } else {
      f, k := OriginOfBlock(db, before, s);
    }
  }
}

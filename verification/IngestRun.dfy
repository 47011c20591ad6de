/**
 A whole ingest: the blocks that the pipeline delivers, parsed, flushed in batches and queried
 (crates/cli/src/main.rs, lines 159-268).
 */
module IngestRun {
  import opened Contention
  import opened Decoding
  import opened Flushing
  import opened EndToEnd
  import opened Numbers
  import opened Options
  import opened Parsing
  import opened Sequences
  import opened Storage
  import P = Pipeline

  ghost predicate AreParsed(blocks: seq<DecodedBlock>, parsed: seq<ParsedBlock>) {
    |parsed| == |blocks| && forall k :: 0 <= k < |blocks| ==> IsParsed(blocks[k], parsed[k])
  }

  method ParseAll(blocks: seq<DecodedBlock>) returns (parsed: seq<ParsedBlock>)
    ensures AreParsed(blocks, parsed)
  {
    hide IsParsed, IsParseOf;
    parsed := [];
    for i := 0 to |blocks|
      invariant |parsed| == i
      invariant forall k :: 0 <= k < i ==> IsParsed(blocks[k], parsed[k])
    {
      var p := ParseBlock(blocks[i]);
      parsed := parsed + [p];
    }
  }

  lemma {:induction false} ParsedBatchIsGood(blocks: seq<DecodedBlock>, parsed: seq<ParsedBlock>)
    requires AreParsed(blocks, parsed)
    ensures AllGood(parsed)
  {
    hide Consistent;
    forall k | 0 <= k < |parsed| ensures Consistent(parsed[k]) {
      ParsedIsConsistent(blocks[k], parsed[k]);
    }
  }

  ghost predicate AllParsed(batches: seq<seq<DecodedBlock>>, flushes: seq<seq<ParsedBlock>>) {
    |flushes| == |batches| && forall f :: 0 <= f < |batches| ==> AreParsed(batches[f], flushes[f])
  }

  lemma {:induction false} ParsedRunIsGood(batches: seq<seq<DecodedBlock>>, flushes: seq<seq<ParsedBlock>>)
    requires AllParsed(batches, flushes)
    ensures GoodRun(flushes)
  {
    hide AreParsed, AllGood;
    forall f | 0 <= f < |flushes| ensures AllGood(flushes[f]) { ParsedBatchIsGood(batches[f], flushes[f]); }
  }

  // ---------------- Decoded blocks in the database ----------------

  ghost predicate Commits(flushes: seq<seq<ParsedBlock>>, f: nat)
    requires f < |flushes|
  {
    Committed(FlushRun(EMPTY, flushes[..f]), flushes[f])
  }

  ghost predicate InBatch(blocks: seq<DecodedBlock>, slot: u64) {
    exists k :: 0 <= k < |blocks| && blocks[k].slot == slot
  }

  /** Block `k` of batch `f` was committed, and no block of its slot was committed after it. */
  ghost predicate IsLastCommitted(batches: seq<seq<DecodedBlock>>, flushes: seq<seq<ParsedBlock>>, f: nat, k: nat) {
    && f < |batches| == |flushes| && k < |batches[f]| == |flushes[f]|
    && Commits(flushes, f)
    && (forall l :: k < l < |batches[f]| ==> batches[f][l].slot != batches[f][k].slot)
    && (forall g :: f < g < |batches| && Commits(flushes, g) ==> !InBatch(batches[g], batches[f][k].slot))
  }

  ghost predicate NeverCommitted(batches: seq<seq<DecodedBlock>>, flushes: seq<seq<ParsedBlock>>, slot: u64) {
    && |batches| == |flushes|
    && forall g :: 0 <= g < |batches| && Commits(flushes, g) ==> !InBatch(batches[g], slot)
  }

  /** The slot holds the block's rows, with the steps of the least schedule of its locks. */
  ghost predicate HoldsParsed(db: Database, b: DecodedBlock, p: ParsedBlock) {
    && HoldsDecoded(db, b, p.schedule.steps)
    && exists locks :: AreLocksOf(b.transactions, locks) && LeastSchedule(locks, p.schedule.steps)
  }

  lemma {:induction false} LastParsedIs(blocks: seq<DecodedBlock>, parsed: seq<ParsedBlock>, k: nat)
    requires AreParsed(blocks, parsed) && k < |blocks|
    requires forall l :: k < l < |blocks| ==> blocks[l].slot != blocks[k].slot
    ensures LastParsed(parsed, blocks[k].slot) == Some(parsed[k])
  {
    hide IsScheduleOf;
    var n := |blocks| - 1;
    if k < n { LastParsedIs(blocks[..n], parsed[..n], k); }
  }

  lemma {:induction false} NoneParsedIff(blocks: seq<DecodedBlock>, parsed: seq<ParsedBlock>, slot: u64)
    requires AreParsed(blocks, parsed)
    ensures LastParsed(parsed, slot).None? <==> !InBatch(blocks, slot)
  {
    hide IsScheduleOf;
    if LastParsed(parsed, slot).None? {
      NoneParsed(parsed, slot);
    } else {
      var k := IndexOfLastParsed(parsed, slot);
      assert blocks[k].slot == slot;
    }
  }

  lemma {:induction false} CommitsInPrefix(flushes: seq<seq<ParsedBlock>>, f: nat)
    requires f < |flushes| - 1
    ensures Commits(flushes[..|flushes| - 1], f) <==> Commits(flushes, f)
  {
    assert flushes[..|flushes| - 1][..f] == flushes[..f];
  }

  lemma {:induction false} LastCommittedIsStored(
      batches: seq<seq<DecodedBlock>>, flushes: seq<seq<ParsedBlock>>, f: nat, k: nat)
    requires AllParsed(batches, flushes) && IsLastCommitted(batches, flushes, f, k)
    ensures StoredBlock(flushes, batches[f][k].slot) == Some(flushes[f][k])
    decreases |flushes|
  {
    hide AreParsed, Committed, InBatch;
    var n, slot := |flushes| - 1, batches[f][k].slot;
    if f == n {
      LastParsedIs(batches[n], flushes[n], k);
    } else {
      forall g | 0 <= g < n ensures Commits(flushes[..n], g) <==> Commits(flushes, g) { CommitsInPrefix(flushes, g); }
      NoneParsedIff(batches[n], flushes[n], slot);
      assert IsLastCommitted(batches[..n], flushes[..n], f, k) by { hide Commits; }
      LastCommittedIsStored(batches[..n], flushes[..n], f, k);
    }
  }

  lemma {:induction false} NoneCommittedIsStored(batches: seq<seq<DecodedBlock>>, flushes: seq<seq<ParsedBlock>>, slot: u64)
    requires AllParsed(batches, flushes) && NeverCommitted(batches, flushes, slot)
    ensures StoredBlock(flushes, slot).None?
    decreases |flushes|
  {
    hide AreParsed, Committed, InBatch;
    if flushes != [] {
      var n := |flushes| - 1;
      forall g | 0 <= g < n ensures Commits(flushes[..n], g) <==> Commits(flushes, g) { CommitsInPrefix(flushes, g); }
      NoneParsedIff(batches[n], flushes[n], slot);
      NoneCommittedIsStored(batches[..n], flushes[..n], slot);
    }
  }

  lemma {:induction false} StoredIsHeld(flushes: seq<seq<ParsedBlock>>, b: DecodedBlock, p: ParsedBlock)
    requires GoodRun(flushes) && StoredBlock(flushes, b.slot) == Some(p) && IsParsed(b, p)
    ensures HoldsParsed(FlushRun(EMPTY, flushes), b, p)
  {
    hide HoldsBlock, HoldsDecoded, FlushRun, LastFlushed, LeastSchedule, IsLongestChainLength, AllLockRows, AllTokenRows;
    RunHoldsLastBlocks(flushes, b.slot);
    HeldBlock(FlushRun(EMPTY, flushes), b, p);
    assert AreLocksOf(b.transactions, TxLocksOf(b.transactions));
  }

  /**
   From decoded blocks to the database: after any run of flushes, a committed block that no later
   committed block of its slot replaces is held by the slot of that decoded block, row by row.
   */
  lemma {:induction false} DecodedBlockIsHeld(
      batches: seq<seq<DecodedBlock>>, flushes: seq<seq<ParsedBlock>>, f: nat, k: nat)
    requires AllParsed(batches, flushes) && IsLastCommitted(batches, flushes, f, k)
    ensures StoredBlock(flushes, batches[f][k].slot) == Some(flushes[f][k])
    ensures HoldsParsed(FlushRun(EMPTY, flushes), batches[f][k], flushes[f][k])
  {
    hide HoldsParsed, Commits, FlushRun, LastFlushed, IsParsed;
    LastCommittedIsStored(batches, flushes, f, k);
    ParsedRunIsGood(batches, flushes);
    assert AreParsed(batches[f], flushes[f]);
    StoredIsHeld(flushes, batches[f][k], flushes[f][k]);
  }

  /** The slots of which no block was committed hold nothing. */
  lemma {:induction false} UncommittedSlotIsEmpty(
      batches: seq<seq<DecodedBlock>>, flushes: seq<seq<ParsedBlock>>, slot: u64)
    requires AllParsed(batches, flushes) && NeverCommitted(batches, flushes, slot)
    ensures HoldsNothing(FlushRun(EMPTY, flushes), slot)
  {
    NoneCommittedIsStored(batches, flushes, slot);
    ParsedRunIsGood(batches, flushes);
    RunHoldsLastBlocks(flushes, slot);
  }

  /** The slot of every block committed last holds it, and the other slots hold nothing. */
  ghost predicate HoldsLastCommitted(db: Database, batches: seq<seq<DecodedBlock>>, flushes: seq<seq<ParsedBlock>>) {
    && (forall f: nat, k: nat :: IsLastCommitted(batches, flushes, f, k) ==> HoldsParsed(db, batches[f][k], flushes[f][k]))
    && (forall slot: u64 :: NeverCommitted(batches, flushes, slot) ==> HoldsNothing(db, slot))
  }

  lemma {:induction false} RunHoldsLastCommitted(batches: seq<seq<DecodedBlock>>, flushes: seq<seq<ParsedBlock>>)
    requires AllParsed(batches, flushes)
    ensures HoldsLastCommitted(FlushRun(EMPTY, flushes), batches, flushes)
  {
    hide AllParsed, NeverCommitted, HoldsParsed, HoldsNothing, FlushRun, LastFlushed, Commits, InBatch;
    forall f: nat, k: nat | IsLastCommitted(batches, flushes, f, k)
      ensures HoldsParsed(FlushRun(EMPTY, flushes), batches[f][k], flushes[f][k])
    {
      DecodedBlockIsHeld(batches, flushes, f, k);
    }
    forall slot: u64 | NeverCommitted(batches, flushes, slot) ensures HoldsNothing(FlushRun(EMPTY, flushes), slot) {
      UncommittedSlotIsEmpty(batches, flushes, slot);
    }
  }

  /** Parse and flush batch after batch; a batch whose flush fails is dropped and the run goes on. */
  method StoreBatches(repo: Repository, batches: seq<seq<DecodedBlock>>) returns (ghost flushes: seq<seq<ParsedBlock>>)
    requires repo.State() == EMPTY
    modifies repo
    ensures HoldsLastCommitted(repo.State(), batches, flushes)
    ensures AllParsed(batches, flushes) && repo.State() == FlushRun(EMPTY, flushes)
  {
    hide AreParsed, AfterFlush, HoldsLastCommitted;
    flushes := [];
    for i := 0 to |batches|
      invariant |flushes| == i && repo.State() == FlushRun(EMPTY, flushes)
      invariant forall f :: 0 <= f < i ==> AreParsed(batches[f], flushes[f])
    {
      var parsed := ParseAll(batches[i]);
      var ok := FlushParsedBatch(repo, parsed);
      assert (flushes + [parsed])[..i] == flushes;
      flushes := flushes + [parsed];
    }
    RunHoldsLastCommitted(batches, flushes);
  }

  // ---------------- From the pipeline to the database ----------------

  /** The flushes of the pipeline, carried out: same slots, and a flush succeeds when its batch commits. */
  ghost predicate Realises(fs: seq<P.Flush>, flushes: seq<seq<ParsedBlock>>) {
    && |fs| == |flushes|
    && forall f :: 0 <= f < |fs| ==>
         && SlotsOfBlocks(flushes[f]) == fs[f].slots
         && (fs[f].ok <==> Commits(flushes, f))
  }

  function SlotsOfBlocks(blocks: seq<ParsedBlock>): (r: seq<nat>)
    ensures |r| == |blocks| && forall k :: 0 <= k < |r| ==> r[k] == blocks[k].data.slot
  {
    seq(|blocks|, k requires 0 <= k < |blocks| => blocks[k].data.slot)
  }

  ghost predicate FlushedOk(fs: seq<P.Flush>, slot: u64) {
    exists f :: 0 <= f < |fs| && fs[f].ok && slot in fs[f].slots
  }

  lemma {:induction false} ParsedIffInBatch(blocks: seq<ParsedBlock>, slot: u64)
    ensures LastParsed(blocks, slot).Some? <==> slot in SlotsOfBlocks(blocks)
  {
    if LastParsed(blocks, slot).Some? {
      var k := IndexOfLastParsed(blocks, slot);
      assert SlotsOfBlocks(blocks)[k] == slot;
    } else {
      NoneParsed(blocks, slot);
    }
  }

  /** A slot has a stored block exactly when some successful flush contained it. */
  lemma {:induction false} StoredIffFlushedOk(fs: seq<P.Flush>, flushes: seq<seq<ParsedBlock>>, slot: u64)
    requires Realises(fs, flushes)
    ensures StoredBlock(flushes, slot).Some? <==> FlushedOk(fs, slot)
  {
    if flushes != [] {
      var n := |flushes| - 1;
      forall f | 0 <= f < n ensures Commits(flushes[..n], f) <==> Commits(flushes, f) {
        assert flushes[..n][..f] == flushes[..f];
      }
      StoredIffFlushedOk(fs[..n], flushes[..n], slot);
      ParsedIffInBatch(flushes[n], slot);
      OneMoreOk(fs, slot);
    }
  }

  lemma {:induction false} OneMoreOk(fs: seq<P.Flush>, slot: u64)
    requires fs != []
    ensures var n := |fs| - 1; FlushedOk(fs, slot) <==> FlushedOk(fs[..n], slot) || (fs[n].ok && slot in fs[n].slots)
  {
    var n := |fs| - 1;
    if FlushedOk(fs[..n], slot) {
      var f :| 0 <= f < n && fs[..n][f].ok && slot in fs[..n][f].slots;
      assert fs[f].ok && slot in fs[f].slots;
    }
    if FlushedOk(fs, slot) {
      var f :| 0 <= f < |fs| && fs[f].ok && slot in fs[f].slots;
      assert f == n || fs[..n][f] == fs[f];
    }
  }

  lemma {:induction false} InFlushedSlots(fs: seq<P.Flush>, slot: u64)
    requires forall f :: 0 <= f < |fs| ==> fs[f].ok
    ensures slot in P.FlushedSlots(fs) <==> FlushedOk(fs, slot)
  {
    if fs != [] {
      InFlushedSlots(fs[..|fs| - 1], slot);
      OneMoreOk(fs, slot);
    }
  }

  /** The slot was delivered with a block. */
  ghost predicate DeliveredWithBlock(outcomes: seq<P.Outcome>, slot: u64) { P.Outcome(slot, P.Ingested) in outcomes }

  lemma {:induction false} InIngestedSlots(outcomes: seq<P.Outcome>, slot: u64)
    ensures slot in P.IngestedSlots(outcomes) <==> DeliveredWithBlock(outcomes, slot)
  {
    if outcomes != [] {
      var n := |outcomes| - 1;
      InIngestedSlots(outcomes[..n], slot);
      assert outcomes == outcomes[..n] + [outcomes[n]];
    }
  }

  /** What the end of a run of the pipeline says about the batches it flushed. */
  ghost predicate RunEnded(p: P.Params, states: seq<P.State>, s: P.State) {
    P.Behaviour(p, states) && s == states[|states| - 1] && P.Stuck(p, s)
  }

  ghost predicate NoFlushFailed(fs: seq<P.Flush>) { forall f :: 0 <= f < |fs| ==> fs[f].ok }

  // ---------------- Every flushed block stays ----------------

  lemma {:induction false} IngestedSlotsDistinct(outcomes: seq<P.Outcome>)
    requires Distinct(P.SlotsOf(outcomes))
    ensures Distinct(P.IngestedSlots(outcomes))
    ensures forall slot :: slot in P.IngestedSlots(outcomes) ==> slot in P.SlotsOf(outcomes)
  {
    if outcomes != [] {
      var n := |outcomes| - 1;
      var slots := P.SlotsOf(outcomes);
      assert P.SlotsOf(outcomes[..n]) == slots[..n] && slots == slots[..n] + [slots[n]];
      IngestedSlotsDistinct(outcomes[..n]);
      forall slot | slot in slots[..n] ensures slot != slots[n] {
        var k :| 0 <= k < n && slots[..n][k] == slot;
      }
      var before := P.IngestedSlots(outcomes[..n]);
      forall k | 0 <= k < |before| ensures before[k] != slots[n] { assert before[k] in before; }
    }
  }

  lemma {:induction false} FlushedOnce(p: P.Params, states: seq<P.State>, s: P.State)
    requires RunEnded(p, states, s)
    ensures Distinct(P.FlushedSlots(s.store.flushes))
  {
    P.RunCompletes(p, states, s);
    IngestedSlotsDistinct(s.store.handled);
  }

  ghost predicate Apart(xs: seq<nat>, ys: seq<nat>) { forall x :: x in xs ==> x !in ys }

  lemma {:induction false} LastFlushDistinct(fs: seq<P.Flush>)
    requires fs != [] && Distinct(P.FlushedSlots(fs))
    ensures Distinct(P.FlushedSlots(fs[..|fs| - 1])) && Distinct(fs[|fs| - 1].slots)
    ensures Apart(P.FlushedSlots(fs[..|fs| - 1]), fs[|fs| - 1].slots)
  {
    var before, last, all := P.FlushedSlots(fs[..|fs| - 1]), fs[|fs| - 1].slots, P.FlushedSlots(fs);
    assert forall k :: 0 <= k < |before| ==> all[k] == before[k];
    assert forall k :: 0 <= k < |last| ==> all[|before| + k] == last[k];
  }

  lemma {:induction false} InSomeFlush(fs: seq<P.Flush>, f: nat, k: nat)
    requires f < |fs| && k < |fs[f].slots|
    ensures fs[f].slots[k] in P.FlushedSlots(fs)
  {
    var n := |fs| - 1;
    assert fs[f].slots[k] in fs[f].slots;
    if f < n { InSomeFlush(fs[..n], f, k); }
  }

  lemma {:induction false} OnlyBlockOfSlot(blocks: seq<ParsedBlock>, k: nat)
    requires Distinct(SlotsOfBlocks(blocks)) && k < |blocks|
    ensures LastParsed(blocks, blocks[k].data.slot) == Some(blocks[k])
  {
    var slots := SlotsOfBlocks(blocks);
    assert slots[k] in slots;
    ParsedIffInBatch(blocks, blocks[k].data.slot);
    var l := IndexOfLastParsed(blocks, blocks[k].data.slot);
    assert slots[l] == slots[k];
  }

  /** When every slot is flushed once, a successful flush leaves each of its blocks in the database for good. */
  lemma {:induction false} FlushedBlockStays(fs: seq<P.Flush>, flushes: seq<seq<ParsedBlock>>, f: nat, k: nat)
    requires Realises(fs, flushes) && Distinct(P.FlushedSlots(fs))
    requires f < |fs| && fs[f].ok && k < |flushes[f]|
    ensures StoredBlock(flushes, flushes[f][k].data.slot) == Some(flushes[f][k])
    decreases |fs|
  {
    hide Commits, SlotsOfBlocks, P.FlushedSlots;
    var n := |flushes| - 1;
    LastFlushDistinct(fs);
    if f == n {
      JustStored(flushes, k);
    } else {
      RealisedPrefix(fs, flushes);
      FlushedBlockStays(fs[..n], flushes[..n], f, k);
      InSomeFlush(fs[..n], f, k);
      NotReplaced(flushes, flushes[f][k].data.slot);
    }
  }

  lemma {:induction false} JustStored(flushes: seq<seq<ParsedBlock>>, k: nat)
    requires flushes != [] && k < |flushes[|flushes| - 1]|
    requires Commits(flushes, |flushes| - 1) && Distinct(SlotsOfBlocks(flushes[|flushes| - 1]))
    ensures var p := flushes[|flushes| - 1][k]; StoredBlock(flushes, p.data.slot) == Some(p)
  {
    hide ReplaceBatch, FlushRun;
    OnlyBlockOfSlot(flushes[|flushes| - 1], k);
  }

  lemma {:induction false} NotReplaced(flushes: seq<seq<ParsedBlock>>, slot: u64)
    requires flushes != [] && slot !in SlotsOfBlocks(flushes[|flushes| - 1])
    ensures StoredBlock(flushes, slot) == StoredBlock(flushes[..|flushes| - 1], slot)
  {
    hide ReplaceBatch, FlushRun;
    ParsedIffInBatch(flushes[|flushes| - 1], slot);
  }

  lemma {:induction false} RealisedPrefix(fs: seq<P.Flush>, flushes: seq<seq<ParsedBlock>>)
    requires Realises(fs, flushes) && fs != []
    ensures Realises(fs[..|fs| - 1], flushes[..|fs| - 1])
  {
    var n := |fs| - 1;
    forall f | 0 <= f < n ensures Commits(flushes[..n], f) <==> Commits(flushes, f) {
      assert flushes[..n][..f] == flushes[..f];
    }
  }

  /** A slot that is flushed once is in one batch only. */
  lemma {:induction false} OneFlushPerSlot(fs: seq<P.Flush>, f: nat, g: nat, slot: nat)
    requires Distinct(P.FlushedSlots(fs)) && f < g < |fs| && slot in fs[f].slots
    ensures slot !in fs[g].slots
  {
    hide P.FlushedSlots;
    var n := |fs| - 1;
    LastFlushDistinct(fs);
    if g < n {
      OneFlushPerSlot(fs[..n], f, g, slot);
    } else {
      var k :| 0 <= k < |fs[f].slots| && fs[f].slots[k] == slot;
      InSomeFlush(fs[..n], f, k);
    }
  }

  lemma {:induction false} EmptyBatchCommits(fs: seq<P.Flush>, flushes: seq<seq<ParsedBlock>>, f: nat)
    requires Realises(fs, flushes) && f < |fs| && !fs[f].ok
    ensures fs[f].slots != []
  {
    assert SlotsOfBlocks(flushes[f]) == fs[f].slots && !Commits(flushes, f);
    assert |DataOf(flushes[f])| == |flushes[f]|;
  }

  /** The slots of a failed flush were ingested and hold no block. */
  lemma {:induction false} FailedFlushLeavesHole(fs: seq<P.Flush>, flushes: seq<seq<ParsedBlock>>, f: nat) returns (slot: u64)
    requires Realises(fs, flushes) && Distinct(P.FlushedSlots(fs)) && f < |fs| && !fs[f].ok
    ensures slot in P.FlushedSlots(fs) && StoredBlock(flushes, slot).None?
  {
    hide P.FlushedSlots, Commits;
    EmptyBatchCommits(fs, flushes, f);
    slot := flushes[f][0].data.slot;
    assert SlotsOfBlocks(flushes[f])[0] == slot && slot in fs[f].slots;
    InSomeFlush(fs, f, 0);
    StoredIffFlushedOk(fs, flushes, slot);
    forall g | 0 <= g < |fs| && fs[g].ok ensures slot !in fs[g].slots {
      if f < g { OneFlushPerSlot(fs, f, g, slot); }
      if g < f && slot in fs[g].slots { OneFlushPerSlot(fs, g, f, slot); }
    }
  }

  /** The slots that hold a block are exactly those the worker pool delivered with one. */
  ghost predicate IsComplete(delivered: seq<P.Outcome>, flushes: seq<seq<ParsedBlock>>) {
    forall slot: u64 :: StoredBlock(flushes, slot).Some? <==> DeliveredWithBlock(delivered, slot)
  }

  /**
   From fetch to database: at the end of every run of the pipeline, a successful flush has left each
   of its blocks in the database; and the slots that hold a block are exactly those the worker pool
   delivered with one if and only if no flush failed.
   */
  lemma {:induction false} StoredAreIngested(p: P.Params, states: seq<P.State>, s: P.State, flushes: seq<seq<ParsedBlock>>)
    requires RunEnded(p, states, s) && Realises(s.store.flushes, flushes)
    ensures forall f, k :: 0 <= f < |flushes| && s.store.flushes[f].ok && 0 <= k < |flushes[f]| ==>
      StoredBlock(flushes, flushes[f][k].data.slot) == Some(flushes[f][k])
    ensures IsComplete(s.fetch.delivered, flushes) <==> NoFlushFailed(s.store.flushes)
  {
    hide Realises;
    var fs := s.store.flushes;
    P.RunCompletes(p, states, s);
    FlushedOnce(p, states, s);
    hide RunEnded;
    assert |fs| == |flushes| by { SameLength(fs, flushes); }
    forall f, k | 0 <= f < |flushes| && fs[f].ok && 0 <= k < |flushes[f]|
      ensures StoredBlock(flushes, flushes[f][k].data.slot) == Some(flushes[f][k])
    {
      FlushedBlockStays(fs, flushes, f, k);
    }
    forall slot: u64 ensures DeliveredWithBlock(s.fetch.delivered, slot) <==> slot in P.FlushedSlots(fs) {
      InIngestedSlots(s.store.handled, slot);
    }
    if NoFlushFailed(fs) {
      forall slot: u64 ensures StoredBlock(flushes, slot).Some? <==> DeliveredWithBlock(s.fetch.delivered, slot) {
        StoredIffFlushedOk(fs, flushes, slot);
        InFlushedSlots(fs, slot);
      }
    } else {
      var f :| 0 <= f < |fs| && !fs[f].ok;
      var slot := FailedFlushLeavesHole(fs, flushes, f);
    }
  }

  lemma {:induction false} SameLength(fs: seq<P.Flush>, flushes: seq<seq<ParsedBlock>>)
    requires Realises(fs, flushes)
    ensures |fs| == |flushes|
  {
  }
}

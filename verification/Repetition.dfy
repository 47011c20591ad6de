/**
 Storing the same batch a second time (crates/storage/src/repository.rs, lines 141-167): it never
 changes the database, and it succeeds unless an element meets a key that a later element of the
 batch has left in another slot.
 */
module Repetition {
  import opened Numbers
  import opened Options
  import opened Storage
  import opened Tables

  /** Repeating a batch never changes the database, whether the repetition succeeds or fails. */
  lemma {:induction false} RepeatingChangesNothing(db: Database, batch: seq<SlotData>)
    ensures AfterBatch(AfterBatch(db, batch), batch) == AfterBatch(db, batch)
  {
    var db1 := AfterBatch(db, batch);
    if ReplaceBatch(db, batch).Some? && ReplaceBatch(db1, batch).Some? {
      var db2 := ReplaceBatch(db1, batch).value;
      forall s ensures View(db1, s) == View(db2, s) {
        BatchMeaning(db, batch, s);
        BatchMeaning(db1, batch, s);
      }
      SameDatabase(db1, db2);
    }
  }

  // ---------------- When the repetition succeeds ----------------

  /** Some row of one has the primary key of some row of the other. */
  ghost predicate SharesKey(a: SlotData, b: SlotData) {
    || (exists i, j :: 0 <= i < |a.TxRows()| && 0 <= j < |b.TxRows()| && a.TxRows()[i].0 == b.TxRows()[j].0)
    || (exists i, j :: 0 <= i < |a.LockRows()| && 0 <= j < |b.LockRows()| && a.LockRows()[i].0 == b.LockRows()[j].0)
    || (exists i, j :: 0 <= i < |a.TokenRows()| && 0 <= j < |b.TokenRows()| && a.TokenRows()[i].0 == b.TokenRows()[j].0)
  }

  /**
   Element `k` shares a key with what the batch leaves in another slot, and that slot comes up only
   later in the batch, so that the repetition has not replaced it yet when it reaches element `k`.
   */
  ghost predicate Overtaken(batch: seq<SlotData>, k: nat, slot: u64)
    requires k < |batch|
  {
    && slot != batch[k].slot && LastFor(batch[..k], slot).None?
    && LastFor(batch, slot).Some? && SharesKey(batch[k], LastFor(batch, slot).value)
  }

  /** Some row of `d` has the key of a row that the database holds for the slot. */
  ghost predicate Meets(v: SlotView, d: SlotData) {
    || (exists i :: 0 <= i < |d.TxRows()| && d.TxRows()[i].0 in v.transactions)
    || (exists i :: 0 <= i < |d.LockRows()| && d.LockRows()[i].0 in v.locks)
    || (exists i :: 0 <= i < |d.TokenRows()| && d.TokenRows()[i].0 in v.tokens)
  }

  lemma {:induction false} MeetsExpected(d: SlotData, e: SlotData)
    ensures Meets(Expected(e), d) <==> SharesKey(d, e)
  {
    AsMapKeys(e.TxRows());
    AsMapKeys(e.LockRows());
    AsMapKeys(e.TokenRows());
  }

  /** Keys are free when no other slot holds one of them. */
  lemma {:induction false} KeysFreeIff(db: Database, d: SlotData)
    ensures KeysFree(db, d) <==> DistinctKeysIn(d) && forall s: u64 :: s != d.slot ==> !Meets(View(db, s), d)
  {
    if KeysFree(db, d) {
      forall s: u64 | s != d.slot ensures !Meets(View(db, s), d) { FreeMeetsNothing(db, d, s); }
    }
    if DistinctKeysIn(d) && forall s: u64 :: s != d.slot ==> !Meets(View(db, s), d) {
      MeetsNothingFree(db, d);
    }
  }

  lemma {:induction false} FreeMeetsNothing(db: Database, d: SlotData, s: u64)
    requires KeysFree(db, d) && s != d.slot
    ensures !Meets(View(db, s), d)
  {
  }

  lemma {:induction false} MeetsNothingFree(db: Database, d: SlotData)
    requires DistinctKeysIn(d) && forall s: u64 :: s != d.slot ==> !Meets(View(db, s), d)
    ensures KeysFree(db, d)
  {
    forall k | 0 <= k < |d.TxRows()| && d.TxRows()[k].0 in db.transactions
      ensures db.transactions[d.TxRows()[k].0].slot == d.slot
    {
      var s := db.transactions[d.TxRows()[k].0].slot;
      assert d.TxRows()[k].0 in View(db, s).transactions;
    }
    forall k | 0 <= k < |d.LockRows()| && d.LockRows()[k].0 in db.locks
      ensures db.locks[d.LockRows()[k].0].slot == d.slot
    {
      var s := db.locks[d.LockRows()[k].0].slot;
      assert d.LockRows()[k].0 in View(db, s).locks;
    }
    forall k | 0 <= k < |d.TokenRows()| && d.TokenRows()[k].0 in db.tokens
      ensures db.tokens[d.TokenRows()[k].0].slot == d.slot
    {
      var s := db.tokens[d.TokenRows()[k].0].slot;
      assert d.TokenRows()[k].0 in View(db, s).tokens;
    }
  }

  /** What element `k` finds in another slot the second time, compared with the first time. */
  lemma {:induction false} SecondTime(db: Database, batch: seq<SlotData>, k: nat, s: u64)
    requires ReplaceBatch(db, batch).Some? && k < |batch| && s != batch[k].slot
    requires ReplaceBatch(db, batch[..k]).Some? && ReplaceBatch(ReplaceBatch(db, batch).value, batch[..k]).Some?
    requires !Meets(View(ReplaceBatch(db, batch[..k]).value, s), batch[k])
    ensures Meets(View(ReplaceBatch(ReplaceBatch(db, batch).value, batch[..k]).value, s), batch[k]) <==> Overtaken(batch, k, s)
  {
    hide ReplaceBatch, LastFor, View, Expected, SharesKey, Meets;
    BatchMeaning(db, batch, s);
    BatchMeaning(db, batch[..k], s);
    BatchMeaning(ReplaceBatch(db, batch).value, batch[..k], s);
    if LastFor(batch, s).Some? { MeetsExpected(batch[k], LastFor(batch, s).value); }
  }

  lemma {:induction false} RepeatStep(db: Database, batch: seq<SlotData>, k: nat)
    requires ReplaceBatch(db, batch).Some? && k < |batch|
    requires ReplaceBatch(ReplaceBatch(db, batch).value, batch[..k]).Some?
    ensures ReplaceBatch(ReplaceBatch(db, batch).value, batch[..k + 1]).Some? <==>
      forall s: u64 :: !Overtaken(batch, k, s)
  {
    hide ReplaceBatch, KeysFree, View, Meets, SharesKey, Overtaken, ReplaceSlot, DistinctKeysIn, InColumns;
    PrefixSucceeds(db, batch, k);
    PrefixSucceeds(db, batch, k + 1);
    var first, second := ReplaceBatch(db, batch[..k]).value, ReplaceBatch(ReplaceBatch(db, batch).value, batch[..k]).value;
    BatchStep(db, batch, k);
    BatchStep(ReplaceBatch(db, batch).value, batch, k);
    ReplaceSlotSucceedsIff(first, batch[k]);
    ReplaceSlotSucceedsIff(second, batch[k]);
    KeysFreeIff(first, batch[k]);
    KeysFreeIff(second, batch[k]);
    forall s: u64 | s != batch[k].slot ensures Meets(View(second, s), batch[k]) <==> Overtaken(batch, k, s) {
      SecondTime(db, batch, k, s);
    }
    forall s: u64 | s == batch[k].slot ensures !Overtaken(batch, k, s) { NotByItself(batch, k); }
  }

  lemma {:induction false} NotByItself(batch: seq<SlotData>, k: nat)
    requires k < |batch|
    ensures !Overtaken(batch, k, batch[k].slot)
  {
  }

  ghost predicate NothingOvertaken(batch: seq<SlotData>, n: nat)
    requires n <= |batch|
  {
    forall k: nat, s: u64 :: k < n ==> !Overtaken(batch, k, s)
  }

  lemma {:induction false} OneMoreOvertaken(batch: seq<SlotData>, n: nat)
    requires n < |batch|
    ensures NothingOvertaken(batch, n + 1) <==> NothingOvertaken(batch, n) && forall s: u64 :: !Overtaken(batch, n, s)
  {
    hide Overtaken;
  }

  lemma {:induction false} RepeatPrefix(db: Database, batch: seq<SlotData>, n: nat)
    requires ReplaceBatch(db, batch).Some? && n <= |batch|
    ensures ReplaceBatch(ReplaceBatch(db, batch).value, batch[..n]).Some? <==> NothingOvertaken(batch, n)
  {
    hide ReplaceSlot, NothingOvertaken, Overtaken;
    var db1 := ReplaceBatch(db, batch).value;
    if n == 0 {
      assert NothingOvertaken(batch, 0) by { NothingYet(batch); }
    } else {
      RepeatPrefix(db, batch, n - 1);
      OneMoreOvertaken(batch, n - 1);
      assert batch[..n][..n - 1] == batch[..n - 1];
      if ReplaceBatch(db1, batch[..n - 1]).Some? { RepeatStep(db, batch, n - 1); }
    }
  }

  lemma {:induction false} NothingYet(batch: seq<SlotData>)
    ensures NothingOvertaken(batch, 0)
  {
  }

  /**
   A committed batch can be repeated successfully exactly when none of its elements shares a
   transaction, lock or token key with what the batch leaves in a slot that comes up only later.
   */
  lemma {:induction false} RepeatSucceedsIff(db: Database, batch: seq<SlotData>)
    requires ReplaceBatch(db, batch).Some?
    ensures ReplaceBatch(ReplaceBatch(db, batch).value, batch).Some? <==> NothingOvertaken(batch, |batch|)
  {
    hide NothingOvertaken, ReplaceBatch;
    RepeatPrefix(db, batch, |batch|);
    assert batch[..|batch|] == batch;
  }

  // ---------------- Two sides of the condition ----------------

  ghost predicate DistinctSlots(batch: seq<SlotData>) {
    forall k, l :: 0 <= k < l < |batch| ==> batch[k].slot != batch[l].slot
  }

  lemma {:induction false} SharesKeySymmetric(a: SlotData, b: SlotData)
    ensures SharesKey(a, b) ==> SharesKey(b, a)
  {
    var tx, tx', lk, lk', tk, tk' := a.TxRows(), b.TxRows(), a.LockRows(), b.LockRows(), a.TokenRows(), b.TokenRows();
    if i, j :| 0 <= i < |tx| && 0 <= j < |tx'| && tx[i].0 == tx'[j].0 {
      assert tx'[j].0 == tx[i].0;
    } else if i, j :| 0 <= i < |lk| && 0 <= j < |lk'| && lk[i].0 == lk'[j].0 {
      assert lk'[j].0 == lk[i].0;
    } else if i, j :| 0 <= i < |tk| && 0 <= j < |tk'| && tk[i].0 == tk'[j].0 {
      assert tk'[j].0 == tk[i].0;
    }
  }

  /** The last element for a slot stands at some index, with none for the slot behind it. */
  lemma {:induction false} IndexOfLast(batch: seq<SlotData>, slot: u64) returns (l: nat)
    requires LastFor(batch, slot).Some?
    ensures l < |batch| && batch[l] == LastFor(batch, slot).value && batch[l].slot == slot
  {
    l := |batch| - 1;
    if batch[l].slot != slot { l := IndexOfLast(batch[..l], slot); }
  }

  lemma {:induction false} MentionedBefore(batch: seq<SlotData>, l: nat, k: nat)
    requires l < k <= |batch|
    ensures LastFor(batch[..k], batch[l].slot).Some?
    decreases k
  {
    assert batch[..k][..k - 1] == batch[..k - 1];
    if l < k - 1 { MentionedBefore(batch, l, k - 1); }
  }

  lemma {:induction false} OnlyOne(batch: seq<SlotData>, k: nat, l: nat)
    requires DistinctSlots(batch) && k < l <= |batch|
    ensures LastFor(batch[..l], batch[k].slot) == Some(batch[k])
    decreases l
  {
    assert batch[..l][..l - 1] == batch[..l - 1];
    if k < l - 1 { OnlyOne(batch, k, l - 1); }
  }

  /** Elements of a committed batch with distinct slots share no key. */
  lemma {:induction false} NoSharedKey(db: Database, batch: seq<SlotData>, k: nat, l: nat)
    requires DistinctSlots(batch) && ReplaceBatch(db, batch).Some? && k < l < |batch|
    ensures !SharesKey(batch[k], batch[l])
  {
    hide ReplaceBatch, SharesKey, KeysFree, View, Meets, DistinctKeysIn;
    PrefixSucceeds(db, batch, l);
    PrefixSucceeds(db, batch, l + 1);
    BatchStep(db, batch, l);
    OnlyOne(batch, k, l);
    BatchMeaning(db, batch[..l], batch[k].slot);
    ReplaceSlotSucceedsIff(ReplaceBatch(db, batch[..l]).value, batch[l]);
    KeysFreeIff(ReplaceBatch(db, batch[..l]).value, batch[l]);
    MeetsExpected(batch[l], batch[k]);
    SharesKeySymmetric(batch[k], batch[l]);
  }

  /** With distinct slots nothing is overtaken, so a committed batch can be repeated successfully. */
  lemma {:induction false} RepeatSucceeds(db: Database, batch: seq<SlotData>)
    requires DistinctSlots(batch) && ReplaceBatch(db, batch).Some?
    ensures ReplaceBatch(ReplaceBatch(db, batch).value, batch) == ReplaceBatch(db, batch)
  {
    hide ReplaceBatch, SharesKey;
    forall k: nat, s: u64 | k < |batch| ensures !Overtaken(batch, k, s) {
      if Overtaken(batch, k, s) {
        var l := IndexOfLast(batch, s);
        if l < k { MentionedBefore(batch, l, k); } else { NoSharedKey(db, batch, k, l); }
      }
    }
    RepeatSucceedsIff(db, batch);
    RepeatingChangesNothing(db, batch);
  }

  /** One moved signature is enough for the repetition to fail. */
  lemma {:induction false} RepeatFailsWhenSignatureMoved(db: Database, batch: seq<SlotData>, k: nat, s: u64, i: nat, j: nat)
    requires ReplaceBatch(db, batch).Some? && k < |batch|
    requires s != batch[k].slot && LastFor(batch[..k], s).None? && LastFor(batch, s).Some?
    requires i < |batch[k].transactions| && j < |LastFor(batch, s).value.transactions|
    requires batch[k].transactions[i].signature == LastFor(batch, s).value.transactions[j].signature
    ensures ReplaceBatch(ReplaceBatch(db, batch).value, batch).None?
  {
    hide ReplaceBatch;
    assert batch[k].TxRows()[i].0 == LastFor(batch, s).value.TxRows()[j].0;
    assert Overtaken(batch, k, s);
    RepeatSucceedsIff(db, batch);
  }

  /** A slot that holds nothing but one transaction, or nothing at all. */
  function Lone(slot: u64, signature: string): SlotData {
    SlotData(slot, None, [TransactionRow(signature, false, [], None)], [], [])
  }

  function Bare(slot: u64): SlotData { SlotData(slot, None, [], [], []) }

  /** The transaction moves from slot 1, which is emptied, to slot 2. */
  function Moving(signature: string): seq<SlotData> { [Lone(1, signature), Bare(1), Lone(2, signature)] }

  lemma {:induction false} StoreLone(db: Database, slot: u64, signature: string)
    requires signature !in db.transactions
    ensures ReplaceSlot(db, Lone(slot, signature)).Some?
  {
    ReplaceSlotSucceedsIff(db, Lone(slot, signature));
  }

  lemma {:induction false} StoreBare(db: Database, signature: string)
    requires signature in db.transactions ==> db.transactions[signature].slot == 1
    ensures ReplaceSlot(db, Bare(1)).Some? && signature !in ReplaceSlot(db, Bare(1)).value.transactions
  {
    ReplaceSlotSucceedsIff(db, Bare(1));
    assert Bare(1).TxRows() == [];
  }

  lemma {:induction false} LoneIsWhere(db: Database, slot: u64, signature: string)
    requires signature !in db.transactions && ReplaceSlot(db, Lone(slot, signature)).Some?
    ensures var t := ReplaceSlot(db, Lone(slot, signature)).value.transactions;
      signature in t && t[signature].slot == slot
  {
    ReplaceMeaning(db.transactions, slot, Lone(slot, signature).TxRows());
    var t := Replace(db.transactions, slot, Lone(slot, signature).TxRows()).value;
    AsMapKeys(Lone(slot, signature).TxRows());
    assert Lone(slot, signature).TxRows()[0].0 == signature;
    assert signature in SlotRows(t, slot);
  }

  /** A batch that is committed on every database without its signature, and that cannot be repeated. */
  lemma {:induction false} MovingCannotBeRepeated(db: Database, signature: string)
    requires signature !in db.transactions
    ensures ReplaceBatch(db, Moving(signature)).Some?
    ensures ReplaceBatch(ReplaceBatch(db, Moving(signature)).value, Moving(signature)).None?
  {
    var batch := Moving(signature);
    assert batch[..0] == [] && batch[..3] == batch && ReplaceBatch(db, batch[..0]) == Some(db);
    MovingCommits(db, signature);
    RepeatFailsWhenSignatureMoved(db, batch, 0, 2, 0, 0);
  }

  lemma {:induction false} MovingCommits(db: Database, signature: string)
    requires signature !in db.transactions
    ensures ReplaceBatch(db, Moving(signature)).Some?
  {
    hide ReplaceSlot;
    var batch := Moving(signature);
    var a, b, c := Lone(1, signature), Bare(1), Lone(2, signature);
    StoreLone(db, 1, signature);
    LoneIsWhere(db, 1, signature);
    var db1 := ReplaceSlot(db, a).value;
    StoreBare(db1, signature);
    var db2 := ReplaceSlot(db1, b).value;
    StoreLone(db2, 2, signature);
    assert batch[..2] == [a, b] && [a, b][..1] == [a] && [a][..0] == [];
    assert ReplaceBatch(db, [a]) == Some(db1);
    assert ReplaceBatch(db, [a, b]) == Some(db2);
  }

  /** The same at the empty database, with slots 1, 1 and 2 and one transaction. */
  lemma {:induction false} RepetitionCanFail()
    ensures ReplaceBatch(EMPTY, Moving("x")).Some?
    ensures ReplaceBatch(ReplaceBatch(EMPTY, Moving("x")).value, Moving("x")).None?
  {
    MovingCannotBeRepeated(EMPTY, "x");
  }
}

/**
 The reported conflict events (crates/contention/src/lib.rs): which lock each event stands for, and
 how many events a block reports for an account, compared with the locks the block takes on it.
 */
module ConflictEvents {
  import opened Contention
  import opened Sequences

  /** All locks of the first `n` transactions, in the order the scheduler visits them. */
  ghost function AllLocks(txs: seq<TxLocks>, n: nat): seq<AccountLock>
    requires n <= |txs|
  {
    if n == 0 then [] else AllLocks(txs, n - 1) + txs[n - 1].locks
  }

  /** The first lock that names the account is a write. */
  ghost predicate FirstLockIsWrite(locks: seq<AccountLock>, account: string) {
    exists k :: 0 <= k < |locks| && locks[k] == AccountLock(account, true)
      && forall j :: 0 <= j < k ==> locks[j].account != account
  }

  ghost predicate Mentions(locks: seq<AccountLock>, account: string) {
    exists p :: p in locks && p.account == account
  }

  ghost function EventCount(events: seq<ConflictEvent>, account: string): nat {
    if events == [] then 0
    else EventCount(events[..|events| - 1], account) + if events[|events| - 1].account == account then 1 else 0
  }

  ghost function WriteLockCount(locks: seq<AccountLock>, account: string): nat {
    multiset(locks)[AccountLock(account, true)]
  }

  lemma {:induction false} EventCountAppend(xs: seq<ConflictEvent>, ys: seq<ConflictEvent>, account: string)
    ensures EventCount(xs + ys, account) == EventCount(xs, account) + EventCount(ys, account)
  {
    if ys == [] {
      assert xs + ys == xs;
    } else {
      var init := ys[..|ys| - 1];
      assert (xs + ys)[..|xs + ys| - 1] == xs + init;
      EventCountAppend(xs, init, account);
    }
  }

  lemma {:induction false} InAllLocks(txs: seq<TxLocks>, n: nat, p: AccountLock)
    requires n <= |txs|
    ensures p in AllLocks(txs, n) <==> exists j :: 0 <= j < n && p in txs[j].locks
  {
    if n > 0 { InAllLocks(txs, n - 1, p); }
  }

  lemma {:induction false} TouchedMeansMentioned(txs: seq<TxLocks>, i: nat, k: nat, account: string)
    requires i < |txs| && k <= |txs[i].locks|
    ensures Touched(txs, i, k, account) <==> Mentions(AllLocks(txs, i) + txs[i].locks[..k], account)
  {
    forall p ensures p in AllLocks(txs, i) <==> exists j :: 0 <= j < i && p in txs[j].locks {
      InAllLocks(txs, i, p);
    }
  }

  /** How one more lock changes whether the first lock on the account is a write. */
  lemma {:induction false} OneMoreLock(locks: seq<AccountLock>, p: AccountLock, account: string)
    ensures FirstLockIsWrite(locks + [p], account) <==>
      FirstLockIsWrite(locks, account) || (!Mentions(locks, account) && p == AccountLock(account, true))
  {
    var more := locks + [p];
    assert forall j :: 0 <= j < |locks| ==> locks[j] == more[j];
    if FirstLockIsWrite(locks, account) {
      var k :| 0 <= k < |locks| && locks[k] == AccountLock(account, true)
        && forall j :: 0 <= j < k ==> locks[j].account != account;
      assert more[k] == locks[k];
    } else if !Mentions(locks, account) && p == AccountLock(account, true) {
      assert more[|locks|] == p;
      assert forall j :: 0 <= j < |locks| ==> locks[j] in locks;
    }
    if FirstLockIsWrite(more, account) && !FirstLockIsWrite(locks, account) {
      var k :| 0 <= k < |more| && more[k] == AccountLock(account, true)
        && forall j :: 0 <= j < k ==> more[j].account != account;
      assert k == |locks|;
      forall q | q in locks ensures q.account != account {
        var j :| 0 <= j < |locks| && locks[j] == q;
        assert more[j] == q;
      }
    }
  }

  /** The invariant of the event list: events plus an initial write account for every write lock. */
  ghost predicate Accounted(events: seq<ConflictEvent>, locks: seq<AccountLock>, account: string) {
    EventCount(events, account) + (if FirstLockIsWrite(locks, account) then 1 else 0)
      == WriteLockCount(locks, account)
  }

  lemma {:induction false} TxAccounted(txs: seq<TxLocks>, steps: seq<nat>, i: nat, k: nat, account: string)
    requires i < |txs| && i < |steps| && k <= |txs[i].locks|
    requires Accounted(BlockEvents(txs, steps, i), AllLocks(txs, i), account)
    ensures Accounted(BlockEvents(txs, steps, i) + TxEvents(txs, steps, i, k),
                      AllLocks(txs, i) + txs[i].locks[..k], account)
  {
    hide Accounted, Touched, Mentions, BlockEvents, AllLocks;
    var events, locks := BlockEvents(txs, steps, i), AllLocks(txs, i);
    if k == 0 {
      assert events + TxEvents(txs, steps, i, 0) == events && locks + txs[i].locks[..0] == locks;
    } else {
      TxAccounted(txs, steps, i, k - 1, account);
      var p := txs[i].locks[k - 1];
      var before := locks + txs[i].locks[..k - 1];
      assert locks + txs[i].locks[..k] == before + [p];
      TouchedMeansMentioned(txs, i, k - 1, p.account);
      var eventsBefore := events + TxEvents(txs, steps, i, k - 1);
      var e := ConflictEvent(p.account, txs[i].signature, txs[i].programIds, steps[i], true);
      LockAccounted(eventsBefore, e, before, p, account);
      if p.isWritable && Touched(txs, i, k - 1, p.account) {
        assert events + TxEvents(txs, steps, i, k) == eventsBefore + [e];
      } else {
        assert events + TxEvents(txs, steps, i, k) == eventsBefore;
      }
    }
  }

  /** One more lock, with an event when it is a write on an account locked before. */
  lemma {:induction false} LockAccounted(
      events: seq<ConflictEvent>, e: ConflictEvent, locks: seq<AccountLock>, p: AccountLock, account: string)
    requires Accounted(events, locks, account) && e.account == p.account
    ensures Accounted(if p.isWritable && Mentions(locks, p.account) then events + [e] else events, locks + [p], account)
  {
    hide FirstLockIsWrite, Mentions;
    OneMoreLock(locks, p, account);
    EventCountAppend(events, [e], account);
    assert EventCount([e][..0], account) == 0;
    FirstLockMentions(locks, account);
  }

  lemma {:induction false} FirstLockMentions(locks: seq<AccountLock>, account: string)
    ensures FirstLockIsWrite(locks, account) ==> Mentions(locks, account)
  {
    if FirstLockIsWrite(locks, account) {
      var k :| 0 <= k < |locks| && locks[k] == AccountLock(account, true);
      assert locks[k] in locks;
    }
  }

  /**
   For every block, also one whose transactions lock an account twice: the events reported for an
   account are its write locks, less one when the very first lock on the account is a write.
   */
  lemma {:induction false} EventsCountWriteLocks(txs: seq<TxLocks>, steps: seq<nat>, n: nat, account: string)
    requires n <= |txs| && n <= |steps|
    ensures Accounted(BlockEvents(txs, steps, n), AllLocks(txs, n), account)
  {
    hide Accounted, TxEvents;
    if n == 0 {
      NothingAccounted(account);
    } else {
      EventsCountWriteLocks(txs, steps, n - 1, account);
      TxAccounted(txs, steps, n - 1, |txs[n - 1].locks|, account);
      var locks := txs[n - 1].locks;
      assert locks[..|locks|] == locks;
    }
  }

  lemma {:induction false} NothingAccounted(account: string)
    ensures Accounted([], [], account)
  {
  }

  ghost predicate DistinctAccounts(tx: TxLocks) {
    forall k, l :: 0 <= k < l < |tx.locks| ==> tx.locks[k].account != tx.locks[l].account
  }

  /**
   When no transaction locks an account twice, the write lock `txs[i].locks[k]` is reported exactly
   when an earlier transaction locked that account, and it is then reported exactly once.
   */
  lemma {:induction false} EventIffEarlierTransaction(txs: seq<TxLocks>, steps: seq<nat>, i: nat, k: nat)
    requires i < |txs| && i < |steps| && k < |txs[i].locks|
    requires DistinctAccounts(txs[i]) && txs[i].locks[k].isWritable
    ensures var account := txs[i].locks[k].account;
      EventCount(TxEvents(txs, steps, i, |txs[i].locks|), account)
        == if exists j, p :: 0 <= j < i && p in txs[j].locks && p.account == account then 1 else 0
  {
    var account := txs[i].locks[k].account;
    CountAt(txs, steps, i, k, |txs[i].locks|);
    forall p | p in txs[i].locks[..k] ensures p.account != account {
      var l :| 0 <= l < k && txs[i].locks[l] == p;
    }
  }

  lemma {:induction false} CountAt(txs: seq<TxLocks>, steps: seq<nat>, i: nat, k: nat, m: nat)
    requires i < |txs| && i < |steps| && k < |txs[i].locks| && m <= |txs[i].locks|
    requires DistinctAccounts(txs[i]) && txs[i].locks[k].isWritable
    ensures var account := txs[i].locks[k].account;
      EventCount(TxEvents(txs, steps, i, m), account) == if k < m && Touched(txs, i, k, account) then 1 else 0
  {
    hide Touched;
    if m > 0 {
      CountAt(txs, steps, i, k, m - 1);
      var before, after := TxEvents(txs, steps, i, m - 1), TxEvents(txs, steps, i, m);
      if after != before {
        assert after[..|after| - 1] == before;
      }
    }
  }

  // ---------------- What each event reports ----------------

  /** The account of lock `k` of transaction `i` was locked earlier in the block. */
  ghost predicate LockedBefore(txs: seq<TxLocks>, i: nat, k: nat)
    requires i < |txs| && k < |txs[i].locks|
  {
    exists j: nat, l: nat :: Before((j, l), (i, k)) && l < |txs[j].locks|
      && txs[j].locks[l].account == txs[i].locks[k].account
  }

  /** The event reports lock `k` of transaction `i`: a write on an account locked before. */
  ghost predicate Reports(e: ConflictEvent, txs: seq<TxLocks>, steps: seq<nat>, i: nat, k: nat)
    requires i < |txs| && i < |steps| && k < |txs[i].locks|
  {
    && txs[i].locks[k] == AccountLock(e.account, true)
    && LockedBefore(txs, i, k)
    && e.txSignature == txs[i].signature
    && e.programIds == txs[i].programIds
    && e.step == steps[i]
    && e.causedByWrite
  }

  ghost predicate IsPosition(txs: seq<TxLocks>, p: (nat, nat)) {
    p.0 < |txs| && p.1 < |txs[p.0].locks|
  }

  ghost predicate IsConflict(txs: seq<TxLocks>, p: (nat, nat)) {
    IsPosition(txs, p) && txs[p.0].locks[p.1].isWritable && LockedBefore(txs, p.0, p.1)
  }

  /** Event `m` reports the lock at `pos[m]`, in block order, and every such lock before `end` is reported. */
  ghost predicate EventsAt(
      txs: seq<TxLocks>, steps: seq<nat>, events: seq<ConflictEvent>, pos: seq<(nat, nat)>, end: (nat, nat))
    requires |txs| <= |steps|
  {
    && |pos| == |events|
    && InOrder(pos)
    && (forall m :: 0 <= m < |pos| ==>
          Before(pos[m], end) && IsPosition(txs, pos[m]) && Reports(events[m], txs, steps, pos[m].0, pos[m].1))
    && (forall p: (nat, nat) :: Before(p, end) && IsConflict(txs, p) ==> p in pos)
  }

  lemma {:induction false} TouchedIsLockedBefore(txs: seq<TxLocks>, i: nat, k: nat)
    requires i < |txs| && k < |txs[i].locks|
    ensures Touched(txs, i, k, txs[i].locks[k].account) <==> LockedBefore(txs, i, k)
  {
    var account := txs[i].locks[k].account;
    if Touched(txs, i, k, account) {
      if j: nat, p :| j < i && p in txs[j].locks && p.account == account {
        var l: nat :| l < |txs[j].locks| && txs[j].locks[l] == p;
        assert Before((j, l), (i, k));
      } else {
        var p :| p in txs[i].locks[..k] && p.account == account;
        var l: nat :| l < k && txs[i].locks[..k][l] == p;
        assert Before((i, l), (i, k));
      }
    }
    if LockedBefore(txs, i, k) {
      var j: nat, l: nat :| Before((j, l), (i, k)) && l < |txs[j].locks| && txs[j].locks[l].account == account;
      if j == i {
        assert txs[i].locks[..k][l] in txs[i].locks[..k];
      } else {
        assert txs[j].locks[l] in txs[j].locks;
      }
    }
  }

  /** The events of the first `i` transactions and the first `k` locks of the next one. */
  ghost function EventsUpTo(txs: seq<TxLocks>, steps: seq<nat>, i: nat, k: nat): seq<ConflictEvent>
    requires i <= |txs| <= |steps| && (k == 0 || (i < |txs| && k <= |txs[i].locks|))
  {
    BlockEvents(txs, steps, i) + if k == 0 then [] else TxEvents(txs, steps, i, k)
  }

  /** One more lock, with its event when it is a write on an account locked before. */
  lemma {:induction false} OneMorePosition(
      txs: seq<TxLocks>, steps: seq<nat>, events: seq<ConflictEvent>, pos: seq<(nat, nat)>, i: nat, k: nat)
    requires i < |txs| <= |steps| && k < |txs[i].locks|
    requires EventsAt(txs, steps, events, pos, (i, k))
    ensures !IsConflict(txs, (i, k)) ==> EventsAt(txs, steps, events, pos, (i, k + 1))
    ensures IsConflict(txs, (i, k)) ==>
      var e := ConflictEvent(txs[i].locks[k].account, txs[i].signature, txs[i].programIds, steps[i], true);
      EventsAt(txs, steps, events + [e], pos + [(i, k)], (i, k + 1))
  {
    hide LockedBefore;
    if IsConflict(txs, (i, k)) {
      assert forall p :: p in pos ==> p in pos + [(i, k)];
      assert (i, k) in pos + [(i, k)];
      var e := ConflictEvent(txs[i].locks[k].account, txs[i].signature, txs[i].programIds, steps[i], true);
      assert Reports(e, txs, steps, i, k);
    }
  }

  lemma {:induction false} EventsStep(txs: seq<TxLocks>, steps: seq<nat>, i: nat, k: nat)
    requires i < |txs| <= |steps| && k < |txs[i].locks|
    ensures EventsUpTo(txs, steps, i, k + 1) == EventsUpTo(txs, steps, i, k)
      + if IsConflict(txs, (i, k))
        then [ConflictEvent(txs[i].locks[k].account, txs[i].signature, txs[i].programIds, steps[i], true)] else []
  {
    hide Touched, LockedBefore, BlockEvents;
    TouchedIsLockedBefore(txs, i, k);
    assert TxEvents(txs, steps, i, 0) == [];
  }

  lemma {:induction false} EventPositions(txs: seq<TxLocks>, steps: seq<nat>, i: nat, k: nat)
    returns (pos: seq<(nat, nat)>)
    requires i <= |txs| <= |steps| && (k == 0 || (i < |txs| && k <= |txs[i].locks|))
    ensures EventsAt(txs, steps, EventsUpTo(txs, steps, i, k), pos, (i, k))
    decreases i, k
  {
    hide EventsAt, IsConflict, EventsUpTo;
    if k > 0 {
      pos := EventPositions(txs, steps, i, k - 1);
      EventsStep(txs, steps, i, k - 1);
      OneMorePosition(txs, steps, EventsUpTo(txs, steps, i, k - 1), pos, i, k - 1);
      if IsConflict(txs, (i, k - 1)) {
        pos := pos + [(i, k - 1)];
      } else {
        assert EventsUpTo(txs, steps, i, k) == EventsUpTo(txs, steps, i, k - 1);
      }
    } else if i > 0 {
      pos := EventPositions(txs, steps, i - 1, |txs[i - 1].locks|);
      NextTx(txs, steps, pos, i);
    } else {
      pos := [];
      NoEvents(txs, steps);
    }
  }

  lemma {:induction false} NoEvents(txs: seq<TxLocks>, steps: seq<nat>)
    requires |txs| <= |steps|
    ensures EventsAt(txs, steps, EventsUpTo(txs, steps, 0, 0), [], (0, 0))
  {
  }

  lemma {:induction false} NextTx(txs: seq<TxLocks>, steps: seq<nat>, pos: seq<(nat, nat)>, i: nat)
    requires 0 < i <= |txs| <= |steps|
    requires EventsAt(txs, steps, EventsUpTo(txs, steps, i - 1, |txs[i - 1].locks|), pos, (i - 1, |txs[i - 1].locks|))
    ensures EventsAt(txs, steps, EventsUpTo(txs, steps, i, 0), pos, (i, 0))
  {
    hide LockedBefore, Reports;
    assert EventsUpTo(txs, steps, i, 0) == EventsUpTo(txs, steps, i - 1, |txs[i - 1].locks|);
  }

  /**
   The events of a scheduled block are its write locks on accounts locked before, in block order and
   each reported once, with the signature, the programs and the step of the locking transaction.
   */
  lemma {:induction false} ConflictsAreWriteLocks(txs: seq<TxLocks>, r: ScheduleResult)
    returns (pos: seq<(nat, nat)>)
    requires IsScheduleOf(txs, r)
    ensures EventsAt(txs, r.steps, r.conflicts, pos, (|txs|, 0))
  {
    pos := EventPositions(txs, r.steps, |txs|, 0);
    assert r.conflicts == EventsUpTo(txs, r.steps, |txs|, 0);
  }
}

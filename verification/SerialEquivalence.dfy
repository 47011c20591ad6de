/**
 What a schedule is worth: executing a block step by step, in any order inside a step, leaves the
 same account store as executing it in block order.  Accounts hold values of an arbitrary type and
 an account may be absent, so the statement covers creation and closing of accounts.
 */
module SerialEquivalence {
  import opened Options
  import opened Contention

  type Store<V> = map<string, V>

  /** The effect of a transaction on the account store. */
  type Effect<!V> = Store<V> -> Store<V>

  ghost function At<V>(s: Store<V>, account: string): Option<V> {
    if account in s then Some(s[account]) else None
  }

  ghost predicate Holds(tx: TxLocks, account: string) {
    AccountLock(account, true) in tx.locks || AccountLock(account, false) in tx.locks
  }

  ghost predicate AgreeOnLocked<V(!new)>(tx: TxLocks, s: Store<V>, t: Store<V>) {
    forall a :: Holds(tx, a) ==> At(s, a) == At(t, a)
  }

  ghost predicate KeepsUnlocked<V(!new)>(tx: TxLocks, f: Effect<V>, s: Store<V>) {
    forall a :: AccountLock(a, true) !in tx.locks ==> At(f(s), a) == At(s, a)
  }

  ghost predicate ReadsLockedOnly<V(!new)>(tx: TxLocks, f: Effect<V>, s: Store<V>, t: Store<V>) {
    AgreeOnLocked(tx, s, t) ==> forall a :: AccountLock(a, true) in tx.locks ==> At(f(s), a) == At(f(t), a)
  }

  /** A transaction writes only accounts it write-locks, and what it writes depends only on accounts it locks. */
  ghost predicate Confined<V(!new)>(tx: TxLocks, f: Effect<V>) {
    && (forall s :: KeepsUnlocked(tx, f, s))
    && (forall s, t :: ReadsLockedOnly(tx, f, s, t))
  }

  ghost predicate AllConfined<V(!new)>(txs: seq<TxLocks>, effects: seq<Effect<V>>) {
    |effects| == |txs| && forall i :: 0 <= i < |txs| ==> Confined(txs[i], effects[i])
  }

  ghost predicate InRange(order: seq<nat>, n: nat) {
    forall k :: 0 <= k < |order| ==> order[k] < n
  }

  /** Execute the transactions named by `order`, one after the other. */
  ghost function Run<V>(effects: seq<Effect<V>>, order: seq<nat>, s: Store<V>): Store<V>
    requires InRange(order, |effects|)
    decreases |order|
  {
    if order == [] then s
    else effects[order[|order| - 1]](Run(effects, order[..|order| - 1], s))
  }

  ghost function BlockOrder(n: nat): (r: seq<nat>)
    ensures |r| == n && forall k :: 0 <= k < n ==> r[k] == k
  {
    seq(n, k => k)
  }

  /** Every transaction of the block exactly once. */
  ghost predicate IsPermutation(order: seq<nat>, n: nat) {
    && |order| == n
    && InRange(order, n)
    && (forall k, l :: 0 <= k < l < n ==> order[k] != order[l])
  }

  /** The order runs the steps of the schedule one after the other; inside a step it is arbitrary. */
  ghost predicate StepByStep(order: seq<nat>, steps: seq<nat>) {
    && IsPermutation(order, |steps|)
    && forall k, l :: 0 <= k < l < |order| ==> steps[order[k]] <= steps[order[l]]
  }

  /** The order keeps each pair of conflicting transactions in block order. */
  ghost predicate KeepsConflicts(txs: seq<TxLocks>, order: seq<nat>) {
    && IsPermutation(order, |txs|)
    && forall k, l :: 0 <= k < l < |order| && Conflict(txs[order[k]], txs[order[l]]) ==> order[k] < order[l]
  }

  lemma {:induction false} ConflictSymmetric(x: TxLocks, y: TxLocks)
    ensures Conflict(x, y) <==> Conflict(y, x)
  {
    if Conflict(x, y) {
      var p, q :| p in x.locks && q in y.locks && Clash(p, q);
      assert Clash(q, p);
    }
    if Conflict(y, x) {
      var p, q :| p in y.locks && q in x.locks && Clash(p, q);
      assert Clash(q, p);
    }
  }

  /** Two confined transactions that do not conflict commute. */
  lemma {:induction false} Commute<V(!new)>(x: TxLocks, f: Effect<V>, y: TxLocks, g: Effect<V>, s: Store<V>)
    requires Confined(x, f) && Confined(y, g) && !Conflict(x, y)
    ensures f(g(s)) == g(f(s))
  {
    assert KeepsUnlocked(x, f, s) && KeepsUnlocked(x, f, g(s)) && ReadsLockedOnly(x, f, s, g(s));
    assert KeepsUnlocked(y, g, s) && KeepsUnlocked(y, g, f(s)) && ReadsLockedOnly(y, g, s, f(s));
    assert AgreeOnLocked(x, s, g(s)) by {
      forall a | Holds(x, a) ensures At(s, a) == At(g(s), a) { NotBoth(x, y, a); }
    }
    assert AgreeOnLocked(y, s, f(s)) by {
      ConflictSymmetric(x, y);
      forall a | Holds(y, a) ensures At(s, a) == At(f(s), a) { NotBoth(y, x, a); }
    }
    forall a ensures At(f(g(s)), a) == At(g(f(s)), a) {
      if AccountLock(a, true) in x.locks {
        assert Holds(x, a);
        NotBoth(x, y, a);
      }
    }
    SameStore(f(g(s)), g(f(s)));
  }

  /** An effect that overwrites one account with a constant. */
  ghost function Overwrite(a: string, value: int): Effect<int> { (s: Store<int>) => s[a := value] }

  /** An effect that notes in account `b` whether account `a` holds 1. */
  ghost function Note(a: string, b: string): Effect<int> {
    (s: Store<int>) => s[b := if a in s && s[a] == 1 then 1 else 0]
  }

  lemma {:induction false} AgreeOnWritten<V(!new)>(tx: TxLocks, s: Store<V>, t: Store<V>)
    ensures AgreeOnLocked(tx, s, t) ==> forall a :: AccountLock(a, true) in tx.locks ==> At(s, a) == At(t, a)
  {
    forall a | AgreeOnLocked(tx, s, t) && AccountLock(a, true) in tx.locks ensures At(s, a) == At(t, a) {
      assert Holds(tx, a);
    }
  }

  lemma {:induction false} OverwriteIsConfined(tx: TxLocks, a: string, value: int)
    requires AccountLock(a, true) in tx.locks
    ensures Confined(tx, Overwrite(a, value))
  {
    var f := Overwrite(a, value);
    forall s ensures KeepsUnlocked(tx, f, s) { assert f(s) == s[a := value]; }
    forall s, t ensures ReadsLockedOnly(tx, f, s, t) {
      assert f(s) == s[a := value] && f(t) == t[a := value];
      AgreeOnWritten(tx, s, t);
    }
  }

  lemma {:induction false} NoteIsConfined(tx: TxLocks, a: string, b: string)
    requires Holds(tx, a) && AccountLock(b, true) in tx.locks
    ensures Confined(tx, Note(a, b))
  {
    var f := Note(a, b);
    forall s ensures KeepsUnlocked(tx, f, s) { assert f(s) == s[b := f(s)[b]]; }
    forall s, t ensures ReadsLockedOnly(tx, f, s, t) {
      if AgreeOnLocked(tx, s, t) {
        assert At(s, a) == At(t, a);
        assert f(s) == s[b := f(s)[b]] && f(t) == t[b := f(s)[b]];
        AgreeOnWritten(tx, s, t);
      }
    }
  }

  /** A write lock of `x` on an account that `y` holds, when `y` can write at all. */
  lemma {:induction false} OrderShows(x: TxLocks, y: TxLocks, a: string, b: string)
    returns (f: Effect<int>, g: Effect<int>, s: Store<int>)
    requires AccountLock(a, true) in x.locks && Holds(y, a) && AccountLock(b, true) in y.locks
    ensures Confined(x, f) && Confined(y, g) && f(g(s)) != g(f(s))
  {
    f, s := Overwrite(a, 1), map[];
    OverwriteIsConfined(x, a, 1);
    if a == b {
      g := Overwrite(a, 2);
      OverwriteIsConfined(y, a, 2);
      assert f(g(s))[a] == 1 && g(f(s))[a] == 2;
    } else {
      g := Note(a, b);
      NoteIsConfined(y, a, b);
      assert f(g(s))[b] == 0 && g(f(s))[b] == 1;
    }
  }

  /**
   The converse of `Commute`: for two conflicting transactions that each write-lock some account there
   are confined effects and a store for which the order matters.
   */
  lemma {:induction false} ConflictMatters(x: TxLocks, y: TxLocks, b: string, c: string)
    returns (f: Effect<int>, g: Effect<int>, s: Store<int>)
    requires Conflict(x, y) && AccountLock(b, true) in x.locks && AccountLock(c, true) in y.locks
    ensures Confined(x, f) && Confined(y, g) && f(g(s)) != g(f(s))
  {
    var p, q :| p in x.locks && q in y.locks && Clash(p, q);
    if p.isWritable {
      assert p == AccountLock(p.account, true) && Holds(y, p.account);
      f, g, s := OrderShows(x, y, p.account, c);
    } else {
      assert q == AccountLock(q.account, true) && Holds(x, q.account);
      g, f, s := OrderShows(y, x, q.account, b);
    }
  }

  lemma {:induction false} NotBoth(x: TxLocks, y: TxLocks, a: string)
    requires !Conflict(x, y) && Holds(x, a)
    ensures AccountLock(a, true) !in y.locks
  {
    var p :| p in x.locks && p.account == a;
    assert Clash(p, AccountLock(a, true));
  }

  lemma {:induction false} SameStore<V(!new)>(s: Store<V>, t: Store<V>)
    requires forall a :: At(s, a) == At(t, a)
    ensures s == t
  {
    forall a ensures a in s <==> a in t { assert At(s, a) == At(t, a); }
    forall a | a in s ensures s[a] == t[a] { assert At(s, a) == At(t, a); }
  }

  /** Running a transaction before a list of transactions it does not conflict with, or after them. */
  lemma {:induction false} MoveToEnd<V(!new)>(
      txs: seq<TxLocks>, effects: seq<Effect<V>>, m: nat, order: seq<nat>, s: Store<V>)
    requires AllConfined(txs, effects) && m < |txs|
    requires InRange(order, |txs|) && forall k :: 0 <= k < |order| ==> !Conflict(txs[m], txs[order[k]])
    ensures Run(effects, order, effects[m](s)) == effects[m](Run(effects, order, s))
    decreases |order|
  {
    if order != [] {
      var init, x := order[..|order| - 1], order[|order| - 1];
      MoveToEnd(txs, effects, m, init, s);
      Commute(txs[m], effects[m], txs[x], effects[x], Run(effects, init, s));
    }
  }

  lemma {:induction false} RunAppend<V(!new)>(effects: seq<Effect<V>>, a: seq<nat>, b: seq<nat>, s: Store<V>)
    requires InRange(a, |effects|)
    requires InRange(b, |effects|)
    ensures Run(effects, a + b, s) == Run(effects, b, Run(effects, a, s))
    decreases |b|
  {
    if b == [] {
      assert a + b == a;
    } else {
      var init := b[..|b| - 1];
      assert (a + b)[..|a + b| - 1] == a + init;
      RunAppend(effects, a, init, s);
    }
  }

  ghost function Elements(order: seq<nat>): (r: set<nat>)
    ensures forall x :: x in r <==> x in order
    ensures (forall k, l :: 0 <= k < l < |order| ==> order[k] != order[l]) ==> |r| == |order|
  {
    if order == [] then {}
    else
      var init := order[..|order| - 1];
      assert order == init + [order[|order| - 1]];
      Elements(init) + {order[|order| - 1]}
  }

  /** Distinct numbers below `n`: there are at most `n` of them. */
  lemma {:induction false} Pigeonhole(xs: set<nat>, n: nat)
    requires forall x :: x in xs ==> x < n
    ensures |xs| <= n
  {
    if n == 0 {
      assert xs == {};
    } else {
      Pigeonhole(xs - {n - 1}, n - 1);
    }
  }

  /** A permutation of 0..n contains its largest index. */
  lemma {:induction false} HasLargest(order: seq<nat>, n: nat) returns (p: nat)
    requires 0 < n && IsPermutation(order, n)
    ensures p < n && order[p] == n - 1
  {
    hide Elements;
    var xs := Elements(order);
    Pigeonhole(xs - {n - 1}, n - 1);
    p :| 0 <= p < n && order[p] == n - 1;
  }

  /** Taking transaction `m` out of the middle and running it last changes nothing. */
  lemma {:induction false} RunsLast<V(!new)>(
      txs: seq<TxLocks>, effects: seq<Effect<V>>, a: seq<nat>, m: nat, b: seq<nat>, s: Store<V>)
    requires AllConfined(txs, effects) && m < |txs|
    requires InRange(a, |txs|) && InRange(b, |txs|)
    requires forall k :: 0 <= k < |b| ==> !Conflict(txs[m], txs[b[k]])
    ensures Run(effects, (a + [m]) + b, s) == effects[m](Run(effects, a + b, s))
  {
    RunAppend(effects, a + [m], b, s);
    assert (a + [m])[..|a|] == a;
    MoveToEnd(txs, effects, m, b, Run(effects, a, s));
    RunAppend(effects, a, b, s);
  }

  /** Any order that keeps conflicting pairs in block order is equivalent to block order. */
  lemma {:induction false} ConflictOrderSuffices<V(!new)>(
      txs: seq<TxLocks>, effects: seq<Effect<V>>, order: seq<nat>, s: Store<V>)
    requires AllConfined(txs, effects) && KeepsConflicts(txs, order)
    ensures Run(effects, order, s) == Run(effects, BlockOrder(|txs|), s)
    decreases |txs|
  {
    var n := |txs|;
    if n == 0 {
      assert order == BlockOrder(0);
    } else {
      var m := n - 1;
      var p := HasLargest(order, n);
      var a, b := WithoutLargest(txs, order, p);
      PrefixConfined(txs, effects, m);
      assert |effects| == n && InRange(order, n) && InRange(a + b, m);
      hide KeepsConflicts, AllConfined;
      RunsLast(txs, effects, a, m, b, s);
      ConflictOrderSuffices(txs[..m], effects[..m], a + b, s);
      RunOnPrefix(effects, m, a + b, s);
      RunOnPrefix(effects, m, BlockOrder(m), s);
      assert BlockOrder(n)[..m] == BlockOrder(m);
    }
  }

  lemma {:induction false} PrefixConfined<V(!new)>(txs: seq<TxLocks>, effects: seq<Effect<V>>, m: nat)
    requires AllConfined(txs, effects) && m <= |txs|
    ensures AllConfined(txs[..m], effects[..m])
  {
    hide Confined;
  }

  lemma {:induction false} WithoutLargest(txs: seq<TxLocks>, order: seq<nat>, p: nat) returns (a: seq<nat>, b: seq<nat>)
    requires KeepsConflicts(txs, order) && p < |txs| && order[p] == |txs| - 1
    ensures order == (a + [|txs| - 1]) + b && InRange(a, |txs|) && InRange(b, |txs|)
    ensures KeepsConflicts(txs[..|txs| - 1], a + b)
    ensures forall k :: 0 <= k < |b| ==> !Conflict(txs[|txs| - 1], txs[b[k]])
  {
    a, b := order[..p], order[p + 1..];
    var shorter := a + b;
    assert forall k :: 0 <= k < |shorter| ==> shorter[k] == order[if k < p then k else k + 1];
    assert forall k :: 0 <= k < |b| ==> b[k] == order[p + 1 + k];
  }

  lemma {:induction false} RunOnPrefix<V(!new)>(effects: seq<Effect<V>>, m: nat, order: seq<nat>, s: Store<V>)
    requires m <= |effects| && InRange(order, m)
    ensures Run(effects[..m], order, s) == Run(effects, order, s)
    decreases |order|
  {
    if order != [] { RunOnPrefix(effects, m, order[..|order| - 1], s); }
  }

  /**
   Serial equivalence.  For every block, every confined effect of its transactions and every
   starting store, any step-by-step execution of a schedule that respects the conflicts (the
   one `BuildSchedule` returns in particular) ends in the store of the in-order execution.
   */
  lemma {:induction false} ScheduleIsSeriallyEquivalent<V(!new)>(
      txs: seq<TxLocks>, steps: seq<nat>, effects: seq<Effect<V>>, order: seq<nat>, s: Store<V>)
    requires Respects(txs, steps) && AllConfined(txs, effects) && StepByStep(order, steps)
    ensures Run(effects, order, s) == Run(effects, BlockOrder(|txs|), s)
  {
    forall k, l | 0 <= k < l < |order| && Conflict(txs[order[k]], txs[order[l]]) ensures order[k] < order[l] {
      assert steps[order[k]] <= steps[order[l]];
      if order[l] < order[k] { ConflictSymmetric(txs[order[k]], txs[order[l]]); }
    }
    ConflictOrderSuffices(txs, effects, order, s);
  }
}

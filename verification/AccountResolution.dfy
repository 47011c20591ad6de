/**
 The account locks of a transaction (crates/ingest-core/src/account_resolution.rs) and its program
 ids (crates/ingest-core/src/rpc_client.rs, lines 200-223).  Both read the same three lists of keys,
 the first in the order split by the message header, the second in the unsplit order.
 */
module AccountResolution {
  import opened Contention
  import opened Numbers
  import opened Sequences
  import opened Strings

  datatype MessageHeader = MessageHeader(numRequiredSignatures: u8, numReadonlySigned: u8, numReadonlyUnsigned: u8)

  function SaturatingSub(a: nat, b: nat): nat { if a <= b then 0 else a - b }

  /** The writable and the readonly static keys; every slice is in bounds for every header. */
  function SplitStaticKeys(keys: seq<string>, header: MessageHeader): (seq<string>, seq<string>) {
    var n := |keys|;
    var numSig := header.numRequiredSignatures;
    var signedWritableCount := SaturatingSub(numSig, header.numReadonlySigned);
    var unsignedWritableCount := SaturatingSub(SaturatingSub(n, numSig), header.numReadonlyUnsigned);
    var signedWritable := keys[0..Min(signedWritableCount, n)];
    var signedReadonly := keys[Min(signedWritableCount, n)..Min(numSig, n)];
    var unsignedWritableEnd := Min(numSig + unsignedWritableCount, n);
    var unsignedWritable := keys[Min(numSig, n)..unsignedWritableEnd];
    var unsignedReadonly := keys[unsignedWritableEnd..n];
    (signedWritable + unsignedWritable, signedReadonly + unsignedReadonly)
  }

  // ---------------- What the split has to be ----------------

  /** The message layout: signed before unsigned keys, and writable before readonly ones in each. */
  predicate IsWritablePosition(header: MessageHeader, n: nat, i: nat) {
    || i < header.numRequiredSignatures - header.numReadonlySigned
    || header.numRequiredSignatures <= i < n - header.numReadonlyUnsigned
  }

  /** The keys at writable (or at readonly) positions from `lo` up to `hi`, in their order. */
  ghost function KeysWhere(keys: seq<string>, header: MessageHeader, writable: bool, lo: nat, hi: nat): seq<string>
    requires lo <= hi <= |keys|
  {
    if lo == hi then []
    else
      KeysWhere(keys, header, writable, lo, hi - 1) +
      if IsWritablePosition(header, |keys|, hi - 1) == writable then [keys[hi - 1]] else []
  }

  ghost function StaticKeys(keys: seq<string>, header: MessageHeader, writable: bool): seq<string> {
    KeysWhere(keys, header, writable, 0, |keys|)
  }

  /** `pos` lists the positions of one kind among the first `n`, in order. */
  ghost predicate PositionsOf(header: MessageHeader, count: nat, writable: bool, n: nat, pos: seq<nat>) {
    && Increasing(pos)
    && (forall m :: 0 <= m < |pos| ==> pos[m] < n && IsWritablePosition(header, count, pos[m]) == writable)
    && (forall i: nat :: i < n && IsWritablePosition(header, count, i) == writable ==> i in pos)
  }

  /** The keys at the positions. */
  ghost predicate PickedAt(keys: seq<string>, picked: seq<string>, pos: seq<nat>) {
    |pos| == |picked| && forall m :: 0 <= m < |pos| ==> pos[m] < |keys| && picked[m] == keys[pos[m]]
  }

  ghost predicate StandsAt(keys: seq<string>, header: MessageHeader, writable: bool, account: string, i: nat)
    requires i < |keys|
  {
    keys[i] == account && IsWritablePosition(header, |keys|, i) == writable
  }

  /** How often the account stands at a static position of one kind. */
  ghost function Occurrences(keys: seq<string>, header: MessageHeader, writable: bool, account: string): nat {
    |set i: nat | i < |keys| && StandsAt(keys, header, writable, account, i)|
  }

  lemma {:induction false} NoKeys(keys: seq<string>, header: MessageHeader)
    ensures KeysWhere(keys, header, true, 0, 0) == KeysWhere(keys, header, false, 0, 0) == []
  {
  }

  lemma {:induction false} OneMoreKey(keys: seq<string>, header: MessageHeader, writable: bool, n: nat)
    requires 0 < n <= |keys|
    ensures KeysWhere(keys, header, writable, 0, n) == KeysWhere(keys, header, writable, 0, n - 1)
      + if IsWritablePosition(header, |keys|, n - 1) == writable then [keys[n - 1]] else []
  {
  }

  lemma {:induction false} KeysWherePicks(keys: seq<string>, header: MessageHeader, writable: bool, n: nat)
    returns (pos: seq<nat>)
    requires n <= |keys|
    ensures PositionsOf(header, |keys|, writable, n, pos) && PickedAt(keys, KeysWhere(keys, header, writable, 0, n), pos)
  {
    if n == 0 {
      pos := [];
    } else {
      hide IsWritablePosition, PositionsOf, PickedAt, KeysWhere;
      pos := KeysWherePicks(keys, header, writable, n - 1);
      OneMoreKey(keys, header, writable, n);
      OneMorePosition(header, |keys|, writable, n - 1, pos);
      PickOneMore(keys, KeysWhere(keys, header, writable, 0, n - 1), pos, n - 1);
      if IsWritablePosition(header, |keys|, n - 1) == writable { pos := pos + [n - 1]; }
    }
  }

  lemma {:induction false} PickOneMore(keys: seq<string>, picked: seq<string>, pos: seq<nat>, k: nat)
    requires PickedAt(keys, picked, pos) && k < |keys|
    ensures PickedAt(keys, picked + [], pos) && PickedAt(keys, picked + [keys[k]], pos + [k])
  {
    assert picked + [] == picked;
  }

  lemma {:induction false} OneMorePosition(header: MessageHeader, count: nat, writable: bool, n: nat, pos: seq<nat>)
    requires PositionsOf(header, count, writable, n, pos)
    ensures PositionsOf(header, count, writable, n + 1,
                        if IsWritablePosition(header, count, n) == writable then pos + [n] else pos)
  {
    hide IsWritablePosition;
    assert forall i :: i in pos ==> i in pos + [n];
    assert n in pos + [n];
  }

  lemma {:induction false} KeysWhereCounts(keys: seq<string>, header: MessageHeader, writable: bool, n: nat, account: string)
    requires n <= |keys|
    ensures multiset(KeysWhere(keys, header, writable, 0, n))[account]
      == |set i: nat | i < n && StandsAt(keys, header, writable, account, i)|
  {
    hide StandsAt;
    if n > 0 {
      CountOneMore(keys, header, writable, n, account);
      KeysWhereCounts(keys, header, writable, n - 1, account);
      OneMorePlace(keys, header, writable, account, n - 1);
    }
  }

  lemma {:induction false} CountOneMore(keys: seq<string>, header: MessageHeader, writable: bool, n: nat, account: string)
    requires 0 < n <= |keys|
    ensures multiset(KeysWhere(keys, header, writable, 0, n))[account]
      == multiset(KeysWhere(keys, header, writable, 0, n - 1))[account]
         + if StandsAt(keys, header, writable, account, n - 1) then 1 else 0
  {
    hide IsWritablePosition, KeysWhere;
    OneMoreKey(keys, header, writable, n);
  }

  lemma {:induction false} OneMorePlace(keys: seq<string>, header: MessageHeader, writable: bool, account: string, n: nat)
    requires n < |keys|
    ensures |set i: nat | i < n + 1 && StandsAt(keys, header, writable, account, i)|
      == |set i: nat | i < n && StandsAt(keys, header, writable, account, i)|
         + if StandsAt(keys, header, writable, account, n) then 1 else 0
  {
    hide StandsAt;
    var before := set i: nat | i < n && StandsAt(keys, header, writable, account, i);
    var after := set i: nat | i < n + 1 && StandsAt(keys, header, writable, account, i);
    assert after == before + if StandsAt(keys, header, writable, account, n) then {n} else {};
  }

  lemma {:induction false} KeysWhereConcat(
      keys: seq<string>, header: MessageHeader, writable: bool, lo: nat, mid: nat, hi: nat)
    requires lo <= mid <= hi <= |keys|
    ensures KeysWhere(keys, header, writable, lo, hi)
      == KeysWhere(keys, header, writable, lo, mid) + KeysWhere(keys, header, writable, mid, hi)
  {
    if mid < hi { KeysWhereConcat(keys, header, writable, lo, mid, hi - 1); }
  }

  /** A stretch whose positions are all alike is taken whole or not at all. */
  lemma {:induction false} UniformStretch(
      keys: seq<string>, header: MessageHeader, writable: bool, w: bool, lo: nat, hi: nat)
    requires lo <= hi <= |keys|
    requires forall i :: lo <= i < hi ==> IsWritablePosition(header, |keys|, i) == w
    ensures KeysWhere(keys, header, writable, lo, hi) == if writable == w then keys[lo..hi] else []
  {
    if lo < hi { UniformStretch(keys, header, writable, w, lo, hi - 1); }
  }

  /** For every header, well-formed or not, the split selects exactly the writable positions, in order. */
  lemma {:induction false} SplitFollowsLayout(keys: seq<string>, header: MessageHeader)
    ensures SplitStaticKeys(keys, header) == (StaticKeys(keys, header, true), StaticKeys(keys, header, false))
  {
    StretchesFor(keys, header, true);
    StretchesFor(keys, header, false);
  }

  lemma {:induction false} StretchesFor(keys: seq<string>, header: MessageHeader, writable: bool)
    ensures StaticKeys(keys, header, writable)
      == if writable then SplitStaticKeys(keys, header).0 else SplitStaticKeys(keys, header).1
  {
    hide StaticKeys, IsWritablePosition;
    var n, sig := |keys|, header.numRequiredSignatures;
    forall i: nat | i < n { WritableStretches(header, n, i); }
    Alternating(
      keys, header, writable, Min(SaturatingSub(sig, header.numReadonlySigned), n), Min(sig, n),
      Min(sig + SaturatingSub(SaturatingSub(n, sig), header.numReadonlyUnsigned), n));
  }

  lemma {:induction false} WritableStretches(header: MessageHeader, n: nat, i: nat)
    requires i < n
    ensures var sig := header.numRequiredSignatures;
      IsWritablePosition(header, n, i) <==>
        || i < Min(SaturatingSub(sig, header.numReadonlySigned), n)
        || Min(sig, n) <= i < Min(sig + SaturatingSub(SaturatingSub(n, sig), header.numReadonlyUnsigned), n)
  {
  }

  lemma {:induction false} Alternating(keys: seq<string>, header: MessageHeader, writable: bool, a: nat, b: nat, c: nat)
    requires a <= b <= c <= |keys|
    requires forall i :: 0 <= i < |keys| ==> (IsWritablePosition(header, |keys|, i) <==> i < a || b <= i < c)
    ensures StaticKeys(keys, header, writable)
      == if writable then keys[..a] + keys[b..c] else keys[a..b] + keys[c..]
  {
    KeysWhereConcat(keys, header, writable, 0, b, |keys|);
    TwoStretches(keys, header, writable, 0, a, b);
    TwoStretches(keys, header, writable, b, c, |keys|);
  }

  /** Writable positions followed by readonly ones. */
  lemma {:induction false} TwoStretches(
      keys: seq<string>, header: MessageHeader, writable: bool, lo: nat, mid: nat, hi: nat)
    requires lo <= mid <= hi <= |keys|
    requires forall i :: lo <= i < hi ==> (IsWritablePosition(header, |keys|, i) <==> i < mid)
    ensures KeysWhere(keys, header, writable, lo, hi) == if writable then keys[lo..mid] else keys[mid..hi]
  {
    KeysWhereConcat(keys, header, writable, lo, mid, hi);
    UniformStretch(keys, header, writable, true, lo, mid);
    UniformStretch(keys, header, writable, false, mid, hi);
  }

  // ---------------- Locks ----------------

  ghost function Tagged(accounts: seq<string>, isWritable: bool): (r: seq<AccountLock>)
    ensures |r| == |accounts|
    ensures forall i :: 0 <= i < |r| ==> r[i] == AccountLock(accounts[i], isWritable)
  {
    seq(|accounts|, i requires 0 <= i < |accounts| => AccountLock(accounts[i], isWritable))
  }

  /** All write locks, static keys first, then all read locks. */
  ghost function ResolvedLocks(
      keys: seq<string>, header: MessageHeader, loadedWritable: seq<string>,
      loadedReadonly: seq<string>): seq<AccountLock> {
    Tagged(StaticKeys(keys, header, true) + loadedWritable, true)
    + Tagged(StaticKeys(keys, header, false) + loadedReadonly, false)
  }

  lemma {:induction false} TaggedCounts(accounts: seq<string>, isWritable: bool, account: string, w: bool)
    ensures multiset(Tagged(accounts, isWritable))[AccountLock(account, w)]
      == if isWritable == w then multiset(accounts)[account] else 0
  {
    if accounts != [] {
      var init, last := accounts[..|accounts| - 1], accounts[|accounts| - 1];
      TaggedCounts(init, isWritable, account, w);
      assert accounts == init + [last];
      assert Tagged(accounts, isWritable) == Tagged(init, isWritable) + [AccountLock(last, isWritable)];
    }
  }

  /** The account is write-locked once per writable position it stands at, and read-locked once per other one. */
  ghost predicate Counted(
      locks: seq<AccountLock>, keys: seq<string>, header: MessageHeader, loadedWritable: seq<string>,
      loadedReadonly: seq<string>, account: string)
  {
    && multiset(locks)[AccountLock(account, true)]
       == Occurrences(keys, header, true, account) + multiset(loadedWritable)[account]
    && multiset(locks)[AccountLock(account, false)]
       == Occurrences(keys, header, false, account) + multiset(loadedReadonly)[account]
  }

  lemma {:induction false} LockCounts(
      keys: seq<string>, header: MessageHeader, loadedWritable: seq<string>, loadedReadonly: seq<string>, account: string)
    ensures var locks := ResolvedLocks(keys, header, loadedWritable, loadedReadonly);
      Counted(locks, keys, header, loadedWritable, loadedReadonly, account)
  {
    var w, r := StaticKeys(keys, header, true), StaticKeys(keys, header, false);
    KeysWhereCounts(keys, header, true, |keys|, account);
    KeysWhereCounts(keys, header, false, |keys|, account);
    TaggedCounts(w + loadedWritable, true, account, true);
    TaggedCounts(w + loadedWritable, true, account, false);
    TaggedCounts(r + loadedReadonly, false, account, true);
    TaggedCounts(r + loadedReadonly, false, account, false);
  }

  /** A write lock on each of the writable accounts, then a read lock on each of the others. */
  ghost predicate LocksOn(locks: seq<AccountLock>, writable: seq<string>, readonly: seq<string>) {
    && |locks| == |writable| + |readonly|
    && forall m :: 0 <= m < |locks| ==>
         locks[m] == if m < |writable| then AccountLock(writable[m], true) else AccountLock(readonly[m - |writable|], false)
  }

  /** The order of the locks: writes before reads, static keys before loaded ones, static keys in message order. */
  lemma {:induction false} LockOrder(
      keys: seq<string>, header: MessageHeader, loadedWritable: seq<string>, loadedReadonly: seq<string>)
    returns (w: seq<nat>, r: seq<nat>, writable: seq<string>, readonly: seq<string>)
    ensures PositionsOf(header, |keys|, true, |keys|, w) && PickedAt(keys, writable, w)
    ensures PositionsOf(header, |keys|, false, |keys|, r) && PickedAt(keys, readonly, r)
    ensures LocksOn(ResolvedLocks(keys, header, loadedWritable, loadedReadonly), writable + loadedWritable, readonly + loadedReadonly)
  {
    hide KeysWhere, PositionsOf, PickedAt;
    w := KeysWherePicks(keys, header, true, |keys|);
    r := KeysWherePicks(keys, header, false, |keys|);
    writable, readonly := StaticKeys(keys, header, true), StaticKeys(keys, header, false);
  }

  method ResolveAccountLocks(
      keys: seq<string>, header: MessageHeader, loadedWritable: seq<string>, loadedReadonly: seq<string>)
    returns (locks: seq<AccountLock>)
    ensures forall account :: Counted(locks, keys, header, loadedWritable, loadedReadonly, account)
    ensures locks == ResolvedLocks(keys, header, loadedWritable, loadedReadonly)
  {
    hide Counted, SplitStaticKeys, KeysWhere;
    var (staticWritable, staticReadonly) := SplitStaticKeys(keys, header);
    SplitFollowsLayout(keys, header);
    locks := [];
    var writable := staticWritable + loadedWritable;
    for i := 0 to |writable|
      invariant locks == Tagged(writable, true)[..i]
    {
      locks := locks + [AccountLock(writable[i], true)];
    }
    var readonly := staticReadonly + loadedReadonly;
    for i := 0 to |readonly|
      invariant locks == Tagged(writable, true) + Tagged(readonly, false)[..i]
    {
      locks := locks + [AccountLock(readonly[i], false)];
    }
    assert locks == ResolvedLocks(keys, header, loadedWritable, loadedReadonly);
    forall account ensures Counted(locks, keys, header, loadedWritable, loadedReadonly, account) {
      LockCounts(keys, header, loadedWritable, loadedReadonly, account);
    }
  }

  ghost function Accounts(locks: seq<AccountLock>): (r: seq<string>)
    ensures |r| == |locks| && forall i :: 0 <= i < |r| ==> r[i] == locks[i].account
  {
    seq(|locks|, i requires 0 <= i < |locks| => locks[i].account)
  }

  lemma {:induction false} KeysPartition(keys: seq<string>, header: MessageHeader, n: nat)
    requires n <= |keys|
    ensures multiset(KeysWhere(keys, header, true, 0, n)) + multiset(KeysWhere(keys, header, false, 0, n)) == multiset(keys[..n])
  {
    hide IsWritablePosition, KeysWhere;
    if n == 0 {
      NoKeys(keys, header);
    } else {
      KeysPartition(keys, header, n - 1);
      assert keys[..n] == keys[..n - 1] + [keys[n - 1]];
      OneMoreKey(keys, header, true, n);
      OneMoreKey(keys, header, false, n);
    }
  }

  /** The locked accounts are a permutation of the static and the loaded keys: none lost, none added. */
  lemma {:induction false} LocksArePermutation(
      keys: seq<string>, header: MessageHeader, loadedWritable: seq<string>, loadedReadonly: seq<string>)
    ensures multiset(Accounts(ResolvedLocks(keys, header, loadedWritable, loadedReadonly)))
      == multiset(keys + loadedWritable + loadedReadonly)
  {
    KeysPartition(keys, header, |keys|);
    assert keys[..|keys|] == keys;
    var w, r := StaticKeys(keys, header, true), StaticKeys(keys, header, false);
    assert Accounts(ResolvedLocks(keys, header, loadedWritable, loadedReadonly))
      == (w + loadedWritable) + (r + loadedReadonly);
  }

  lemma {:induction false} DistinctIff(s: seq<string>)
    ensures Distinct(s) <==> forall x :: multiset(s)[x] <= 1
  {
    if s != [] {
      var init, last := s[..|s| - 1], s[|s| - 1];
      assert s == init + [last];
      DistinctIff(init);
      assert last in init <==> multiset(init)[last] > 0;
      if Distinct(s) {
        assert last !in init;
      } else if Distinct(init) {
        assert last in init;
        assert multiset(s)[last] > 1;
      } else {
        var x :| multiset(init)[x] > 1;
        assert multiset(s)[x] > 1;
      }
    }
  }

  /** A message that lists every key once locks every account once. */
  lemma {:induction false} DistinctKeysLockOnce(
      keys: seq<string>, header: MessageHeader, loadedWritable: seq<string>, loadedReadonly: seq<string>)
    ensures Distinct(Accounts(ResolvedLocks(keys, header, loadedWritable, loadedReadonly)))
      <==> Distinct(keys + loadedWritable + loadedReadonly)
  {
    LocksArePermutation(keys, header, loadedWritable, loadedReadonly);
    DistinctIff(keys + loadedWritable + loadedReadonly);
    DistinctIff(Accounts(ResolvedLocks(keys, header, loadedWritable, loadedReadonly)));
  }

  // ---------------- Program ids ----------------

  ghost predicate StrictlySorted(s: seq<string>) { forall k, l :: 0 <= k < l < |s| ==> Less(s[k], s[l]) }

  ghost predicate Sorted(s: seq<string>) { forall k, l :: 0 <= k < l < |s| ==> !Less(s[l], s[k]) }

  /** The id stands at one of the indices in the list; indices beyond the list are skipped. */
  ghost predicate Referenced(full: seq<string>, indices: seq<u8>, id: string) {
    exists k :: 0 <= k < |indices| && indices[k] < |full| && full[indices[k]] == id
  }

  function Lookup(full: seq<string>, indices: seq<u8>): seq<string> {
    if indices == [] then []
    else
      var i := indices[|indices| - 1];
      Lookup(full, indices[..|indices| - 1]) + if i < |full| then [full[i]] else []
  }

  lemma {:induction false} LookupMeaning(full: seq<string>, indices: seq<u8>)
    ensures forall id :: id in Lookup(full, indices) <==> Referenced(full, indices, id)
  {
    if indices != [] {
      var n := |indices| - 1;
      LookupMeaning(full, indices[..n]);
      forall id ensures id in Lookup(full, indices) <==> Referenced(full, indices, id) {
        assert Referenced(full, indices, id) <==>
          Referenced(full, indices[..n], id) || (indices[n] < |full| && full[indices[n]] == id);
      }
    }
  }

  method SortStrings(s: seq<string>) returns (r: seq<string>)
    ensures Sorted(r) && multiset(r) == multiset(s)
  {
    r := [];
    assert Sorted(r);
    hide Sorted, Less;
    for i := 0 to |s|
      invariant Sorted(r) && multiset(r) == multiset(s[..i])
    {
      var k := |r|;
      while k > 0 && Less(s[i], r[k - 1])
        invariant 0 <= k <= |r|
        invariant forall l :: k <= l < |r| ==> Less(s[i], r[l])
      {
        k := k - 1;
      }
      InsertSorted(r, k, s[i]);
      InsertedOnce(r, k, s[i]);
      assert s[..i + 1] == s[..i] + [s[i]];
      r := r[..k] + [s[i]] + r[k..];
    }
    assert s[..|s|] == s;
  }

  lemma {:induction false} InsertedOnce(r: seq<string>, k: nat, x: string)
    requires k <= |r|
    ensures multiset(r[..k] + [x] + r[k..]) == multiset(r) + multiset{x}
  {
    assert r == r[..k] + r[k..];
  }

  lemma {:induction false} InsertSorted(r: seq<string>, k: nat, x: string)
    requires Sorted(r) && k <= |r|
    requires forall l :: k <= l < |r| ==> Less(x, r[l])
    requires k == 0 || !Less(x, r[k - 1])
    ensures Sorted(r[..k] + [x] + r[k..])
  {
    forall l | 0 <= l < k ensures !Less(x, r[l]) {
      if Less(x, r[l]) { BelowSorted(r, l, k - 1, x); }
    }
    forall l | k <= l < |r| ensures !Less(r[l], x) { LessIsStrict(x, r[l]); }
  }

  /** What is below an element of a sorted list is below the later elements. */
  lemma {:induction false} BelowSorted(r: seq<string>, k: nat, l: nat, x: string)
    requires Sorted(r) && k <= l < |r| && Less(x, r[k])
    ensures Less(x, r[l])
  {
    LessIsTotal(r[k], r[l]);
    if Less(r[k], r[l]) { LessIsTransitive(x, r[k], r[l]); }
  }

  /** Drops every element that equals its predecessor. */
  method Dedup(s: seq<string>) returns (r: seq<string>)
    requires Sorted(s)
    ensures StrictlySorted(r) && forall id :: id in r <==> id in s
  {
    r := [];
    for i := 0 to |s|
      invariant StrictlySorted(r) && forall id :: id in r <==> id in s[..i]
      invariant r == [] <==> i == 0
      invariant r != [] ==> r[|r| - 1] == s[i - 1]
    {
      if r == [] || r[|r| - 1] != s[i] {
        if r != [] {
          LessIsTotal(r[|r| - 1], s[i]);
          forall k | 0 <= k < |r| - 1 ensures Less(r[k], s[i]) { LessIsTransitive(r[k], r[|r| - 1], s[i]); }
        }
        r := r + [s[i]];
      }
      assert s[..i + 1] == s[..i] + [s[i]];
    }
    assert s[..|s|] == s;
  }

  /** The ids the instructions refer to, each once, in ascending order. */
  ghost predicate AreProgramIds(full: seq<string>, indices: seq<u8>, ids: seq<string>) {
    StrictlySorted(ids) && forall id :: id in ids <==> Referenced(full, indices, id)
  }

  method ExtractProgramIds(keys: seq<string>, loadedWritable: seq<string>, loadedReadonly: seq<string>, indices: seq<u8>)
    returns (ids: seq<string>)
    ensures AreProgramIds(keys + loadedWritable + loadedReadonly, indices, ids)
  {
    var full := keys + loadedWritable + loadedReadonly;
    LookupMeaning(full, indices);
    var found := Lookup(full, indices);
    var sorted := SortStrings(found);
    forall id ensures id in sorted <==> id in found { assert multiset(sorted)[id] == multiset(found)[id]; }
    ids := Dedup(sorted);
  }

  lemma {:induction false} StrictlySortedUnique(s: seq<string>, t: seq<string>)
    requires StrictlySorted(s) && StrictlySorted(t) && forall id :: id in s <==> id in t
    ensures s == t
  {
    assert s != [] ==> s[0] in s;
    assert t != [] ==> t[0] in t;
    if s != [] && t != [] {
      SameHead(s, t);
      forall id ensures id in s[1..] <==> id in t[1..] {
        TailMembers(s, id);
        TailMembers(t, id);
      }
      StrictlySortedUnique(s[1..], t[1..]);
      assert s == [s[0]] + s[1..] && t == [t[0]] + t[1..];
    }
  }

  lemma {:induction false} SameHead(s: seq<string>, t: seq<string>)
    requires s != [] && t != [] && StrictlySorted(s) && StrictlySorted(t) && forall id :: id in s <==> id in t
    ensures s[0] == t[0]
  {
    assert s[0] in t && t[0] in s;
    LessIsStrict(s[0], t[0]);
  }

  lemma {:induction false} TailMembers(s: seq<string>, id: string)
    requires s != [] && StrictlySorted(s)
    ensures id in s[1..] <==> id in s && id != s[0]
  {
    forall k | 1 <= k < |s| ensures s[k] != s[0] { LessIsStrict(s[0], s[k]); }
  }

  /** The list depends only on which keys are referred to, not on order or repetition of instructions. */
  lemma {:induction false} ProgramIdsUnique(
      full: seq<string>, indices: seq<u8>, indices': seq<u8>, ids: seq<string>, ids': seq<string>)
    requires AreProgramIds(full, indices, ids) && AreProgramIds(full, indices', ids')
    ensures ids == ids' <==> forall id :: Referenced(full, indices, id) <==> Referenced(full, indices', id)
  {
    if forall id :: Referenced(full, indices, id) <==> Referenced(full, indices', id) {
      StrictlySortedUnique(ids, ids');
    } else {
      var id :| Referenced(full, indices, id) != Referenced(full, indices', id);
      assert id in ids <==> id !in ids';
    }
  }

  /** Every program id is an account the transaction locks, although it indexes the unsplit order. */
  lemma {:induction false} ProgramsAreLocked(
      keys: seq<string>, header: MessageHeader, loadedWritable: seq<string>, loadedReadonly: seq<string>,
      indices: seq<u8>, ids: seq<string>, id: string)
    requires AreProgramIds(keys + loadedWritable + loadedReadonly, indices, ids) && id in ids
    ensures exists p :: p in ResolvedLocks(keys, header, loadedWritable, loadedReadonly) && p.account == id
  {
    var full, locks := keys + loadedWritable + loadedReadonly, ResolvedLocks(keys, header, loadedWritable, loadedReadonly);
    assert id in full;
    LocksArePermutation(keys, header, loadedWritable, loadedReadonly);
    assert multiset(Accounts(locks))[id] == multiset(full)[id];
    assert id in Accounts(locks);
    var k :| 0 <= k < |locks| && Accounts(locks)[k] == id;
    assert locks[k] in locks;
  }
}

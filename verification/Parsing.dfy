/**
 What the parse stage makes of a decoded block (crates/cli/src/main.rs, lines 392-448): the rows to
 store and the schedule of the block.
 */
module Parsing {
  import opened Contention
  import opened Decoding
  import opened Options
  import opened Sequences
  import opened Storage
  import opened TokenDeltas
  import opened TokenNetting

  datatype ParsedBlock = ParsedBlock(data: SlotData, signatures: seq<string>, schedule: ScheduleResult)

  function TransactionRows(txs: seq<DecodedTransaction>): (r: seq<TransactionRow>)
    ensures |r| == |txs|
    ensures forall i :: 0 <= i < |r| ==> r[i] == TransactionRow(txs[i].signature, txs[i].failed, txs[i].programIds, None)
  {
    seq(|txs|, i requires 0 <= i < |txs| => TransactionRow(txs[i].signature, txs[i].failed, txs[i].programIds, None))
  }

  function LockRows(t: DecodedTransaction): (r: seq<AccountLockRow>)
    ensures |r| == |t.locks|
    ensures forall i :: 0 <= i < |r| ==> r[i] == AccountLockRow(t.signature, t.locks[i].account, t.locks[i].isWritable)
  {
    seq(|t.locks|, i requires 0 <= i < |t.locks| => AccountLockRow(t.signature, t.locks[i].account, t.locks[i].isWritable))
  }

  function AllLockRows(txs: seq<DecodedTransaction>): seq<AccountLockRow> {
    if txs == [] then [] else AllLockRows(txs[..|txs| - 1]) + LockRows(txs[|txs| - 1])
  }

  function TokenRow(
      t: DecodedTransaction, d: MintRow): Row<PairKey> { Row((t.signature, d.key), d.pre, d.post, d.decimals) }

  function TokenRows(t: DecodedTransaction): (r: seq<Row<PairKey>>)
    ensures |r| == |t.tokenDeltas| && forall i :: 0 <= i < |r| ==> r[i] == TokenRow(t, t.tokenDeltas[i])
  {
    seq(|t.tokenDeltas|, i requires 0 <= i < |t.tokenDeltas| => TokenRow(t, t.tokenDeltas[i]))
  }

  /** The token rows of the transactions that did not fail. */
  function AllTokenRows(txs: seq<DecodedTransaction>): seq<Row<PairKey>> {
    if txs == [] then []
    else
      var t := txs[|txs| - 1];
      AllTokenRows(txs[..|txs| - 1]) + if t.failed then [] else TokenRows(t)
  }

  function TxLocksOf(txs: seq<DecodedTransaction>): (r: seq<TxLocks>)
    ensures |r| == |txs|
    ensures forall i :: 0 <= i < |r| ==> r[i] == TxLocks(txs[i].signature, txs[i].programIds, txs[i].locks)
  {
    seq(|txs|, i requires 0 <= i < |txs| => TxLocks(txs[i].signature, txs[i].programIds, txs[i].locks))
  }

  function Signatures(txs: seq<DecodedTransaction>): (r: seq<string>)
    ensures |r| == |txs| && forall i :: 0 <= i < |r| ==> r[i] == txs[i].signature
  {
    seq(|txs|, i requires 0 <= i < |txs| => txs[i].signature)
  }

  function BlockData(b: DecodedBlock): SlotData {
    SlotData(b.slot, b.blockTime, TransactionRows(b.transactions), AllLockRows(b.transactions), AllTokenRows(b.transactions))
  }

  ghost predicate IsParsed(b: DecodedBlock, p: ParsedBlock) {
    && p.data == BlockData(b) && p.signatures == Signatures(b.transactions)
    && IsScheduleOf(TxLocksOf(b.transactions), p.schedule)
  }

  // ---------------- What parsing has to achieve ----------------

  /** Row `m` is for lock `pos[m].1` of transaction `pos[m].0`; every lock of the transactions has a row. */
  ghost predicate LockRowsAt(txs: seq<DecodedTransaction>, rows: seq<AccountLockRow>, pos: seq<(nat, nat)>) {
    InOrder(pos) && LockRowsStand(txs, rows, pos) && EveryLockAt(txs, pos)
  }

  ghost predicate LockRowsStand(txs: seq<DecodedTransaction>, rows: seq<AccountLockRow>, pos: seq<(nat, nat)>) {
    && |pos| == |rows|
    && forall m :: 0 <= m < |pos| ==> IsLock(txs, pos[m]) && IsLockRow(rows[m], txs[pos[m].0], pos[m].1)
  }

  ghost predicate EveryLockAt(txs: seq<DecodedTransaction>, pos: seq<(nat, nat)>) {
    forall p: (nat, nat) :: IsLock(txs, p) ==> p in pos
  }

  ghost predicate IsLock(txs: seq<DecodedTransaction>, p: (nat, nat)) { p.0 < |txs| && p.1 < |txs[p.0].locks| }

  ghost predicate IsLockRow(row: AccountLockRow, t: DecodedTransaction, k: nat)
    requires k < |t.locks|
  {
    row.signature == t.signature && row.account == t.locks[k].account && row.isWritable == t.locks[k].isWritable
  }

  /** The same for the balance changes of the transactions that did not fail. */
  ghost predicate TokenRowsAt(txs: seq<DecodedTransaction>, rows: seq<Row<PairKey>>, pos: seq<(nat, nat)>) {
    InOrder(pos) && TokenRowsStand(txs, rows, pos) && EveryChangeAt(txs, pos)
  }

  ghost predicate TokenRowsStand(txs: seq<DecodedTransaction>, rows: seq<Row<PairKey>>, pos: seq<(nat, nat)>) {
    && |pos| == |rows|
    && forall m :: 0 <= m < |pos| ==> IsChange(txs, pos[m]) && IsTokenRow(rows[m], txs[pos[m].0], pos[m].1)
  }

  ghost predicate EveryChangeAt(txs: seq<DecodedTransaction>, pos: seq<(nat, nat)>) {
    forall p: (nat, nat) :: IsChange(txs, p) ==> p in pos
  }

  ghost predicate IsChange(txs: seq<DecodedTransaction>, p: (nat, nat)) {
    p.0 < |txs| && !txs[p.0].failed && p.1 < |txs[p.0].tokenDeltas|
  }

  ghost predicate IsTokenRow(row: Row<PairKey>, t: DecodedTransaction, k: nat)
    requires k < |t.tokenDeltas|
  {
    var d := t.tokenDeltas[k];
    row.key == (t.signature, d.key) && row.pre == d.pre && row.post == d.post && row.decimals == d.decimals
  }

  ghost predicate AreLocksOf(txs: seq<DecodedTransaction>, locks: seq<TxLocks>) {
    && |locks| == |txs|
    && forall i :: 0 <= i < |txs| ==>
         locks[i].signature == txs[i].signature && locks[i].programIds == txs[i].programIds && locks[i].locks == txs[i].locks
  }

  ghost predicate AreTransactionRows(txs: seq<DecodedTransaction>, rows: seq<TransactionRow>) {
    && |rows| == |txs|
    && forall i :: 0 <= i < |txs| ==>
         && rows[i].signature == txs[i].signature && rows[i].failed == txs[i].failed
         && rows[i].programIds == txs[i].programIds && rows[i].step == None
  }

  /** The block's slot and time, its rows in order, and the schedule of exactly its locks. */
  ghost predicate IsParseOf(b: DecodedBlock, p: ParsedBlock) {
    && p.data.slot == b.slot && p.data.blockTime == b.blockTime
    && AreTransactionRows(b.transactions, p.data.transactions)
    && |p.signatures| == |b.transactions|
    && (forall i :: 0 <= i < |p.signatures| ==> p.signatures[i] == b.transactions[i].signature)
    && (exists pos :: LockRowsAt(b.transactions, p.data.locks, pos))
    && (exists pos :: TokenRowsAt(b.transactions, p.data.tokenChanges, pos))
    && (exists locks :: AreLocksOf(b.transactions, locks) && IsScheduleOf(locks, p.schedule))
  }

  /** The positions of a last transaction's rows, after those of the transactions before it. */
  ghost function Places(i: nat, n: nat): (r: seq<(nat, nat)>)
    ensures |r| == n && forall k :: 0 <= k < n ==> r[k] == (i, k)
  {
    seq(n, k => (i, k))
  }

  lemma {:induction false} PlacesFollow(pos: seq<(nat, nat)>, i: nat, n: nat)
    requires InOrder(pos) && forall m :: 0 <= m < |pos| ==> pos[m].0 < i
    ensures InOrder(pos + Places(i, n))
  {
  }

  lemma {:induction false} AmongPlaces(pos: seq<(nat, nat)>, i: nat, n: nat, p: (nat, nat))
    requires p in pos || (p.0 == i && p.1 < n)
    ensures p in pos + Places(i, n)
  {
    if p.0 == i && p.1 < n { assert Places(i, n)[p.1] == p; }
  }

  lemma {:induction false} LockRowsOfLast(txs: seq<DecodedTransaction>, rows: seq<AccountLockRow>, before: seq<(nat, nat)>)
    requires txs != [] && LockRowsStand(txs[..|txs| - 1], rows, before)
    ensures var more := LockRows(txs[|txs| - 1]);
      LockRowsStand(txs, rows + more, before + Places(|txs| - 1, |txs[|txs| - 1].locks|))
    ensures forall m :: 0 <= m < |before| ==> before[m].0 < |txs| - 1
  {
    assert forall m :: 0 <= m < |before| ==> IsLock(txs[..|txs| - 1], before[m]);
  }

  lemma {:induction false} EveryLockAtPlace(txs: seq<DecodedTransaction>, before: seq<(nat, nat)>)
    requires txs != [] && EveryLockAt(txs[..|txs| - 1], before)
    ensures EveryLockAt(txs, before + Places(|txs| - 1, |txs[|txs| - 1].locks|))
  {
    var n := |txs| - 1;
    forall p: (nat, nat) | IsLock(txs, p) ensures p in before + Places(n, |txs[n].locks|) {
      if p.0 < n { assert IsLock(txs[..n], p); }
      AmongPlaces(before, n, |txs[n].locks|, p);
    }
  }

  lemma {:induction false} LockRowPositions(txs: seq<DecodedTransaction>) returns (pos: seq<(nat, nat)>)
    ensures LockRowsAt(txs, AllLockRows(txs), pos)
  {
    if txs == [] {
      pos := [];
    } else {
      hide InOrder, LockRowsStand, EveryLockAt;
      var n := |txs| - 1;
      var before := LockRowPositions(txs[..n]);
      LockRowsOfLast(txs, AllLockRows(txs[..n]), before);
      EveryLockAtPlace(txs, before);
      PlacesFollow(before, n, |txs[n].locks|);
      pos := before + Places(n, |txs[n].locks|);
    }
  }

  ghost function ChangeCount(t: DecodedTransaction): nat { if t.failed then 0 else |t.tokenDeltas| }

  lemma {:induction false} TokenRowsOfLast(txs: seq<DecodedTransaction>, rows: seq<Row<PairKey>>, before: seq<(nat, nat)>)
    requires txs != [] && TokenRowsStand(txs[..|txs| - 1], rows, before)
    ensures var more := if txs[|txs| - 1].failed then [] else TokenRows(txs[|txs| - 1]);
      TokenRowsStand(txs, rows + more, before + Places(|txs| - 1, ChangeCount(txs[|txs| - 1])))
    ensures forall m :: 0 <= m < |before| ==> before[m].0 < |txs| - 1
  {
    assert forall m :: 0 <= m < |before| ==> IsChange(txs[..|txs| - 1], before[m]);
  }

  lemma {:induction false} EveryChangeAtPlace(txs: seq<DecodedTransaction>, before: seq<(nat, nat)>)
    requires txs != [] && EveryChangeAt(txs[..|txs| - 1], before)
    ensures EveryChangeAt(txs, before + Places(|txs| - 1, ChangeCount(txs[|txs| - 1])))
  {
    var n := |txs| - 1;
    forall p: (nat, nat) | IsChange(txs, p) ensures p in before + Places(n, ChangeCount(txs[n])) {
      if p.0 < n { assert IsChange(txs[..n], p); }
      AmongPlaces(before, n, ChangeCount(txs[n]), p);
    }
  }

  lemma {:induction false} TokenRowPositions(txs: seq<DecodedTransaction>) returns (pos: seq<(nat, nat)>)
    ensures TokenRowsAt(txs, AllTokenRows(txs), pos)
  {
    if txs == [] {
      pos := [];
    } else {
      hide InOrder, TokenRowsStand, EveryChangeAt;
      var n := |txs| - 1;
      var before := TokenRowPositions(txs[..n]);
      TokenRowsOfLast(txs, AllTokenRows(txs[..n]), before);
      EveryChangeAtPlace(txs, before);
      PlacesFollow(before, n, ChangeCount(txs[n]));
      pos := before + Places(n, ChangeCount(txs[n]));
    }
  }

  lemma {:induction false} ParsedMeaning(b: DecodedBlock, p: ParsedBlock)
    requires IsParsed(b, p)
    ensures IsParseOf(b, p)
  {
    hide IsScheduleOf, LockRowsAt, TokenRowsAt, AllLockRows, AllTokenRows;
    var locks := LockRowPositions(b.transactions);
    var tokens := TokenRowPositions(b.transactions);
    assert AreLocksOf(b.transactions, TxLocksOf(b.transactions));
  }

  method ParseBlock(b: DecodedBlock) returns (p: ParsedBlock)
    ensures IsParseOf(b, p)
    ensures IsParsed(b, p)
  {
    hide LeastSchedule, IsLongestChainLength, BlockEvents, AllLockRows, AllTokenRows, IsParseOf;
    var schedule := BuildSchedule(TxLocksOf(b.transactions));
    p := ParsedBlock(BlockData(b), Signatures(b.transactions), schedule);
    ParsedMeaning(b, p);
  }

  // ---------------- Token rows ----------------

  ghost predicate DistinctSignatures(txs: seq<DecodedTransaction>) {
    forall k, l :: 0 <= k < l < |txs| ==> txs[k].signature != txs[l].signature
  }

  /** The row belongs to a transaction of the list that did not fail. */
  ghost predicate FromSucceeded(txs: seq<DecodedTransaction>, r: Row<PairKey>) {
    exists i, d :: 0 <= i < |txs| && !txs[i].failed && d in txs[i].tokenDeltas && r == TokenRow(txs[i], d)
  }

  /** Exactly the rows of the transactions that did not fail are handed on. */
  lemma {:induction false} OnlySucceededRows(txs: seq<DecodedTransaction>, r: Row<PairKey>)
    ensures r in AllTokenRows(txs) <==> FromSucceeded(txs, r)
  {
    if txs != [] {
      var n := |txs| - 1;
      OnlySucceededRows(txs[..n], r);
      if FromSucceeded(txs, r) {
        var i, d :| 0 <= i < |txs| && !txs[i].failed && d in txs[i].tokenDeltas && r == TokenRow(txs[i], d);
        if i == n {
          var k :| 0 <= k < |txs[n].tokenDeltas| && txs[n].tokenDeltas[k] == d;
          assert TokenRows(txs[n])[k] == r;
        } else {
          assert txs[..n][i] == txs[i];
        }
      }
      if r in AllTokenRows(txs) && r !in AllTokenRows(txs[..n]) {
        var k :| 0 <= k < |TokenRows(txs[n])| && TokenRows(txs[n])[k] == r;
        assert txs[n].tokenDeltas[k] in txs[n].tokenDeltas;
      }
    }
  }

  ghost predicate CanonicalBlock(txs: seq<DecodedTransaction>) {
    forall i :: 0 <= i < |txs| && !txs[i].failed ==> Canonical(txs[i].tokenDeltas)
  }

  lemma {:induction false} BlockRowsCanonical(txs: seq<DecodedTransaction>)
    requires DistinctSignatures(txs) && CanonicalBlock(txs)
    ensures DistinctKeys(AllTokenRows(txs))
    ensures forall k :: 0 <= k < |AllTokenRows(txs)| ==> OneSided(AllTokenRows(txs)[k])
  {
    if txs != [] {
      var n := |txs| - 1;
      BlockRowsCanonical(txs[..n]);
      var before := AllTokenRows(txs[..n]);
      forall k | 0 <= k < |before| ensures before[k].key.0 != txs[n].signature {
        assert before[k] in before;
        OnlySucceededRows(txs[..n], before[k]);
      }
    }
  }

  /**
   The second coalescing, in the storage crate, has nothing left to do: a block whose signatures are
   distinct is stored with exactly the rows its transactions were decoded to.
   */
  lemma {:induction false} SecondPassIsIdentity(txs: seq<DecodedTransaction>)
    requires DistinctSignatures(txs) && CanonicalBlock(txs)
    ensures Coalesced(AllTokenRows(txs)) == AllTokenRows(txs)
  {
    BlockRowsCanonical(txs);
    CanonicalRowsAreFixed(AllTokenRows(txs));
  }
}

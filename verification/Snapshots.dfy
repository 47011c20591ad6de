/**
 From stored balance rows to trades (crates/cli/src/main.rs, lines 475-529).  The rows are grouped by
 signature in a hash map, so the order of the snapshots is arbitrary; everything here holds for any
 order of the rows and of the snapshots.
 */
module Snapshots {
  import opened Candles
  import opened Flushing
  import opened Numbers
  import opened Options
  import opened Parsing
  import opened Sequences
  import opened Storage
  import opened Strings
  import opened Tables
  import opened TokenNetting
  import opened Trades

  datatype BalanceRow = BalanceRow(
    signature: string, slot: u64, blockTime: Option<int>, mint: string, pre: u64, post: u64, decimals: u8)
  {
    function Key(): PairKey { (signature, mint) }

    function Delta(): TokenDelta { TokenDelta(mint, pre, post, decimals) }
  }

  function RowAt(tokens: Table<PairKey, TokenValue>, key: PairKey): BalanceRow
    requires key in tokens
  {
    var v := tokens[key].value;
    BalanceRow(key.0, tokens[key].slot, v.blockTime, key.1, v.pre, v.post, v.decimals)
  }

  /** The rows of the slots of the range, each once. */
  ghost predicate IsBalanceQuery(tokens: Table<PairKey, TokenValue>, fromSlot: u64, toSlot: u64, rows: seq<BalanceRow>) {
    && (forall k :: 0 <= k < |rows| ==> IsRowOf(tokens, fromSlot, toSlot, rows[k]))
    && (forall r: BalanceRow :: IsRowOf(tokens, fromSlot, toSlot, r) ==> r in rows)
    && DistinctRows(rows)
  }

  ghost predicate IsRowOf(tokens: Table<PairKey, TokenValue>, fromSlot: u64, toSlot: u64, r: BalanceRow) {
    && Between(r.slot, fromSlot, toSlot)
    && (r.signature, r.mint) in tokens
    && tokens[(r.signature, r.mint)] == Stored(r.slot, TokenValue(r.blockTime, r.pre, r.post, r.decimals))
  }

  ghost predicate DistinctRows(rows: seq<BalanceRow>) {
    forall k, l :: 0 <= k < l < |rows| ==> rows[k].Key() != rows[l].Key()
  }

  /** ORDER BY slot ASC, tx_signature ASC: `b` does not belong before `a`. */
  predicate MayPrecede(a: BalanceRow, b: BalanceRow) {
    AsI64(a.slot) < AsI64(b.slot) || (AsI64(a.slot) == AsI64(b.slot) && !Less(b.signature, a.signature))
  }

  ghost predicate InQueryOrder(rows: seq<BalanceRow>) {
    forall k, l :: 0 <= k < l < |rows| ==> MayPrecede(rows[k], rows[l])
  }

  /** By slot, as compared by the database, and by signature within a slot. */
  ghost predicate BySlotAndSignature(rows: seq<BalanceRow>) {
    forall k, l :: 0 <= k < l < |rows| ==>
      && AsI64(rows[k].slot) <= AsI64(rows[l].slot)
      && (rows[k].slot == rows[l].slot ==>
            rows[k].signature == rows[l].signature || Less(rows[k].signature, rows[l].signature))
  }

  lemma {:induction false} OrderMeaning(rows: seq<BalanceRow>)
    requires InQueryOrder(rows)
    ensures BySlotAndSignature(rows)
  {
    hide AsI64, Less;
    forall k, l | 0 <= k < l < |rows|
      ensures AsI64(rows[k].slot) <= AsI64(rows[l].slot)
      ensures rows[k].slot == rows[l].slot ==>
        rows[k].signature == rows[l].signature || Less(rows[k].signature, rows[l].signature)
    {
      assert MayPrecede(rows[k], rows[l]);
      LessIsTotal(rows[k].signature, rows[l].signature);
    }
  }

  lemma {:induction false} OrderIsTotal(a: BalanceRow, b: BalanceRow)
    ensures MayPrecede(a, b) || MayPrecede(b, a)
  {
    LessIsStrict(a.signature, b.signature);
  }

  lemma {:induction false} OrderIsTransitive(a: BalanceRow, b: BalanceRow, c: BalanceRow)
    requires MayPrecede(a, b) && MayPrecede(b, c)
    ensures MayPrecede(a, c)
  {
    LessIsTotal(a.signature, b.signature);
    LessIsTotal(b.signature, c.signature);
    if Less(a.signature, b.signature) && Less(b.signature, c.signature) {
      LessIsTransitive(a.signature, b.signature, c.signature);
    }
    LessIsStrict(a.signature, c.signature);
  }

  lemma {:induction false} InsertInOrder(rows: seq<BalanceRow>, p: nat, r: BalanceRow)
    requires InQueryOrder(rows) && p <= |rows|
    requires p == 0 || MayPrecede(rows[p - 1], r)
    requires forall l :: p <= l < |rows| ==> MayPrecede(r, rows[l])
    ensures InQueryOrder(rows[..p] + [r] + rows[p..])
  {
    hide MayPrecede;
    forall l | 0 <= l < p ensures MayPrecede(rows[l], r) {
      if l < p - 1 { OrderIsTransitive(rows[l], rows[p - 1], r); }
    }
  }

  /** The rows collected from the keys looked at so far. */
  ghost predicate Collected(
      tokens: Table<PairKey, TokenValue>, fromSlot: u64, toSlot: u64, seen: set<PairKey>, rows: seq<BalanceRow>) {
    && (forall k :: 0 <= k < |rows| ==> IsRowOf(tokens, fromSlot, toSlot, rows[k]) && rows[k].Key() in seen)
    && (forall r: BalanceRow :: r.Key() in seen && IsRowOf(tokens, fromSlot, toSlot, r) ==> r in rows)
    && DistinctRows(rows)
  }

  lemma {:induction false} RowAtIsRow(tokens: Table<PairKey, TokenValue>, fromSlot: u64, toSlot: u64, key: PairKey)
    requires key in tokens && Between(tokens[key].slot, fromSlot, toSlot)
    ensures RowAt(tokens, key).Key() == key
    ensures forall r: BalanceRow :: r.Key() == key ==> (IsRowOf(tokens, fromSlot, toSlot, r) <==> r == RowAt(tokens, key))
  {
  }

  lemma {:induction false} OutOfRange(
      tokens: Table<PairKey, TokenValue>, fromSlot: u64, toSlot: u64, seen: set<PairKey>, rows: seq<BalanceRow>, key: PairKey)
    requires Collected(tokens, fromSlot, toSlot, seen, rows)
    requires key in tokens && !Between(tokens[key].slot, fromSlot, toSlot)
    ensures Collected(tokens, fromSlot, toSlot, seen + {key}, rows)
  {
    hide Between, DistinctRows;
  }

  lemma {:induction false} InsertDistinct(rows: seq<BalanceRow>, p: nat, r: BalanceRow)
    requires DistinctRows(rows) && p <= |rows| && forall k :: 0 <= k < |rows| ==> rows[k].Key() != r.Key()
    ensures DistinctRows(rows[..p] + [r] + rows[p..])
  {
    var more := rows[..p] + [r] + rows[p..];
    assert forall k :: 0 <= k < |more| ==> more[k] == if k < p then rows[k] else if k == p then r else rows[k - 1];
  }

  lemma {:induction false} CollectOne(
      tokens: Table<PairKey, TokenValue>, fromSlot: u64, toSlot: u64, seen: set<PairKey>, rows: seq<BalanceRow>,
      p: nat, key: PairKey)
    requires Collected(tokens, fromSlot, toSlot, seen, rows) && p <= |rows|
    requires key in tokens && key !in seen && Between(tokens[key].slot, fromSlot, toSlot)
    ensures Collected(tokens, fromSlot, toSlot, seen + {key}, rows[..p] + [RowAt(tokens, key)] + rows[p..])
  {
    hide Between, IsRowOf, RowAt, DistinctRows;
    var r, more := RowAt(tokens, key), rows[..p] + [RowAt(tokens, key)] + rows[p..];
    RowAtIsRow(tokens, fromSlot, toSlot, key);
    InsertDistinct(rows, p, r);
    assert rows == rows[..p] + rows[p..];
    forall x ensures x in more <==> x in rows || x == r {
    }
    forall k | 0 <= k < |more| ensures IsRowOf(tokens, fromSlot, toSlot, more[k]) && more[k].Key() in seen + {key} {
      assert more[k] == if k < p then rows[k] else if k == p then r else rows[k - 1];
    }
  }

  method QueryBalanceChanges(tokens: Table<PairKey, TokenValue>, fromSlot: u64, toSlot: u64) returns (rows: seq<BalanceRow>)
    ensures IsBalanceQuery(tokens, fromSlot, toSlot, rows) && BySlotAndSignature(rows)
  {
    hide Between, MayPrecede, IsRowOf, RowAt, DistinctRows;
    rows := [];
    var rest := tokens.Keys;
    assert Collected(tokens, fromSlot, toSlot, tokens.Keys - rest, rows) by { NothingCollected(tokens, fromSlot, toSlot); }
    while rest != {}
      invariant rest <= tokens.Keys && InQueryOrder(rows)
      invariant Collected(tokens, fromSlot, toSlot, tokens.Keys - rest, rows)
      decreases |rest|
    {
      var key :| key in rest;
      assert tokens.Keys - (rest - {key}) == tokens.Keys - rest + {key};
      if Between(tokens[key].slot, fromSlot, toSlot) {
        var p := PlaceOf(rows, RowAt(tokens, key));
        CollectOne(tokens, fromSlot, toSlot, tokens.Keys - rest, rows, p, key);
        InsertInOrder(rows, p, RowAt(tokens, key));
        rows := rows[..p] + [RowAt(tokens, key)] + rows[p..];
      } else {
        OutOfRange(tokens, fromSlot, toSlot, tokens.Keys - rest, rows, key);
      }
      rest := rest - {key};
    }
    assert tokens.Keys - {} == tokens.Keys;
    AllCollected(tokens, fromSlot, toSlot, rows);
    OrderMeaning(rows);
  }

  lemma {:induction false} AllCollected(tokens: Table<PairKey, TokenValue>, fromSlot: u64, toSlot: u64, rows: seq<BalanceRow>)
    requires Collected(tokens, fromSlot, toSlot, tokens.Keys, rows)
    ensures IsBalanceQuery(tokens, fromSlot, toSlot, rows)
  {
    hide Between, DistinctRows;
  }

  lemma {:induction false} NothingCollected(tokens: Table<PairKey, TokenValue>, fromSlot: u64, toSlot: u64)
    ensures Collected(tokens, fromSlot, toSlot, tokens.Keys - tokens.Keys, [])
  {
  }

  method PlaceOf(rows: seq<BalanceRow>, r: BalanceRow) returns (p: nat)
    ensures p <= |rows| && (p == 0 || MayPrecede(rows[p - 1], r))
    ensures forall l :: p <= l < |rows| ==> MayPrecede(r, rows[l])
  {
    hide MayPrecede;
    p := |rows|;
    while p > 0 && !MayPrecede(rows[p - 1], r)
      invariant 0 <= p <= |rows|
      invariant forall l :: p <= l < |rows| ==> MayPrecede(r, rows[l])
    {
      OrderIsTotal(rows[p - 1], r);
      p := p - 1;
    }
  }

  // ---------------- Grouping by signature ----------------

  /** The deltas of the signature's rows that have a block time, in row order. */
  function DeltasOf(rows: seq<BalanceRow>, signature: string): seq<TokenDelta> {
    if rows == [] then []
    else
      var r := rows[|rows| - 1];
      DeltasOf(rows[..|rows| - 1], signature) + if r.signature == signature && r.blockTime.Some? then [r.Delta()] else []
  }

  /** The block time of the first of these rows. */
  function TimeOf(rows: seq<BalanceRow>, signature: string): int {
    if rows == [] then 0
    else if DeltasOf(rows[..|rows| - 1], signature) != [] then TimeOf(rows[..|rows| - 1], signature)
    else if rows[|rows| - 1].blockTime.Some? then rows[|rows| - 1].blockTime.value else 0
  }

  function SnapshotOf(rows: seq<BalanceRow>, signature: string): TxSnapshot {
    TxSnapshot(signature, TimeOf(rows, signature), DeltasOf(rows, signature))
  }

  ghost predicate DistinctSnapshots(snapshots: seq<TxSnapshot>) {
    forall k, l :: 0 <= k < l < |snapshots| ==> snapshots[k].signature != snapshots[l].signature
  }

  /** One snapshot per signature that has a row with a block time, in any order. */
  ghost predicate IsSnapshots(rows: seq<BalanceRow>, snapshots: seq<TxSnapshot>) {
    && (forall x :: x in snapshots <==> x.tokenDeltas != [] && x == SnapshotOf(rows, x.signature))
    && DistinctSnapshots(snapshots)
  }

  /** Row `k` has a block time and belongs to the transaction. */
  ghost predicate IsTimedRow(rows: seq<BalanceRow>, signature: string, k: nat) {
    k < |rows| && rows[k].signature == signature && rows[k].blockTime.Some?
  }

  ghost predicate HasAmountsOf(d: TokenDelta, r: BalanceRow) {
    d.mint == r.mint && d.pre == r.pre && d.post == r.post && d.decimals == r.decimals
  }

  /** The deltas are the amounts of the rows at `pos`, all timed ones of the transaction, in row order. */
  ghost predicate DeltasAt(rows: seq<BalanceRow>, signature: string, deltas: seq<TokenDelta>, pos: seq<nat>) {
    && |pos| == |deltas| && Increasing(pos)
    && (forall m :: 0 <= m < |pos| ==> IsTimedRow(rows, signature, pos[m]) && HasAmountsOf(deltas[m], rows[pos[m]]))
    && (forall k: nat :: IsTimedRow(rows, signature, k) ==> k in pos)
  }

  /** The snapshot holds its transaction's timed rows and the time of the first of them. */
  ghost predicate HoldsRows(rows: seq<BalanceRow>, x: TxSnapshot, pos: seq<nat>) {
    && DeltasAt(rows, x.signature, x.tokenDeltas, pos)
    && (pos != [] ==> rows[pos[0]].blockTime == Some(x.blockTime))
  }

  lemma {:induction false} OneMoreTimedRow(rows: seq<BalanceRow>, signature: string, deltas: seq<TokenDelta>, pos: seq<nat>)
    requires rows != [] && DeltasAt(rows[..|rows| - 1], signature, deltas, pos)
    ensures var n := |rows| - 1;
      if IsTimedRow(rows, signature, n) then DeltasAt(rows, signature, deltas + [rows[n].Delta()], pos + [n])
      else DeltasAt(rows, signature, deltas, pos)
  {
    var n := |rows| - 1;
    forall k: nat ensures IsTimedRow(rows, signature, k) <==> IsTimedRow(rows[..n], signature, k) || (k == n && IsTimedRow(rows, signature, n)) {
    }
    assert forall k :: k in pos ==> k in pos + [n];
    assert n in pos + [n];
    hide IsTimedRow;
    assert forall m :: 0 <= m < |pos| ==> IsTimedRow(rows, signature, pos[m]);
    assert forall m :: 0 <= m < |pos| ==> HasAmountsOf(deltas[m], rows[..n][pos[m]]);
  }

  lemma {:induction false} TimedRows(rows: seq<BalanceRow>, signature: string) returns (pos: seq<nat>)
    ensures DeltasAt(rows, signature, DeltasOf(rows, signature), pos)
    ensures pos != [] ==> rows[pos[0]].blockTime == Some(TimeOf(rows, signature))
  {
    pos := [];
    if rows != [] {
      var n := |rows| - 1;
      pos := TimedRows(rows[..n], signature);
      OneMoreTimedRow(rows, signature, DeltasOf(rows[..n], signature), pos);
      assert |pos| == |DeltasOf(rows[..n], signature)|;
      assert pos != [] ==> pos[0] < n by { assert pos != [] ==> IsTimedRow(rows[..n], signature, pos[0]); }
      hide DeltasAt;
      if IsTimedRow(rows, signature, n) { pos := pos + [n]; }
    }
  }

  /** Every snapshot holds its transaction's timed rows; every timed row is held by a snapshot. */
  lemma {:induction false} SnapshotsHoldRows(rows: seq<BalanceRow>, snapshots: seq<TxSnapshot>)
    requires IsSnapshots(rows, snapshots)
    ensures forall x :: x in snapshots ==> exists pos :: pos != [] && HoldsRows(rows, x, pos)
    ensures forall k: nat, signature :: IsTimedRow(rows, signature, k) ==> exists x :: x in snapshots && x.signature == signature
  {
    hide DeltasOf, TimeOf;
    forall x | x in snapshots ensures exists pos :: pos != [] && HoldsRows(rows, x, pos) {
      var pos := TimedRows(rows, x.signature);
      assert |pos| == |x.tokenDeltas|;
      assert HoldsRows(rows, x, pos);
    }
    forall k: nat, signature | IsTimedRow(rows, signature, k) ensures exists x :: x in snapshots && x.signature == signature {
      var pos := TimedRows(rows, signature);
      assert k in pos;
      assert SnapshotOf(rows, signature) in snapshots;
    }
  }

  method GroupBySignature(rows: seq<BalanceRow>) returns (bySig: map<string, TxSnapshot>)
    ensures forall sig :: sig in bySig <==> DeltasOf(rows, sig) != []
    ensures forall sig :: sig in bySig ==> bySig[sig] == SnapshotOf(rows, sig)
  {
    bySig := map[];
    for i := 0 to |rows|
      invariant forall sig :: sig in bySig <==> DeltasOf(rows[..i], sig) != []
      invariant forall sig :: sig in bySig ==> bySig[sig] == SnapshotOf(rows[..i], sig)
    {
      assert rows[..i + 1][..i] == rows[..i];
      var r := rows[i];
      if r.blockTime.Some? {
        var tx := if r.signature in bySig then bySig[r.signature] else TxSnapshot(r.signature, r.blockTime.value, []);
        bySig := bySig[r.signature := tx.(tokenDeltas := tx.tokenDeltas + [r.Delta()])];
      }
    }
    assert rows[..|rows|] == rows;
  }

  method SnapshotsFromBalanceRows(rows: seq<BalanceRow>) returns (snapshots: seq<TxSnapshot>)
    ensures IsSnapshots(rows, snapshots)
  {
    hide DeltasOf, TimeOf;
    var bySig := GroupBySignature(rows);
    snapshots := [];
    var rest := bySig.Keys;
    while rest != {}
      invariant rest <= bySig.Keys
      invariant forall x :: x in snapshots <==> x.signature in bySig.Keys - rest && x == bySig[x.signature]
      invariant forall k, l :: 0 <= k < l < |snapshots| ==> snapshots[k].signature != snapshots[l].signature
      decreases |rest|
    {
      var sig :| sig in rest;
      assert forall k :: 0 <= k < |snapshots| ==> snapshots[k] in snapshots;
      rest := rest - {sig};
      snapshots := snapshots + [bySig[sig]];
    }
  }

  // ---------------- Trades of all snapshots ----------------

  function AllTrades(snapshots: seq<TxSnapshot>): seq<Trade> {
    if snapshots == [] then [] else AllTrades(snapshots[..|snapshots| - 1]) + InferredTrades(snapshots[|snapshots| - 1])
  }

  method InferAll(snapshots: seq<TxSnapshot>) returns (trades: seq<Trade>)
    ensures trades == AllTrades(snapshots)
  {
    trades := [];
    for i := 0 to |snapshots|
      invariant trades == AllTrades(snapshots[..i])
    {
      assert snapshots[..i + 1][..i] == snapshots[..i];
      var some := InferTrades(snapshots[i]);
      trades := trades + some;
    }
    assert snapshots[..|snapshots|] == snapshots;
  }

  lemma {:induction false} AllTradesMembers(snapshots: seq<TxSnapshot>, t: Trade)
    ensures t in AllTrades(snapshots) <==> exists x :: x in snapshots && t in InferredTrades(x)
  {
    hide InferredTrades;
    if snapshots != [] {
      var init, last := snapshots[..|snapshots| - 1], snapshots[|snapshots| - 1];
      AllTradesMembers(init, t);
      assert snapshots == init + [last];
    }
  }

  /** A trade carries the signature and the time of its snapshot. */
  lemma {:induction false} TradeOfSnapshot(x: TxSnapshot, t: Trade)
    requires t in InferredTrades(x)
    ensures t.signature == x.signature && t.time == x.blockTime
  {
    var w := FindMint(x.tokenDeltas, WSOL_MINT).value;
    TradesOfMembers(x, DeltaUi(w), |x.tokenDeltas|, t);
  }

  // ---------------- One row per mint ----------------

  lemma {:induction false} DeltaComesFromRow(rows: seq<BalanceRow>, signature: string, d: TokenDelta)
    ensures d in DeltasOf(rows, signature) <==>
      exists r :: r in rows && r.signature == signature && r.blockTime.Some? && r.Delta() == d
  {
    if rows != [] {
      var init, last := rows[..|rows| - 1], rows[|rows| - 1];
      DeltaComesFromRow(init, signature, d);
      assert rows == init + [last];
    }
  }

  /** The primary key of the balance table gives every snapshot one row per mint. */
  lemma {:induction false} MintsAreDistinct(rows: seq<BalanceRow>, signature: string)
    requires DistinctRows(rows)
    ensures DistinctMints(DeltasOf(rows, signature))
  {
    if rows != [] {
      var n := |rows| - 1;
      MintsAreDistinct(rows[..n], signature);
      var before := DeltasOf(rows[..n], signature);
      if rows[n].signature == signature {
        forall k | 0 <= k < |before| ensures before[k].mint != rows[n].mint {
          DeltaComesFromRow(rows[..n], signature, before[k]);
          assert before[k] in before;
          var r :| r in rows[..n] && r.signature == signature && r.Delta() == before[k];
          var l :| 0 <= l < n && rows[..n][l] == r;
          assert rows[l].Key() != rows[n].Key();
        }
      }
    }
  }

  lemma {:induction false} TimeComesFromRow(rows: seq<BalanceRow>, signature: string)
    requires DeltasOf(rows, signature) != []
    ensures exists r :: r in rows && r.signature == signature && r.blockTime == Some(TimeOf(rows, signature))
  {
    var init, last := rows[..|rows| - 1], rows[|rows| - 1];
    assert rows == init + [last];
    if DeltasOf(init, signature) != [] { TimeComesFromRow(init, signature); } else { assert last in rows; }
  }

  // ---------------- Trades are the swaps of the balance table ----------------

  /** The table holds a row with a block time for the key, in the range. */
  ghost predicate Timed(tokens: Table<PairKey, TokenValue>, fromSlot: u64, toSlot: u64, key: PairKey) {
    key in tokens && Between(tokens[key].slot, fromSlot, toSlot) && tokens[key].value.blockTime.Some?
  }

  /** The stored amounts of the key. */
  ghost function DeltaAt(tokens: Table<PairKey, TokenValue>, key: PairKey): TokenDelta
    requires key in tokens
  {
    TokenDelta(key.1, tokens[key].value.pre, tokens[key].value.post, tokens[key].value.decimals)
  }

  /** The stored rows of the transaction for the mint and for wSOL are the two sides of a swap. */
  ghost predicate StoredSwap(
      tokens: Table<PairKey, TokenValue>, fromSlot: u64, toSlot: u64, signature: string, mint: string) {
    && Timed(tokens, fromSlot, toSlot, (signature, mint)) && Timed(tokens, fromSlot, toSlot, (signature, WSOL_MINT))
    && Swap(DeltaAt(tokens, (signature, mint)), DeltaAt(tokens, (signature, WSOL_MINT)))
  }

  /** The trade has the amounts of the swap's rows and the time of one of the transaction's rows. */
  ghost predicate RecordsSwap(tokens: Table<PairKey, TokenValue>, fromSlot: u64, toSlot: u64, t: Trade) {
    && StoredSwap(tokens, fromSlot, toSlot, t.signature, t.mint)
    && HasAmounts(t, DeltaAt(tokens, (t.signature, t.mint)), DeltaAt(tokens, (t.signature, WSOL_MINT)))
    && exists key ::
         && Timed(tokens, fromSlot, toSlot, key) && key.0 == t.signature
         && tokens[key].value.blockTime.value == t.time
  }

  ghost predicate Traded(trades: seq<Trade>, signature: string, mint: string) {
    exists t :: t in trades && t.signature == signature && t.mint == mint
  }

  ghost predicate OnePerMint(trades: seq<Trade>) {
    forall i, j :: 0 <= i < j < |trades| ==> trades[i].signature != trades[j].signature || trades[i].mint != trades[j].mint
  }

  lemma {:induction false} DeltaIsStored(
      tokens: Table<PairKey, TokenValue>, fromSlot: u64, toSlot: u64, rows: seq<BalanceRow>, signature: string, d: TokenDelta)
    requires IsBalanceQuery(tokens, fromSlot, toSlot, rows)
    ensures d in DeltasOf(rows, signature) <==>
      Timed(tokens, fromSlot, toSlot, (signature, d.mint)) && DeltaAt(tokens, (signature, d.mint)) == d
  {
    hide Between;
    DeltaComesFromRow(rows, signature, d);
    if d in DeltasOf(rows, signature) {
      var r :| r in rows && r.signature == signature && r.blockTime.Some? && r.Delta() == d;
      var k :| 0 <= k < |rows| && rows[k] == r;
      assert IsRowOf(tokens, fromSlot, toSlot, rows[k]) && r.Key() == (signature, d.mint);
    }
    if Timed(tokens, fromSlot, toSlot, (signature, d.mint)) && DeltaAt(tokens, (signature, d.mint)) == d {
      var r := RowAt(tokens, (signature, d.mint));
      assert IsRowOf(tokens, fromSlot, toSlot, r) && r in rows;
    }
  }

  /** The snapshot of a signature that has a delta is among the snapshots. */
  lemma {:induction false} SnapshotPresent(rows: seq<BalanceRow>, snapshots: seq<TxSnapshot>, signature: string, d: TokenDelta)
    requires IsSnapshots(rows, snapshots) && d in DeltasOf(rows, signature)
    ensures SnapshotOf(rows, signature) in snapshots
  {
    assert SnapshotOf(rows, signature).tokenDeltas != [];
  }

  lemma {:induction false} SwapIsTraded(
      tokens: Table<PairKey, TokenValue>, fromSlot: u64, toSlot: u64, rows: seq<BalanceRow>, snapshots: seq<TxSnapshot>,
      signature: string, mint: string)
    requires IsBalanceQuery(tokens, fromSlot, toSlot, rows) && IsSnapshots(rows, snapshots)
    requires StoredSwap(tokens, fromSlot, toSlot, signature, mint)
    ensures Traded(AllTrades(snapshots), signature, mint)
  {
    hide Between, InferredTrades, Swap, IsBalanceQuery;
    var d, w := DeltaAt(tokens, (signature, mint)), DeltaAt(tokens, (signature, WSOL_MINT));
    DeltaIsStored(tokens, fromSlot, toSlot, rows, signature, d);
    DeltaIsStored(tokens, fromSlot, toSlot, rows, signature, w);
    SnapshotPresent(rows, snapshots, signature, d);
    var x := SnapshotOf(rows, signature);
    assert DistinctMints(x.tokenDeltas) by { QueryIsDistinct(tokens, fromSlot, toSlot, rows); MintsAreDistinct(rows, signature); }
    SwapFound(x, d, w);
    var t :| t in InferredTrades(x) && IsTradeOf(x, t, d, w);
    AllTradesMembers(snapshots, t);
  }

  lemma {:induction false} QueryIsDistinct(tokens: Table<PairKey, TokenValue>, fromSlot: u64, toSlot: u64, rows: seq<BalanceRow>)
    requires IsBalanceQuery(tokens, fromSlot, toSlot, rows)
    ensures DistinctRows(rows)
  {
  }

  lemma {:induction false} TradeIsSwap(
      tokens: Table<PairKey, TokenValue>, fromSlot: u64, toSlot: u64, rows: seq<BalanceRow>, snapshots: seq<TxSnapshot>, t: Trade)
    requires IsBalanceQuery(tokens, fromSlot, toSlot, rows) && IsSnapshots(rows, snapshots) && t in AllTrades(snapshots)
    ensures RecordsSwap(tokens, fromSlot, toSlot, t)
  {
    hide Between, InferredTrades, IsBalanceQuery, RecordsSwap, IsTradeOf, DeltasOf, TimeOf, AllTrades;
    AllTradesMembers(snapshots, t);
    var x :| x in snapshots && t in InferredTrades(x);
    assert DistinctMints(x.tokenDeltas) by { QueryIsDistinct(tokens, fromSlot, toSlot, rows); MintsAreDistinct(rows, x.signature); }
    TradesAreSwaps(x);
    var d, w :| d in x.tokenDeltas && w in x.tokenDeltas && IsTradeOf(x, t, d, w);
    SwapIsRecorded(tokens, fromSlot, toSlot, rows, x, t, d, w);
  }

  lemma {:induction false} SwapIsRecorded(
      tokens: Table<PairKey, TokenValue>, fromSlot: u64, toSlot: u64, rows: seq<BalanceRow>, x: TxSnapshot, t: Trade,
      d: TokenDelta, w: TokenDelta)
    requires IsBalanceQuery(tokens, fromSlot, toSlot, rows) && x == SnapshotOf(rows, x.signature)
    requires d in x.tokenDeltas && w in x.tokenDeltas && IsTradeOf(x, t, d, w)
    ensures RecordsSwap(tokens, fromSlot, toSlot, t)
  {
    hide Between, IsBalanceQuery, Timed, DeltaAt, DeltasOf, TimeOf, HasAmounts, Moved, Pow10;
    DeltaIsStored(tokens, fromSlot, toSlot, rows, x.signature, d);
    DeltaIsStored(tokens, fromSlot, toSlot, rows, x.signature, w);
    TimeIsStored(tokens, fromSlot, toSlot, rows, x.signature);
  }

  lemma {:induction false} TimeIsStored(
      tokens: Table<PairKey, TokenValue>, fromSlot: u64, toSlot: u64, rows: seq<BalanceRow>, signature: string)
    requires IsBalanceQuery(tokens, fromSlot, toSlot, rows) && DeltasOf(rows, signature) != []
    ensures exists key ::
      && Timed(tokens, fromSlot, toSlot, key) && key.0 == signature
      && tokens[key].value.blockTime.value == TimeOf(rows, signature)
  {
    hide Between;
    TimeComesFromRow(rows, signature);
    var r :| r in rows && r.signature == signature && r.blockTime == Some(TimeOf(rows, signature));
    var k :| 0 <= k < |rows| && rows[k] == r;
    assert IsRowOf(tokens, fromSlot, toSlot, rows[k]);
    assert Timed(tokens, fromSlot, toSlot, r.Key());
  }

  lemma {:induction false} OneMoreTransaction(before: seq<Trade>, more: seq<Trade>)
    requires OnePerMint(before)
    requires forall i, j :: 0 <= i < j < |more| ==> more[i].mint != more[j].mint
    requires forall i, j :: 0 <= i < |before| && 0 <= j < |more| ==> before[i].signature != more[j].signature
    ensures OnePerMint(before + more)
  {
    var all, n := before + more, |before|;
    forall i, j | 0 <= i < j < |all| ensures all[i].signature != all[j].signature || all[i].mint != all[j].mint {
      if i >= n { assert all[i] == more[i - n] && all[j] == more[j - n]; }
      if i < n <= j { assert all[i] == before[i] && all[j] == more[j - n]; }
    }
  }

  lemma {:induction false} TradesOnePerMint(snapshots: seq<TxSnapshot>)
    requires DistinctSnapshots(snapshots) && forall x :: x in snapshots ==> DistinctMints(x.tokenDeltas)
    ensures OnePerMint(AllTrades(snapshots))
  {
    hide InferredTrades, DistinctMints;
    if snapshots != [] {
      var n := |snapshots| - 1;
      var before, more := AllTrades(snapshots[..n]), InferredTrades(snapshots[n]);
      assert forall x :: x in snapshots[..n] ==> x in snapshots;
      TradesOnePerMint(snapshots[..n]);
      hide OnePerMint, AllTrades;
      assert snapshots[n] in snapshots;
      EachMintOnce(snapshots[n]);
      forall i, j | 0 <= i < |before| && 0 <= j < |more| ensures before[i].signature != more[j].signature {
        AllTradesMembers(snapshots[..n], before[i]);
        assert before[i] in before && more[j] in more;
        var x :| x in snapshots[..n] && before[i] in InferredTrades(x);
        TradeOfSnapshot(x, before[i]);
        TradeOfSnapshot(snapshots[n], more[j]);
      }
      OneMoreTransaction(before, more);
      assert AllTrades(snapshots) == before + more by { LastTradesAppended(snapshots); }
    }
  }

  lemma {:induction false} LastTradesAppended(snapshots: seq<TxSnapshot>)
    requires snapshots != []
    ensures AllTrades(snapshots) == AllTrades(snapshots[..|snapshots| - 1]) + InferredTrades(snapshots[|snapshots| - 1])
  {
  }

  /**
   The trades of a range are exactly the swaps recorded by the stored rows: a transaction and a mint
   have a trade if and only if their row in the table moves against the transaction's wSOL row, they
   have only one, and it carries the amounts of the two rows.
   */
  lemma {:induction false} TradesAreStoredSwaps(
      tokens: Table<PairKey, TokenValue>, fromSlot: u64, toSlot: u64, rows: seq<BalanceRow>, snapshots: seq<TxSnapshot>)
    requires IsBalanceQuery(tokens, fromSlot, toSlot, rows) && IsSnapshots(rows, snapshots)
    ensures forall signature, mint ::
      Traded(AllTrades(snapshots), signature, mint) <==> StoredSwap(tokens, fromSlot, toSlot, signature, mint)
    ensures forall t :: t in AllTrades(snapshots) ==> RecordsSwap(tokens, fromSlot, toSlot, t)
    ensures OnePerMint(AllTrades(snapshots))
  {
    hide StoredSwap, AllTrades, DeltasOf;
    forall t | t in AllTrades(snapshots)
      ensures RecordsSwap(tokens, fromSlot, toSlot, t) && StoredSwap(tokens, fromSlot, toSlot, t.signature, t.mint)
    {
      TradeIsSwap(tokens, fromSlot, toSlot, rows, snapshots, t);
    }
    forall signature, mint | StoredSwap(tokens, fromSlot, toSlot, signature, mint)
      ensures Traded(AllTrades(snapshots), signature, mint)
    {
      SwapIsTraded(tokens, fromSlot, toSlot, rows, snapshots, signature, mint);
    }
    forall x | x in snapshots ensures DistinctMints(x.tokenDeltas) { MintsAreDistinct(rows, x.signature); }
    TradesOnePerMint(snapshots);
  }

  // ---------------- Order of the snapshots ----------------

  lemma {:induction false} LastTrades(snapshots: seq<TxSnapshot>)
    requires snapshots != []
    ensures multiset(AllTrades(snapshots))
      == multiset(AllTrades(snapshots[..|snapshots| - 1])) + multiset(InferredTrades(snapshots[|snapshots| - 1]))
  {
    hide InferredTrades;
  }

  lemma {:induction false} TradesWithout(snapshots: seq<TxSnapshot>, k: nat)
    requires k < |snapshots|
    ensures multiset(AllTrades(snapshots))
      == multiset(AllTrades(snapshots[..k] + snapshots[k + 1..])) + multiset(InferredTrades(snapshots[k]))
  {
    hide AllTrades, InferredTrades;
    var n, rest := |snapshots| - 1, snapshots[..k] + snapshots[k + 1..];
    LastTrades(snapshots);
    if k < n {
      TradesWithout(snapshots[..n], k);
      assert rest[..|rest| - 1] == snapshots[..n][..k] + snapshots[..n][k + 1..];
      LastTrades(rest);
    } else {
      assert rest == snapshots[..n];
    }
  }

  lemma {:induction false} SameSnapshotsSameTrades(xs: seq<TxSnapshot>, ys: seq<TxSnapshot>)
    requires DistinctSnapshots(xs) && DistinctSnapshots(ys) && forall x :: x in xs <==> x in ys
    ensures multiset(AllTrades(xs)) == multiset(AllTrades(ys))
    decreases |xs|
  {
    assert ys == [] || ys[0] in ys;
    if xs != [] {
      var n := |xs| - 1;
      assert xs[n] in xs;
      var k :| 0 <= k < |ys| && ys[k] == xs[n];
      var ys' := ys[..k] + ys[k + 1..];
      RemoveOne(xs, n);
      RemoveOne(ys, k);
      assert xs[..n] + xs[n + 1..] == xs[..n];
      SameSnapshotsSameTrades(xs[..n], ys');
      TradesWithout(ys, k);
    }
  }

  lemma {:induction false} RemoveOne(xs: seq<TxSnapshot>, k: nat)
    requires k < |xs| && DistinctSnapshots(xs)
    ensures var rest := xs[..k] + xs[k + 1..]; DistinctSnapshots(rest) && forall x :: x in rest <==> x in xs && x != xs[k]
  {
    var rest := xs[..k] + xs[k + 1..];
    forall x ensures x in rest <==> x in xs && x != xs[k] {
      if x in xs && x != xs[k] {
        var l :| 0 <= l < |xs| && xs[l] == x;
        assert x == if l < k then rest[l] else rest[l - 1];
      }
    }
  }

  /** The hash map's order does not matter: the same trades come out, with the same multiplicities. */
  lemma {:induction false} SnapshotOrderIrrelevant(rows: seq<BalanceRow>, xs: seq<TxSnapshot>, ys: seq<TxSnapshot>)
    requires IsSnapshots(rows, xs) && IsSnapshots(rows, ys)
    ensures multiset(AllTrades(xs)) == multiset(AllTrades(ys))
  {
    SameSnapshotsSameTrades(xs, ys);
  }

  // ---------------- Failed transactions ----------------

  /** A stored token row belongs to a stored transaction that did not fail. */
  lemma {:induction false} RowOfSucceeded(flushes: seq<seq<ParsedBlock>>, key: PairKey)
    requires GoodRun(flushes) && key in FlushRun(EMPTY, flushes).tokens
    ensures key.0 in FlushRun(EMPTY, flushes).transactions && !FlushRun(EMPTY, flushes).transactions[key.0].value.failed
  {
    var db := FlushRun(EMPTY, flushes);
    var s := db.tokens[key].slot;
    assert key in SlotRows(db.tokens, s);
    RunHoldsLastBlocks(flushes, s);
    var f, b := OriginOfBlock(EMPTY, flushes, s);
    var p := LastFlushed(EMPTY, flushes, s).value;
    AsMapKeys(p.data.TokenRows());
    var k :| 0 <= k < |p.data.TokenRows()| && p.data.TokenRows()[k].0 == key;
    CoalescedHasRow(p.data.tokenChanges, k);
    var r :| r in p.data.tokenChanges && r.key == key;
    var i :| 0 <= i < |p.data.transactions| && !p.data.transactions[i].failed && p.data.transactions[i].signature == key.0;
    assert db.transactions[p.data.transactions[i].signature] == FinalRow(p, i);
  }

  /**
   No failed transaction contributes to a candle: after any run of flushes, the trades of any range
   carry only signatures of stored transactions that did not fail.
   */
  lemma {:induction false} NoTradeFromFailed(
      flushes: seq<seq<ParsedBlock>>, fromSlot: u64, toSlot: u64, rows: seq<BalanceRow>, snapshots: seq<TxSnapshot>, t: Trade)
    requires GoodRun(flushes) && IsBalanceQuery(FlushRun(EMPTY, flushes).tokens, fromSlot, toSlot, rows)
    requires IsSnapshots(rows, snapshots) && t in AllTrades(snapshots)
    ensures var transactions := FlushRun(EMPTY, flushes).transactions;
      t.signature in transactions && !transactions[t.signature].value.failed
  {
    AllTradesMembers(snapshots, t);
    var x :| x in snapshots && t in InferredTrades(x);
    TradeOfSnapshot(x, t);
    DeltaComesFromRow(rows, x.signature, x.tokenDeltas[0]);
    var r :| r in rows && r.signature == x.signature && r.Delta() == x.tokenDeltas[0];
    var k :| 0 <= k < |rows| && rows[k] == r;
    RowOfSucceeded(flushes, rows[k].Key());
  }
}

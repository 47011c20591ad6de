/**
 Building and storing the candles of a slot range (crates/cli/src/main.rs, lines 475-506, and
 crates/storage/src/repository.rs, lines 188-205).  A candle of the same mint, interval and window
 is overwritten.
 */
module CandleStore {
  import opened Candles
  import opened CandleOrder
  import opened CandleRollUp
  import opened CandleWindows
  import opened Numbers
  import opened Sequences
  import opened Snapshots
  import opened Storage
  import opened Trades

  /** (mint, interval, start of the window). */
  type CandleKey = (string, int, int)

  const MINUTE := 60

  const FIVE_MINUTES := 300

  predicate IsStoredInterval(w: int) { w == MINUTE || w == FIVE_MINUTES }

  // ---------------- The two stored series ----------------

  /** The five-minute series is the minute series rolled up. */
  lemma {:induction false} FiveMinutesRollUpMinutes(trades: seq<Trade>, mint: string)
    ensures SeriesOf(trades, mint, FIVE_MINUTES) == RollUp(SeriesOf(trades, mint, MINUTE), FIVE_MINUTES)
  {
    RollUpsCompose(Ticks(SortByTime(OfMint(trades, mint))), MINUTE, FIVE_MINUTES);
  }

  // ---------------- The table of candles ----------------

  function Upserted(candles: map<CandleKey, Candle>, mint: string, w: int, cs: seq<Candle>): map<CandleKey, Candle> {
    if cs == [] then candles
    else
      var c := cs[|cs| - 1];
      Upserted(candles, mint, w, cs[..|cs| - 1])[(mint, w, c.bucketStart) := c]
  }

  lemma {:induction false} UpsertedMeaning(candles: map<CandleKey, Candle>, mint: string, w: int, cs: seq<Candle>)
    requires Ascending(cs)
    ensures forall i :: 0 <= i < |cs| ==>
      && (mint, w, cs[i].bucketStart) in Upserted(candles, mint, w, cs)
      && Upserted(candles, mint, w, cs)[(mint, w, cs[i].bucketStart)] == cs[i]
    ensures forall key: CandleKey :: key.0 != mint || key.1 != w || !HasBucket(cs, key.2) ==>
      SameAt(candles, Upserted(candles, mint, w, cs), key)
  {
    if cs != [] {
      var n := |cs| - 1;
      UpsertedMeaning(candles, mint, w, cs[..n]);
      forall key: CandleKey | key.0 != mint || key.1 != w || !HasBucket(cs, key.2)
        ensures SameAt(candles, Upserted(candles, mint, w, cs), key)
      {
        assert key.2 == cs[n].bucketStart ==> HasBucket(cs, key.2);
        FewerBuckets(cs, key.2);
      }
    }
  }

  lemma {:induction false} FewerBuckets(cs: seq<Candle>, start: int)
    requires cs != []
    ensures HasBucket(cs[..|cs| - 1], start) ==> HasBucket(cs, start)
  {
    if HasBucket(cs[..|cs| - 1], start) {
      var i :| 0 <= i < |cs| - 1 && cs[..|cs| - 1][i].bucketStart == start;
      assert cs[i].bucketStart == start;
    }
  }

  ghost predicate SameAt<K, V>(m: map<K, V>, m': map<K, V>, key: K) {
    (key in m <==> key in m') && (key in m ==> m[key] == m'[key])
  }

  ghost predicate HoldsCandle(candles: map<CandleKey, Candle>, key: CandleKey, cs: seq<Candle>) {
    key in candles && exists i :: 0 <= i < |cs| && cs[i].bucketStart == key.2 && candles[key] == cs[i]
  }

  /** The series of the given mints and intervals have been written over the table. */
  ghost predicate Written(
      before: map<CandleKey, Candle>, after: map<CandleKey, Candle>, trades: seq<Trade>, done: set<(string, int)>) {
    forall key: CandleKey ::
      if (key.0, key.1) in done && key.1 > 0 && HasBucket(SeriesOf(trades, key.0, key.1), key.2)
      then HoldsCandle(after, key, SeriesOf(trades, key.0, key.1))
      else SameAt(before, after, key)
  }

  lemma {:induction false} TradePriceFinite(snapshots: seq<TxSnapshot>, t: Trade)
    requires t in AllTrades(snapshots)
    ensures Finite(t.price)
  {
    AllTradesMembers(snapshots, t);
    var x :| x in snapshots && t in InferredTrades(x);
    PricesAreFinite(x, t);
  }

  lemma {:induction false} OneMoreSeries(
      before: map<CandleKey, Candle>, after: map<CandleKey, Candle>, trades: seq<Trade>, done: set<(string, int)>,
      mint: string, w: int)
    requires w > 0 && Written(before, after, trades, done)
    ensures Written(before, Upserted(after, mint, w, SeriesOf(trades, mint, w)), trades, done + {(mint, w)})
  {
    hide RollUp, Ticks, SortByTime, OfMint;
    var cs := SeriesOf(trades, mint, w);
    SeriesOfMint(trades, mint, w);
    UpsertedMeaning(after, mint, w, cs);
    forall key: CandleKey ensures
      if (key.0, key.1) in done + {(mint, w)} && key.1 > 0 && HasBucket(SeriesOf(trades, key.0, key.1), key.2)
      then HoldsCandle(Upserted(after, mint, w, cs), key, SeriesOf(trades, key.0, key.1))
      else SameAt(before, Upserted(after, mint, w, cs), key)
    {
      if key.0 == mint && key.1 == w && HasBucket(cs, key.2) {
        var i :| 0 <= i < |cs| && cs[i].bucketStart == key.2;
        assert key == (mint, w, cs[i].bucketStart);
      } else {
        assert SameAt(after, Upserted(after, mint, w, cs), key);
      }
    }
  }

  lemma {:induction false} BothIntervals(
      before: map<CandleKey, Candle>, after: map<CandleKey, Candle>, trades: seq<Trade>, first: set<string>, second: set<string>)
    requires forall m :: m in first <==> OfMint(trades, m) != []
    requires forall m :: m in second <==> OfMint(trades, m) != []
    requires Written(before, after, trades, {} + (set m | m in first :: (m, MINUTE)) + set m | m in second :: (m, FIVE_MINUTES))
    ensures AllWritten(before, after, trades)
  {
    forall mint: string, w: int | w > 0 && OfMint(trades, mint) == [] ensures SeriesOf(trades, mint, w) == [] {
    }
  }

  /** For both intervals and every mint, the windows that have trades hold their candles, and only they changed. */
  ghost predicate AllWritten(before: map<CandleKey, Candle>, after: map<CandleKey, Candle>, trades: seq<Trade>) {
    forall key: CandleKey ::
      if IsStoredInterval(key.1) && HasBucket(SeriesOf(trades, key.0, key.1), key.2)
      then HoldsCandle(after, key, SeriesOf(trades, key.0, key.1))
      else SameAt(before, after, key)
  }

  /** The window has a trade of the mint. */
  ghost predicate HasTrade(trades: seq<Trade>, mint: string, start: int, w: int) {
    exists k: nat :: TradeInWindow(trades, mint, start, w, k)
  }

  /** The key holds the candle of its window. */
  ghost predicate HoldsWindow(candles: map<CandleKey, Candle>, trades: seq<Trade>, mint: string, w: int, start: int)
    requires w > 0
  {
    && (mint, w, start) in candles
    && candles[(mint, w, start)].bucketStart == start && IsWindowCandle(trades, mint, w, candles[(mint, w, start)])
  }

  /**
   For the intervals of one and five minutes, the windows that have trades of a mint hold the candles of
   these trades, windows starting at the multiples of the interval; nothing else changed.
   */
  ghost predicate WindowsWritten(before: map<CandleKey, Candle>, after: map<CandleKey, Candle>, trades: seq<Trade>) {
    forall mint: string, w: int, start: int ::
      if (w == 60 || w == 300) && start % w == 0 && HasTrade(trades, mint, start, w)
      then HoldsWindow(after, trades, mint, w, start)
      else SameAt(before, after, (mint, w, start))
  }

  lemma {:induction false} BucketIffTrade(trades: seq<Trade>, mint: string, w: int, start: int)
    requires w > 0
    ensures HasBucket(SeriesOf(trades, mint, w), start) <==> start % w == 0 && HasTrade(trades, mint, start, w)
  {
    hide SeriesOf, IsSeries, IsCandle;
    var cs := SeriesOf(trades, mint, w);
    SeriesOfMint(trades, mint, w);
    SeriesHoldsWindows(trades, mint, w, cs);
    if HasBucket(cs, start) {
      var i :| 0 <= i < |cs| && cs[i].bucketStart == start;
      CandleHasTrade(trades, mint, w, cs[i]);
    }
    if start % w == 0 && HasTrade(trades, mint, start, w) {
      var k: nat :| TradeInWindow(trades, mint, start, w, k);
      var i :| 0 <= i < |cs| && TradeInWindow(trades, mint, cs[i].bucketStart, w, k);
      CandleHasTrade(trades, mint, w, cs[i]);
      BucketIsWindow(trades[k].time, start, w);
      BucketIsWindow(trades[k].time, cs[i].bucketStart, w);
    }
  }

  lemma {:induction false} CandleHasTrade(trades: seq<Trade>, mint: string, w: int, c: Candle)
    requires w > 0 && IsWindowCandle(trades, mint, w, c)
    ensures c.bucketStart % w == 0 && HasTrade(trades, mint, c.bucketStart, w)
  {
    hide VolumeAt, InTimeOrder, HasPrice;
    var pos :| IsCandle(trades, mint, w, c, pos);
    assert TradeInWindow(trades, mint, c.bucketStart, w, pos[0]);
  }

  lemma {:induction false} WrittenMeansWindows(before: map<CandleKey, Candle>, after: map<CandleKey, Candle>, trades: seq<Trade>)
    requires AllWritten(before, after, trades)
    ensures WindowsWritten(before, after, trades)
  {
    hide SeriesOf, HasTrade, IsSeries, IsWindowCandle;
    forall mint: string, w: int, start: int ensures
      if (w == 60 || w == 300) && start % w == 0 && HasTrade(trades, mint, start, w)
      then HoldsWindow(after, trades, mint, w, start)
      else SameAt(before, after, (mint, w, start))
    {
      var key := (mint, w, start);
      if IsStoredInterval(w) {
        BucketIffTrade(trades, mint, w, start);
        if HasBucket(SeriesOf(trades, mint, w), start) {
          SeriesOfMint(trades, mint, w);
          SeriesHoldsWindows(trades, mint, w, SeriesOf(trades, mint, w));
          assert HoldsCandle(after, key, SeriesOf(trades, key.0, key.1));
        } else {
          assert SameAt(before, after, key);
        }
      } else {
        assert SameAt(before, after, key);
      }
    }
  }

  lemma {:induction false} NothingWritten(before: map<CandleKey, Candle>, trades: seq<Trade>)
    ensures Written(before, before, trades, {})
  {
  }

  class CandleTable {
    var candles: map<CandleKey, Candle>

    method UpsertCandles(mint: string, w: int, cs: seq<Candle>)
      modifies this
      ensures candles == Upserted(old(candles), mint, w, cs)
    {
      for i := 0 to |cs|
        invariant candles == Upserted(old(candles), mint, w, cs[..i])
      {
        assert cs[..i + 1][..i] == cs[..i];
        candles := candles[(mint, w, cs[i].bucketStart) := cs[i]];
      }
      assert cs[..|cs|] == cs;
    }

    /** The candles of all mints for one interval. */
    method StoreInterval(trades: seq<Trade>, w: int, ghost before: map<CandleKey, Candle>, ghost done: set<(string, int)>)
      returns (ghost mints: set<string>)
      requires w > 0 && forall t :: t in trades ==> Finite(t.price)
      requires Written(before, candles, trades, done)
      modifies this
      ensures Written(before, candles, trades, done + set m | m in mints :: (m, w))
      ensures forall m :: m in mints <==> OfMint(trades, m) != []
    {
      hide SeriesOf, Written, Upserted, IsSeries, OfMint, SortByTime;
      var byMint := BuildCandles(trades, w);
      mints := byMint.Keys;
      var rest := byMint.Keys;
      assert done + (set m | m in byMint.Keys - rest :: (m, w)) == done;
      while rest != {}
        invariant rest <= byMint.Keys
        invariant Written(before, candles, trades, done + set m | m in byMint.Keys - rest :: (m, w))
        decreases |rest|
      {
        var mint :| mint in rest;
        ghost var written := done + set m | m in byMint.Keys - rest :: (m, w);
        SeriesOfMint(trades, mint, w);
        SeriesUnique(SortByTime(OfMint(trades, mint)), w, byMint[mint], SeriesOf(trades, mint, w));
        OneMoreSeries(before, candles, trades, written, mint, w);
        assert written + {(mint, w)} == done + set m | m in byMint.Keys - (rest - {mint}) :: (m, w);
        UpsertCandles(mint, w, byMint[mint]);
        rest := rest - {mint};
      }
      assert byMint.Keys - {} == byMint.Keys;
    }

    /**
     Everything after the ingest: query, group, infer, and store both intervals.  `snapshots` is the
     order in which the hash map handed the transactions out.
     */
    method BuildAndStoreCandles(repo: Repository, fromSlot: u64, toSlot: u64)
      returns (ghost rows: seq<BalanceRow>, ghost snapshots: seq<TxSnapshot>)
      modifies this
      ensures IsBalanceQuery(repo.tokenBalanceChanges, fromSlot, toSlot, rows) && IsSnapshots(rows, snapshots)
      ensures WindowsWritten(old(candles), candles, AllTrades(snapshots))
      ensures AllWritten(old(candles), candles, AllTrades(snapshots))
    {
      hide Written, AllWritten, WindowsWritten, SeriesOf;
      var balanceRows := QueryBalanceChanges(repo.tokenBalanceChanges, fromSlot, toSlot);
      var txSnapshots := SnapshotsFromBalanceRows(balanceRows);
      rows, snapshots := balanceRows, txSnapshots;
      var trades := InferAll(txSnapshots);
      forall t | t in trades ensures Finite(t.price) { TradePriceFinite(txSnapshots, t); }
      ghost var before := candles;
      assert Written(before, candles, trades, {}) by { NothingWritten(before, trades); }
      ghost var first := StoreInterval(trades, MINUTE, before, {});
      ghost var second := StoreInterval(trades, FIVE_MINUTES, before, {} + set m | m in first :: (m, MINUTE));
      BothIntervals(before, candles, trades, first, second);
      WrittenMeansWindows(before, candles, trades);
    }
  }

  // ---------------- Consequences ----------------

  /** Every stored five-minute candle of the run is the fold of the run's minute candles of its window. */
  lemma {:induction false} StoredFiveMinutesRollUp(
      before: map<CandleKey, Candle>, after: map<CandleKey, Candle>, trades: seq<Trade>, mint: string, start: int)
    requires AllWritten(before, after, trades) && HasBucket(RollUp(SeriesOf(trades, mint, MINUTE), FIVE_MINUTES), start)
    ensures HoldsCandle(after, (mint, FIVE_MINUTES, start), RollUp(SeriesOf(trades, mint, MINUTE), FIVE_MINUTES))
  {
    FiveMinutesRollUpMinutes(trades, mint);
    var key := (mint, FIVE_MINUTES, start);
    assert IsStoredInterval(key.1) && HasBucket(SeriesOf(trades, key.0, key.1), key.2);
  }

  /**
   The order in which the hash map hands out the transactions shows only in opens and closes, and
   there only when trades of different prices share the first or the last instant of a window.
   */
  lemma {:induction false} StoredSeriesOrderIndependent(
      rows: seq<BalanceRow>, xs: seq<TxSnapshot>, ys: seq<TxSnapshot>, mint: string, w: int)
    requires IsSnapshots(rows, xs) && IsSnapshots(rows, ys) && w > 0
    ensures var cs, cs' := SeriesOf(AllTrades(xs), mint, w), SeriesOf(AllTrades(ys), mint, w);
      && |cs| == |cs'|
      && forall i :: 0 <= i < |cs| ==>
           SameUpToTies(cs[i], cs'[i], InBucket(SortByTime(OfMint(AllTrades(xs), mint)), cs[i].bucketStart, w))
  {
    SnapshotOrderIrrelevant(rows, xs, ys);
    SeriesOfMint(AllTrades(xs), mint, w);
    SeriesOfMint(AllTrades(ys), mint, w);
    SeriesOrderIndependent(AllTrades(xs), AllTrades(ys), mint, w, SeriesOf(AllTrades(xs), mint, w), SeriesOf(AllTrades(ys), mint, w));
  }

  // ---------------- When the hash map's order shows ----------------

  lemma {:induction false} OnlyTradeOfMint(trades: seq<Trade>, v: Trade)
    requires v in trades && forall i, j :: 0 <= i < j < |trades| ==> trades[i].mint != trades[j].mint
    ensures OfMint(trades, v.mint) == [v]
  {
    var n := |trades| - 1;
    assert trades == trades[..n] + [trades[n]];
    if trades[n] == v {
      forall t | t in trades[..n] ensures t.mint != v.mint {
        var k :| 0 <= k < n && trades[..n][k] == t;
      }
      OfMintMembers(trades[..n], v.mint);
      assert OfMint(trades[..n], v.mint) == [] by { HeadIsMember(OfMint(trades[..n], v.mint)); }
    } else {
      OnlyTradeOfMint(trades[..n], v);
      assert v in trades[..n];
      var k :| 0 <= k < n && trades[k] == v;
    }
  }

  lemma {:induction false} AllTradesAppend(xs: seq<TxSnapshot>, ys: seq<TxSnapshot>)
    ensures AllTrades(xs + ys) == AllTrades(xs) + AllTrades(ys)
  {
    hide InferredTrades;
    if ys == [] {
      assert xs + ys == xs;
    } else {
      assert (xs + ys)[..|xs + ys| - 1] == xs + ys[..|ys| - 1];
      AllTradesAppend(xs, ys[..|ys| - 1]);
    }
  }

  lemma {:induction false} AllTradesOfOne(x: TxSnapshot)
    ensures AllTrades([x]) == InferredTrades(x)
  {
    hide InferredTrades;
    assert [x][..0] == [];
  }

  /** The transaction can be handed out first, and last. */
  lemma {:induction false} MoveSnapshot(rows: seq<BalanceRow>, xs: seq<TxSnapshot>, k: nat)
    requires IsSnapshots(rows, xs) && k < |xs|
    ensures var rest := xs[..k] + xs[k + 1..]; IsSnapshots(rows, [xs[k]] + rest) && IsSnapshots(rows, rest + [xs[k]])
  {
    hide SnapshotOf;
    var rest := xs[..k] + xs[k + 1..];
    RemoveOne(xs, k);
    forall l | 0 <= l < |rest| ensures rest[l].signature != xs[k].signature {
      assert rest[l] == if l < k then xs[l] else xs[l + 1];
    }
    assert xs[k] in xs;
  }

  /** An order of the snapshots in which the trade is the first of its mint, and one in which it is the last. */
  lemma {:induction false} MoveTradeOfSnapshot(rows: seq<BalanceRow>, xs: seq<TxSnapshot>, v: Trade)
    returns (front: seq<TxSnapshot>, back: seq<TxSnapshot>)
    requires IsSnapshots(rows, xs) && DistinctRows(rows) && v in AllTrades(xs)
    ensures IsSnapshots(rows, front) && IsSnapshots(rows, back)
    ensures OfMint(AllTrades(front), v.mint) != [] && OfMint(AllTrades(front), v.mint)[0] == v
    ensures OfMint(AllTrades(back), v.mint) != []
    ensures OfMint(AllTrades(back), v.mint)[|OfMint(AllTrades(back), v.mint)| - 1] == v
  {
    hide AllTrades, InferredTrades, OfMint;
    AllTradesMembers(xs, v);
    var x :| x in xs && v in InferredTrades(x);
    var k :| 0 <= k < |xs| && xs[k] == x;
    var rest := xs[..k] + xs[k + 1..];
    front, back := [x] + rest, rest + [x];
    MoveSnapshot(rows, xs, k);
    MintsAreDistinct(rows, x.signature);
    TradesAreSwaps(x);
    OnlyTradeOfMint(InferredTrades(x), v);
    AllTradesOfOne(x);
    AllTradesAppend([x], rest);
    AllTradesAppend(rest, [x]);
    OfMintAppend(AllTrades([x]), AllTrades(rest), v.mint);
    OfMintAppend(AllTrades(rest), AllTrades([x]), v.mint);
  }

  /** In every window of the mint the earliest trades agree in price, and so do the latest. */
  ghost predicate TiesAgree(trades: seq<Trade>, mint: string, w: int)
    requires w > 0
  {
    forall i :: 0 <= i < |SeriesOf(trades, mint, w)| ==>
      EarliestAgree(Segment(trades, mint, w, i)) && LatestAgree(Segment(trades, mint, w, i))
  }

  /** Every order in which the hash map may hand out the transactions leads to the same series. */
  ghost predicate HashMapIrrelevant(rows: seq<BalanceRow>, xs: seq<TxSnapshot>, mint: string, w: int)
    requires w > 0
  {
    forall ys :: IsSnapshots(rows, ys) ==> SeriesOf(AllTrades(ys), mint, w) == SeriesOf(AllTrades(xs), mint, w)
  }

  lemma {:induction false} AgreeingTiesHide(rows: seq<BalanceRow>, xs: seq<TxSnapshot>, ys: seq<TxSnapshot>, mint: string, w: int)
    requires w > 0 && IsSnapshots(rows, xs) && IsSnapshots(rows, ys) && TiesAgree(AllTrades(xs), mint, w)
    ensures SeriesOf(AllTrades(ys), mint, w) == SeriesOf(AllTrades(xs), mint, w)
  {
    hide SeriesOf, Segment, AllTrades, EarliestAgree, LatestAgree, IsSnapshots;
    SnapshotOrderIrrelevant(rows, xs, ys);
    var cs, cs' := SeriesOf(AllTrades(xs), mint, w), SeriesOf(AllTrades(ys), mint, w);
    if |cs'| > 0 { SameSegment(AllTrades(ys), AllTrades(xs), mint, w, 0); }
    if |cs| > 0 { SameSegment(AllTrades(xs), AllTrades(ys), mint, w, 0); }
    assert |cs'| == |cs|;
    forall i | 0 <= i < |cs| ensures cs'[i] == cs[i] {
      SameSegment(AllTrades(xs), AllTrades(ys), mint, w, i);
    }
    assert cs' == cs;
  }

  lemma {:induction false} DisagreeingTiesShow(rows: seq<BalanceRow>, xs: seq<TxSnapshot>, mint: string, w: int, i: nat)
    returns (ys: seq<TxSnapshot>)
    requires w > 0 && IsSnapshots(rows, xs) && DistinctRows(rows) && i < |SeriesOf(AllTrades(xs), mint, w)|
    requires !EarliestAgree(Segment(AllTrades(xs), mint, w, i)) || !LatestAgree(Segment(AllTrades(xs), mint, w, i))
    ensures IsSnapshots(rows, ys) && i < |SeriesOf(AllTrades(ys), mint, w)|
    ensures SeriesOf(AllTrades(ys), mint, w)[i] != SeriesOf(AllTrades(xs), mint, w)[i]
  {
    hide SeriesOf, Segment, AllTrades, EarliestAgree, LatestAgree, IsSnapshots, DistinctRows;
    var trades := AllTrades(xs);
    if !EarliestAgree(Segment(trades, mint, w, i)) {
      var v := OtherEarliest(trades, mint, w, i);
      var front, back := MoveTradeOfSnapshot(rows, xs, v);
      SnapshotOrderIrrelevant(rows, xs, front);
      OpenBecomes(trades, AllTrades(front), mint, w, i, v);
      ys := front;
    } else {
      var v := OtherLatest(trades, mint, w, i);
      var front, back := MoveTradeOfSnapshot(rows, xs, v);
      SnapshotOrderIrrelevant(rows, xs, back);
      CloseBecomes(trades, AllTrades(back), mint, w, i, v);
      ys := back;
    }
  }

  /**
   A mint's series is the same for every order of the hash map exactly when, in each of its windows,
   the earliest trades agree in price and the latest trades agree in price.
   */
  lemma {:induction false} HashMapIrrelevantIff(rows: seq<BalanceRow>, xs: seq<TxSnapshot>, mint: string, w: int)
    requires w > 0 && IsSnapshots(rows, xs) && DistinctRows(rows)
    ensures HashMapIrrelevant(rows, xs, mint, w) <==> TiesAgree(AllTrades(xs), mint, w)
  {
    hide SeriesOf, Segment, AllTrades, EarliestAgree, LatestAgree, IsSnapshots, DistinctRows;
    if TiesAgree(AllTrades(xs), mint, w) {
      forall ys | IsSnapshots(rows, ys) ensures SeriesOf(AllTrades(ys), mint, w) == SeriesOf(AllTrades(xs), mint, w) {
        AgreeingTiesHide(rows, xs, ys, mint, w);
      }
    } else {
      var i :| 0 <= i < |SeriesOf(AllTrades(xs), mint, w)|
        && !(EarliestAgree(Segment(AllTrades(xs), mint, w, i)) && LatestAgree(Segment(AllTrades(xs), mint, w, i)));
      var ys := DisagreeingTiesShow(rows, xs, mint, w, i);
    }
  }
}

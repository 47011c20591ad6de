/**
 The candles of a series in terms of the trades as they were given (crates/ohlcv/src/lib.rs, lines
 127-163): positions in the list stand in for grouping, sorting and folding.
 */
module CandleWindows {
  import opened CandleRollUp
  import opened Candles
  import opened Sequences

  /** Trade `i` comes before trade `j` in time, or is given first at the same time. */
  ghost predicate Earlier(trades: seq<Trade>, i: nat, j: nat) {
    && i < |trades| && j < |trades|
    && (trades[i].time < trades[j].time || (trades[i].time == trades[j].time && i < j))
  }

  ghost predicate InTimeOrder(trades: seq<Trade>, pos: seq<nat>) {
    forall m, n :: 0 <= m < n < |pos| ==> Earlier(trades, pos[m], pos[n])
  }

  /** Trade `k` is a trade of the mint in the window from `start` on. */
  ghost predicate TradeInWindow(trades: seq<Trade>, mint: string, start: int, w: int, k: nat) {
    k < |trades| && trades[k].mint == mint && start <= trades[k].time < start + w
  }

  ghost function VolumeAt(trades: seq<Trade>, pos: seq<nat>): real
    requires forall m :: 0 <= m < |pos| ==> pos[m] < |trades|
  {
    if pos == [] then 0.0 else VolumeAt(trades, pos[..|pos| - 1]) + trades[pos[|pos| - 1]].volume
  }

  ghost predicate HasPrice(trades: seq<Trade>, pos: seq<nat>, price: real) {
    exists m :: 0 <= m < |pos| && pos[m] < |trades| && trades[pos[m]].price == price
  }

  /**
   The candle of one window, whose start is a multiple of the width: `pos` lists all trades of the mint
   in it, by time and then in the order given; open and close are the prices of the first and the last.
   */
  ghost predicate IsCandle(trades: seq<Trade>, mint: string, w: int, c: Candle, pos: seq<nat>)
    requires w > 0
  {
    && c.bucketStart % w == 0
    && pos != [] && InTimeOrder(trades, pos)
    && (forall m :: 0 <= m < |pos| ==> TradeInWindow(trades, mint, c.bucketStart, w, pos[m]))
    && (forall k: nat :: TradeInWindow(trades, mint, c.bucketStart, w, k) ==> k in pos)
    && c.open == trades[pos[0]].price && c.close == trades[pos[|pos| - 1]].price
    && (forall m :: 0 <= m < |pos| ==> c.low <= trades[pos[m]].price <= c.high)
    && HasPrice(trades, pos, c.high) && HasPrice(trades, pos, c.low)
    && c.volume == VolumeAt(trades, pos)
  }

  ghost predicate IsWindowCandle(trades: seq<Trade>, mint: string, w: int, c: Candle)
    requires w > 0
  {
    exists pos :: IsCandle(trades, mint, w, c, pos)
  }

  /** The elements of `picked` stand at the positions. */
  ghost predicate PickedAt(trades: seq<Trade>, picked: seq<Trade>, pos: seq<nat>) {
    |pos| == |picked| && forall m :: 0 <= m < |pos| ==> pos[m] < |trades| && picked[m] == trades[pos[m]]
  }

  ghost predicate OfTheMint(trades: seq<Trade>, mint: string, k: nat) { k < |trades| && trades[k].mint == mint }

  lemma {:induction false} OfMintPositions(trades: seq<Trade>, mint: string) returns (pos: seq<nat>)
    ensures PickedAt(trades, OfMint(trades, mint), pos) && Increasing(pos)
    ensures forall k: nat :: OfTheMint(trades, mint, k) ==> k in pos
    ensures forall m :: 0 <= m < |pos| ==> OfTheMint(trades, mint, pos[m])
  {
    pos := [];
    if trades != [] {
      var n := |trades| - 1;
      var before := OfMintPositions(trades[..n], mint);
      pos := before + if trades[n].mint == mint then [n] else [];
      assert forall m :: 0 <= m < |before| ==> OfTheMint(trades[..n], mint, before[m]);
      forall k: nat | OfTheMint(trades, mint, k) ensures k in pos {
        if k < n { assert OfTheMint(trades[..n], mint, k); }
      }
    }
  }

  lemma {:induction false} InBucketPositions(trades: seq<Trade>, start: int, w: int) returns (pos: seq<nat>)
    requires w > 0
    ensures PickedAt(trades, InBucket(trades, start, w), pos) && Increasing(pos)
    ensures forall k: nat :: k < |trades| && Bucket(trades[k].time, w) == start ==> k in pos
    ensures forall m :: 0 <= m < |pos| ==> pos[m] < |trades| && Bucket(trades[pos[m]].time, w) == start
  {
    hide Bucket;
    pos := [];
    if trades != [] {
      var n := |trades| - 1;
      var before := InBucketPositions(trades[..n], start, w);
      pos := before + if Bucket(trades[n].time, w) == start then [n] else [];
      forall k: nat | k < |trades| && Bucket(trades[k].time, w) == start ensures k in pos {
        if k < n { assert Bucket(trades[..n][k].time, w) == start; }
      }
    }
  }

  /** Inserting the last trade puts it behind all trades that are not later. */
  lemma {:induction false} InsertPosition(trades: seq<Trade>, sorted: seq<Trade>, before: seq<nat>) returns (pos: seq<nat>)
    requires trades != [] && PickedAt(trades, sorted, before) && InTimeOrder(trades, before)
    requires forall m :: 0 <= m < |before| ==> before[m] < |trades| - 1
    ensures PickedAt(trades, Insert(sorted, trades[|trades| - 1]), pos) && InTimeOrder(trades, pos)
    ensures forall k :: k in pos <==> k in before || k == |trades| - 1
    decreases |sorted|
  {
    var n, l := |trades| - 1, |sorted| - 1;
    if sorted == [] || sorted[l].time <= trades[n].time {
      pos := before + [n];
      forall m | 0 <= m < |before| ensures Earlier(trades, before[m], n) {
        assert m < l ==> Earlier(trades, before[m], before[l]);
      }
    } else {
      var more := InsertPosition(trades, sorted[..l], before[..l]);
      pos := more + [before[l]];
      assert before == before[..l] + [before[l]];
      forall m | 0 <= m < |more| ensures Earlier(trades, more[m], before[l]) {
        assert more[m] in more;
        if more[m] != n { var j :| 0 <= j < l && before[..l][j] == more[m]; }
      }
    }
  }

  lemma {:induction false} SortPositions(trades: seq<Trade>) returns (pos: seq<nat>)
    ensures PickedAt(trades, SortByTime(trades), pos) && InTimeOrder(trades, pos)
    ensures forall k: nat :: k < |trades| ==> k in pos
  {
    pos := [];
    if trades != [] {
      hide Insert;
      var n := |trades| - 1;
      var before := SortPositions(trades[..n]);
      assert forall m, l :: 0 <= m < l < |before| ==> Earlier(trades[..n], before[m], before[l]);
      pos := InsertPosition(trades, SortByTime(trades[..n]), before);
    }
  }

  /** Positions in a list of positions. */
  ghost function At(pos: seq<nat>, inner: seq<nat>): (r: seq<nat>)
    requires forall m :: 0 <= m < |inner| ==> inner[m] < |pos|
    ensures |r| == |inner| && forall m :: 0 <= m < |r| ==> r[m] == pos[inner[m]]
  {
    seq(|inner|, m requires 0 <= m < |inner| => pos[inner[m]])
  }

  lemma {:induction false} PickedTwice(
      trades: seq<Trade>, middle: seq<Trade>, picked: seq<Trade>, pos: seq<nat>, inner: seq<nat>)
    requires PickedAt(trades, middle, pos) && PickedAt(middle, picked, inner)
    ensures (forall m :: 0 <= m < |inner| ==> inner[m] < |pos|) && PickedAt(trades, picked, At(pos, inner))
  {
  }

  /** The positions of a mint's trades by time. */
  lemma {:induction false} SortedMintPositions(trades: seq<Trade>, mint: string) returns (pos: seq<nat>)
    ensures PickedAt(trades, SortByTime(OfMint(trades, mint)), pos) && InTimeOrder(trades, pos)
    ensures forall k: nat :: OfTheMint(trades, mint, k) ==> k in pos
    ensures forall m :: 0 <= m < |pos| ==> OfTheMint(trades, mint, pos[m])
  {
    hide OfMint, SortByTime;
    var outer := OfMintPositions(trades, mint);
    var mine := OfMint(trades, mint);
    var inner := SortPositions(mine);
    PickedTwice(trades, mine, SortByTime(mine), outer, inner);
    pos := At(outer, inner);
    forall m, n | 0 <= m < n < |pos| ensures Earlier(trades, pos[m], pos[n]) {
      assert Earlier(mine, inner[m], inner[n]);
    }
    forall k: nat | OfTheMint(trades, mint, k) ensures k in pos {
      var j :| 0 <= j < |outer| && outer[j] == k;
      assert j in inner;
      var m :| 0 <= m < |inner| && inner[m] == j;
      assert pos[m] == k;
    }
  }

  /** The positions of the trades in one window, by time. */
  lemma {:induction false} WindowPositions(trades: seq<Trade>, mint: string, start: int, w: int) returns (pos: seq<nat>)
    requires w > 0 && start % w == 0
    ensures PickedAt(trades, InBucket(SortByTime(OfMint(trades, mint)), start, w), pos) && InTimeOrder(trades, pos)
    ensures forall m :: 0 <= m < |pos| ==> TradeInWindow(trades, mint, start, w, pos[m])
    ensures forall k: nat :: TradeInWindow(trades, mint, start, w, k) ==> k in pos
  {
    hide OfMint, SortByTime, InBucket, Bucket;
    var outer := SortedMintPositions(trades, mint);
    var sorted := SortByTime(OfMint(trades, mint));
    var inner := InBucketPositions(sorted, start, w);
    PickedTwice(trades, sorted, InBucket(sorted, start, w), outer, inner);
    pos := At(outer, inner);
    forall m, n | 0 <= m < n < |pos| ensures Earlier(trades, pos[m], pos[n]) {
    }
    forall m | 0 <= m < |pos| ensures TradeInWindow(trades, mint, start, w, pos[m]) {
      BucketIsWindow(trades[pos[m]].time, start, w);
    }
    forall k: nat | TradeInWindow(trades, mint, start, w, k) ensures k in pos {
      assert OfTheMint(trades, mint, k);
      var j :| 0 <= j < |outer| && outer[j] == k;
      BucketIsWindow(sorted[j].time, start, w);
      assert j in inner;
      var m :| 0 <= m < |inner| && inner[m] == j;
      assert pos[m] == k;
    }
  }

  /** Windows start at the multiples of their width, also before time 0. */
  lemma {:induction false} BucketIsWindow(time: int, start: int, w: int)
    requires w > 0 && start % w == 0
    ensures Bucket(time, w) == start <==> start <= time < start + w
    ensures Bucket(time, w) % w == 0
  {
    var q, r, s := time / w, time % w, start / w;
    assert time == q * w + r && start == s * w;
    MultipleOf(q, w);
    SameQuotient(q, r, s, w);
  }

  lemma {:induction false} MultipleOf(q: int, w: int)
    requires w > 0
    ensures q * w % w == 0
  {
    DivideSum(q, 0, w);
    SmallQuotient(0, w);
  }

  lemma {:induction false} SameQuotient(q: int, r: int, s: int, w: int)
    requires 0 <= r < w
    ensures q == s <==> s * w <= q * w + r < s * w + w
  {
    TimesAtLeast(s - q, w);
    TimesAtLeast(q - s, w);
    assert (s - q) * w == s * w - q * w && (q - s) * w == q * w - s * w;
  }

  lemma {:induction false} VolumeOfPicked(trades: seq<Trade>, picked: seq<Trade>, pos: seq<nat>)
    requires PickedAt(trades, picked, pos)
    ensures VolumeAt(trades, pos) == SumVolume(picked)
  {
    if pos != [] { VolumeOfPicked(trades, picked[..|picked| - 1], pos[..|pos| - 1]); }
  }

  lemma {:induction false} SummaryIsCandle(trades: seq<Trade>, mint: string, w: int, c: Candle, seg: seq<Trade>, pos: seq<nat>)
    requires w > 0 && Summarises(c, seg) && PickedAt(trades, seg, pos) && InTimeOrder(trades, pos) && c.bucketStart % w == 0
    requires forall m :: 0 <= m < |pos| ==> TradeInWindow(trades, mint, c.bucketStart, w, pos[m])
    requires forall k: nat :: TradeInWindow(trades, mint, c.bucketStart, w, k) ==> k in pos
    ensures IsCandle(trades, mint, w, c, pos)
  {
    hide SumVolume, VolumeAt, InTimeOrder, TradeInWindow;
    VolumeOfPicked(trades, seg, pos);
    forall m | 0 <= m < |pos| ensures c.low <= trades[pos[m]].price <= c.high { assert seg[m] in seg; }
    forall price | exists t :: t in seg && t.price == price ensures HasPrice(trades, pos, price) {
      var t :| t in seg && t.price == price;
      var m :| 0 <= m < |seg| && seg[m] == t;
      assert trades[pos[m]].price == price;
    }
  }

  /**
   The candles of a mint, one per window with trades, ascending: each is the candle of its window, and
   every trade of the mint is in the window of one.
   */
  lemma {:induction false} SeriesHoldsWindows(trades: seq<Trade>, mint: string, w: int, cs: seq<Candle>)
    requires w > 0 && IsSeries(SortByTime(OfMint(trades, mint)), w, cs)
    ensures forall i, j :: 0 <= i < j < |cs| ==> cs[i].bucketStart < cs[j].bucketStart
    ensures forall i :: 0 <= i < |cs| ==> IsWindowCandle(trades, mint, w, cs[i])
    ensures forall k: nat :: k < |trades| && trades[k].mint == mint ==>
      exists i :: 0 <= i < |cs| && TradeInWindow(trades, mint, cs[i].bucketStart, w, k)
  {
    hide SortByTime, OfMint, InBucket, Bucket, Summarises, IsCandle, InTimeOrder;
    var sorted := SortByTime(OfMint(trades, mint));
    forall i | 0 <= i < |cs| ensures cs[i].bucketStart % w == 0 { StartIsMultiple(sorted, w, cs[i]); }
    forall i | 0 <= i < |cs| ensures IsWindowCandle(trades, mint, w, cs[i]) {
      var pos := WindowPositions(trades, mint, cs[i].bucketStart, w);
      SummaryIsCandle(trades, mint, w, cs[i], InBucket(sorted, cs[i].bucketStart, w), pos);
    }
    var all := SortedMintPositions(trades, mint);
    forall k: nat | k < |trades| && trades[k].mint == mint
      ensures exists i :: 0 <= i < |cs| && TradeInWindow(trades, mint, cs[i].bucketStart, w, k)
    {
      assert OfTheMint(trades, mint, k);
      var m :| 0 <= m < |all| && all[m] == k;
      assert sorted[m] in sorted;
      var i :| 0 <= i < |cs| && cs[i].bucketStart == Bucket(trades[k].time, w);
      BucketIsWindow(trades[k].time, cs[i].bucketStart, w);
    }
  }

  lemma {:induction false} StartIsMultiple(sorted: seq<Trade>, w: int, c: Candle)
    requires w > 0 && Summarises(c, InBucket(sorted, c.bucketStart, w))
    ensures c.bucketStart % w == 0
  {
    hide Bucket, SumVolume;
    InBucketMembers(sorted, c.bucketStart, w);
    var t := InBucket(sorted, c.bucketStart, w)[0];
    assert t in InBucket(sorted, c.bucketStart, w);
    BucketIsWindow(t.time, 0, w);
  }
}

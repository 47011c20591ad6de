/**
 How far the order of the trades matters (crates/ohlcv/src/lib.rs, lines 127-163).  The snapshots
 that trades are inferred from come out of a hash map (crates/cli/src/main.rs, line 528), so their
 order is arbitrary; the sort by time leaves it visible only between trades of one instant.
 */
module CandleOrder {
  import opened Candles
  import opened CandleRollUp

  /** The trades of one instant, in their order. */
  function AtTime(trades: seq<Trade>, time: int): seq<Trade> {
    if trades == [] then []
    else AtTime(trades[..|trades| - 1], time) + if trades[|trades| - 1].time == time then [trades[|trades| - 1]] else []
  }

  lemma {:induction false} InsertStable(sorted: seq<Trade>, t: Trade, time: int)
    ensures AtTime(Insert(sorted, t), time) == AtTime(sorted, time) + if t.time == time then [t] else []
  {
    var r := Insert(sorted, t);
    if sorted == [] || sorted[|sorted| - 1].time <= t.time {
      assert r[..|r| - 1] == sorted;
    } else {
      InsertStable(sorted[..|sorted| - 1], t, time);
      assert r[..|r| - 1] == Insert(sorted[..|sorted| - 1], t);
    }
  }

  /** The sort keeps the order of the trades of each instant. */
  lemma {:induction false} SortIsStable(trades: seq<Trade>, time: int)
    ensures AtTime(SortByTime(trades), time) == AtTime(trades, time)
  {
    if trades != [] {
      SortIsStable(trades[..|trades| - 1], time);
      InsertStable(SortByTime(trades[..|trades| - 1]), trades[|trades| - 1], time);
    }
  }

  // ---------------- Multisets of filtered lists ----------------

  lemma {:induction false} OfMintCount(trades: seq<Trade>, mint: string, t: Trade)
    ensures multiset(OfMint(trades, mint))[t] == if t.mint == mint then multiset(trades)[t] else 0
  {
    if trades != [] {
      OfMintCount(trades[..|trades| - 1], mint, t);
      assert trades == trades[..|trades| - 1] + [trades[|trades| - 1]];
    }
  }

  lemma {:induction false} InBucketCount(trades: seq<Trade>, start: int, w: int, t: Trade)
    requires w > 0
    ensures multiset(InBucket(trades, start, w))[t] == if Bucket(t.time, w) == start then multiset(trades)[t] else 0
  {
    if trades != [] {
      InBucketCount(trades[..|trades| - 1], start, w, t);
      assert trades == trades[..|trades| - 1] + [trades[|trades| - 1]];
    }
  }

  lemma {:induction false} SameMintTrades(trades: seq<Trade>, trades': seq<Trade>, mint: string)
    requires multiset(trades) == multiset(trades')
    ensures multiset(OfMint(trades, mint)) == multiset(OfMint(trades', mint))
  {
    forall t ensures multiset(OfMint(trades, mint))[t] == multiset(OfMint(trades', mint))[t] {
      OfMintCount(trades, mint, t);
      OfMintCount(trades', mint, t);
    }
  }

  lemma {:induction false} SameBucketTrades(trades: seq<Trade>, trades': seq<Trade>, start: int, w: int)
    requires w > 0 && multiset(trades) == multiset(trades')
    ensures multiset(InBucket(trades, start, w)) == multiset(InBucket(trades', start, w))
  {
    forall t ensures multiset(InBucket(trades, start, w))[t] == multiset(InBucket(trades', start, w))[t] {
      InBucketCount(trades, start, w, t);
      InBucketCount(trades', start, w, t);
    }
  }

  lemma {:induction false} SumWithout(trades: seq<Trade>, k: nat)
    requires k < |trades|
    ensures SumVolume(trades) == SumVolume(trades[..k] + trades[k + 1..]) + trades[k].volume
  {
    var n, rest := |trades| - 1, trades[..k] + trades[k + 1..];
    if k < n {
      SumWithout(trades[..n], k);
      assert rest[..|rest| - 1] == trades[..n][..k] + trades[..n][k + 1..];
    } else {
      assert rest == trades[..n];
    }
  }

  /** The volume of a window does not depend on the order of its trades. */
  lemma {:induction false} SumOfMultiset(xs: seq<Trade>, ys: seq<Trade>)
    requires multiset(xs) == multiset(ys)
    ensures SumVolume(xs) == SumVolume(ys)
    decreases |xs|
  {
    if xs == [] {
      assert |multiset(ys)| == 0;
    } else {
      var n, last := |xs| - 1, xs[|xs| - 1];
      Without(xs, n);
      assert last in multiset(ys);
      var k :| 0 <= k < |ys| && ys[k] == last;
      Without(ys, k);
      assert xs[..n] + xs[n + 1..] == xs[..n];
      SumOfMultiset(xs[..n], ys[..k] + ys[k + 1..]);
      SumWithout(ys, k);
    }
  }

  lemma {:induction false} Without(xs: seq<Trade>, k: nat)
    requires k < |xs|
    ensures xs[k] in multiset(xs) && multiset(xs[..k] + xs[k + 1..]) == multiset(xs) - multiset{xs[k]}
  {
    assert xs == xs[..k] + [xs[k]] + xs[k + 1..];
  }

  // ---------------- Order independence ----------------

  lemma {:induction false} InBucketOrdered(trades: seq<Trade>, start: int, w: int)
    requires w > 0 && TimeOrdered(trades)
    ensures TimeOrdered(InBucket(trades, start, w))
  {
    if trades != [] {
      var init := trades[..|trades| - 1];
      InBucketOrdered(init, start, w);
      InBucketMembers(init, start, w);
      var seg := InBucket(init, start, w);
      forall k | 0 <= k < |seg| ensures seg[k].time <= trades[|trades| - 1].time {
        assert seg[k] in seg && seg[k] in init;
      }
    }
  }

  /** All trades at the earliest (latest) instant of the window have the same price. */
  ghost predicate EarliestAgree(seg: seq<Trade>) {
    forall t, u :: t in seg && u in seg && IsEarliest(seg, t) && IsEarliest(seg, u) ==> t.price == u.price
  }

  ghost predicate LatestAgree(seg: seq<Trade>) {
    forall t, u :: t in seg && u in seg && IsLatest(seg, t) && IsLatest(seg, u) ==> t.price == u.price
  }

  ghost predicate IsEarliest(seg: seq<Trade>, t: Trade) { forall v :: v in seg ==> t.time <= v.time }
  ghost predicate IsLatest(seg: seq<Trade>, t: Trade) { forall v :: v in seg ==> v.time <= t.time }

  /** Candles of the same trades of one window, taken in two orders that both respect time. */
  lemma {:induction false} WindowOrderIndependent(x: Candle, y: Candle, seg: seq<Trade>, seg': seq<Trade>)
    requires Summarises(x, seg) && Summarises(y, seg') && multiset(seg) == multiset(seg')
    requires TimeOrdered(seg) && TimeOrdered(seg')
    ensures x.high == y.high && x.low == y.low && x.volume == y.volume
    ensures EarliestAgree(seg) ==> x.open == y.open
    ensures LatestAgree(seg) ==> x.close == y.close
  {
    forall t ensures t in seg <==> t in seg' { assert t in multiset(seg) <==> t in multiset(seg'); }
    SumOfMultiset(seg, seg');
    EndsAreExtreme(seg);
    EndsAreExtreme(seg');
  }

  lemma {:induction false} EndsAreExtreme(seg: seq<Trade>)
    requires TimeOrdered(seg) && seg != []
    ensures seg[0] in seg && IsEarliest(seg, seg[0])
    ensures seg[|seg| - 1] in seg && IsLatest(seg, seg[|seg| - 1])
  {
  }

  /**
   Permuting the trades changes neither the windows nor the highs, lows and volumes of a mint's
   series; an open (a close) can change only when trades of different prices share the earliest
   (the latest) instant of the window.
   */
  lemma {:induction false} SeriesOrderIndependent(
      trades: seq<Trade>, trades': seq<Trade>, mint: string, w: int, xs: seq<Candle>, ys: seq<Candle>)
    requires w > 0 && multiset(trades) == multiset(trades')
    requires IsSeries(SortByTime(OfMint(trades, mint)), w, xs) && IsSeries(SortByTime(OfMint(trades', mint)), w, ys)
    ensures |xs| == |ys|
    ensures forall i :: 0 <= i < |xs| ==> SameUpToTies(xs[i], ys[i], InBucket(SortByTime(OfMint(trades, mint)), xs[i].bucketStart, w))
  {
    var ts, ts' := SortByTime(OfMint(trades, mint)), SortByTime(OfMint(trades', mint));
    SameMintTrades(trades, trades', mint);
    SortIsStableSort(OfMint(trades, mint));
    SortIsStableSort(OfMint(trades', mint));
    forall t ensures t in ts <==> t in ts' { assert t in multiset(ts) <==> t in multiset(ts'); }
    SameBuckets(ts, ts', w, xs, ys);
    SameStarts(xs, ys);
    forall i | 0 <= i < |xs| ensures SameUpToTies(xs[i], ys[i], InBucket(ts, xs[i].bucketStart, w)) {
      var start := xs[i].bucketStart;
      SameBucketTrades(ts, ts', start, w);
      InBucketOrdered(ts, start, w);
      InBucketOrdered(ts', start, w);
      WindowOrderIndependent(xs[i], ys[i], InBucket(ts, start, w), InBucket(ts', start, w));
    }
  }

  ghost predicate SameUpToTies(x: Candle, y: Candle, seg: seq<Trade>) {
    && x.bucketStart == y.bucketStart && x.high == y.high && x.low == y.low && x.volume == y.volume
    && (EarliestAgree(seg) ==> x.open == y.open)
    && (LatestAgree(seg) ==> x.close == y.close)
  }

  // ---------------- The series of a mint ----------------

  /** The one series of the mint's trades: see `CandleRollUp.SeriesUnique`. */
  ghost function SeriesOf(trades: seq<Trade>, mint: string, w: int): seq<Candle>
    requires w > 0
  {
    RollUp(Ticks(SortByTime(OfMint(trades, mint))), w)
  }

  lemma {:induction false} SeriesOfMint(trades: seq<Trade>, mint: string, w: int)
    requires w > 0
    ensures IsSeries(SortByTime(OfMint(trades, mint)), w, SeriesOf(trades, mint, w))
  {
    SortIsStableSort(OfMint(trades, mint));
    RollUpIsSeries(SortByTime(OfMint(trades, mint)), w);
  }

  /** The trades of the mint in one window, in the order in which they are summarised. */
  ghost function WindowOf(trades: seq<Trade>, mint: string, start: int, w: int): seq<Trade>
    requires w > 0
  {
    InBucket(SortByTime(OfMint(trades, mint)), start, w)
  }

  // ---------------- When the order does matter ----------------

  lemma {:induction false} FirstOfItsTime(xs: seq<Trade>)
    requires xs != []
    ensures AtTime(xs, xs[0].time) != [] && AtTime(xs, xs[0].time)[0] == xs[0]
  {
    if |xs| > 1 {
      assert xs[..|xs| - 1][0] == xs[0];
      FirstOfItsTime(xs[..|xs| - 1]);
    }
  }

  lemma {:induction false} LastOfItsTime(xs: seq<Trade>)
    requires xs != []
    ensures var at := AtTime(xs, xs[|xs| - 1].time); at != [] && at[|at| - 1] == xs[|xs| - 1]
  {
  }

  /** The trades of one instant are all in one window. */
  lemma {:induction false} AtTimeInWindow(xs: seq<Trade>, time: int, start: int, w: int)
    requires w > 0 && Bucket(time, w) == start
    ensures AtTime(InBucket(xs, start, w), time) == AtTime(xs, time)
  {
    if xs != [] {
      var n := |xs| - 1;
      AtTimeInWindow(xs[..n], time, start, w);
      var before := InBucket(xs[..n], start, w);
      assert xs[n].time == time ==> Bucket(xs[n].time, w) == start;
      if Bucket(xs[n].time, w) == start {
        assert InBucket(xs, start, w) == before + [xs[n]] && (before + [xs[n]])[..|before|] == before;
        assert AtTime(before + [xs[n]], time) == AtTime(before, time) + if xs[n].time == time then [xs[n]] else [];
      } else {
        assert InBucket(xs, start, w) == before;
        assert AtTime(xs, time) == AtTime(xs[..n], time);
      }
    }
  }

  lemma {:induction false} WindowMembers(trades: seq<Trade>, mint: string, start: int, w: int)
    requires w > 0
    ensures forall t :: t in WindowOf(trades, mint, start, w) <==> t in trades && t.mint == mint && Bucket(t.time, w) == start
    ensures TimeOrdered(WindowOf(trades, mint, start, w))
  {
    SortIsStableSort(OfMint(trades, mint));
    OfMintMembers(trades, mint);
    InBucketMembers(SortByTime(OfMint(trades, mint)), start, w);
    InBucketOrdered(SortByTime(OfMint(trades, mint)), start, w);
  }

  lemma {:induction false} WindowAtTime(trades: seq<Trade>, mint: string, time: int, w: int)
    requires w > 0
    ensures AtTime(WindowOf(trades, mint, Bucket(time, w), w), time) == AtTime(OfMint(trades, mint), time)
  {
    AtTimeInWindow(SortByTime(OfMint(trades, mint)), time, Bucket(time, w), w);
    SortIsStable(OfMint(trades, mint), time);
  }

  /** The mint's first trade, when none of its window is earlier, comes first in the window. */
  lemma {:induction false} FirstStaysFirst(trades: seq<Trade>, mint: string, w: int)
    requires w > 0 && OfMint(trades, mint) != []
    requires var v := OfMint(trades, mint)[0]; IsEarliest(WindowOf(trades, mint, Bucket(v.time, w), w), v)
    ensures var v := OfMint(trades, mint)[0]; var seg := WindowOf(trades, mint, Bucket(v.time, w), w);
      seg != [] && seg[0] == v
  {
    hide Bucket, OfMint, WindowOf, AtTime;
    var v := OfMint(trades, mint)[0];
    var seg := WindowOf(trades, mint, Bucket(v.time, w), w);
    OfMintMembers(trades, mint);
    WindowMembers(trades, mint, Bucket(v.time, w), w);
    assert v in seg;
    EndsAreExtreme(seg);
    FirstOfItsTime(seg);
    FirstOfItsTime(OfMint(trades, mint));
    WindowAtTime(trades, mint, v.time, w);
  }

  /** The mint's last trade, when none of its window is later, comes last in the window. */
  lemma {:induction false} LastStaysLast(trades: seq<Trade>, mint: string, w: int)
    requires w > 0 && OfMint(trades, mint) != []
    requires var ms := OfMint(trades, mint); var v := ms[|ms| - 1];
      IsLatest(WindowOf(trades, mint, Bucket(v.time, w), w), v)
    ensures var ms := OfMint(trades, mint); var v := ms[|ms| - 1]; var seg := WindowOf(trades, mint, Bucket(v.time, w), w);
      seg != [] && seg[|seg| - 1] == v
  {
    hide Bucket, OfMint, WindowOf, AtTime;
    var ms := OfMint(trades, mint);
    var v := ms[|ms| - 1];
    var seg := WindowOf(trades, mint, Bucket(v.time, w), w);
    OfMintMembers(trades, mint);
    WindowMembers(trades, mint, Bucket(v.time, w), w);
    assert v in seg;
    EndsAreExtreme(seg);
    WindowAtTime(trades, mint, v.time, w);
    LastOfItsTime(ms);
    LastOfItsTime(seg);
  }

  /** The `i`-th candle's trades. */
  ghost function Segment(trades: seq<Trade>, mint: string, w: int, i: nat): seq<Trade>
    requires w > 0 && i < |SeriesOf(trades, mint, w)|
  {
    WindowOf(trades, mint, SeriesOf(trades, mint, w)[i].bucketStart, w)
  }

  lemma {:induction false} SegmentMeaning(trades: seq<Trade>, mint: string, w: int, i: nat)
    requires w > 0 && i < |SeriesOf(trades, mint, w)|
    ensures Summarises(SeriesOf(trades, mint, w)[i], Segment(trades, mint, w, i))
    ensures forall t :: t in Segment(trades, mint, w, i) ==>
      t in trades && t.mint == mint && Bucket(t.time, w) == SeriesOf(trades, mint, w)[i].bucketStart
  {
    SeriesOfMint(trades, mint, w);
    WindowMembers(trades, mint, SeriesOf(trades, mint, w)[i].bucketStart, w);
  }

  /** The `i`-th windows of two orders of the same trades are the same window with the same trades. */
  lemma {:induction false} SameSegment(trades: seq<Trade>, trades': seq<Trade>, mint: string, w: int, i: nat)
    requires w > 0 && multiset(trades) == multiset(trades') && i < |SeriesOf(trades, mint, w)|
    ensures |SeriesOf(trades', mint, w)| == |SeriesOf(trades, mint, w)|
    ensures SeriesOf(trades', mint, w)[i].bucketStart == SeriesOf(trades, mint, w)[i].bucketStart
    ensures forall t :: t in Segment(trades', mint, w, i) <==> t in Segment(trades, mint, w, i)
    ensures SameUpToTies(SeriesOf(trades, mint, w)[i], SeriesOf(trades', mint, w)[i], Segment(trades, mint, w, i))
  {
    SeriesOfMint(trades, mint, w);
    SeriesOfMint(trades', mint, w);
    SeriesOrderIndependent(trades, trades', mint, w, SeriesOf(trades, mint, w), SeriesOf(trades', mint, w));
    var start := SeriesOf(trades, mint, w)[i].bucketStart;
    WindowMembers(trades, mint, start, w);
    WindowMembers(trades', mint, start, w);
    forall t ensures t in trades <==> t in trades' { assert t in multiset(trades) <==> t in multiset(trades'); }
  }

  /** Whichever earliest trade of a window comes first among the mint's trades becomes its open. */
  lemma {:induction false} OpenBecomes(trades: seq<Trade>, trades': seq<Trade>, mint: string, w: int, i: nat, v: Trade)
    requires w > 0 && multiset(trades) == multiset(trades') && i < |SeriesOf(trades, mint, w)|
    requires v in Segment(trades, mint, w, i) && IsEarliest(Segment(trades, mint, w, i), v)
    requires OfMint(trades', mint) != [] && OfMint(trades', mint)[0] == v
    ensures i < |SeriesOf(trades', mint, w)| && SeriesOf(trades', mint, w)[i].open == v.price
  {
    hide SeriesOf, WindowOf, SameUpToTies, OfMint;
    SameSegment(trades, trades', mint, w, i);
    SegmentMeaning(trades, mint, w, i);
    SegmentMeaning(trades', mint, w, i);
    FirstStaysFirst(trades', mint, w);
  }

  lemma {:induction false} CloseBecomes(trades: seq<Trade>, trades': seq<Trade>, mint: string, w: int, i: nat, v: Trade)
    requires w > 0 && multiset(trades) == multiset(trades') && i < |SeriesOf(trades, mint, w)|
    requires v in Segment(trades, mint, w, i) && IsLatest(Segment(trades, mint, w, i), v)
    requires OfMint(trades', mint) != [] && OfMint(trades', mint)[|OfMint(trades', mint)| - 1] == v
    ensures i < |SeriesOf(trades', mint, w)| && SeriesOf(trades', mint, w)[i].close == v.price
  {
    hide SeriesOf, WindowOf, SameUpToTies, OfMint;
    SameSegment(trades, trades', mint, w, i);
    SegmentMeaning(trades, mint, w, i);
    SegmentMeaning(trades', mint, w, i);
    LastStaysLast(trades', mint, w);
  }

  /** An earliest trade whose price is not the open, when the earliest trades disagree. */
  lemma {:induction false} OtherEarliest(trades: seq<Trade>, mint: string, w: int, i: nat) returns (v: Trade)
    requires w > 0 && i < |SeriesOf(trades, mint, w)| && !EarliestAgree(Segment(trades, mint, w, i))
    ensures v in Segment(trades, mint, w, i) && IsEarliest(Segment(trades, mint, w, i), v)
    ensures v.price != SeriesOf(trades, mint, w)[i].open && v in trades && v.mint == mint
  {
    var seg := Segment(trades, mint, w, i);
    SegmentMeaning(trades, mint, w, i);
    var t, u :| t in seg && u in seg && IsEarliest(seg, t) && IsEarliest(seg, u) && t.price != u.price;
    v := if t.price != SeriesOf(trades, mint, w)[i].open then t else u;
  }

  lemma {:induction false} OtherLatest(trades: seq<Trade>, mint: string, w: int, i: nat) returns (v: Trade)
    requires w > 0 && i < |SeriesOf(trades, mint, w)| && !LatestAgree(Segment(trades, mint, w, i))
    ensures v in Segment(trades, mint, w, i) && IsLatest(Segment(trades, mint, w, i), v)
    ensures v.price != SeriesOf(trades, mint, w)[i].close && v in trades && v.mint == mint
  {
    var seg := Segment(trades, mint, w, i);
    SegmentMeaning(trades, mint, w, i);
    var t, u :| t in seg && u in seg && IsLatest(seg, t) && IsLatest(seg, u) && t.price != u.price;
    v := if t.price != SeriesOf(trades, mint, w)[i].close then t else u;
  }

  lemma {:induction false} OfMintAppend(xs: seq<Trade>, ys: seq<Trade>, mint: string)
    ensures OfMint(xs + ys, mint) == OfMint(xs, mint) + OfMint(ys, mint)
  {
    if ys == [] {
      assert xs + ys == xs;
    } else {
      assert (xs + ys)[..|xs + ys| - 1] == xs + ys[..|ys| - 1];
      OfMintAppend(xs, ys[..|ys| - 1], mint);
    }
  }

  /** The trade can be moved to the front, and to the back. */
  lemma {:induction false} MoveTrade(trades: seq<Trade>, v: Trade) returns (front: seq<Trade>, back: seq<Trade>)
    requires v in trades
    ensures multiset(front) == multiset(trades) == multiset(back)
    ensures OfMint(front, v.mint) != [] && OfMint(front, v.mint)[0] == v
    ensures OfMint(back, v.mint) != [] && OfMint(back, v.mint)[|OfMint(back, v.mint)| - 1] == v
  {
    hide OfMint;
    var k :| 0 <= k < |trades| && trades[k] == v;
    var rest := trades[..k] + trades[k + 1..];
    Without(trades, k);
    front, back := [v] + rest, rest + [v];
    OfMintAppend([v], rest, v.mint);
    OfMintAppend(rest, [v], v.mint);
    OfMintOne(v);
  }

  lemma {:induction false} OfMintOne(v: Trade)
    ensures OfMint([v], v.mint) == [v]
  {
    assert [v][..0] == [];
  }

  /** No order of the trades gives the window another open (another close). */
  ghost predicate OpenFixed(trades: seq<Trade>, mint: string, w: int, i: nat)
    requires w > 0 && i < |SeriesOf(trades, mint, w)|
  {
    forall trades' :: multiset(trades') == multiset(trades) ==>
      i < |SeriesOf(trades', mint, w)| && SeriesOf(trades', mint, w)[i].open == SeriesOf(trades, mint, w)[i].open
  }

  ghost predicate CloseFixed(trades: seq<Trade>, mint: string, w: int, i: nat)
    requires w > 0 && i < |SeriesOf(trades, mint, w)|
  {
    forall trades' :: multiset(trades') == multiset(trades) ==>
      i < |SeriesOf(trades', mint, w)| && SeriesOf(trades', mint, w)[i].close == SeriesOf(trades, mint, w)[i].close
  }

  /** The open (the close) is independent of the order exactly when the extreme trades agree in price. */
  lemma {:induction false} OpenFixedIff(trades: seq<Trade>, mint: string, w: int, i: nat)
    requires w > 0 && i < |SeriesOf(trades, mint, w)|
    ensures OpenFixed(trades, mint, w, i) <==> EarliestAgree(Segment(trades, mint, w, i))
  {
    hide SeriesOf, Segment, EarliestAgree, LatestAgree;
    if EarliestAgree(Segment(trades, mint, w, i)) {
      forall trades' | multiset(trades') == multiset(trades)
        ensures i < |SeriesOf(trades', mint, w)| && SeriesOf(trades', mint, w)[i].open == SeriesOf(trades, mint, w)[i].open
      {
        SameSegment(trades, trades', mint, w, i);
      }
    } else {
      var v := OtherEarliest(trades, mint, w, i);
      var front, back := MoveTrade(trades, v);
      OpenBecomes(trades, front, mint, w, i, v);
    }
  }

  lemma {:induction false} CloseFixedIff(trades: seq<Trade>, mint: string, w: int, i: nat)
    requires w > 0 && i < |SeriesOf(trades, mint, w)|
    ensures CloseFixed(trades, mint, w, i) <==> LatestAgree(Segment(trades, mint, w, i))
  {
    hide SeriesOf, Segment, EarliestAgree, LatestAgree;
    if LatestAgree(Segment(trades, mint, w, i)) {
      forall trades' | multiset(trades') == multiset(trades)
        ensures i < |SeriesOf(trades', mint, w)| && SeriesOf(trades', mint, w)[i].close == SeriesOf(trades, mint, w)[i].close
      {
        SameSegment(trades, trades', mint, w, i);
      }
    } else {
      var v := OtherLatest(trades, mint, w, i);
      var front, back := MoveTrade(trades, v);
      CloseBecomes(trades, back, mint, w, i, v);
    }
  }

  /** Two trades of one mint in one block, at different prices: the candle depends on which comes first. */
  lemma {:induction false} TiedTradesShow(w: int)
    requires w > 0
    ensures var t, u := Trade("a", 0, "M", 1.0, 1.0), Trade("b", 0, "M", 2.0, 1.0);
      SeriesOf([t, u], "M", w) != SeriesOf([u, t], "M", w)
  {
    var t, u := Trade("a", 0, "M", 1.0, 1.0), Trade("b", 0, "M", 2.0, 1.0);
    TwoTied(t, u, w);
    TwoTied(u, t, w);
  }

  /** Whatever trades there are, the first trade of the mint has a candle for its window. */
  lemma {:induction false} WindowHasCandle(trades: seq<Trade>, mint: string, w: int, t: Trade)
    requires w > 0 && t in trades && t.mint == mint
    ensures HasBucket(SeriesOf(trades, mint, w), Bucket(t.time, w))
  {
    hide RollUp, Ticks, Bucket;
    OfMintMembers(trades, mint);
    SortIsStableSort(OfMint(trades, mint));
    SeriesOfMint(trades, mint, w);
  }

  lemma {:induction false} TwoTied(t: Trade, u: Trade, w: int)
    requires w > 0 && t.time == u.time && t.mint == u.mint
    ensures SeriesOf([t, u], t.mint, w) != [] && SeriesOf([t, u], t.mint, w)[0].open == t.price
  {
    hide SeriesOf, Segment, WindowOf, OfMint, Bucket;
    var trades, mint := [t, u], t.mint;
    WindowHasCandle(trades, mint, w, t);
    SegmentMeaning(trades, mint, w, 0);
    OnlyWindow(t, u, w);
    OfMintTwo(t, u);
    FirstStaysFirst(trades, mint, w);
  }

  lemma {:induction false} OfMintTwo(t: Trade, u: Trade)
    requires t.mint == u.mint
    ensures OfMint([t, u], t.mint) == [t, u]
  {
    OfMintAppend([t], [u], t.mint);
    OfMintOne(t);
    OfMintOne(u);
    assert [t] + [u] == [t, u];
  }

  lemma {:induction false} OnlyWindow(t: Trade, u: Trade, w: int)
    requires w > 0 && t.time == u.time && t.mint == u.mint && SeriesOf([t, u], t.mint, w) != []
    ensures Segment([t, u], t.mint, w, 0) == WindowOf([t, u], t.mint, Bucket(t.time, w), w)
    ensures IsEarliest(WindowOf([t, u], t.mint, Bucket(t.time, w), w), t)
  {
    hide SeriesOf, WindowOf, Bucket;
    SegmentMeaning([t, u], t.mint, w, 0);
    var seg := Segment([t, u], t.mint, w, 0);
    assert seg[0] in seg;
    WindowMembers([t, u], t.mint, Bucket(t.time, w), w);
  }
}

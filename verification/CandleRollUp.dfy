/**
 Laws of candle series: a wide series is the roll-up of a narrow one, every trade is in exactly one
 candle, volume is conserved, and the order of the trades matters only for ties at the edges of a
 window.  (crates/ohlcv/src/lib.rs, lines 127-163; the two widths of crates/cli/src/main.rs, line 491.)
 */
module CandleRollUp {
  import opened Candles
  import opened Numbers
  import opened Sequences

  // ---------------- Rolling candles up ----------------

  /** A candle extended by a later one: first open, last close, extremes and total volume. */
  function Absorb(x: Candle, c: Candle): Candle {
    Candle(x.bucketStart, x.open, MaxReal(x.high, c.high), MinReal(x.low, c.low), c.close, x.volume + c.volume)
  }

  /** One more candle: it joins the last window of width `w` or opens the next one. */
  function Join(cs: seq<Candle>, c: Candle, w: int): seq<Candle>
    requires w > 0
  {
    var start := Bucket(c.bucketStart, w);
    if cs != [] && cs[|cs| - 1].bucketStart == start then cs[..|cs| - 1] + [Absorb(cs[|cs| - 1], c)]
    else cs + [c.(bucketStart := start)]
  }

  /** Fold candles, in order, into windows of width `w`. */
  function RollUp(cs: seq<Candle>, w: int): seq<Candle>
    requires w > 0
  {
    if cs == [] then [] else Join(RollUp(cs[..|cs| - 1], w), cs[|cs| - 1], w)
  }

  /** A trade as a candle of its own instant. */
  function Tick(t: Trade): Candle { Candle(t.time, t.price, t.price, t.price, t.price, t.volume) }

  function Ticks(trades: seq<Trade>): seq<Candle> {
    if trades == [] then []
    else
      var t := trades[|trades| - 1];
      Ticks(trades[..|trades| - 1]) + [Tick(t)]
  }

  /** A narrow window lies inside one wide window when the widths divide, for negative times too. */
  lemma {:induction false} BucketOfBucket(time: int, a: int, b: int)
    requires a > 0 && b > 0 && b % a == 0
    ensures Bucket(Bucket(time, a), b) == Bucket(time, b)
  {
    assert b == b / a * a && time == time / b * b + time % b;
    NestedBucket(time / b, b / a, a, b, time % b);
  }

  lemma {:induction false} NestedBucket(q: int, k: int, a: int, b: int, r: int)
    requires a > 0 && b > 0 && b == k * a && 0 <= r < b
    ensures Bucket(Bucket(q * b + r, a), b) == q * b
  {
    var x := r / a * a;
    NarrowStart(q, k, a, b, r);
    StartWithin(r, a);
    WideStart(q, x, b);
  }

  lemma {:induction false} WideStart(q: int, x: int, b: int)
    requires 0 <= x < b
    ensures Bucket(q * b + x, b) == q * b
  {
    DivideSum(q, x, b);
    SmallQuotient(x, b);
  }

  lemma {:induction false} StartWithin(r: int, a: int)
    requires 0 <= r && a > 0
    ensures 0 <= r / a * a <= r
  {
  }

  /** The narrow window of a time `r` behind the start of wide window number `q`. */
  lemma {:induction false} NarrowStart(q: int, k: int, a: int, b: int, r: int)
    requires a > 0 && b == k * a
    ensures Bucket(q * b + r, a) == q * b + r / a * a
  {
    assert q * (k * a) == (q * k) * a;
    DivideSum(q * k, r, a);
    assert (q * k + r / a) * a == (q * k) * a + r / a * a;
  }

  lemma {:induction false} DivideSum(q: int, r: int, d: int)
    requires d > 0
    ensures (q * d + r) / d == q + r / d
  {
    var e := (q * d + r) / d - q - r / d;
    var m, n := (q * d + r) % d, r % d;
    assert q * d + r == (q + r / d + e) * d + m;
    assert r == r / d * d + n;
    assert (q + r / d + e) * d == q * d + r / d * d + e * d;
    assert e * d == n - m;
    TimesAtLeast(e, d);
    TimesAtLeast(-e, d);
  }

  lemma {:induction false} TimesAtLeast(e: int, d: int)
    requires d > 0
    ensures e >= 1 ==> e * d >= d
  {
  }

  lemma {:induction false} SmallQuotient(x: int, d: int)
    requires 0 <= x < d
    ensures x / d == 0
  {
  }

  lemma {:induction false} JoinAligned(cs: seq<Candle>, c: Candle, w: int)
    requires w > 0 && forall i :: 0 <= i < |cs| ==> Bucket(cs[i].bucketStart, w) == cs[i].bucketStart
    ensures forall i :: 0 <= i < |Join(cs, c, w)| ==> Bucket(Join(cs, c, w)[i].bucketStart, w) == Join(cs, c, w)[i].bucketStart
  {
    BucketOfBucket(c.bucketStart, w, w);
  }

  lemma {:induction false} RollUpAligned(cs: seq<Candle>, w: int)
    requires w > 0
    ensures forall i :: 0 <= i < |RollUp(cs, w)| ==> Bucket(RollUp(cs, w)[i].bucketStart, w) == RollUp(cs, w)[i].bucketStart
  {
    if cs != [] {
      RollUpAligned(cs[..|cs| - 1], w);
      JoinAligned(RollUp(cs[..|cs| - 1], w), cs[|cs| - 1], w);
    }
  }

  /** Rolling up one more candle, before or after rolling up the narrow series. */
  lemma {:induction false} JoinThenRollUp(cs: seq<Candle>, c: Candle, a: int, b: int)
    requires a > 0 && b > 0 && b % a == 0
    ensures RollUp(Join(cs, c, a), b) == Join(RollUp(cs, b), c, b)
  {
    hide Bucket, Absorb;
    var start := Bucket(c.bucketStart, a);
    BucketOfBucket(c.bucketStart, a, b);
    var joined := Join(cs, c, a);
    if cs != [] && cs[|cs| - 1].bucketStart == start {
      var init, last := cs[..|cs| - 1], cs[|cs| - 1];
      assert joined[..|joined| - 1] == init;
      var before := RollUp(init, b);
      assert RollUp(cs, b) == Join(before, last, b);
      assert RollUp(joined, b) == Join(before, Absorb(last, c), b);
      AbsorbKeepsStart(last, c);
      JoinAbsorbed(before, last, c, b);
    } else {
      assert joined[..|joined| - 1] == cs;
      JoinIgnoresStart(RollUp(cs, b), c, start, b);
    }
  }

  lemma {:induction false} JoinIgnoresStart(cs: seq<Candle>, c: Candle, start: int, w: int)
    requires w > 0 && Bucket(start, w) == Bucket(c.bucketStart, w)
    ensures Join(cs, c.(bucketStart := start), w) == Join(cs, c, w)
  {
    hide Bucket;
  }

  lemma {:induction false} AbsorbKeepsStart(x: Candle, c: Candle)
    ensures Absorb(x, c).bucketStart == x.bucketStart
  {
  }

  /** Joining two candles of one wide window one by one or already combined is the same. */
  lemma {:induction false} JoinAbsorbed(cs: seq<Candle>, x: Candle, c: Candle, w: int)
    requires w > 0 && Bucket(x.bucketStart, w) == Bucket(c.bucketStart, w)
    ensures Join(cs, Absorb(x, c), w) == Join(Join(cs, x, w), c, w)
  {
    var one := Join(cs, x, w);
    var two := Join(one, c, w);
    assert one[|one| - 1].bucketStart == Bucket(c.bucketStart, w);
    if cs != [] && cs[|cs| - 1].bucketStart == Bucket(x.bucketStart, w) {
      assert one[..|one| - 1] == cs[..|cs| - 1];
      assert Absorb(cs[|cs| - 1], Absorb(x, c)) == Absorb(Absorb(cs[|cs| - 1], x), c);
    } else {
      assert one[..|one| - 1] == cs;
    }
  }

  /** Roll-ups compose: first into narrow windows, then into wide ones, or into wide ones at once. */
  lemma {:induction false} RollUpsCompose(cs: seq<Candle>, a: int, b: int)
    requires a > 0 && b > 0 && b % a == 0
    ensures RollUp(RollUp(cs, a), b) == RollUp(cs, b)
  {
    if cs != [] {
      RollUpsCompose(cs[..|cs| - 1], a, b);
      JoinThenRollUp(RollUp(cs[..|cs| - 1], a), cs[|cs| - 1], a, b);
    }
  }

  // ---------------- A series is the roll-up of its trades ----------------

  lemma {:induction false} TicksStep(trades: seq<Trade>)
    requires trades != []
    ensures var t := trades[|trades| - 1]; var ticks := Ticks(trades);
      && ticks != [] && ticks[..|ticks| - 1] == Ticks(trades[..|trades| - 1])
      && ticks[|ticks| - 1] == Tick(t)
  {
  }

  /** Extending the trades of a window extends the candle that summarises them. */
  lemma {:induction false} SummaryGrows(c: Candle, seg: seq<Trade>, t: Trade)
    requires Summarises(c, seg)
    ensures Summarises(Absorb(c, Tick(t)), seg + [t])
  {
    var more := seg + [t];
    assert more[..|more| - 1] == seg && more[|seg|] == t && t in more;
    assert SumVolume(more) == SumVolume(seg) + t.volume;
    hide SumVolume;
    var h :| h in seg && h.price == c.high;
    var l :| l in seg && l.price == c.low;
    assert h in more && l in more;
  }

  lemma {:induction false} BucketMonotone(s: int, t: int, w: int)
    requires w > 0 && s <= t
    ensures Bucket(s, w) <= Bucket(t, w)
    ensures Bucket(t, w) <= t < Bucket(t, w) + w
  {
    var p, q := s / w, t / w;
    assert p * w <= s && t < (q + 1) * w && (p - q) * w == p * w - q * w;
    TimesAtLeast(p - q, w);
    TimesAtLeast(q - p, w);
  }

  /** All trades of a series are in windows up to the last candle's. */
  lemma {:induction false} EarlierWindow(trades: seq<Trade>, w: int, cs: seq<Candle>, t: Trade, start: int, i: nat)
    requires w > 0 && IsSeries(trades, w, cs) && TimeOrdered(trades + [t]) && start == Bucket(t.time, w) && i < |cs|
    ensures cs[i].bucketStart <= start
  {
    var b := cs[i].bucketStart;
    InBucketMembers(trades, b, w);
    var first := InBucket(trades, b, w)[0];
    assert first in InBucket(trades, b, w);
    var k :| 0 <= k < |trades| && trades[k] == first;
    assert (trades + [t])[k].time <= (trades + [t])[|trades|].time;
    BucketMonotone(first.time, t.time, w);
  }

  lemma {:induction false} NoTradeYet(trades: seq<Trade>, w: int, cs: seq<Candle>, start: int)
    requires w > 0 && IsSeries(trades, w, cs) && !HasBucket(cs, start)
    ensures InBucket(trades, start, w) == []
  {
    InBucketMembers(trades, start, w);
    HeadIsMember(InBucket(trades, start, w));
  }

  lemma {:induction false} InBucketGrows(trades: seq<Trade>, t: Trade, b: int, w: int)
    requires w > 0
    ensures InBucket(trades + [t], b, w) == InBucket(trades, b, w) + if Bucket(t.time, w) == b then [t] else []
  {
    assert (trades + [t])[..|trades|] == trades;
  }

  /** `cs'` is `cs` with the trade joined to the window that starts at `start`. */
  ghost predicate GrownBy(cs: seq<Candle>, cs': seq<Candle>, t: Trade, start: int) {
    cs' == if cs != [] && cs[|cs| - 1].bucketStart == start then cs[..|cs| - 1] + [Absorb(cs[|cs| - 1], Tick(t))]
           else cs + [Tick(t).(bucketStart := start)]
  }

  /** One more trade at the end: the series grows as the roll-up does. */
  lemma {:induction false} SeriesGrows(
      trades: seq<Trade>, w: int, cs: seq<Candle>, t: Trade, start: int, cs': seq<Candle>)
    requires w > 0 && IsSeries(trades, w, cs) && TimeOrdered(trades + [t]) && start == Bucket(t.time, w)
    requires GrownBy(cs, cs', t, start)
    ensures IsSeries(trades + [t], w, cs')
  {
    forall i | 0 <= i < |cs| ensures cs[i].bucketStart <= start { EarlierWindow(trades, w, cs, t, start, i); }
    StillAscending(cs, t, start, cs');
    forall i | 0 <= i < |cs'| ensures Summarises(cs'[i], InBucket(trades + [t], cs'[i].bucketStart, w)) {
      StillSummarises(trades, w, cs, t, start, cs', i);
    }
    forall x | x in trades + [t] ensures HasBucket(cs', Bucket(x.time, w)) {
      StillHasBucket(cs, t, start, cs', Bucket(x.time, w));
    }
  }

  lemma {:induction false} StillAscending(cs: seq<Candle>, t: Trade, start: int, cs': seq<Candle>)
    requires Ascending(cs) && GrownBy(cs, cs', t, start) && forall i :: 0 <= i < |cs| ==> cs[i].bucketStart <= start
    ensures Ascending(cs')
  {
  }

  lemma {:induction false} StillSummarises(
      trades: seq<Trade>, w: int, cs: seq<Candle>, t: Trade, start: int, cs': seq<Candle>, i: nat)
    requires w > 0 && IsSeries(trades, w, cs) && start == Bucket(t.time, w) && GrownBy(cs, cs', t, start)
    requires (forall k :: 0 <= k < |cs| ==> cs[k].bucketStart <= start) && i < |cs'|
    ensures Summarises(cs'[i], InBucket(trades + [t], cs'[i].bucketStart, w))
  {
    InBucketGrows(trades, t, cs'[i].bucketStart, w);
    if i < |cs'| - 1 {
      EarlierCandle(cs, t, start, cs', i);
      AppendNothing(InBucket(trades, cs[i].bucketStart, w));
    } else {
      if !(cs != [] && cs[|cs| - 1].bucketStart == start) {
        NewBucket(cs, start);
        NoTradeYet(trades, w, cs, start);
      }
      LastSummary(cs, InBucket(trades, start, w), t, start, cs');
    }
  }

  lemma {:induction false} EarlierCandle(cs: seq<Candle>, t: Trade, start: int, cs': seq<Candle>, i: nat)
    requires Ascending(cs) && GrownBy(cs, cs', t, start) && forall k :: 0 <= k < |cs| ==> cs[k].bucketStart <= start
    requires i < |cs'| - 1
    ensures i < |cs| && cs'[i] == cs[i] && cs[i].bucketStart < start
  {
    StillAscending(cs, t, start, cs');
  }

  lemma {:induction false} NewBucket(cs: seq<Candle>, start: int)
    requires Ascending(cs) && forall k :: 0 <= k < |cs| ==> cs[k].bucketStart <= start
    requires cs == [] || cs[|cs| - 1].bucketStart != start
    ensures !HasBucket(cs, start)
  {
  }

  lemma {:induction false} AppendNothing(seg: seq<Trade>)
    ensures seg + [] == seg
  {
  }

  lemma {:induction false} LastSummary(cs: seq<Candle>, seg: seq<Trade>, t: Trade, start: int, cs': seq<Candle>)
    requires GrownBy(cs, cs', t, start)
    requires if cs != [] && cs[|cs| - 1].bucketStart == start then Summarises(cs[|cs| - 1], seg) else seg == []
    ensures cs'[|cs'| - 1].bucketStart == start && Summarises(cs'[|cs'| - 1], seg + [t])
  {
    if seg == [] {
      SingleSummary(t, start);
      assert [] + [t] == [t];
    } else {
      SummaryGrows(cs[|cs| - 1], seg, t);
    }
  }

  lemma {:induction false} StillHasBucket(cs: seq<Candle>, t: Trade, start: int, cs': seq<Candle>, b: int)
    requires GrownBy(cs, cs', t, start) && (HasBucket(cs, b) || b == start)
    ensures HasBucket(cs', b)
  {
    if b == start {
      assert cs'[|cs'| - 1].bucketStart == b;
    } else {
      var i :| 0 <= i < |cs| && cs[i].bucketStart == b;
      assert cs'[i].bucketStart == b;
    }
  }

  lemma {:induction false} SingleSummary(t: Trade, start: int)
    ensures Summarises(Candle(start, t.price, t.price, t.price, t.price, t.volume), [t])
  {
    assert t in [t] && [t][..0] == [];
  }

  /** The roll-up of the trades themselves is a candle series. */
  lemma {:induction false} RollUpIsSeries(trades: seq<Trade>, w: int)
    requires w > 0 && TimeOrdered(trades)
    ensures IsSeries(trades, w, RollUp(Ticks(trades), w))
  {
    if trades != [] {
      var init, t := trades[..|trades| - 1], trades[|trades| - 1];
      RollUpIsSeries(init, w);
      TicksStep(trades);
      assert trades == init + [t];
      SeriesGrows(init, w, RollUp(Ticks(init), w), t, Bucket(t.time, w), RollUp(Ticks(trades), w));
    }
  }

  /** There is only one candle series for given trades and width. */
  lemma {:induction false} SeriesUnique(trades: seq<Trade>, w: int, xs: seq<Candle>, ys: seq<Candle>)
    requires w > 0 && IsSeries(trades, w, xs) && IsSeries(trades, w, ys)
    ensures xs == ys
  {
    SameBuckets(trades, trades, w, xs, ys);
    SameStarts(xs, ys);
    forall i | 0 <= i < |xs| ensures xs[i] == ys[i] {
      SummaryUnique(xs[i], ys[i], InBucket(trades, xs[i].bucketStart, w));
    }
  }

  lemma {:induction false} SummaryUnique(x: Candle, y: Candle, seg: seq<Trade>)
    requires Summarises(x, seg) && Summarises(y, seg) && x.bucketStart == y.bucketStart
    ensures x == y
  {
  }

  /** Series over trades with the same members have the same windows. */
  lemma {:induction false} SameBuckets(trades: seq<Trade>, trades': seq<Trade>, w: int, xs: seq<Candle>, ys: seq<Candle>)
    requires w > 0 && IsSeries(trades, w, xs) && IsSeries(trades', w, ys)
    requires forall t :: t in trades <==> t in trades'
    ensures forall start :: HasBucket(xs, start) <==> HasBucket(ys, start)
  {
    forall start | HasBucket(xs, start) ensures HasBucket(ys, start) {
      InBucketMembers(trades, start, w);
      var seg := InBucket(trades, start, w);
      assert seg[0] in seg && seg[0] in trades';
    }
    forall start | HasBucket(ys, start) ensures HasBucket(xs, start) {
      InBucketMembers(trades', start, w);
      var seg := InBucket(trades', start, w);
      assert seg[0] in seg && seg[0] in trades;
    }
  }

  /** Two ascending series with the same windows start at the same places. */
  lemma {:induction false} SameStarts(xs: seq<Candle>, ys: seq<Candle>)
    requires Ascending(xs) && Ascending(ys) && forall start :: HasBucket(xs, start) <==> HasBucket(ys, start)
    ensures |xs| == |ys| && forall i :: 0 <= i < |xs| ==> xs[i].bucketStart == ys[i].bucketStart
  {
    assert (xs != [] ==> HasBucket(xs, xs[0].bucketStart)) && (ys != [] ==> HasBucket(ys, ys[0].bucketStart));
    if xs != [] && ys != [] {
      var m, n := |xs| - 1, |ys| - 1;
      var a, b := xs[m].bucketStart, ys[n].bucketStart;
      assert HasBucket(xs, a) && HasBucket(ys, b);
      var i :| 0 <= i < |ys| && ys[i].bucketStart == a;
      var j :| 0 <= j < |xs| && xs[j].bucketStart == b;
      assert a == b;
      forall start ensures HasBucket(xs[..m], start) <==> HasBucket(ys[..n], start) {
        WithoutLast(xs, start);
        WithoutLast(ys, start);
      }
      SameStarts(xs[..m], ys[..n]);
      assert forall k :: 0 <= k < m ==> xs[k].bucketStart == xs[..m][k].bucketStart;
    }
  }

  lemma {:induction false} WithoutLast(xs: seq<Candle>, start: int)
    requires Ascending(xs) && xs != []
    ensures HasBucket(xs[..|xs| - 1], start) <==> HasBucket(xs, start) && start != xs[|xs| - 1].bucketStart
  {
    var init := xs[..|xs| - 1];
    if HasBucket(init, start) {
      var k :| 0 <= k < |init| && init[k].bucketStart == start;
      assert xs[k].bucketStart == start;
    }
    if HasBucket(xs, start) && start != xs[|xs| - 1].bucketStart {
      var k :| 0 <= k < |xs| && xs[k].bucketStart == start;
      assert init[k].bucketStart == start;
    }
  }

  /**
   Roll-up theorem.  When `a` divides `b` (60 and 300 in the program), the series of width `b`
   is the series of width `a` folded into the larger windows, for all trades and all times.
   */
  lemma {:induction false} WideSeriesIsRollUp(trades: seq<Trade>, a: int, b: int, narrow: seq<Candle>, wide: seq<Candle>)
    requires a > 0 && b > 0 && b % a == 0 && TimeOrdered(trades)
    requires IsSeries(trades, a, narrow) && IsSeries(trades, b, wide)
    ensures wide == RollUp(narrow, b)
  {
    RollUpIsSeries(trades, a);
    RollUpIsSeries(trades, b);
    SeriesUnique(trades, a, narrow, RollUp(Ticks(trades), a));
    SeriesUnique(trades, b, wide, RollUp(Ticks(trades), b));
    RollUpsCompose(Ticks(trades), a, b);
  }

  // ---------------- Partition and conservation ----------------

  /** Every trade lies in the window of exactly one candle, and within that candle's price range. */
  lemma {:induction false} EveryTradeInOneCandle(trades: seq<Trade>, w: int, cs: seq<Candle>, t: Trade)
    requires w > 0 && IsSeries(trades, w, cs) && t in trades
    ensures exists i ::
      && 0 <= i < |cs| && InWindow(cs[i], t, w) && cs[i].low <= t.price <= cs[i].high
      && forall j :: 0 <= j < |cs| && InWindow(cs[j], t, w) ==> j == i
  {
    hide Bucket, Summarises;
    var start := Bucket(t.time, w);
    assert HasBucket(cs, start);
    var i :| 0 <= i < |cs| && cs[i].bucketStart == start;
    BucketMonotone(t.time, t.time, w);
    InBucketMembers(trades, start, w);
    PriceInCandle(cs[i], InBucket(trades, start, w), t);
    forall j | 0 <= j < |cs| && InWindow(cs[j], t, w) ensures j == i {
      WindowStart(trades, w, cs, j, t.time);
    }
  }

  lemma {:induction false} PriceInCandle(c: Candle, seg: seq<Trade>, t: Trade)
    requires Summarises(c, seg) && t in seg
    ensures c.low <= t.price <= c.high
  {
  }

  predicate InWindow(c: Candle, t: Trade, w: int) { c.bucketStart <= t.time < c.bucketStart + w }

  lemma {:induction false} WindowStart(trades: seq<Trade>, w: int, cs: seq<Candle>, j: nat, time: int)
    requires w > 0 && IsSeries(trades, w, cs) && j < |cs| && cs[j].bucketStart <= time < cs[j].bucketStart + w
    ensures cs[j].bucketStart == Bucket(time, w)
  {
    var start := cs[j].bucketStart;
    var seg := InBucket(trades, start, w);
    InBucketMembers(trades, start, w);
    assert seg[0] in seg;
    var q := seg[0].time / w;
    assert start == q * w;
    DivideSum(q, time - start, w);
    SmallQuotient(time - start, w);
  }

  /** The shape of each candle. */
  lemma {:induction false} CandleShape(trades: seq<Trade>, w: int, cs: seq<Candle>, i: nat)
    requires w > 0 && IsSeries(trades, w, cs) && i < |cs|
    ensures cs[i].low <= cs[i].open <= cs[i].high && cs[i].low <= cs[i].close <= cs[i].high
  {
    var seg := InBucket(trades, cs[i].bucketStart, w);
    assert seg[0] in seg && seg[|seg| - 1] in seg;
  }

  function CandleVolume(cs: seq<Candle>): real {
    if cs == [] then 0.0 else CandleVolume(cs[..|cs| - 1]) + cs[|cs| - 1].volume
  }

  lemma {:induction false} JoinVolume(cs: seq<Candle>, c: Candle, w: int)
    requires w > 0
    ensures CandleVolume(Join(cs, c, w)) == CandleVolume(cs) + c.volume
  {
    var joined := Join(cs, c, w);
    assert joined[..|joined| - 1] == if |joined| == |cs| then cs[..|cs| - 1] else cs;
  }

  lemma {:induction false} RollUpVolume(cs: seq<Candle>, w: int)
    requires w > 0
    ensures CandleVolume(RollUp(cs, w)) == CandleVolume(cs)
  {
    if cs != [] {
      RollUpVolume(cs[..|cs| - 1], w);
      JoinVolume(RollUp(cs[..|cs| - 1], w), cs[|cs| - 1], w);
    }
  }

  lemma {:induction false} TickVolume(trades: seq<Trade>)
    ensures CandleVolume(Ticks(trades)) == SumVolume(trades)
  {
    if trades != [] {
      TicksStep(trades);
      TickVolume(trades[..|trades| - 1]);
    }
  }

  /** The volumes of the candles add up to the volume of the trades. */
  lemma {:induction false} VolumeConserved(trades: seq<Trade>, w: int, cs: seq<Candle>)
    requires w > 0 && TimeOrdered(trades) && IsSeries(trades, w, cs)
    ensures CandleVolume(cs) == SumVolume(trades)
  {
    RollUpIsSeries(trades, w);
    SeriesUnique(trades, w, cs, RollUp(Ticks(trades), w));
    RollUpVolume(Ticks(trades), w);
    TickVolume(trades);
  }
}

/**
 Aggregation of trades into candles (crates/ohlcv/src/lib.rs, lines 113-163).  Prices and volumes
 are reals, so rounding is not modelled; the two fold seeds of the source are the extreme finite
 doubles, and prices lie between them.
 */
module Candles {
  import opened Numbers
  import opened Sequences

  datatype Trade = Trade(signature: string, time: int, mint: string, price: real, volume: real)

  datatype Candle = Candle(bucketStart: int, open: real, high: real, low: real, close: real, volume: real)

  /** The largest finite double, (2 - 2^-52) * 2^1023. */
  const F64_MAX: real := 179769313486231570814527423731704356798070567525844996598917476803157260780028538760589558632766878171540458953514382464234321326889464182768467546703537516986049910576551282076245490090389328944075868508455133942304583236903222948165808559332123348274797826204144723168738177180919299881250404026184124858368.0

  predicate Finite(x: real) { -F64_MAX <= x <= F64_MAX }

  /** Start of the window of width `w` that contains `time`; the division rounds towards minus infinity. */
  function Bucket(time: int, w: int): int
    requires w > 0
  {
    time / w * w
  }

  // ---------------- Lists of trades ----------------

  function OfMint(trades: seq<Trade>, mint: string): seq<Trade> {
    if trades == [] then []
    else OfMint(trades[..|trades| - 1], mint) + if trades[|trades| - 1].mint == mint then [trades[|trades| - 1]] else []
  }

  function InBucket(trades: seq<Trade>, start: int, w: int): seq<Trade>
    requires w > 0
  {
    if trades == [] then []
    else
      var t := trades[|trades| - 1];
      InBucket(trades[..|trades| - 1], start, w) + if Bucket(t.time, w) == start then [t] else []
  }

  /** The stable sort by time: each trade goes behind all trades that are not later. */
  function Insert(sorted: seq<Trade>, t: Trade): seq<Trade> {
    if sorted == [] || sorted[|sorted| - 1].time <= t.time then sorted + [t]
    else Insert(sorted[..|sorted| - 1], t) + [sorted[|sorted| - 1]]
  }

  function SortByTime(trades: seq<Trade>): seq<Trade> {
    if trades == [] then [] else Insert(SortByTime(trades[..|trades| - 1]), trades[|trades| - 1])
  }

  ghost predicate TimeOrdered(trades: seq<Trade>) {
    forall k, l :: 0 <= k <= l < |trades| ==> trades[k].time <= trades[l].time
  }

  function MaxFrom(seed: real, trades: seq<Trade>): real {
    if trades == [] then seed else MaxReal(MaxFrom(seed, trades[..|trades| - 1]), trades[|trades| - 1].price)
  }

  function MinFrom(seed: real, trades: seq<Trade>): real {
    if trades == [] then seed else MinReal(MinFrom(seed, trades[..|trades| - 1]), trades[|trades| - 1].price)
  }

  function SumVolume(trades: seq<Trade>): real {
    if trades == [] then 0.0 else SumVolume(trades[..|trades| - 1]) + trades[|trades| - 1].volume
  }

  // ---------------- What a candle series is ----------------

  /** `c` summarises exactly the trades `seg`, given in time order. */
  ghost predicate Summarises(c: Candle, seg: seq<Trade>) {
    && seg != []
    && c.open == seg[0].price && c.close == seg[|seg| - 1].price
    && (forall t :: t in seg ==> c.low <= t.price <= c.high)
    && (exists t :: t in seg && t.price == c.high)
    && (exists t :: t in seg && t.price == c.low)
    && c.volume == SumVolume(seg)
  }

  ghost predicate Ascending(cs: seq<Candle>) {
    forall i, j :: 0 <= i < j < |cs| ==> cs[i].bucketStart < cs[j].bucketStart
  }

  ghost predicate HasBucket(cs: seq<Candle>, start: int) {
    exists i :: 0 <= i < |cs| && cs[i].bucketStart == start
  }

  /** One candle for every non-empty window, in order, each summarising the trades of its window. */
  ghost predicate IsSeries(trades: seq<Trade>, w: int, cs: seq<Candle>)
    requires w > 0
  {
    && Ascending(cs)
    && (forall t :: t in trades ==> HasBucket(cs, Bucket(t.time, w)))
    && (forall i :: 0 <= i < |cs| ==> Summarises(cs[i], InBucket(trades, cs[i].bucketStart, w)))
  }

  // ---------------- The algorithm ----------------

  method GroupByMint(trades: seq<Trade>) returns (byMint: map<string, seq<Trade>>)
    ensures forall mint :: mint in byMint <==> OfMint(trades, mint) != []
    ensures forall mint :: mint in byMint ==> byMint[mint] == OfMint(trades, mint)
  {
    byMint := map[];
    for i := 0 to |trades|
      invariant forall mint :: mint in byMint <==> OfMint(trades[..i], mint) != []
      invariant forall mint :: mint in byMint ==> byMint[mint] == OfMint(trades[..i], mint)
    {
      assert trades[..i + 1][..i] == trades[..i];
      var t := trades[i];
      byMint := byMint[t.mint := (if t.mint in byMint then byMint[t.mint] else []) + [t]];
    }
    assert trades[..|trades|] == trades;
  }

  method GroupByBucket(trades: seq<Trade>, w: int) returns (buckets: map<int, seq<Trade>>)
    requires w > 0
    ensures forall b :: b in buckets <==> InBucket(trades, b, w) != []
    ensures forall b :: b in buckets ==> buckets[b] == InBucket(trades, b, w)
  {
    buckets := map[];
    for i := 0 to |trades|
      invariant forall b :: b in buckets <==> InBucket(trades[..i], b, w) != []
      invariant forall b :: b in buckets ==> buckets[b] == InBucket(trades[..i], b, w)
    {
      assert trades[..i + 1][..i] == trades[..i];
      var t := trades[i];
      var start := Bucket(t.time, w);
      buckets := buckets[start := (if start in buckets then buckets[start] else []) + [t]];
    }
    assert trades[..|trades|] == trades;
  }

  ghost predicate StrictlySorted(xs: seq<int>) {
    forall i, j :: 0 <= i < j < |xs| ==> xs[i] < xs[j]
  }

  /** The keys of a map come in no particular order; sorted they are one ascending list. */
  method SortedKeys(keys: set<int>) returns (sorted: seq<int>)
    ensures forall k :: k in sorted <==> k in keys
    ensures StrictlySorted(sorted)
  {
    sorted := [];
    var rest := keys;
    while rest != {}
      invariant rest <= keys
      invariant forall k :: k in sorted <==> k in keys && k !in rest
      invariant StrictlySorted(sorted)
      decreases |rest|
    {
      ghost var someKey := AnElement(rest);
      var key :| key in rest;
      rest := rest - {key};
      sorted := InsertKey(sorted, key);
    }
  }

  method InsertKey(keys: seq<int>, key: int) returns (sorted: seq<int>)
    requires StrictlySorted(keys) && key !in keys
    ensures StrictlySorted(sorted) && forall k :: k in sorted <==> k in keys || k == key
  {
    var p := 0;
    while p < |keys| && keys[p] < key
      invariant 0 <= p <= |keys|
      invariant forall i :: 0 <= i < p ==> keys[i] < key
    {
      p := p + 1;
    }
    sorted := keys[..p] + [key] + keys[p..];
    InsertAt(keys, p, key);
  }

  lemma {:induction false} InsertAt(keys: seq<int>, p: nat, key: int)
    requires p <= |keys| && StrictlySorted(keys) && key !in keys
    requires (forall i :: 0 <= i < p ==> keys[i] < key) && (p < |keys| ==> keys[p] >= key)
    ensures StrictlySorted(keys[..p] + [key] + keys[p..])
    ensures forall k :: k in keys[..p] + [key] + keys[p..] <==> k in keys || k == key
  {
    assert keys == keys[..p] + keys[p..];
    forall i | p <= i < |keys| ensures key < keys[i] {
      assert keys[p] in keys && keys[p] <= keys[i];
    }
  }

  /** The candle of one window. */
  function CandleOf(start: int, seg: seq<Trade>): Candle
    requires seg != []
  {
    Candle(start, seg[0].price, MaxFrom(-F64_MAX, seg), MinFrom(F64_MAX, seg), seg[|seg| - 1].price, SumVolume(seg))
  }

  /** The last loop: one candle per key. */
  method CandlesForKeys(trades: seq<Trade>, w: int, buckets: map<int, seq<Trade>>, bucketKeys: seq<int>)
    returns (cs: seq<Candle>)
    requires w > 0 && forall t :: t in trades ==> Finite(t.price)
    requires forall b :: b in bucketKeys ==> b in buckets && buckets[b] == InBucket(trades, b, w) != []
    ensures |cs| == |bucketKeys|
    ensures forall k :: 0 <= k < |cs| ==> IsCandleOf(trades, w, cs[k], bucketKeys[k])
  {
    cs := [];
    for i := 0 to |bucketKeys|
      invariant |cs| == i
      invariant forall k :: 0 <= k < i ==> IsCandleOf(trades, w, cs[k], bucketKeys[k])
    {
      assert bucketKeys[i] in bucketKeys;
      InBucketMembers(trades, bucketKeys[i], w);
      CandleOfSummarises(bucketKeys[i], buckets[bucketKeys[i]]);
      cs := cs + [CandleOf(bucketKeys[i], buckets[bucketKeys[i]])];
    }
  }

  ghost predicate IsCandleOf(trades: seq<Trade>, w: int, c: Candle, start: int)
    requires w > 0
  {
    c.bucketStart == start && Summarises(c, InBucket(trades, start, w))
  }

  method CandlesOfMint(trades: seq<Trade>, w: int) returns (cs: seq<Candle>)
    requires w > 0 && forall t :: t in trades ==> Finite(t.price)
    ensures IsSeries(trades, w, cs)
  {
    var buckets := GroupByBucket(trades, w);
    var bucketKeys := SortedKeys(buckets.Keys);
    cs := CandlesForKeys(trades, w, buckets, bucketKeys);
    forall t | t in trades ensures HasBucket(cs, Bucket(t.time, w)) {
      InBucketMembers(trades, Bucket(t.time, w), w);
      assert t in InBucket(trades, Bucket(t.time, w), w);
      assert Bucket(t.time, w) in bucketKeys;
      var i :| 0 <= i < |bucketKeys| && bucketKeys[i] == Bucket(t.time, w);
      assert IsCandleOf(trades, w, cs[i], bucketKeys[i]);
    }
    assert forall i :: 0 <= i < |cs| ==> IsCandleOf(trades, w, cs[i], bucketKeys[i]);
  }

  method BuildCandles(trades: seq<Trade>, intervalSeconds: int) returns (result: map<string, seq<Candle>>)
    requires intervalSeconds > 0 && forall t :: t in trades ==> Finite(t.price)
    ensures forall mint :: mint in result <==> OfMint(trades, mint) != []
    ensures forall mint :: mint in result ==> IsSeries(SortByTime(OfMint(trades, mint)), intervalSeconds, result[mint])
  {
    var byMint := GroupByMint(trades);
    result := map[];
    var rest := byMint.Keys;
    while rest != {}
      invariant rest <= byMint.Keys && result.Keys == byMint.Keys - rest
      invariant forall mint :: mint in result ==> IsSeries(SortByTime(OfMint(trades, mint)), intervalSeconds, result[mint])
      decreases |rest|
    {
      var mint :| mint in rest;
      rest := rest - {mint};
      var sorted := SortByTime(byMint[mint]);
      SortIsStableSort(byMint[mint]);
      OfMintMembers(trades, mint);
      var candles := CandlesOfMint(sorted, intervalSeconds);
      result := result[mint := candles];
    }
  }

  // ---------------- Members of filtered and sorted lists ----------------

  lemma {:induction false} OfMintMembers(trades: seq<Trade>, mint: string)
    ensures forall t :: t in OfMint(trades, mint) <==> t in trades && t.mint == mint
  {
    if trades != [] {
      OfMintMembers(trades[..|trades| - 1], mint);
      assert trades == trades[..|trades| - 1] + [trades[|trades| - 1]];
    }
  }

  lemma {:induction false} InBucketMembers(trades: seq<Trade>, start: int, w: int)
    requires w > 0
    ensures forall t :: t in InBucket(trades, start, w) <==> t in trades && Bucket(t.time, w) == start
  {
    if trades != [] {
      InBucketMembers(trades[..|trades| - 1], start, w);
      assert trades == trades[..|trades| - 1] + [trades[|trades| - 1]];
    }
  }

  lemma {:induction false} InsertMembers(sorted: seq<Trade>, t: Trade)
    ensures multiset(Insert(sorted, t)) == multiset(sorted) + multiset{t}
    ensures forall x :: x in Insert(sorted, t) <==> x in sorted || x == t
  {
    if !(sorted == [] || sorted[|sorted| - 1].time <= t.time) {
      InsertMembers(sorted[..|sorted| - 1], t);
      assert sorted == sorted[..|sorted| - 1] + [sorted[|sorted| - 1]];
    }
  }

  lemma {:induction false} InsertOrdered(sorted: seq<Trade>, t: Trade)
    requires TimeOrdered(sorted)
    ensures TimeOrdered(Insert(sorted, t))
  {
    if !(sorted == [] || sorted[|sorted| - 1].time <= t.time) {
      var init, last := sorted[..|sorted| - 1], sorted[|sorted| - 1];
      InsertOrdered(init, t);
      var r := Insert(init, t);
      InsertMembers(init, t);
      forall k | 0 <= k < |r| ensures r[k].time <= last.time {
        assert r[k] in r;
      }
    }
  }

  /** The sort orders by time and keeps every trade. */
  lemma {:induction false} SortIsStableSort(trades: seq<Trade>)
    ensures TimeOrdered(SortByTime(trades)) && multiset(SortByTime(trades)) == multiset(trades)
    ensures forall t :: t in SortByTime(trades) <==> t in trades
  {
    hide Insert;
    if trades != [] {
      var init := trades[..|trades| - 1];
      SortIsStableSort(init);
      InsertMembers(SortByTime(init), trades[|trades| - 1]);
      InsertOrdered(SortByTime(init), trades[|trades| - 1]);
      assert trades == init + [trades[|trades| - 1]];
    }
  }

  lemma {:induction false} MaxFromMeaning(seed: real, trades: seq<Trade>)
    ensures MaxFrom(seed, trades) >= seed && forall t :: t in trades ==> t.price <= MaxFrom(seed, trades)
    ensures MaxFrom(seed, trades) == seed || exists t :: t in trades && t.price == MaxFrom(seed, trades)
  {
    if trades != [] {
      var init, last := trades[..|trades| - 1], trades[|trades| - 1];
      MaxFromMeaning(seed, init);
      assert trades == init + [last] && last in trades;
    }
  }

  lemma {:induction false} MinFromMeaning(seed: real, trades: seq<Trade>)
    ensures MinFrom(seed, trades) <= seed && forall t :: t in trades ==> MinFrom(seed, trades) <= t.price
    ensures MinFrom(seed, trades) == seed || exists t :: t in trades && t.price == MinFrom(seed, trades)
  {
    if trades != [] {
      var init, last := trades[..|trades| - 1], trades[|trades| - 1];
      MinFromMeaning(seed, init);
      assert trades == init + [last] && last in trades;
    }
  }

  lemma {:induction false} CandleOfSummarises(start: int, seg: seq<Trade>)
    requires seg != [] && forall t :: t in seg ==> Finite(t.price)
    ensures Summarises(CandleOf(start, seg), seg)
  {
    MaxFromMeaning(-F64_MAX, seg);
    MinFromMeaning(F64_MAX, seg);
    assert seg[0] in seg && Finite(seg[0].price);
  }
}

/**
 Trades inferred from the balance deltas of one transaction (crates/ohlcv/src/lib.rs, lines 27-111).
 Decimal-adjusted amounts are reals, so the rounding of doubles is not modelled.
 */
module Trades {
  import opened Numbers
  import opened Options
  import opened Candles
  import opened Sequences

  const WSOL_MINT := "So11111111111111111111111111111111111111112"

  const DUST_THRESHOLD_SOL: real := 0.0005

  datatype TokenDelta = TokenDelta(mint: string, pre: u64, post: u64, decimals: u8)

  datatype TxSnapshot = TxSnapshot(signature: string, blockTime: int, tokenDeltas: seq<TokenDelta>)

  function Pow10(n: nat): (r: real)
    ensures r >= 1.0
  {
    if n == 0 then 1.0 else 10.0 * Pow10(n - 1)
  }

  function Abs(x: real): real { if x < 0.0 then -x else x }

  /** The signed balance change in whole tokens. */
  function DeltaUi(d: TokenDelta): real { (d.post - d.pre) as real / Pow10(d.decimals) }

  /** The first row of the mint. */
  function FindMint(deltas: seq<TokenDelta>, mint: string): Option<TokenDelta> {
    if deltas == [] then None
    else if deltas[0].mint == mint then Some(deltas[0])
    else FindMint(deltas[1..], mint)
  }

  /** The trade a row stands for, when the wSOL leg of the transaction changed by `wsolDelta`. */
  function TradeOf(tx: TxSnapshot, wsolDelta: real, d: TokenDelta): Option<Trade> {
    if d.mint == WSOL_MINT || DeltaUi(d) == 0.0 || (DeltaUi(d) > 0.0) == (wsolDelta > 0.0)
       || Abs(wsolDelta) < DUST_THRESHOLD_SOL
    then None
    else Some(Trade(tx.signature, tx.blockTime, d.mint, Abs(wsolDelta) / Abs(DeltaUi(d)), Abs(wsolDelta)))
  }

  /** The trades of the first `n` rows. */
  function TradesOf(tx: TxSnapshot, wsolDelta: real, n: nat): seq<Trade>
    requires n <= |tx.tokenDeltas|
  {
    if n == 0 then []
    else
      var t := TradeOf(tx, wsolDelta, tx.tokenDeltas[n - 1]);
      TradesOf(tx, wsolDelta, n - 1) + if t.Some? then [t.value] else []
  }

  function InferredTrades(tx: TxSnapshot): seq<Trade> {
    var wsol := FindMint(tx.tokenDeltas, WSOL_MINT);
    if wsol.None? || DeltaUi(wsol.value) == 0.0 then []
    else TradesOf(tx, DeltaUi(wsol.value), |tx.tokenDeltas|)
  }

  // ---------------- What counts as a trade ----------------

  ghost predicate DistinctMints(deltas: seq<TokenDelta>) {
    forall k, l :: 0 <= k < l < |deltas| ==> deltas[k].mint != deltas[l].mint
  }

  /** How far the balance moved, in base units. */
  ghost function Moved(d: TokenDelta): nat { if d.pre <= d.post then d.post - d.pre else d.pre - d.post }

  /** A two-sided swap: one leg rises, the other falls, and the wSOL leg is at least 0.0005 SOL. */
  ghost predicate Swap(d: TokenDelta, w: TokenDelta) {
    && d.mint != "So11111111111111111111111111111111111111112" == w.mint
    && ((d.pre < d.post && w.post < w.pre) || (d.post < d.pre && w.pre < w.post))
    && Moved(w) as real >= 0.0005 * Pow10(w.decimals)
  }

  /**
   The trade that a swap of `d` against `w` is: the volume is what the wSOL leg moved in SOL, and
   the price is that volume per whole token moved.
   */
  ghost predicate IsTradeOf(tx: TxSnapshot, t: Trade, d: TokenDelta, w: TokenDelta) {
    && Swap(d, w)
    && t.signature == tx.signature && t.time == tx.blockTime && t.mint == d.mint
    && HasAmounts(t, d, w)
  }

  ghost predicate HasAmounts(t: Trade, d: TokenDelta, w: TokenDelta) {
    && t.volume * Pow10(w.decimals) == Moved(w) as real
    && t.price * Moved(d) as real * Pow10(w.decimals) == Moved(w) as real * Pow10(d.decimals)
  }

  ghost predicate FirstOfMint(deltas: seq<TokenDelta>, mint: string, k: nat) {
    k < |deltas| && deltas[k].mint == mint && forall j :: 0 <= j < k ==> deltas[j].mint != mint
  }

  /** The trades, in row order, stand for the rows at `pos`: those that swap against the first wSOL row. */
  ghost predicate TradesAt(tx: TxSnapshot, trades: seq<Trade>, pos: seq<nat>) {
    && |pos| == |trades| && Increasing(pos)
    && (pos != [] ==> exists w :: FirstOfMint(tx.tokenDeltas, WSOL_MINT, w))
    && (forall w :: FirstOfMint(tx.tokenDeltas, WSOL_MINT, w) ==> TradesAgainst(tx, trades, pos, w, |tx.tokenDeltas|))
  }

  ghost predicate TradesAgainst(tx: TxSnapshot, trades: seq<Trade>, pos: seq<nat>, w: nat, n: nat)
    requires w < |tx.tokenDeltas| && n <= |tx.tokenDeltas| && |pos| == |trades|
  {
    && (forall m :: 0 <= m < |pos| ==>
          pos[m] < n && IsTradeOf(tx, trades[m], tx.tokenDeltas[pos[m]], tx.tokenDeltas[w]))
    && (forall k :: 0 <= k < n && Swap(tx.tokenDeltas[k], tx.tokenDeltas[w]) ==> k in pos)
  }

  lemma {:induction false} FindMintMeaning(deltas: seq<TokenDelta>, mint: string)
    ensures FindMint(deltas, mint).None? <==> forall k :: 0 <= k < |deltas| ==> deltas[k].mint != mint
    ensures FindMint(deltas, mint).Some? ==> FindMint(deltas, mint).value in deltas && FindMint(deltas, mint).value.mint == mint
  {
    if deltas != [] { FindMintMeaning(deltas[1..], mint); }
  }

  lemma {:induction false} FindMintIsFirst(deltas: seq<TokenDelta>, mint: string, k: nat)
    requires FirstOfMint(deltas, mint, k)
    ensures FindMint(deltas, mint) == Some(deltas[k])
  {
    if k > 0 { FindMintIsFirst(deltas[1..], mint, k - 1); }
  }

  lemma {:induction false} FirstExists(deltas: seq<TokenDelta>, mint: string) returns (k: nat)
    requires FindMint(deltas, mint).Some?
    ensures FirstOfMint(deltas, mint, k)
  {
    if deltas[0].mint == mint { return 0; }
    k := FirstExists(deltas[1..], mint);
    k := k + 1;
  }

  /** Dividing by the decimals keeps the direction of a change, and multiplying undoes it. */
  lemma {:induction false} DeltaUiMeaning(d: TokenDelta)
    ensures DeltaUi(d) > 0.0 <==> d.post > d.pre
    ensures DeltaUi(d) < 0.0 <==> d.post < d.pre
    ensures Abs(DeltaUi(d)) * Pow10(d.decimals) == Moved(d) as real
    ensures Abs(DeltaUi(d)) > 0.0 <==> d.post != d.pre
  {
    hide Pow10;
    SignOfQuotient((d.post - d.pre) as real, Pow10(d.decimals));
    AbsOfQuotient((d.post - d.pre) as real, Pow10(d.decimals));
  }

  lemma {:induction false} SignOfQuotient(x: real, p: real)
    requires p >= 1.0
    ensures x / p > 0.0 <==> x > 0.0
    ensures x / p < 0.0 <==> x < 0.0
  {
    var y := x / p;
    assert y * p == x;
  }

  lemma {:induction false} AboveThreshold(y: real, limit: real, p: real)
    requires p >= 1.0
    ensures y >= limit <==> y * p >= limit * p
  {
    assert (y - limit) * p == y * p - limit * p;
  }

  lemma {:induction false} TradeOfMeaning(tx: TxSnapshot, w: TokenDelta, d: TokenDelta)
    requires w.mint == WSOL_MINT && DeltaUi(w) != 0.0
    ensures TradeOf(tx, DeltaUi(w), d).Some? <==> Swap(d, w)
    ensures TradeOf(tx, DeltaUi(w), d).Some? ==> IsTradeOf(tx, TradeOf(tx, DeltaUi(w), d).value, d, w)
  {
    hide DeltaUi, Pow10, Abs, HasAmounts, Moved;
    DeltaUiMeaning(d);
    DeltaUiMeaning(w);
    AboveThreshold(Abs(DeltaUi(w)), 0.0005, Pow10(w.decimals));
    if TradeOf(tx, DeltaUi(w), d).Some? {
      AmountsOfTrade(TradeOf(tx, DeltaUi(w), d).value, d, w);
    }
  }

  lemma {:induction false} AmountsOfTrade(t: Trade, d: TokenDelta, w: TokenDelta)
    requires d.pre != d.post && w.pre != w.post
    requires Abs(DeltaUi(d)) > 0.0 && t.volume == Abs(DeltaUi(w)) && t.price == t.volume / Abs(DeltaUi(d))
    ensures HasAmounts(t, d, w)
  {
    hide DeltaUi, Pow10, Abs;
    DeltaUiMeaning(d);
    DeltaUiMeaning(w);
    PricePerUnit(t.volume, Abs(DeltaUi(d)), Pow10(w.decimals), Pow10(d.decimals), Moved(w) as real, Moved(d) as real);
  }

  lemma {:induction false} PricePerUnit(x: real, y: real, p: real, q: real, xp: real, yq: real)
    requires x > 0.0 && y > 0.0 && x * p == xp && y * q == yq
    ensures x / y * yq * p == xp * q
  {
    Quotient(x, y);
    PriceTimesUnits(x / y, x, y, p, q, xp, yq);
  }

  lemma {:induction false} PriceTimesUnits(z: real, x: real, y: real, p: real, q: real, xp: real, yq: real)
    requires z * y == x && x * p == xp && y * q == yq
    ensures z * yq * p == xp * q
  {
    assert z * yq == z * y * q;
    assert x * q * p == x * p * q;
  }

  lemma {:induction false} Quotient(x: real, y: real)
    requires x > 0.0 && y > 0.0
    ensures x / y > 0.0 && x / y * y == x
  {
  }

  lemma {:induction false} TradesOfMembers(tx: TxSnapshot, wsolDelta: real, n: nat, t: Trade)
    requires n <= |tx.tokenDeltas|
    ensures t in TradesOf(tx, wsolDelta, n) <==>
      exists k :: 0 <= k < n && TradeOf(tx, wsolDelta, tx.tokenDeltas[k]) == Some(t)
  {
    if n > 0 { TradesOfMembers(tx, wsolDelta, n - 1, t); }
  }

  lemma {:induction false} TradePositions(tx: TxSnapshot, w: nat, n: nat) returns (pos: seq<nat>)
    requires w < |tx.tokenDeltas| && n <= |tx.tokenDeltas|
    requires tx.tokenDeltas[w].mint == WSOL_MINT && DeltaUi(tx.tokenDeltas[w]) != 0.0
    ensures Increasing(pos) && |pos| == |TradesOf(tx, DeltaUi(tx.tokenDeltas[w]), n)|
    ensures TradesAgainst(tx, TradesOf(tx, DeltaUi(tx.tokenDeltas[w]), n), pos, w, n)
  {
    hide Swap, IsTradeOf, DeltaUi, TradeOf;
    pos := [];
    if n > 0 {
      hide TradesAgainst;
      var trades := TradesOf(tx, DeltaUi(tx.tokenDeltas[w]), n - 1);
      pos := TradePositions(tx, w, n - 1);
      assert Increasing(pos + [n - 1]) by { StaysIncreasing(tx, trades, pos, w, n - 1); }
      TradeOfMeaning(tx, tx.tokenDeltas[w], tx.tokenDeltas[n - 1]);
      OneMoreRow(tx, trades, pos, w, n - 1, TradeOf(tx, DeltaUi(tx.tokenDeltas[w]), tx.tokenDeltas[n - 1]));
      if Swap(tx.tokenDeltas[n - 1], tx.tokenDeltas[w]) {
        pos := pos + [n - 1];
      } else {
        assert TradesOf(tx, DeltaUi(tx.tokenDeltas[w]), n) == trades;
      }
    }
  }

  lemma {:induction false} StaysIncreasing(tx: TxSnapshot, trades: seq<Trade>, pos: seq<nat>, w: nat, n: nat)
    requires w < |tx.tokenDeltas| && n < |tx.tokenDeltas| && |pos| == |trades|
    requires Increasing(pos) && TradesAgainst(tx, trades, pos, w, n)
    ensures Increasing(pos + [n])
  {
    hide Swap, IsTradeOf;
  }

  lemma {:induction false} OneMoreRow(
      tx: TxSnapshot, trades: seq<Trade>, pos: seq<nat>, w: nat, n: nat, t: Option<Trade>)
    requires w < |tx.tokenDeltas| && n < |tx.tokenDeltas| && |pos| == |trades|
    requires TradesAgainst(tx, trades, pos, w, n)
    requires t.Some? <==> Swap(tx.tokenDeltas[n], tx.tokenDeltas[w])
    requires t.Some? ==> IsTradeOf(tx, t.value, tx.tokenDeltas[n], tx.tokenDeltas[w])
    ensures t.None? ==> TradesAgainst(tx, trades, pos, w, n + 1)
    ensures t.Some? ==> TradesAgainst(tx, trades + [t.value], pos + [n], w, n + 1)
  {
    hide Swap, IsTradeOf;
    assert forall k :: k in pos ==> k in pos + [n];
    assert n in pos + [n];
  }

  /** For any rows, also with several of one mint. */
  lemma {:induction false} TradesAreSwapsInOrder(tx: TxSnapshot) returns (pos: seq<nat>)
    ensures TradesAt(tx, InferredTrades(tx), pos)
  {
    hide TradesAgainst, TradesOf;
    var deltas := tx.tokenDeltas;
    pos := [];
    if FindMint(deltas, WSOL_MINT).Some? {
      var w := FirstExists(deltas, WSOL_MINT);
      FindMintIsFirst(deltas, WSOL_MINT, w);
      if DeltaUi(deltas[w]) != 0.0 {
        pos := TradePositions(tx, w, |deltas|);
      } else {
        NoTradeAgainst(tx, w);
      }
    } else {
      forall w | FirstOfMint(deltas, WSOL_MINT, w) ensures false {
        FindMintIsFirst(deltas, WSOL_MINT, w);
      }
    }
  }

  lemma {:induction false} NoTradeAgainst(tx: TxSnapshot, w: nat)
    requires w < |tx.tokenDeltas| && DeltaUi(tx.tokenDeltas[w]) == 0.0
    ensures TradesAgainst(tx, [], [], w, |tx.tokenDeltas|)
  {
    hide DeltaUi;
    DeltaUiMeaning(tx.tokenDeltas[w]);
  }

  method InferTrades(tx: TxSnapshot) returns (trades: seq<Trade>)
    ensures exists pos :: TradesAt(tx, trades, pos)
    ensures trades == InferredTrades(tx)
  {
    trades := [];
    var wsol := FindMint(tx.tokenDeltas, WSOL_MINT);
    if wsol.None? || DeltaUi(wsol.value) == 0.0 {
      ghost var none := TradesAreSwapsInOrder(tx);
      return;
    }
    var wsolDelta := DeltaUi(wsol.value);
    for i := 0 to |tx.tokenDeltas|
      invariant trades == TradesOf(tx, wsolDelta, i)
    {
      var d := tx.tokenDeltas[i];
      if d.mint == WSOL_MINT { continue; }
      var tokenDelta := DeltaUi(d);
      if tokenDelta == 0.0 { continue; }
      if (tokenDelta > 0.0) == (wsolDelta > 0.0) { continue; }
      var volumeSol := Abs(wsolDelta);
      if volumeSol < DUST_THRESHOLD_SOL { continue; }
      var priceInSol := volumeSol / Abs(tokenDelta);
      trades := trades + [Trade(tx.signature, tx.blockTime, d.mint, priceInSol, volumeSol)];
    }
    ghost var pos := TradesAreSwapsInOrder(tx);
  }

  lemma {:induction false} OneTradePerMint(tx: TxSnapshot, wsolDelta: real, n: nat)
    requires n <= |tx.tokenDeltas| && DistinctMints(tx.tokenDeltas)
    ensures forall i, j :: 0 <= i < j < |TradesOf(tx, wsolDelta, n)| ==>
      TradesOf(tx, wsolDelta, n)[i].mint != TradesOf(tx, wsolDelta, n)[j].mint
  {
    if n > 0 {
      OneTradePerMint(tx, wsolDelta, n - 1);
      var before := TradesOf(tx, wsolDelta, n - 1);
      forall i | 0 <= i < |before| ensures before[i].mint != tx.tokenDeltas[n - 1].mint {
        TradesOfMembers(tx, wsolDelta, n - 1, before[i]);
        assert before[i] in before;
      }
    }
  }

  lemma {:induction false} EachMintOnce(tx: TxSnapshot)
    requires DistinctMints(tx.tokenDeltas)
    ensures forall i, j :: 0 <= i < j < |InferredTrades(tx)| ==> InferredTrades(tx)[i].mint != InferredTrades(tx)[j].mint
  {
    hide TradesOf;
    var found := FindMint(tx.tokenDeltas, WSOL_MINT);
    if found.Some? { OneTradePerMint(tx, DeltaUi(found.value), |tx.tokenDeltas|); }
  }

  /**
   With one row per mint, a trade is inferred for a mint exactly when its row swaps against the wSOL
   row, it is the only trade of that mint, and its price times the tokens moved is the SOL moved.
   */
  lemma {:induction false} TradesAreSwaps(tx: TxSnapshot)
    requires DistinctMints(tx.tokenDeltas)
    ensures forall d, w :: d in tx.tokenDeltas && w in tx.tokenDeltas && Swap(d, w) ==>
      exists t :: t in InferredTrades(tx) && IsTradeOf(tx, t, d, w)
    ensures forall t :: t in InferredTrades(tx) ==>
      exists d, w :: d in tx.tokenDeltas && w in tx.tokenDeltas && IsTradeOf(tx, t, d, w)
    ensures forall i, j :: 0 <= i < j < |InferredTrades(tx)| ==> InferredTrades(tx)[i].mint != InferredTrades(tx)[j].mint
  {
    var deltas := tx.tokenDeltas;
    FindMintMeaning(deltas, WSOL_MINT);
    var found := FindMint(deltas, WSOL_MINT);
    forall d, w | d in deltas && w in deltas && Swap(d, w)
      ensures exists t :: t in InferredTrades(tx) && IsTradeOf(tx, t, d, w)
    {
      SwapFound(tx, d, w);
    }
    EachMintOnce(tx);
    if found.Some? && DeltaUi(found.value) != 0.0 {
      forall t | t in InferredTrades(tx)
        ensures exists d, w :: d in deltas && w in deltas && IsTradeOf(tx, t, d, w)
      {
        TradesOfMembers(tx, DeltaUi(found.value), |deltas|, t);
        var k :| 0 <= k < |deltas| && TradeOf(tx, DeltaUi(found.value), deltas[k]) == Some(t);
        TradeOfMeaning(tx, found.value, deltas[k]);
        assert deltas[k] in deltas && found.value in deltas && IsTradeOf(tx, t, deltas[k], found.value);
      }
    }
  }

  lemma {:induction false} SwapFound(tx: TxSnapshot, d: TokenDelta, w: TokenDelta)
    requires DistinctMints(tx.tokenDeltas) && d in tx.tokenDeltas && w in tx.tokenDeltas && Swap(d, w)
    ensures exists t :: t in InferredTrades(tx) && IsTradeOf(tx, t, d, w)
  {
    var deltas := tx.tokenDeltas;
    FindMintMeaning(deltas, WSOL_MINT);
    var found := FindMint(deltas, WSOL_MINT).value;
    assert found == w;
    TradeOfMeaning(tx, w, d);
    var t := TradeOf(tx, DeltaUi(w), d).value;
    var k :| 0 <= k < |deltas| && deltas[k] == d;
    TradesOfMembers(tx, DeltaUi(w), |deltas|, t);
    assert t in InferredTrades(tx) && IsTradeOf(tx, t, d, w);
  }

  /** The order of the rows does not matter: the same trades come out, each once. */
  lemma {:induction false} RowOrderIrrelevant(tx: TxSnapshot, tx': TxSnapshot)
    requires DistinctMints(tx.tokenDeltas) && DistinctMints(tx'.tokenDeltas)
    requires tx' == tx.(tokenDeltas := tx'.tokenDeltas)
    requires forall d :: d in tx.tokenDeltas <==> d in tx'.tokenDeltas
    ensures forall t :: t in InferredTrades(tx) <==> t in InferredTrades(tx')
  {
    SameTrades(tx, tx');
    SameTrades(tx', tx);
  }

  lemma {:induction false} SameTrades(tx: TxSnapshot, tx': TxSnapshot)
    requires DistinctMints(tx.tokenDeltas) && DistinctMints(tx'.tokenDeltas)
    requires tx' == tx.(tokenDeltas := tx'.tokenDeltas)
    requires forall d :: d in tx.tokenDeltas <==> d in tx'.tokenDeltas
    ensures forall t :: t in InferredTrades(tx) ==> t in InferredTrades(tx')
  {
    FindMintMeaning(tx.tokenDeltas, WSOL_MINT);
    FindMintMeaning(tx'.tokenDeltas, WSOL_MINT);
    forall t | t in InferredTrades(tx) ensures t in InferredTrades(tx') {
      var w := FindMint(tx.tokenDeltas, WSOL_MINT).value;
      assert w in tx'.tokenDeltas;
      assert FindMint(tx'.tokenDeltas, WSOL_MINT) == Some(w);
      TradesOfMembers(tx, DeltaUi(w), |tx.tokenDeltas|, t);
      var k :| 0 <= k < |tx.tokenDeltas| && TradeOf(tx, DeltaUi(w), tx.tokenDeltas[k]) == Some(t);
      assert tx.tokenDeltas[k] in tx'.tokenDeltas;
      var l :| 0 <= l < |tx'.tokenDeltas| && tx'.tokenDeltas[l] == tx.tokenDeltas[k];
      TradesOfMembers(tx', DeltaUi(w), |tx'.tokenDeltas|, t);
    }
  }

  // ---------------- Prices are finite ----------------

  lemma {:induction false} Pow10Add(m: nat, n: nat)
    ensures Pow10(m + n) == Pow10(m) * Pow10(n)
  {
    if m > 0 { Pow10Add(m - 1, n); }
  }

  lemma {:induction false} Pow10Monotone(m: nat, n: nat)
    requires m <= n
    ensures Pow10(m) <= Pow10(n)
  {
    if m < n { Pow10Monotone(m, n - 1); }
  }

  lemma {:induction false} Pow10Doubled(n: nat, x: real)
    requires Pow10(n) == x
    ensures Pow10(n + n) == x * x
  {
    Pow10Add(n, n);
  }

  lemma {:induction false} Pow10Of64()
    ensures Pow10(64) == 10000000000000000000000000000000000000000000000000000000000000000.0
  {
    var n: nat := 4;
    assert Pow10(n) == 10000.0;
    Pow10Doubled(4, 10000.0);
    Pow10Doubled(8, 100000000.0);
    Pow10Doubled(16, 10000000000000000.0);
    Pow10Doubled(32, 100000000000000000000000000000000.0);
  }

  lemma {:induction false} Pow10Of256()
    ensures Pow10(256) * 18446744073709551616.0 <= F64_MAX
  {
    Pow10Of64();
    Pow10Doubled(64, 10000000000000000000000000000000000000000000000000000000000000000.0);
    Pow10Doubled(128, 100000000000000000000000000000000000000000000000000000000000000000000000000000000000000000000000000000000000000000000000000000000.0);
  }

  /** Every inferred price is positive and within the range of finite doubles. */
  lemma {:induction false} PricesAreFinite(tx: TxSnapshot, t: Trade)
    requires t in InferredTrades(tx)
    ensures 0.0 < t.price && Finite(t.price)
  {
    var w := FindMint(tx.tokenDeltas, WSOL_MINT).value;
    TradesOfMembers(tx, DeltaUi(w), |tx.tokenDeltas|, t);
    var k :| 0 <= k < |tx.tokenDeltas| && TradeOf(tx, DeltaUi(w), tx.tokenDeltas[k]) == Some(t);
    PriceBound(w, tx.tokenDeltas[k]);
  }

  lemma {:induction false} PriceBound(w: TokenDelta, d: TokenDelta)
    requires DeltaUi(d) != 0.0 && DeltaUi(w) != 0.0
    ensures 0.0 < Abs(DeltaUi(w)) / Abs(DeltaUi(d)) <= F64_MAX
  {
    Pow10Monotone(d.decimals, 256);
    Pow10Of256();
    UiQuotientBound(w.post - w.pre, Pow10(w.decimals), d.post - d.pre, Pow10(d.decimals), Pow10(256), F64_MAX);
  }

  lemma {:induction false} UiQuotientBound(n: int, pn: real, m: int, pm: real, q: real, limit: real)
    requires -18446744073709551616 <= n <= 18446744073709551616 && pn >= 1.0 && n as real / pn != 0.0
    requires 1.0 <= pm <= q && m as real / pm != 0.0
    requires q * 18446744073709551616.0 <= limit
    ensures 0.0 < Abs(n as real / pn) / Abs(m as real / pm) <= limit
  {
    UiAtMost(n, pn);
    UiAtLeast(m, pm);
    QuotientBound(Abs(n as real / pn), Abs(m as real / pm), pm, q, limit);
  }

  lemma {:induction false} UiAtMost(n: int, p: real)
    requires -18446744073709551616 <= n <= 18446744073709551616 && p >= 1.0
    ensures Abs(n as real / p) <= 18446744073709551616.0
  {
    AbsOfQuotient(n as real, p);
  }

  lemma {:induction false} UiAtLeast(n: int, p: real)
    requires p >= 1.0 && n as real / p != 0.0
    ensures Abs(n as real / p) * p >= 1.0
  {
    AbsOfQuotient(n as real, p);
  }

  lemma {:induction false} AbsOfQuotient(x: real, p: real)
    requires p >= 1.0
    ensures Abs(x / p) * p == Abs(x)
    ensures Abs(x / p) <= Abs(x)
  {
    Scaled(x / p, x, p);
  }

  lemma {:induction false} Scaled(y: real, x: real, p: real)
    requires p >= 1.0 && y * p == x
    ensures Abs(y) * p == Abs(x)
    ensures Abs(y) <= Abs(x)
  {
  }

  lemma {:induction false} QuotientBound(x: real, y: real, p: real, q: real, limit: real)
    requires 0.0 < x <= 18446744073709551616.0 && y > 0.0 && y * p >= 1.0
    requires 1.0 <= p <= q && q * 18446744073709551616.0 <= limit
    ensures 0.0 < x / y <= limit
  {
    Quotient(x, y);
    TimesAtLeastOne(x / y, y, p);
    TimesMonotone(x, p, 18446744073709551616.0, q);
  }

  lemma {:induction false} TimesAtLeastOne(z: real, y: real, p: real)
    requires z > 0.0 && y * p >= 1.0
    ensures z <= z * y * p
  {
    assert z * y * p == z * (y * p);
  }

  lemma {:induction false} TimesMonotone(a: real, b: real, c: real, d: real)
    requires 0.0 <= a <= c && 0.0 <= b <= d
    ensures a * b <= d * c
  {
    assert a * b <= c * b;
    assert c * b <= c * d;
  }
}

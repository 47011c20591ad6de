/**
 From the token balances before and after a transaction to one net row per mint
 (crates/ingest-core/src/rpc_client.rs, lines 225-264).  A raw amount is a decimal string in the
 response; here it is the parsed number, or `None` when it does not parse, which counts as 0.
 */
module TokenDeltas {
  import opened Numbers
  import opened Options
  import opened Sequences
  import opened TokenNetting

  datatype RawTokenBalance = RawTokenBalance(accountIndex: nat, mint: string, rawAmount: Option<u64>, decimals: u8)
  {
    function Amount(): u64 { if rawAmount.Some? then rawAmount.value else 0 }
  }

  type MintRow = Row<string>

  /** The first balance with this account index. */
  function Find(balances: seq<RawTokenBalance>, index: nat): Option<RawTokenBalance> {
    if balances == [] then None
    else if balances[0].accountIndex == index then Some(balances[0])
    else Find(balances[1..], index)
  }

  function AmountBefore(pre: seq<RawTokenBalance>, index: nat): u64 {
    if Find(pre, index).Some? then Find(pre, index).value.Amount() else 0
  }

  /** The rows of the first loop: accounts present after the transaction whose amount changed. */
  function ChangedRows(pre: seq<RawTokenBalance>, post: seq<RawTokenBalance>): seq<MintRow> {
    if post == [] then []
    else
      var q := post[|post| - 1];
      ChangedRows(pre, post[..|post| - 1]) +
      if AmountBefore(pre, q.accountIndex) != q.Amount()
      then [Row(q.mint, AmountBefore(pre, q.accountIndex), q.Amount(), q.decimals)] else []
  }

  /** The rows of the second loop: accounts that are gone after the transaction. */
  function ClosedRows(pre: seq<RawTokenBalance>, post: seq<RawTokenBalance>): seq<MintRow> {
    if pre == [] then []
    else
      var b := pre[|pre| - 1];
      ClosedRows(pre[..|pre| - 1], post) +
      if Find(post, b.accountIndex).None? && b.Amount() != 0 then [Row(b.mint, b.Amount(), 0, b.decimals)] else []
  }

  /** The rows of both loops. */
  function RawDeltas(pre: seq<RawTokenBalance>, post: seq<RawTokenBalance>): seq<MintRow> {
    ChangedRows(pre, post) + ClosedRows(pre, post)
  }

  // ---------------- Which rows the loops produce ----------------

  /** The parsed amount of the balance, 0 when it does not parse. */
  ghost predicate HasAmount(b: RawTokenBalance, amount: u64) {
    if b.rawAmount.Some? then amount == b.rawAmount.value else amount == 0
  }

  ghost predicate Absent(balances: seq<RawTokenBalance>, index: nat) {
    forall k :: 0 <= k < |balances| ==> balances[k].accountIndex != index
  }

  /** Balance `k` is the first one of its account. */
  ghost predicate FirstOfAccount(balances: seq<RawTokenBalance>, k: nat) {
    k < |balances| && forall j :: 0 <= j < k ==> balances[j].accountIndex != balances[k].accountIndex
  }

  /** The account held this amount before: that of its first balance, or 0 when it is not listed. */
  ghost predicate HeldBefore(pre: seq<RawTokenBalance>, index: nat, amount: u64) {
    || (Absent(pre, index) && amount == 0)
    || exists k: nat :: FirstOfAccount(pre, k) && pre[k].accountIndex == index && HasAmount(pre[k], amount)
  }

  /** The row of an account whose amount changed. */
  ghost predicate IsChanged(pre: seq<RawTokenBalance>, q: RawTokenBalance, r: MintRow) {
    && r.key == q.mint && r.decimals == q.decimals && r.pre != r.post
    && HeldBefore(pre, q.accountIndex, r.pre) && HasAmount(q, r.post)
  }

  /** The row of an account that is gone and held something. */
  ghost predicate IsClosed(post: seq<RawTokenBalance>, b: RawTokenBalance, r: MintRow) {
    && r.key == b.mint && r.decimals == b.decimals && r.pre != r.post == 0
    && Absent(post, b.accountIndex) && HasAmount(b, r.pre)
  }

  /** One row for each balance that has one, at `pos`, in list order. */
  ghost predicate ChangedAt(pre: seq<RawTokenBalance>, post: seq<RawTokenBalance>, rows: seq<MintRow>, pos: seq<nat>) {
    && |pos| == |rows| && Increasing(pos)
    && (forall m :: 0 <= m < |pos| ==> pos[m] < |post| && IsChanged(pre, post[pos[m]], rows[m]))
    && (forall k, r :: 0 <= k < |post| && IsChanged(pre, post[k], r) ==> k in pos)
  }

  ghost predicate ClosedAt(pre: seq<RawTokenBalance>, post: seq<RawTokenBalance>, rows: seq<MintRow>, pos: seq<nat>) {
    && |pos| == |rows| && Increasing(pos)
    && (forall m :: 0 <= m < |pos| ==> pos[m] < |pre| && IsClosed(post, pre[pos[m]], rows[m]))
    && (forall k, r :: 0 <= k < |pre| && IsClosed(post, pre[k], r) ==> k in pos)
  }

  /** The rows of the changed accounts, then those of the closed ones. */
  ghost predicate AreDeltas(pre: seq<RawTokenBalance>, post: seq<RawTokenBalance>, deltas: seq<MintRow>) {
    exists n: nat ::
      && n <= |deltas|
      && (exists pos :: ChangedAt(pre, post, deltas[..n], pos))
      && (exists pos :: ClosedAt(pre, post, deltas[n..], pos))
  }

  /** The rows are the deltas of the accounts, netted per mint. */
  ghost predicate AreNettedDeltas(pre: seq<RawTokenBalance>, post: seq<RawTokenBalance>, rows: seq<MintRow>) {
    exists deltas, pos :: AreDeltas(pre, post, deltas) && NettedAt(deltas, rows, pos)
  }

  lemma {:induction false} FindIsFirst(balances: seq<RawTokenBalance>, index: nat)
    ensures Find(balances, index).None? <==> Absent(balances, index)
    ensures forall k: nat :: FirstOfAccount(balances, k) && balances[k].accountIndex == index ==> Find(balances, index) == Some(balances[k])
    ensures Find(balances, index).Some? ==>
      exists k: nat :: FirstOfAccount(balances, k) && balances[k].accountIndex == index
  {
    if balances != [] {
      var rest := balances[1..];
      FindIsFirst(rest, index);
      if balances[0].accountIndex == index {
        assert FirstOfAccount(balances, 0);
      } else {
        forall k: nat | FirstOfAccount(balances, k) && balances[k].accountIndex == index
          ensures Find(balances, index) == Some(balances[k])
        {
          assert FirstOfAccount(rest, k - 1);
        }
        if Find(rest, index).Some? {
          var k: nat :| FirstOfAccount(rest, k) && rest[k].accountIndex == index;
          assert FirstOfAccount(balances, k + 1);
        }
      }
    }
  }

  lemma {:induction false} HeldBeforeIsAmount(pre: seq<RawTokenBalance>, index: nat, amount: u64)
    ensures HeldBefore(pre, index, amount) <==> amount == AmountBefore(pre, index)
  {
    FindIsFirst(pre, index);
  }

  lemma {:induction false} ChangedIff(pre: seq<RawTokenBalance>, q: RawTokenBalance, r: MintRow)
    ensures IsChanged(pre, q, r) <==>
      AmountBefore(pre, q.accountIndex) != q.Amount()
      && r == Row(q.mint, AmountBefore(pre, q.accountIndex), q.Amount(), q.decimals)
  {
    HeldBeforeIsAmount(pre, q.accountIndex, r.pre);
  }

  lemma {:induction false} ClosedIff(post: seq<RawTokenBalance>, b: RawTokenBalance, r: MintRow)
    ensures IsClosed(post, b, r) <==>
      Find(post, b.accountIndex).None? && b.Amount() != 0 && r == Row(b.mint, b.Amount(), 0, b.decimals)
  {
    FindIsFirst(post, b.accountIndex);
  }

  lemma {:induction false} ChangedPositions(pre: seq<RawTokenBalance>, post: seq<RawTokenBalance>) returns (pos: seq<nat>)
    ensures ChangedAt(pre, post, ChangedRows(pre, post), pos)
  {
    if post == [] {
      pos := [];
    } else {
      hide IsChanged, AmountBefore;
      var n := |post| - 1;
      var q := post[n];
      var before := ChangedPositions(pre, post[..n]);
      pos := before + if AmountBefore(pre, q.accountIndex) != q.Amount() then [n] else [];
      forall k, r | 0 <= k < |post| && IsChanged(pre, post[k], r) ensures k in pos {
        ChangedIff(pre, q, r);
        if k < n { assert IsChanged(pre, post[..n][k], r); }
      }
      if AmountBefore(pre, q.accountIndex) != q.Amount() {
        ChangedIff(pre, q, Row(q.mint, AmountBefore(pre, q.accountIndex), q.Amount(), q.decimals));
      }
    }
  }

  lemma {:induction false} ClosedPositions(pre: seq<RawTokenBalance>, post: seq<RawTokenBalance>) returns (pos: seq<nat>)
    ensures ClosedAt(pre, post, ClosedRows(pre, post), pos)
  {
    if pre == [] {
      pos := [];
    } else {
      hide IsClosed, Find;
      var n := |pre| - 1;
      var b := pre[n];
      var before := ClosedPositions(pre[..n], post);
      var closed := Find(post, b.accountIndex).None? && b.Amount() != 0;
      pos := before + if closed then [n] else [];
      forall k, r | 0 <= k < |pre| && IsClosed(post, pre[k], r) ensures k in pos {
        ClosedIff(post, b, r);
        if k < n { assert IsClosed(post, pre[..n][k], r); }
      }
      if closed { ClosedIff(post, b, Row(b.mint, b.Amount(), 0, b.decimals)); }
    }
  }

  lemma {:induction false} RawDeltasAreDeltas(pre: seq<RawTokenBalance>, post: seq<RawTokenBalance>)
    ensures AreNettedDeltas(pre, post, Coalesced(RawDeltas(pre, post)))
  {
    hide ChangedAt, ClosedAt, NettedAt;
    var changed := ChangedPositions(pre, post);
    var closed := ClosedPositions(pre, post);
    var deltas, n := RawDeltas(pre, post), |ChangedRows(pre, post)|;
    assert deltas[..n] == ChangedRows(pre, post) && deltas[n..] == ClosedRows(pre, post);
    assert AreDeltas(pre, post, deltas);
    var pos := CoalescedInOrder(deltas);
  }

  method BuildTokenDeltas(pre: seq<RawTokenBalance>, post: seq<RawTokenBalance>) returns (rows: seq<MintRow>)
    ensures AreNettedDeltas(pre, post, rows)
    ensures rows == Coalesced(RawDeltas(pre, post))
  {
    hide AreNettedDeltas;
    var deltas: seq<MintRow> := [];
    for i := 0 to |post|
      invariant deltas == ChangedRows(pre, post[..i])
    {
      assert post[..i + 1][..i] == post[..i];
      var preAmount, postAmount := AmountBefore(pre, post[i].accountIndex), post[i].Amount();
      if preAmount != postAmount {
        deltas := deltas + [Row(post[i].mint, preAmount, postAmount, post[i].decimals)];
      }
    }
    assert post[..|post|] == post;
    for i := 0 to |pre|
      invariant deltas == ChangedRows(pre, post) + ClosedRows(pre[..i], post)
    {
      assert pre[..i + 1][..i] == pre[..i];
      if Find(post, pre[i].accountIndex).None? {
        var preAmount := pre[i].Amount();
        if preAmount != 0 {
          deltas := deltas + [Row(pre[i].mint, preAmount, 0, pre[i].decimals)];
        }
      }
    }
    assert pre[..|pre|] == pre;
    rows := Coalesce(deltas);
    RawDeltasAreDeltas(pre, post);
  }

  // ---------------- Conservation ----------------

  /** The parsed amounts of all accounts that hold the mint, added up. */
  function TotalOf(balances: seq<RawTokenBalance>, mint: string): nat {
    if balances == [] then 0
    else
      var b := balances[|balances| - 1];
      TotalOf(balances[..|balances| - 1], mint)
      + if b.mint == mint && b.rawAmount.Some? then b.rawAmount.value else 0
  }

  ghost predicate DistinctIndices(balances: seq<RawTokenBalance>) {
    forall k, l :: 0 <= k < l < |balances| ==> balances[k].accountIndex != balances[l].accountIndex
  }

  /**
   What one account that holds another mint after the transaction than before does to the net of
   `mint`: its old amount is charged to the new mint instead of the old one.
   */
  function Misattributed(pre: seq<RawTokenBalance>, q: RawTokenBalance, mint: string): int {
    var b := Find(pre, q.accountIndex);
    if b.None? || b.value.mint == q.mint then 0
    else (if b.value.mint == mint then b.value.Amount() else 0) - (if q.mint == mint then b.value.Amount() else 0)
  }

  function TotalMisattributed(pre: seq<RawTokenBalance>, post: seq<RawTokenBalance>, mint: string): int {
    if post == [] then 0
    else TotalMisattributed(pre, post[..|post| - 1], mint) + Misattributed(pre, post[|post| - 1], mint)
  }

  lemma {:induction false} FindMeaning(balances: seq<RawTokenBalance>, index: nat)
    ensures Find(balances, index).None? <==> forall k :: 0 <= k < |balances| ==> balances[k].accountIndex != index
    ensures Find(balances, index).Some? ==>
      Find(balances, index).value in balances && Find(balances, index).value.accountIndex == index
  {
    if balances != [] { FindMeaning(balances[1..], index); }
  }

  /** Closed accounts when one more account is present afterwards. */
  lemma {:induction false} ClosedStep(
      pre: seq<RawTokenBalance>, post: seq<RawTokenBalance>, q: RawTokenBalance, mint: string)
    requires DistinctIndices(pre) && Find(post, q.accountIndex).None?
    ensures Net(ClosedRows(pre, post + [q]), mint) == Net(ClosedRows(pre, post), mint)
      + var b := Find(pre, q.accountIndex);
        if b.Some? && b.value.mint == mint then b.value.Amount() else 0
  {
    if pre != [] {
      var n := |pre| - 1;
      var init, b := pre[..n], pre[n];
      ClosedStep(init, post, q, mint);
      FindAppend(init, b, q.accountIndex);
      assert pre == init + [b];
      FindAppend(post, q, b.accountIndex);
      FindMeaning(init, b.accountIndex);
      NetOfOneMore(ClosedRows(init, post + [q]), ClosedRows(pre, post + [q]), mint);
      NetOfOneMore(ClosedRows(init, post), ClosedRows(pre, post), mint);
    }
  }

  lemma {:induction false} FindAppend(balances: seq<RawTokenBalance>, b: RawTokenBalance, index: nat)
    ensures Find(balances + [b], index)
      == if Find(balances, index).Some? then Find(balances, index)
         else if b.accountIndex == index then Some(b) else None
  {
    if balances != [] {
      assert (balances + [b])[1..] == balances[1..] + [b];
      FindAppend(balances[1..], b, index);
    }
  }

  lemma {:induction false} NetOfOneMore(rows: seq<MintRow>, more: seq<MintRow>, mint: string)
    requires more == rows || (|more| == |rows| + 1 && more[..|rows|] == rows)
    ensures Net(more, mint) == Net(rows, mint)
      + if more != rows && more[|rows|].key == mint then Delta(more[|rows|]) else 0
  {
  }

  lemma {:induction false} NothingPresent(pre: seq<RawTokenBalance>, mint: string)
    ensures Net(ClosedRows(pre, []), mint) == 0 - TotalOf(pre, mint)
  {
    if pre != [] {
      NothingPresent(pre[..|pre| - 1], mint);
      NetOfOneMore(ClosedRows(pre[..|pre| - 1], []), ClosedRows(pre, []), mint);
    }
  }

  /** One more account present afterwards: what it adds to the changed and to the closed rows. */
  lemma {:induction false} OneMorePost(
      pre: seq<RawTokenBalance>, init: seq<RawTokenBalance>, q: RawTokenBalance, mint: string)
    requires DistinctIndices(pre) && Find(init, q.accountIndex).None?
    ensures Net(ChangedRows(pre, init + [q]), mint) == Net(ChangedRows(pre, init), mint)
      + if q.mint == mint then q.Amount() - AmountBefore(pre, q.accountIndex) else 0
    ensures Net(ClosedRows(pre, init + [q]), mint) == Net(ClosedRows(pre, init), mint)
      + Misattributed(pre, q, mint) + if q.mint == mint then AmountBefore(pre, q.accountIndex) else 0
  {
    var post := init + [q];
    assert post[..|post| - 1] == init;
    ClosedStep(pre, init, q, mint);
    NetOfOneMore(ChangedRows(pre, init), ChangedRows(pre, post), mint);
  }

  /**
   Conservation, exactly: the net of a mint is its total balance afterwards minus its total balance
   before, plus what accounts that changed their mint misattribute.
   */
  lemma {:induction false} NetIsBalanceChange(pre: seq<RawTokenBalance>, post: seq<RawTokenBalance>, mint: string)
    requires DistinctIndices(pre) && DistinctIndices(post)
    ensures Net(ChangedRows(pre, post), mint) + Net(ClosedRows(pre, post), mint)
      == TotalOf(post, mint) - TotalOf(pre, mint) + TotalMisattributed(pre, post, mint)
    decreases |post|
  {
    if post == [] {
      NothingPresent(pre, mint);
    } else {
      var init, q := post[..|post| - 1], post[|post| - 1];
      NetIsBalanceChange(pre, init, mint);
      assert Find(init, q.accountIndex).None? by { FindMeaning(init, q.accountIndex); }
      OneMorePost(pre, init, q, mint);
      assert post == init + [q];
    }
  }

  /** Every account that is present before and after holds the same mint. */
  ghost predicate SameMints(pre: seq<RawTokenBalance>, post: seq<RawTokenBalance>) {
    forall k :: 0 <= k < |post| ==>
      Find(pre, post[k].accountIndex).None? || Find(pre, post[k].accountIndex).value.mint == post[k].mint
  }

  lemma {:induction false} NothingMisattributed(pre: seq<RawTokenBalance>, post: seq<RawTokenBalance>, mint: string)
    requires SameMints(pre, post)
    ensures TotalMisattributed(pre, post, mint) == 0
  {
    if post != [] {
      NothingMisattributed(pre, post[..|post| - 1], mint);
    }
  }

  /** No mint is charged for an account that changed its mint: the charges cancel, or there are none. */
  ghost predicate Attributed(pre: seq<RawTokenBalance>, post: seq<RawTokenBalance>) {
    forall mint :: TotalMisattributed(pre, post, mint) == 0
  }

  /**
   The rows record exactly how the totals changed: one row per mint whose total changed and none for
   the others, each with one zero side and carrying the change.
   */
  ghost predicate RecordsChanges(rows: seq<MintRow>, pre: seq<RawTokenBalance>, post: seq<RawTokenBalance>) {
    && DistinctKeys(rows)
    && (forall mint :: MentionsMint(rows, mint) <==> TotalOf(pre, mint) != TotalOf(post, mint))
    && forall r :: r in rows ==> OneSided(r) && Delta(r) == TotalOf(post, r.key) - TotalOf(pre, r.key)
  }

  ghost predicate MentionsMint(rows: seq<MintRow>, mint: string) { exists r :: r in rows && r.key == mint }

  lemma {:induction false} NetOfRawDeltas(pre: seq<RawTokenBalance>, post: seq<RawTokenBalance>, mint: string)
    requires DistinctIndices(pre) && DistinctIndices(post)
    ensures Net(RawDeltas(pre, post), mint)
      == TotalOf(post, mint) - TotalOf(pre, mint) + TotalMisattributed(pre, post, mint)
  {
    NetAppend(ChangedRows(pre, post), ClosedRows(pre, post), mint);
    NetIsBalanceChange(pre, post, mint);
  }

  /**
   Token conservation of a transaction, exactly.  When indices are distinct and every net fits in
   u64, the rows record the changes of all totals if and only if nothing is misattributed.
   */
  lemma {:induction false} ConservationIff(pre: seq<RawTokenBalance>, post: seq<RawTokenBalance>, rows: seq<MintRow>)
    requires DistinctIndices(pre) && DistinctIndices(post)
    requires forall mint :: Fits(RawDeltas(pre, post), mint)
    requires rows == Coalesced(RawDeltas(pre, post))
    ensures RecordsChanges(rows, pre, post) <==> Attributed(pre, post)
  {
    hide RawDeltas;
    var deltas := RawDeltas(pre, post);
    forall mint ensures Net(deltas, mint)
      == TotalOf(post, mint) - TotalOf(pre, mint) + TotalMisattributed(pre, post, mint)
    {
      NetOfRawDeltas(pre, post, mint);
    }
    CoalescedMeaning(deltas);
    forall mint ensures MentionsMint(rows, mint) <==> Net(deltas, mint) != 0 {
    }
    if RecordsChanges(rows, pre, post) {
      forall mint ensures TotalMisattributed(pre, post, mint) == 0 {
        if MentionsMint(rows, mint) {
          var r :| r in rows && r.key == mint;
          assert Fits(deltas, r.key);
        }
      }
    }
    forall r | r in rows ensures OneSided(r) && Delta(r) == Net(deltas, r.key) {
      assert Fits(deltas, r.key);
    }
  }

  /** Accounts that keep their mints, with totals that fit in u64, meet the condition. */
  lemma {:induction false} TokenConservation(pre: seq<RawTokenBalance>, post: seq<RawTokenBalance>, rows: seq<MintRow>)
    requires DistinctIndices(pre) && DistinctIndices(post) && SameMints(pre, post)
    requires forall mint :: TotalOf(pre, mint) < U64_LIMIT && TotalOf(post, mint) < U64_LIMIT
    requires rows == Coalesced(RawDeltas(pre, post))
    ensures RecordsChanges(rows, pre, post)
  {
    forall mint ensures TotalMisattributed(pre, post, mint) == 0 { NothingMisattributed(pre, post, mint); }
    FitsWhenAttributed(pre, post);
    ConservationIff(pre, post, rows);
  }

  lemma {:induction false} FitsWhenAttributed(pre: seq<RawTokenBalance>, post: seq<RawTokenBalance>)
    requires DistinctIndices(pre) && DistinctIndices(post) && Attributed(pre, post)
    requires forall mint :: TotalOf(pre, mint) < U64_LIMIT && TotalOf(post, mint) < U64_LIMIT
    ensures forall mint :: Fits(RawDeltas(pre, post), mint)
  {
    forall mint ensures Fits(RawDeltas(pre, post), mint) {
      NetOfRawDeltas(pre, post, mint);
      assert TotalOf(pre, mint) < U64_LIMIT && TotalOf(post, mint) < U64_LIMIT;
    }
  }

  /** Keeping the mints is not necessary: an account whose old amount does not parse has nothing to misattribute. */
  lemma {:induction false} MintsMayChangeHarmlessly(amount: Option<u64>, decimals: u8, mint: string, mint': string, newAmount: u64)
    requires mint != mint' && (amount.Some? ==> amount.value == 0)
    ensures var pre, post := [RawTokenBalance(0, mint, amount, decimals)], [RawTokenBalance(0, mint', Some(newAmount), decimals)];
      !SameMints(pre, post) && Attributed(pre, post)
  {
    var pre, post := [RawTokenBalance(0, mint, amount, decimals)], [RawTokenBalance(0, mint', Some(newAmount), decimals)];
    assert Find(pre, 0) == Some(pre[0]);
    assert Find(pre, post[0].accountIndex).value.mint != post[0].mint;
    forall m ensures TotalMisattributed(pre, post, m) == 0 {
      assert post[..0] == [];
    }
  }

  /** An account that is closed and reopened for another mint breaks conservation. */
  lemma {:induction false} ReopenedAccountBreaksConservation()
    ensures var pre, post := [RawTokenBalance(0, "A", Some(5), 6)], [RawTokenBalance(0, "B", Some(5), 6)];
      && DistinctIndices(pre) && DistinctIndices(post)
      && TotalOf(pre, "A") != TotalOf(post, "A")
      && Coalesced(RawDeltas(pre, post)) == []
  {
    var pre, post := [RawTokenBalance(0, "A", Some(5), 6)], [RawTokenBalance(0, "B", Some(5), 6)];
    assert pre[..0] == [] && post[..0] == [];
    assert Find(pre, 0) == Some(pre[0]) && Find(post, 0) == Some(post[0]);
    assert TotalOf(pre, "A") == 5;
    assert "B" != "A" by { assert "B"[0] != "A"[0]; }
    assert TotalOf(post, "A") == 0;
    assert ChangedRows(pre, post) == [] && ClosedRows(pre, post) == [];
  }
}

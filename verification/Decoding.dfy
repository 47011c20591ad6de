/**
 From a block of the RPC response to decoded transactions (crates/ingest-core/src/rpc_client.rs,
 lines 145-198).  The response itself is already parsed.
 */
module Decoding {
  import opened AccountResolution
  import opened Contention
  import opened Numbers
  import opened Options
  import opened TokenDeltas
  import opened TokenNetting

  datatype LoadedAddresses = LoadedAddresses(writable: seq<string>, readonly: seq<string>)

  datatype RawMeta = RawMeta(
    failed: bool, preTokenBalances: seq<RawTokenBalance>, postTokenBalances: seq<RawTokenBalance>,
    loadedAddresses: Option<LoadedAddresses>)

  datatype RawTransaction = RawTransaction(
    signatures: seq<string>, accountKeys: seq<string>, header: MessageHeader, programIdIndexes: seq<u8>,
    meta: Option<RawMeta>)
  {
    function Signature(): string { if signatures == [] then "" else signatures[0] }

    function Loaded(): LoadedAddresses {
      if meta.Some? && meta.value.loadedAddresses.Some? then meta.value.loadedAddresses.value
      else LoadedAddresses([], [])
    }

    function Failed(): bool { meta.Some? && meta.value.failed }

    function PreBalances(): seq<RawTokenBalance> { if meta.Some? then meta.value.preTokenBalances else [] }

    function PostBalances(): seq<RawTokenBalance> { if meta.Some? then meta.value.postTokenBalances else [] }
  }

  datatype DecodedTransaction = DecodedTransaction(
    signature: string, slot: u64, blockTime: Option<int>, programIds: seq<string>, locks: seq<AccountLock>,
    tokenDeltas: seq<MintRow>, failed: bool)

  datatype DecodedBlock = DecodedBlock(slot: u64, blockTime: Option<int>, transactions: seq<DecodedTransaction>)

  ghost predicate IsDecoded(raw: RawTransaction, t: DecodedTransaction) {
    && t.signature == raw.Signature() && t.failed == raw.Failed()
    && t.locks == ResolvedLocks(raw.accountKeys, raw.header, raw.Loaded().writable, raw.Loaded().readonly)
    && AreProgramIds(raw.accountKeys + raw.Loaded().writable + raw.Loaded().readonly, raw.programIdIndexes, t.programIds)
    && t.tokenDeltas == Coalesced(RawDeltas(raw.PreBalances(), raw.PostBalances()))
  }

  /** The addresses that the response says were loaded from lookup tables, none when it does not say. */
  ghost predicate HasLoaded(raw: RawTransaction, writable: seq<string>, readonly: seq<string>) {
    if raw.meta.Some? && raw.meta.value.loadedAddresses.Some?
    then raw.meta.value.loadedAddresses.value == LoadedAddresses(writable, readonly)
    else writable == [] && readonly == []
  }

  /** The locks and the program ids that the message's keys and the loaded addresses amount to. */
  ghost predicate ResolvesKeys(raw: RawTransaction, writable: seq<string>, readonly: seq<string>, t: DecodedTransaction) {
    && (forall account :: Counted(t.locks, raw.accountKeys, raw.header, writable, readonly, account))
    && AreProgramIds(raw.accountKeys + writable + readonly, raw.programIdIndexes, t.programIds)
  }

  /** What decoding has to achieve, the defaults for missing parts of the response included. */
  ghost predicate IsDecodingOf(slot: u64, blockTime: Option<int>, raw: RawTransaction, t: DecodedTransaction) {
    && t.slot == slot && t.blockTime == blockTime
    && t.signature == (if raw.signatures == [] then "" else raw.signatures[0])
    && (t.failed <==> raw.meta.Some? && raw.meta.value.failed)
    && (exists writable, readonly :: HasLoaded(raw, writable, readonly) && ResolvesKeys(raw, writable, readonly, t))
    && (if raw.meta.None? then t.tokenDeltas == []
        else AreNettedDeltas(raw.meta.value.preTokenBalances, raw.meta.value.postTokenBalances, t.tokenDeltas))
  }

  method DecodeTransaction(slot: u64, blockTime: Option<int>, raw: RawTransaction) returns (t: DecodedTransaction)
    ensures IsDecodingOf(slot, blockTime, raw, t)
    ensures IsDecoded(raw, t) && t.slot == slot && t.blockTime == blockTime
  {
    hide Counted, AreProgramIds, AreNettedDeltas, ResolvedLocks;
    var loaded := raw.Loaded();
    var locks := ResolveAccountLocks(raw.accountKeys, raw.header, loaded.writable, loaded.readonly);
    var programIds := ExtractProgramIds(raw.accountKeys, loaded.writable, loaded.readonly, raw.programIdIndexes);
    var tokenDeltas: seq<MintRow> := [];
    if raw.meta.Some? {
      tokenDeltas := BuildTokenDeltas(raw.meta.value.preTokenBalances, raw.meta.value.postTokenBalances);
    }
    t := DecodedTransaction(raw.Signature(), slot, blockTime, programIds, locks, tokenDeltas, raw.Failed());
    assert HasLoaded(raw, loaded.writable, loaded.readonly) && ResolvesKeys(raw, loaded.writable, loaded.readonly, t);
  }

  /** No transaction is dropped. */
  method DecodeBlock(slot: u64, blockTime: Option<int>, raw: seq<RawTransaction>) returns (block: DecodedBlock)
    ensures block.slot == slot && block.blockTime == blockTime && |block.transactions| == |raw|
    ensures forall i :: 0 <= i < |raw| ==>
      IsDecodingOf(slot, blockTime, raw[i], block.transactions[i]) && IsDecoded(raw[i], block.transactions[i])
  {
    hide IsDecodingOf, IsDecoded;
    var transactions: seq<DecodedTransaction> := [];
    for i := 0 to |raw|
      invariant |transactions| == i
      invariant forall j :: 0 <= j < i ==>
        IsDecodingOf(slot, blockTime, raw[j], transactions[j]) && IsDecoded(raw[j], transactions[j])
    {
      var t := DecodeTransaction(slot, blockTime, raw[i]);
      transactions := transactions + [t];
    }
    block := DecodedBlock(slot, blockTime, transactions);
  }

  /** The balances of one transaction name every account once, misattribute nothing, and add up to u64. */
  ghost predicate ConsistentBalances(raw: RawTransaction) {
    && DistinctIndices(raw.PreBalances()) && DistinctIndices(raw.PostBalances())
    && Attributed(raw.PreBalances(), raw.PostBalances())
    && forall mint :: TotalOf(raw.PreBalances(), mint) < U64_LIMIT && TotalOf(raw.PostBalances(), mint) < U64_LIMIT
  }

  /** One row per mint, with one zero side: the shape coalescing leaves alone. */
  ghost predicate Canonical(rows: seq<MintRow>) {
    DistinctKeys(rows) && forall k :: 0 <= k < |rows| ==> OneSided(rows[k])
  }

  /** The decoded rows say how each mint's total changed, and they are canonical. */
  lemma {:induction false} DecodedRowsConserve(raw: RawTransaction, t: DecodedTransaction)
    requires IsDecoded(raw, t) && ConsistentBalances(raw)
    ensures RecordsChanges(t.tokenDeltas, raw.PreBalances(), raw.PostBalances()) && Canonical(t.tokenDeltas)
  {
    FitsWhenAttributed(raw.PreBalances(), raw.PostBalances());
    ConservationIff(raw.PreBalances(), raw.PostBalances(), t.tokenDeltas);
    forall k | 0 <= k < |t.tokenDeltas| ensures OneSided(t.tokenDeltas[k]) {
      assert t.tokenDeltas[k] in t.tokenDeltas;
    }
  }
}

/**
 Netting of token-account deltas (crates/ingest-core/src/rpc_client.rs, lines 225-290, and
 crates/storage/src/repository.rs, lines 371-395).  Both crates run the same algorithm, one keyed by
 mint and one by (signature, mint); here it is one method over an arbitrary key.
 Amounts are u64; the nets are kept in i128, which no list of fewer than 2^63 rows can overflow.
 */
module TokenNetting {
  import opened Numbers
  import opened Sequences

  datatype Row<K> = Row(key: K, pre: u64, post: u64, decimals: u8)

  /** The `as u64` cast of a non-negative i128. */
  function AsU64(n: nat): u64 { n % U64_LIMIT }

  function Delta<K>(r: Row<K>): int { r.post - r.pre }

  /** The sum of the deltas of the rows with this key. */
  function Net<K(==)>(rows: seq<Row<K>>, key: K): int {
    if rows == [] then 0
    else
      var r := rows[|rows| - 1];
      Net(rows[..|rows| - 1], key) + if r.key == key then Delta(r) else 0
  }

  /** The distinct keys, in the order of their first rows. */
  function Keys<K(==)>(rows: seq<Row<K>>): seq<K> {
    if rows == [] then []
    else
      var keys, r := Keys(rows[..|rows| - 1]), rows[|rows| - 1];
      if r.key in keys then keys else keys + [r.key]
  }

  /** The decimals of the first row with this key. */
  function FirstDecimals<K(==)>(rows: seq<Row<K>>, key: K): u8 {
    if rows == [] then 0
    else if key in Keys(rows[..|rows| - 1]) then FirstDecimals(rows[..|rows| - 1], key)
    else rows[|rows| - 1].decimals
  }

  function NetRow<K>(key: K, n: int, decimals: u8): Row<K> {
    if n > 0 then Row(key, 0, AsU64(n), decimals) else Row(key, AsU64(-n), 0, decimals)
  }

  /** One row for each of the keys whose net is not zero. */
  function Emit<K(==)>(rows: seq<Row<K>>, keys: seq<K>): seq<Row<K>> {
    if keys == [] then []
    else
      var key := keys[|keys| - 1];
      Emit(rows, keys[..|keys| - 1]) +
      if Net(rows, key) == 0 then [] else [NetRow(key, Net(rows, key), FirstDecimals(rows, key))]
  }

  function Coalesced<K(==)>(rows: seq<Row<K>>): seq<Row<K>> { Emit(rows, Keys(rows)) }

  /** The first loop: the net of every key and the order in which the keys appeared. */
  method NetByKey<K(==)>(rows: seq<Row<K>>) returns (net: map<K, (int, u8)>, order: seq<K>)
    ensures order == Keys(rows) && forall k :: k in net <==> k in order
    ensures forall k :: k in net ==> net[k] == (Net(rows, k), FirstDecimals(rows, k))
  {
    net, order := map[], [];
    var i := 0;
    while i < |rows|
      invariant 0 <= i <= |rows|
      invariant order == Keys(rows[..i]) && forall k :: k in net <==> k in order
      invariant forall k :: k in net ==> net[k] == (Net(rows[..i], k), FirstDecimals(rows[..i], k))
    {
      var d := rows[i];
      assert rows[..i + 1][..i] == rows[..i];
      NetOfAbsentKey(rows[..i], d.key);
      if d.key in net {
        net := net[d.key := (net[d.key].0 + Delta(d), net[d.key].1)];
      } else {
        order := order + [d.key];
        net := net[d.key := (Delta(d), d.decimals)];
      }
      i := i + 1;
    }
    assert rows[..i] == rows;
  }

  // ---------------- Which rows come out ----------------

  /** Row `k` is the first one of its key. */
  ghost predicate IsFirst<K>(rows: seq<Row<K>>, k: nat) {
    k < |rows| && forall j :: 0 <= j < k ==> rows[j].key != rows[k].key
  }

  /** Row `k` is the first one of a key whose net is not zero. */
  ghost predicate IsEmitted<K>(rows: seq<Row<K>>, k: nat) { IsFirst(rows, k) && Net(rows, rows[k].key) != 0 }

  /** The net, wrapped around 2^64, stands on the side of its sign; the key and the decimals are those of row `k`. */
  ghost predicate IsNetOf<K>(out: Row<K>, rows: seq<Row<K>>, k: nat)
    requires k < |rows|
  {
    var n := Net(rows, rows[k].key);
    && out.key == rows[k].key && out.decimals == rows[k].decimals
    && (n > 0 ==> out.pre == 0 && out.post == n % 0x1_0000_0000_0000_0000)
    && (n < 0 ==> out.pre == -n % 0x1_0000_0000_0000_0000 && out.post == 0)
  }

  /** One row for the first row of every key whose net is not zero, at `pos`, in order of appearance. */
  ghost predicate NettedAt<K>(rows: seq<Row<K>>, out: seq<Row<K>>, pos: seq<nat>) {
    && |pos| == |out| && Increasing(pos)
    && (forall m :: 0 <= m < |pos| ==> IsEmitted(rows, pos[m]) && IsNetOf(out[m], rows, pos[m]))
    && (forall k: nat :: IsEmitted(rows, k) ==> k in pos)
  }

  ghost predicate KeysAt<K>(rows: seq<Row<K>>, keys: seq<K>, pos: seq<nat>) {
    && |pos| == |keys| && Increasing(pos)
    && (forall m :: 0 <= m < |pos| ==> IsFirst(rows, pos[m]) && keys[m] == rows[pos[m]].key)
    && (forall k: nat :: IsFirst(rows, k) ==> k in pos)
  }

  lemma {:induction false} FirstInPrefix<K>(rows: seq<Row<K>>, k: nat)
    requires rows != []
    ensures IsFirst(rows, k) <==>
      IsFirst(rows[..|rows| - 1], k) || (k == |rows| - 1 && rows[k].key !in Keys(rows[..|rows| - 1]))
  {
    KeyIffRow(rows[..|rows| - 1], rows[|rows| - 1].key);
  }

  lemma {:induction false} KeyIffRow<K>(rows: seq<Row<K>>, key: K)
    ensures key in Keys(rows) <==> exists j :: 0 <= j < |rows| && rows[j].key == key
  {
    if rows != [] {
      var init := rows[..|rows| - 1];
      KeyIffRow(init, key);
      if j :| 0 <= j < |init| && init[j].key == key { assert rows[j].key == key; }
    }
  }

  lemma {:induction false} KeyPositions<K>(rows: seq<Row<K>>) returns (pos: seq<nat>)
    ensures KeysAt(rows, Keys(rows), pos)
  {
    if rows == [] {
      pos := [];
    } else {
      hide IsFirst;
      var n := |rows| - 1;
      var before := KeyPositions(rows[..n]);
      pos := before + if rows[n].key in Keys(rows[..n]) then [] else [n];
      PositionsBelow(rows[..n], before);
      forall k: nat | IsFirst(rows, k) ensures k in pos { FirstInPrefix(rows, k); }
      forall m | 0 <= m < |pos| ensures IsFirst(rows, pos[m]) && Keys(rows)[m] == rows[pos[m]].key {
        FirstInPrefix(rows, pos[m]);
      }
    }
  }

  lemma {:induction false} PositionsBelow<K>(rows: seq<Row<K>>, pos: seq<nat>)
    requires forall m :: 0 <= m < |pos| ==> IsFirst(rows, pos[m])
    ensures forall m :: 0 <= m < |pos| ==> pos[m] < |rows|
  {
  }

  lemma {:induction false} DecimalsOfFirst<K>(rows: seq<Row<K>>, k: nat)
    requires IsFirst(rows, k)
    ensures FirstDecimals(rows, rows[k].key) == rows[k].decimals
  {
    FirstInPrefix(rows, k);
    KeyIffRow(rows[..|rows| - 1], rows[k].key);
    if k < |rows| - 1 {
      assert rows[..|rows| - 1][k].key == rows[k].key;
      DecimalsOfFirst(rows[..|rows| - 1], k);
    }
  }

  lemma {:induction false} RowForIsNet<K>(rows: seq<Row<K>>, k: nat)
    requires IsFirst(rows, k) && Net(rows, rows[k].key) != 0
    ensures var key := rows[k].key; IsNetOf(NetRow(key, Net(rows, key), FirstDecimals(rows, key)), rows, k)
  {
    hide Net;
    DecimalsOfFirst(rows, k);
  }

  /** Of the first `n` keys, those whose net is not zero. */
  ghost predicate EmittedAt<K>(rows: seq<Row<K>>, out: seq<Row<K>>, pos: seq<nat>, firsts: seq<nat>, n: nat)
    requires n <= |firsts|
  {
    && |pos| == |out| && Increasing(pos)
    && (forall m :: 0 <= m < |pos| ==> IsEmitted(rows, pos[m]) && IsNetOf(out[m], rows, pos[m]))
    && (forall m :: 0 <= m < |pos| ==> n > 0 && pos[m] <= firsts[n - 1])
    && (forall m :: 0 <= m < n && IsEmitted(rows, firsts[m]) ==> firsts[m] in pos)
  }

  lemma {:induction false} OneMoreEmitted<K>(
      rows: seq<Row<K>>, out: seq<Row<K>>, pos: seq<nat>, firsts: seq<nat>, n: nat, r: Row<K>)
    requires n < |firsts| && Increasing(firsts) && EmittedAt(rows, out, pos, firsts, n)
    requires IsEmitted(rows, firsts[n]) ==> IsNetOf(r, rows, firsts[n])
    ensures !IsEmitted(rows, firsts[n]) ==> EmittedAt(rows, out, pos, firsts, n + 1)
    ensures IsEmitted(rows, firsts[n]) ==> EmittedAt(rows, out + [r], pos + [firsts[n]], firsts, n + 1)
  {
    hide IsEmitted, IsNetOf;
    assert n > 0 ==> firsts[n - 1] < firsts[n];
    assert forall k :: k in pos ==> k in pos + [firsts[n]];
    assert firsts[n] in pos + [firsts[n]];
  }

  lemma {:induction false} EmitPositions<K>(rows: seq<Row<K>>, firsts: seq<nat>, n: nat) returns (pos: seq<nat>)
    requires KeysAt(rows, Keys(rows), firsts) && n <= |firsts|
    ensures EmittedAt(rows, Emit(rows, Keys(rows)[..n]), pos, firsts, n)
  {
    if n == 0 {
      pos := [];
    } else {
      hide IsFirst, IsNetOf, Net, EmittedAt, FirstDecimals, NetRow;
      var keys, k := Keys(rows), firsts[n - 1];
      assert keys[..n][..n - 1] == keys[..n - 1];
      pos := EmitPositions(rows, firsts, n - 1);
      var r := NetRow(keys[n - 1], Net(rows, keys[n - 1]), FirstDecimals(rows, keys[n - 1]));
      assert IsFirst(rows, k) && keys[n - 1] == rows[k].key;
      if IsEmitted(rows, k) { RowForIsNet(rows, k); }
      OneMoreEmitted(rows, Emit(rows, keys[..n - 1]), pos, firsts, n - 1, r);
      assert Emit(rows, keys[..n]) == Emit(rows, keys[..n - 1]) + if Net(rows, keys[n - 1]) == 0 then [] else [r];
      if IsEmitted(rows, k) {
        pos := pos + [k];
      } else {
        assert Emit(rows, keys[..n]) == Emit(rows, keys[..n - 1]);
      }
    }
  }

  /** Coalescing keeps the order in which the keys appear and takes the decimals of their first rows. */
  lemma {:induction false} CoalescedInOrder<K>(rows: seq<Row<K>>) returns (pos: seq<nat>)
    ensures NettedAt(rows, Coalesced(rows), pos)
  {
    hide IsFirst, IsNetOf, Net, Emit;
    var firsts := KeyPositions(rows);
    pos := EmitPositions(rows, firsts, |firsts|);
    assert Keys(rows)[..|firsts|] == Keys(rows);
    forall k: nat | IsEmitted(rows, k) ensures k in pos {
      var m :| 0 <= m < |firsts| && firsts[m] == k;
    }
  }

  method Coalesce<K(==)>(rows: seq<Row<K>>) returns (out: seq<Row<K>>)
    ensures exists pos :: NettedAt(rows, out, pos)
    ensures out == Coalesced(rows)
  {
    hide NettedAt;
    var net, order := NetByKey(rows);
    out := [];
    var i := 0;
    while i < |order|
      invariant 0 <= i <= |order|
      invariant out == Emit(rows, order[..i])
    {
      assert order[..i + 1][..i] == order[..i];
      var (n, decimals) := net[order[i]];
      if n != 0 {
        out := out + [if n > 0 then Row(order[i], 0, AsU64(n), decimals) else Row(order[i], AsU64(-n), 0, decimals)];
      }
      i := i + 1;
    }
    assert order[..i] == order;
    ghost var pos := CoalescedInOrder(rows);
  }

  // ---------------- What coalescing means ----------------

  lemma {:induction false} NetOfAbsentKey<K>(rows: seq<Row<K>>, key: K)
    ensures key !in Keys(rows) ==> Net(rows, key) == 0
  {
    if rows != [] { NetOfAbsentKey(rows[..|rows| - 1], key); }
  }

  ghost predicate DistinctKeys<K>(rows: seq<Row<K>>) {
    forall k, l :: 0 <= k < l < |rows| ==> rows[k].key != rows[l].key
  }

  /** Exactly one side is zero. */
  predicate OneSided<K>(r: Row<K>) { (r.pre == 0) != (r.post == 0) }

  lemma {:induction false} KeysDistinct<K>(rows: seq<Row<K>>)
    ensures Distinct(Keys(rows))
  {
    if rows != [] { KeysDistinct(rows[..|rows| - 1]); }
  }

  /** The row that `key` contributes. */
  function RowFor<K(==)>(rows: seq<Row<K>>, key: K): Row<K> {
    NetRow(key, Net(rows, key), FirstDecimals(rows, key))
  }

  lemma {:induction false} EmitOnly<K>(rows: seq<Row<K>>, keys: seq<K>)
    ensures forall r :: r in Emit(rows, keys) ==> r.key in keys && Net(rows, r.key) != 0 && r == RowFor(rows, r.key)
  {
    if keys != [] {
      EmitOnly(rows, keys[..|keys| - 1]);
      assert keys == keys[..|keys| - 1] + [keys[|keys| - 1]];
    }
  }

  lemma {:induction false} EmitAll<K>(rows: seq<Row<K>>, keys: seq<K>, key: K)
    requires key in keys && Net(rows, key) != 0
    ensures RowFor(rows, key) in Emit(rows, keys)
  {
    var n := |keys| - 1;
    assert keys == keys[..n] + [keys[n]];
    if keys[n] != key { EmitAll(rows, keys[..n], key); }
  }

  lemma {:induction false} EmitDistinct<K>(rows: seq<Row<K>>, keys: seq<K>)
    requires Distinct(keys)
    ensures DistinctKeys(Emit(rows, keys))
  {
    if keys != [] {
      var n := |keys| - 1;
      EmitDistinct(rows, keys[..n]);
      EmitOnly(rows, keys[..n]);
      var before := Emit(rows, keys[..n]);
      forall k | 0 <= k < |before| ensures before[k].key != keys[n] {
        assert before[k] in before;
      }
    }
  }

  /** No net amount is cut off by the cast to u64. */
  ghost predicate Fits<K>(rows: seq<Row<K>>, key: K) { -U64_LIMIT < Net(rows, key) < U64_LIMIT }

  /**
   The result of coalescing: at most one row per key; a row for a key exactly when the net of the
   key is not zero; and a row whose net fits is one-sided and carries exactly the net.
   */
  lemma {:induction false} CoalescedMeaning<K(!new)>(rows: seq<Row<K>>)
    ensures DistinctKeys(Coalesced(rows))
    ensures forall key :: (exists r :: r in Coalesced(rows) && r.key == key) <==> Net(rows, key) != 0
    ensures forall r :: r in Coalesced(rows) && Fits(rows, r.key) ==> OneSided(r) && Delta(r) == Net(rows, r.key)
  {
    KeysDistinct(rows);
    EmitDistinct(rows, Keys(rows));
    EmitOnly(rows, Keys(rows));
    forall key | Net(rows, key) != 0 ensures exists r :: r in Coalesced(rows) && r.key == key {
      NetOfAbsentKey(rows, key);
      EmitAll(rows, Keys(rows), key);
      assert RowFor(rows, key).key == key;
    }
  }

  lemma {:induction false} NetOfDistinct<K>(rows: seq<Row<K>>, key: K)
    requires DistinctKeys(rows)
    ensures forall k :: 0 <= k < |rows| && rows[k].key == key ==> Net(rows, key) == Delta(rows[k])
    ensures (forall k :: 0 <= k < |rows| ==> rows[k].key != key) ==> Net(rows, key) == 0
  {
    if rows != [] { NetOfDistinct(rows[..|rows| - 1], key); }
  }

  /** Coalescing keeps every net that fits. */
  lemma {:induction false} CoalescingKeepsNets<K(!new)>(rows: seq<Row<K>>, key: K)
    requires Fits(rows, key)
    ensures Net(Coalesced(rows), key) == Net(rows, key)
  {
    CoalescedMeaning(rows);
    var out := Coalesced(rows);
    NetOfDistinct(out, key);
    if Net(rows, key) != 0 {
      var r :| r in out && r.key == key;
      var k :| 0 <= k < |out| && out[k] == r;
    } else {
      forall k | 0 <= k < |out| ensures out[k].key != key { assert out[k] in out; }
    }
  }

  lemma {:induction false} NetAppend<K>(a: seq<Row<K>>, b: seq<Row<K>>, key: K)
    ensures Net(a + b, key) == Net(a, key) + Net(b, key)
  {
    if b == [] {
      assert a + b == a;
    } else {
      assert (a + b)[..|a + b| - 1] == a + b[..|b| - 1];
      NetAppend(a, b[..|b| - 1], key);
    }
  }

  /** Netting the coalesced pieces gives the same nets as netting the concatenation. */
  lemma {:induction false} CoalescingIsCompositional<K(!new)>(a: seq<Row<K>>, b: seq<Row<K>>, key: K)
    requires Fits(a, key) && Fits(b, key)
    ensures Net(Coalesced(a) + Coalesced(b), key) == Net(a + b, key)
  {
    NetAppend(a, b, key);
    NetAppend(Coalesced(a), Coalesced(b), key);
    CoalescingKeepsNets(a, key);
    CoalescingKeepsNets(b, key);
  }

  /** Every coalesced row has the key of some row. */
  lemma {:induction false} CoalescedHasRow<K>(rows: seq<Row<K>>, k: nat)
    requires k < |Coalesced(rows)|
    ensures exists r :: r in rows && r.key == Coalesced(rows)[k].key
  {
    EmitOnly(rows, Keys(rows));
    assert Coalesced(rows)[k] in Coalesced(rows);
    KeyHasRow(rows, Coalesced(rows)[k].key);
  }

  lemma {:induction false} KeyHasRow<K>(rows: seq<Row<K>>, key: K)
    requires key in Keys(rows)
    ensures exists r :: r in rows && r.key == key
  {
    var init, last := rows[..|rows| - 1], rows[|rows| - 1];
    assert rows == init + [last];
    assert last in rows;
    if key != last.key {
      KeyHasRow(init, key);
      var r :| r in init && r.key == key;
      assert r in rows;
    }
  }

  // ---------------- Fixed points ----------------

  lemma {:induction false} KeysOfDistinct<K>(rows: seq<Row<K>>)
    requires DistinctKeys(rows)
    ensures |Keys(rows)| == |rows| && forall k :: 0 <= k < |rows| ==> Keys(rows)[k] == rows[k].key
  {
    if rows != [] { KeysOfDistinct(rows[..|rows| - 1]); }
  }

  lemma {:induction false} DecimalsOfDistinct<K>(rows: seq<Row<K>>, k: nat)
    requires DistinctKeys(rows) && k < |rows|
    ensures FirstDecimals(rows, rows[k].key) == rows[k].decimals
  {
    var init := rows[..|rows| - 1];
    KeysOfDistinct(init);
    if k < |rows| - 1 {
      assert Keys(init)[k] == rows[k].key;
      DecimalsOfDistinct(init, k);
    }
  }

  lemma {:induction false} EmitOne<K>(rows: seq<Row<K>>, keys: seq<K>, k: nat)
    requires DistinctKeys(rows) && k < |rows| && k < |keys| && OneSided(rows[k]) && keys[k] == rows[k].key
    ensures Emit(rows, keys[..k + 1]) == Emit(rows, keys[..k]) + [rows[k]]
  {
    assert keys[..k + 1][..k] == keys[..k];
    NetOfDistinct(rows, rows[k].key);
    DecimalsOfDistinct(rows, k);
    NetRowOfOneSided(rows[k]);
  }

  lemma {:induction false} NetRowOfOneSided<K>(r: Row<K>)
    requires OneSided(r)
    ensures Delta(r) != 0 && NetRow(r.key, Delta(r), r.decimals) == r
  {
  }

  lemma {:induction false} EmitOfCanonical<K>(rows: seq<Row<K>>, keys: seq<K>, n: nat)
    requires DistinctKeys(rows) && n <= |rows| == |keys|
    requires forall k :: 0 <= k < |rows| ==> OneSided(rows[k]) && keys[k] == rows[k].key
    ensures Emit(rows, keys[..n]) == rows[..n]
  {
    if n > 0 {
      EmitOfCanonical(rows, keys, n - 1);
      EmitOne(rows, keys, n - 1);
    }
  }

  /** Rows with distinct keys and one zero side each are left as they are. */
  lemma {:induction false} CanonicalRowsAreFixed<K>(rows: seq<Row<K>>)
    requires DistinctKeys(rows) && forall k :: 0 <= k < |rows| ==> OneSided(rows[k])
    ensures Coalesced(rows) == rows
  {
    KeysOfDistinct(rows);
    EmitOfCanonical(rows, Keys(rows), |rows|);
    assert Keys(rows)[..|rows|] == Keys(rows) && rows[..|rows|] == rows;
  }

  /**
   Coalescing twice is coalescing once exactly when no non-zero net is a multiple of 2^64; such a
   net is cast to a row with two zero sides, which a second pass drops.
   */
  lemma {:induction false} IdempotentIff<K(!new)>(rows: seq<Row<K>>)
    ensures Coalesced(Coalesced(rows)) == Coalesced(rows) <==>
      forall key :: Net(rows, key) != 0 ==> Net(rows, key) % U64_LIMIT != 0
  {
    if forall key :: Net(rows, key) != 0 ==> Net(rows, key) % U64_LIMIT != 0 {
      StableWithoutMultiples(rows);
    } else {
      var key :| Net(rows, key) != 0 && Net(rows, key) % U64_LIMIT == 0;
      UnstableWithMultiple(rows, key);
    }
  }

  /** Two deltas of 2^63 of one key: the first pass casts their net to 0, the second drops the row. */
  lemma {:induction false} IdempotenceCanFail<K(!new)>(key: K, decimals: u8)
    ensures var rows := [Row(key, 0, 0x8000_0000_0000_0000, decimals), Row(key, 0, 0x8000_0000_0000_0000, decimals)];
      Coalesced(Coalesced(rows)) != Coalesced(rows)
  {
    var rows := [Row(key, 0, 0x8000_0000_0000_0000, decimals), Row(key, 0, 0x8000_0000_0000_0000, decimals)];
    assert rows[..1] == [rows[0]] && rows[..1][..0] == [];
    assert Net(rows[..1], key) == 0x8000_0000_0000_0000;
    assert Net(rows, key) == U64_LIMIT;
    IdempotentIff(rows);
  }

  lemma {:induction false} StableWithoutMultiples<K(!new)>(rows: seq<Row<K>>)
    requires forall key :: Net(rows, key) != 0 ==> Net(rows, key) % U64_LIMIT != 0
    ensures Coalesced(Coalesced(rows)) == Coalesced(rows)
  {
    var out := Coalesced(rows);
    KeysDistinct(rows);
    EmitDistinct(rows, Keys(rows));
    EmitOnly(rows, Keys(rows));
    forall k | 0 <= k < |out| ensures OneSided(out[k]) {
      assert out[k] in out;
      CastOneSided(out[k].key, Net(rows, out[k].key), out[k].decimals);
    }
    CanonicalRowsAreFixed(out);
  }

  lemma {:induction false} UnstableWithMultiple<K(!new)>(rows: seq<Row<K>>, key: K)
    requires Net(rows, key) != 0 && Net(rows, key) % U64_LIMIT == 0
    ensures Coalesced(Coalesced(rows)) != Coalesced(rows)
  {
    var out := Coalesced(rows);
    CoalescedMeaning(rows);
    EmitOnly(rows, Keys(rows));
    var r :| r in out && r.key == key;
    CastOneSided(key, Net(rows, key), r.decimals);
    NetOfDistinct(out, key);
    CoalescedMeaning(out);
  }

  lemma {:induction false} CastOneSided<K>(key: K, n: int, decimals: u8)
    requires n != 0
    ensures n % U64_LIMIT != 0 ==> OneSided(NetRow(key, n, decimals))
    ensures n % U64_LIMIT == 0 ==> Delta(NetRow(key, n, decimals)) == 0
  {
  }

  // ---------------- When the casts are exact ----------------

  function TotalPre<K(==)>(rows: seq<Row<K>>, key: K): nat {
    if rows == [] then 0
    else TotalPre(rows[..|rows| - 1], key) + if rows[|rows| - 1].key == key then rows[|rows| - 1].pre else 0
  }

  function TotalPost<K(==)>(rows: seq<Row<K>>, key: K): nat {
    if rows == [] then 0
    else TotalPost(rows[..|rows| - 1], key) + if rows[|rows| - 1].key == key then rows[|rows| - 1].post else 0
  }

  /** No cast cuts anything off when the total before and the total after each fit in u64. */
  lemma {:induction false} TotalsThatFit<K>(rows: seq<Row<K>>, key: K)
    ensures Net(rows, key) == TotalPost(rows, key) - TotalPre(rows, key)
    ensures TotalPre(rows, key) < U64_LIMIT && TotalPost(rows, key) < U64_LIMIT ==> Fits(rows, key)
  {
    if rows != [] { TotalsThatFit(rows[..|rows| - 1], key); }
  }
}

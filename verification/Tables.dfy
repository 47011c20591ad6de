/**
 Tables whose rows belong to slots, with a primary key (crates/storage/src/schema.rs).  Three
 tables are written the same way: delete the rows of a slot, then append its new rows, which fails
 on a key that is already present.
 */
module Tables {
  import opened Numbers
  import opened Options

  datatype Stored<+V> = Stored(slot: u64, value: V)

  type Table<K, +V> = map<K, Stored<V>>

  function WithoutSlot<K, V>(m: Table<K, V>, slot: u64): Table<K, V> {
    map k | k in m && m[k].slot != slot :: m[k]
  }

  /** Append rows one after the other; `None` is a primary-key violation. */
  function Append<K(==), V>(m: Table<K, V>, slot: u64, rows: seq<(K, V)>): Option<Table<K, V>> {
    if rows == [] then Some(m)
    else
      var (key, value) := rows[|rows| - 1];
      match Append(m, slot, rows[..|rows| - 1])
      case None => None
      case Some(m') => if key in m' then None else Some(m'[key := Stored(slot, value)])
  }

  function Replace<K(==), V>(m: Table<K, V>, slot: u64, rows: seq<(K, V)>): Option<Table<K, V>> {
    Append(WithoutSlot(m, slot), slot, rows)
  }

  /** The appender: the loop stops at the first violation. */
  method AppendRows<K(==), V>(m: Table<K, V>, slot: u64, rows: seq<(K, V)>) returns (ok: bool, m': Table<K, V>)
    ensures ok <==> Append(m, slot, rows).Some?
    ensures ok ==> m' == Append(m, slot, rows).value
  {
    m' := m;
    var i := 0;
    while i < |rows|
      invariant 0 <= i <= |rows|
      invariant Append(m, slot, rows[..i]) == Some(m')
    {
      assert rows[..i + 1][..i] == rows[..i];
      if rows[i].0 in m' {
        AppendFailsForGood(m, slot, rows, i + 1);
        return false, m';
      }
      m' := m'[rows[i].0 := Stored(slot, rows[i].1)];
      i := i + 1;
    }
    assert rows[..i] == rows;
    ok := true;
  }

  lemma {:induction false} AppendFailsForGood<K, V>(m: Table<K, V>, slot: u64, rows: seq<(K, V)>, i: nat)
    requires i <= |rows| && Append(m, slot, rows[..i]).None?
    ensures Append(m, slot, rows).None?
    decreases |rows|
  {
    if i < |rows| {
      var init := rows[..|rows| - 1];
      assert init[..i] == rows[..i];
      AppendFailsForGood(m, slot, init, i);
    } else {
      assert rows[..i] == rows;
    }
  }

  // ---------------- The rows of one slot ----------------

  ghost function SlotRows<K, V>(m: Table<K, V>, slot: u64): map<K, V> {
    map k | k in m && m[k].slot == slot :: m[k].value
  }

  /** The rows as a map; later rows win, which matters only when keys repeat. */
  function AsMap<K, V>(rows: seq<(K, V)>): map<K, V> {
    if rows == [] then map[] else AsMap(rows[..|rows| - 1])[rows[|rows| - 1].0 := rows[|rows| - 1].1]
  }

  ghost predicate DistinctRowKeys<K, V>(rows: seq<(K, V)>) {
    forall k, l :: 0 <= k < l < |rows| ==> rows[k].0 != rows[l].0
  }

  lemma {:induction false} AppendMeaning<K, V>(m: Table<K, V>, slot: u64, rows: seq<(K, V)>)
    ensures Append(m, slot, rows).Some? <==>
      DistinctRowKeys(rows) && forall k :: 0 <= k < |rows| ==> rows[k].0 !in m
    ensures Append(m, slot, rows).Some? ==>
      && (forall key :: key in AsMap(rows) ==> key !in m)
      && Append(m, slot, rows).value == m + map key | key in AsMap(rows) :: Stored(slot, AsMap(rows)[key])
  {
    AsMapKeys(rows);
    if rows != [] {
      var init := rows[..|rows| - 1];
      AppendMeaning(m, slot, init);
      AsMapKeys(init);
      OneMoreRow(m, slot, rows);
    }
  }

  lemma {:induction false} OneMoreRow<K, V>(m: Table<K, V>, slot: u64, rows: seq<(K, V)>)
    requires rows != []
    requires var init := rows[..|rows| - 1];
      Append(m, slot, init).Some? ==> forall key :: key in Append(m, slot, init).value <==> key in m || key in AsMap(init)
    ensures Append(m, slot, rows).Some? <==>
      && Append(m, slot, rows[..|rows| - 1]).Some?
      && rows[|rows| - 1].0 !in m && rows[|rows| - 1].0 !in AsMap(rows[..|rows| - 1])
  {
  }

  lemma {:induction false} AsMapKeys<K, V>(rows: seq<(K, V)>)
    ensures forall key :: key in AsMap(rows) <==> exists k :: 0 <= k < |rows| && rows[k].0 == key
  {
    if rows != [] {
      var init := rows[..|rows| - 1];
      AsMapKeys(init);
      forall key ensures key in AsMap(rows) <==> exists k :: 0 <= k < |rows| && rows[k].0 == key {
        if k :| 0 <= k < |init| && init[k].0 == key { assert rows[k].0 == key; }
      }
    }
  }

  /** Replacing succeeds exactly when the new keys are distinct and not taken by another slot. */
  lemma {:induction false} ReplaceSucceedsIff<K, V>(m: Table<K, V>, slot: u64, rows: seq<(K, V)>)
    ensures Replace(m, slot, rows).Some? <==>
      DistinctRowKeys(rows) && forall k :: 0 <= k < |rows| && rows[k].0 in m ==> m[rows[k].0].slot == slot
  {
    AppendMeaning(WithoutSlot(m, slot), slot, rows);
  }

  /** After a replacement the slot holds exactly the new rows; every other slot is untouched. */
  lemma {:induction false} ReplaceMeaning<K, V>(m: Table<K, V>, slot: u64, rows: seq<(K, V)>)
    requires Replace(m, slot, rows).Some?
    ensures SlotRows(Replace(m, slot, rows).value, slot) == AsMap(rows)
    ensures forall s :: s != slot ==> SlotRows(Replace(m, slot, rows).value, s) == SlotRows(m, s)
  {
    AppendMeaning(WithoutSlot(m, slot), slot, rows);
  }

  /** Replacing a slot by the rows it already has succeeds and changes nothing. */
  lemma {:induction false} ReplaceBySame<K, V>(m: Table<K, V>, slot: u64, rows: seq<(K, V)>)
    requires DistinctRowKeys(rows) && SlotRows(m, slot) == AsMap(rows)
    ensures Replace(m, slot, rows) == Some(m)
  {
    AsMapKeys(rows);
    forall k | 0 <= k < |rows| ensures rows[k].0 !in WithoutSlot(m, slot) {
      assert rows[k].0 in AsMap(rows);
      assert rows[k].0 in SlotRows(m, slot);
    }
    AppendMeaning(WithoutSlot(m, slot), slot, rows);
    var m' := Append(WithoutSlot(m, slot), slot, rows).value;
    forall key ensures key in m' <==> key in m {
      assert key in SlotRows(m, slot) <==> key in AsMap(rows);
    }
    forall key | key in m ensures m'[key] == m[key] {
      if m[key].slot == slot {
        assert SlotRows(m, slot)[key] == AsMap(rows)[key];
      }
    }
    assert m' == m;
  }

  /** A table is determined by the rows of its slots. */
  lemma {:induction false} SameTable<K(!new), V>(m: Table<K, V>, m': Table<K, V>)
    requires forall s :: SlotRows(m, s) == SlotRows(m', s)
    ensures m == m'
  {
    forall key ensures key in m <==> key in m' {
      if key in m { assert key in SlotRows(m, m[key].slot); }
      if key in m' { assert key in SlotRows(m', m'[key].slot); }
    }
    forall key | key in m ensures m[key] == m'[key] {
      assert key in SlotRows(m, m[key].slot) && key in SlotRows(m', m[key].slot);
      assert SlotRows(m, m[key].slot)[key] == SlotRows(m', m[key].slot)[key];
    }
  }
}

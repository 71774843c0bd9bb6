/**
 * The browser's local storage as a value: the keys in enumeration order and
 * what each key holds. Writing a new key appends it to the order; writing an
 * existing key keeps its place. JSON text is abstracted: `Payload` is text
 * that parses to an object with a `records` array, and `Malformed` is any
 * other value, whether `JSON.parse` rejects it or it parses to something else.
 */
module Storage {
  import opened Wrappers
  import opened KillRecords

  /** The value stored under one key. */
  datatype Raw = Payload(records: seq<Record>) | Malformed

  datatype Db = Db(keys: seq<string>, slots: map<string, Raw>)

  predicate Distinct<T(==)>(s: seq<T>) {
    forall i, j :: 0 <= i < j < |s| ==> s[i] != s[j]
  }

  /** Every key is listed once and the listed keys are exactly the stored ones. */
  predicate Wellformed(db: Db) {
    && Distinct(db.keys)
    && (forall k :: k in db.keys ==> k in db.slots)
    && (forall k :: k in db.slots ==> k in db.keys)
  }

  /** `readRecordsForKey`: the records of a partition; a missing or malformed one reads as empty. */
  function Read(db: Db, k: string): (rs: seq<Record>)
    ensures k !in db.slots || db.slots[k] == Malformed ==> rs == []
    ensures k in db.slots && db.slots[k].Payload? ==> rs == db.slots[k].records
  {
    if k in db.slots && db.slots[k].Payload? then db.slots[k].records else []
  }

  /** `writeRecordsForKey`: afterwards `k` reads as `rs` and every other key reads as before. */
  function Put(db: Db, k: string, rs: seq<Record>): (db': Db)
    ensures Wellformed(db) ==> Wellformed(db')
    ensures Read(db', k) == rs
    ensures forall k' :: k' != k ==> Read(db', k') == Read(db, k')
    ensures forall k' :: k' != k && k' in db.slots ==> k' in db'.slots && db'.slots[k'] == db.slots[k']
    ensures k in db'.slots && db'.slots.Keys == db.slots.Keys + {k}
    ensures k in db.slots ==> db'.keys == db.keys
    ensures k !in db.slots ==> db'.keys == db.keys + [k]
  {
    Db(if k in db.slots then db.keys else db.keys + [k], db.slots[k := Payload(rs)])
  }

  function Without(keys: seq<string>, k: string): (r: seq<string>)
    ensures forall k' :: k' in r <==> k' in keys && k' != k
    ensures Distinct(keys) ==> Distinct(r)
  {
    if keys == [] then []
    else
      var init := Without(keys[..|keys| - 1], k);
      var last := keys[|keys| - 1];
      assert forall k' :: k' in keys <==> k' in keys[..|keys| - 1] || k' == last;
      assert Distinct(keys) ==> last !in keys[..|keys| - 1];
      if last == k then init else init + [last]
  }

  /** `localStorage.removeItem`: the key is gone and every other key reads as before. */
  function Drop(db: Db, k: string): (db': Db)
    ensures Wellformed(db) ==> Wellformed(db')
    ensures k !in db'.slots
    ensures forall k' :: k' != k ==> Read(db', k') == Read(db, k')
  {
    Db(Without(db.keys, k), db.slots - {k})
  }

  /** The partition keys (prefix `abt:`) among `keys`, in order. */
  function AbtKeys(keys: seq<string>): (ks: seq<string>)
    ensures forall k :: k in ks <==> k in keys && IsAbtKey(k)
    ensures Distinct(keys) ==> Distinct(ks)
  {
    if keys == [] then []
    else
      var init := AbtKeys(keys[..|keys| - 1]);
      var k := keys[|keys| - 1];
      assert forall k' :: k' in keys <==> k' in keys[..|keys| - 1] || k' == k;
      if IsAbtKey(k) then init + [k] else init
  }

  /** `records.findIndex(r => r.id === id)`. */
  function FindIndex(rs: seq<Record>, id: string): (r: Option<nat>)
    ensures r.Some? ==> r.value < |rs| && rs[r.value].id == id
    ensures r.Some? ==> forall j :: 0 <= j < r.value ==> rs[j].id != id
    ensures r.None? ==> forall j :: 0 <= j < |rs| ==> rs[j].id != id
  {
    if rs == [] then None
    else if rs[0].id == id then Some(0)
    else
      match FindIndex(rs[1..], id)
      case None => None
      case Some(i) => Some(i + 1)
  }

  /** Whether the partition under `k` holds a record with this id. */
  predicate Holds(db: Db, k: string, id: string) {
    FindIndex(Read(db, k), id).Some?
  }

  /** Where a record was found: its partition, its index there and the record itself. */
  datatype Location = Location(key: string, index: nat, record: Record)

  /**
   * The first of `ks` whose partition holds `id`, with the first index of
   * `id` in it; `None` when no partition of `ks` holds it.
   */
  function LocateIn(db: Db, ks: seq<string>, id: string): (loc: Option<Location>)
    ensures loc.Some? ==>
      loc.value.key in ks &&
      FindIndex(Read(db, loc.value.key), id) == Some(loc.value.index) &&
      loc.value.record == Read(db, loc.value.key)[loc.value.index] &&
      loc.value.record.id == id
    ensures loc.None? ==> forall k :: k in ks ==> !Holds(db, k, id)
  {
    if ks == [] then None
    else
      match FindIndex(Read(db, ks[0]), id)
      case Some(i) => Some(Location(ks[0], i, Read(db, ks[0])[i]))
      case None =>
        var rest := LocateIn(db, ks[1..], id);
        assert forall k :: k in ks ==> k == ks[0] || k in ks[1..];
        rest
  }

  /** The partition found is the first of `ks` that holds `id`. */
  lemma {:induction false} LocateInFirst(db: Db, ks: seq<string>, id: string, p: nat)
    requires p < |ks| && Holds(db, ks[p], id)
    requires forall q :: 0 <= q < p ==> !Holds(db, ks[q], id)
    ensures LocateIn(db, ks, id).Some? && LocateIn(db, ks, id).value.key == ks[p]
  {
    if p > 0 {
      assert !Holds(db, ks[0], id);
      forall q | 0 <= q < p - 1 ensures !Holds(db, ks[1..][q], id) {
        assert ks[1..][q] == ks[q + 1];
      }
      LocateInFirst(db, ks[1..], id, p - 1);
    }
  }

  /** `findRecordKeyById`: scans the partition keys in enumeration order. */
  function Locate(db: Db, id: string): (loc: Option<Location>)
    ensures loc.Some? ==>
      IsAbtKey(loc.value.key) && loc.value.key in db.keys &&
      loc.value.index < |Read(db, loc.value.key)| &&
      loc.value.record == Read(db, loc.value.key)[loc.value.index] &&
      loc.value.record.id == id
    ensures loc.None? <==> forall k :: k in db.keys && IsAbtKey(k) ==> !Holds(db, k, id)
  {
    LocateIn(db, AbtKeys(db.keys), id)
  }

  /** The number of records in the partitions `ks`. */
  function SumLen(db: Db, ks: seq<string>): nat {
    if ks == [] then 0 else SumLen(db, ks[..|ks| - 1]) + |Read(db, ks[|ks| - 1])|
  }

  /** The number of kill records in the whole store. */
  function Total(db: Db): nat {
    SumLen(db, AbtKeys(db.keys))
  }

  lemma {:induction false} SumLenFrame(db1: Db, db2: Db, ks: seq<string>)
    requires forall k :: k in ks ==> Read(db1, k) == Read(db2, k)
    ensures SumLen(db1, ks) == SumLen(db2, ks)
  {
    if ks != [] {
      SumLenFrame(db1, db2, ks[..|ks| - 1]);
    }
  }

  lemma {:induction false} SumLenChangeOne(db1: Db, db2: Db, ks: seq<string>, k: string)
    requires Distinct(ks) && k in ks
    requires forall k' :: k' in ks && k' != k ==> Read(db1, k') == Read(db2, k')
    ensures SumLen(db2, ks) == SumLen(db1, ks) - |Read(db1, k)| + |Read(db2, k)|
  {
    var init := ks[..|ks| - 1];
    if ks[|ks| - 1] == k {
      assert k !in init;
      SumLenFrame(db1, db2, init);
    } else {
      SumLenChangeOne(db1, db2, init, k);
    }
  }

  lemma AbtKeysAppend(keys: seq<string>, k: string)
    ensures AbtKeys(keys + [k]) == if IsAbtKey(k) then AbtKeys(keys) + [k] else AbtKeys(keys)
  {
    assert (keys + [k])[..|keys|] == keys;
  }

  /** Writing `rs` under a partition key changes the record count by the change in that partition. */
  lemma TotalAfterPut(db: Db, k: string, rs: seq<Record>)
    requires Wellformed(db) && IsAbtKey(k)
    ensures Total(Put(db, k, rs)) == Total(db) - |Read(db, k)| + |rs|
  {
    var db' := Put(db, k, rs);
    var ks := AbtKeys(db.keys);
    if k in db.slots {
      assert db'.keys == db.keys;
      SumLenChangeOne(db, db', ks, k);
    } else {
      TotalAfterInsert(db, k, rs);
    }
  }

  /** Writing a new partition adds its records to the count. */
  lemma TotalAfterInsert(db: Db, k: string, rs: seq<Record>)
    requires Wellformed(db) && IsAbtKey(k) && k !in db.slots
    ensures Total(Put(db, k, rs)) == Total(db) + |rs|
  {
    var db' := Put(db, k, rs);
    var ks := AbtKeys(db.keys);
    assert AbtKeys(db'.keys) == ks + [k] by {
      AbtKeysAppend(db.keys, k);
    }
    assert k !in ks;
    assert SumLen(db', ks) == SumLen(db, ks) by {
      SumLenFrame(db, db', ks);
    }
    assert (ks + [k])[..|ks|] == ks;
  }
}

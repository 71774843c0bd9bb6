/**
 * What each store operation does to local storage, as functions of the
 * storage before the call, with the properties the store promises.
 */
module Operations {
  import opened Wrappers
  import opened KillRecords
  import opened Storage
  import opened Retention

  /** Reads the partition of `rec`, appends `rec` and writes it back. */
  function Append(db: Db, rec: Record): Db {
    var k := PartitionKey(rec);
    Put(db, k, Read(db, k) + [rec])
  }

  /** `addRecord(rec)`: append to the record's partition, then purge its boss. */
  function AddSpec(db: Db, rec: Record): Db {
    PurgeSpec(Append(db, rec), rec.bossId)
  }

  /**
   * Adding writes nothing outside the boss's own partitions. Unless the
   * boss goes over the cap, the record ends up last in its partition,
   * nothing else changes and the store holds one record more; and when its
   * ids are unique the boss never keeps more than `MaxPerBoss` records.
   */
  lemma AddRecordEffect(db: Db, rec: Record)
    requires Wellformed(db)
    ensures var k := PartitionKey(rec);
      var db' := AddSpec(db, rec);
      var b := rec.bossId;
      && Wellformed(db')
      && (forall k' :: k' in db.slots && !HasPrefix(k', BossPrefix(b)) ==>
            k' in db'.slots && db'.slots[k'] == db.slots[k'])
      && (BossCount(Append(db, rec), b) <= MaxPerBoss ==>
            && Read(db', k) == Read(db, k) + [rec]
            && (forall k' :: k' != k ==> Read(db', k') == Read(db, k'))
            && Total(db') == Total(db) + 1)
      && BossCount(db', b) <= MaxPerBoss
  {
    var k := PartitionKey(rec);
    var db1 := Append(db, rec);
    PurgeFrame(db1, rec.bossId);
    TotalAfterPut(db, k, Read(db, k) + [rec]);
    PurgeCapsBoss(db1, rec.bossId);
  }

  /** The records of `rs` without the one at index `i`: `records.splice(i, 1)`. */
  function RemoveAt(rs: seq<Record>, i: nat): (r: seq<Record>)
    requires i < |rs|
    ensures |r| == |rs| - 1
    ensures forall j :: 0 <= j < i ==> r[j] == rs[j]
    ensures forall j :: i <= j < |r| ==> r[j] == rs[j + 1]
  {
    rs[..i] + rs[i + 1..]
  }

  /**
   * `updateRecord(id, changes)` with the clock reading `now`: false and no
   * change when no partition holds `id`; otherwise the merged record
   * replaces the old one in place when its partition key is unchanged, or
   * moves to the end of its new partition.
   */
  function UpdateSpec(db: Db, id: string, changes: Patch, now: int): (bool, Db) {
    match Locate(db, id)
    case None => (false, db)
    case Some(loc) =>
      var updated := Merge(loc.record, changes, now);
      var newKey := PartitionKey(updated);
      var before := Read(db, loc.key);
      if newKey == loc.key then
        (true, Put(db, loc.key, before[loc.index := updated]))
      else
        var db1 := Put(db, loc.key, RemoveAt(before, loc.index));
        (true, Put(db1, newKey, Read(db1, newKey) + [updated]))
  }

  lemma UpdateRecordEffect(db: Db, id: string, changes: Patch, now: int)
    requires Wellformed(db)
    ensures var (ok, db') := UpdateSpec(db, id, changes, now);
      && Wellformed(db')
      && (ok <==> Locate(db, id).Some?)
      && (!ok ==> db' == db)
      && (ok ==> Total(db') == Total(db))
      && (ok ==>
            var loc := Locate(db, id).value;
            var u := Merge(loc.record, changes, now);
            var nk := PartitionKey(u);
            && (nk == loc.key ==> Read(db', nk) == Read(db, nk)[loc.index := u])
            && (nk != loc.key ==>
                  && Read(db', loc.key) == RemoveAt(Read(db, loc.key), loc.index)
                  && Read(db', nk) == Read(db, nk) + [u])
            && forall k :: k != loc.key && k != nk ==> Read(db', k) == Read(db, k))
  {
    match Locate(db, id)
    case None =>
    case Some(loc) =>
      var u := Merge(loc.record, changes, now);
      var nk := PartitionKey(u);
      assert IsAbtKey(loc.key);
      if nk == loc.key {
        ReplaceEffect(db, loc.key, loc.index, u);
      } else {
        MoveEffect(db, loc.key, loc.index, u, nk);
      }
  }

  /** Writing back a partition with one record replaced keeps the record count. */
  lemma ReplaceEffect(db: Db, k: string, i: nat, u: Record)
    requires Wellformed(db) && IsAbtKey(k) && i < |Read(db, k)|
    ensures var db' := Put(db, k, Read(db, k)[i := u]);
      && Wellformed(db')
      && Total(db') == Total(db)
      && forall k' :: k' != k ==> Read(db', k') == Read(db, k')
  {
    TotalAfterPut(db, k, Read(db, k)[i := u]);
  }

  /** Removing a record from one partition and appending one to another keeps the record count. */
  lemma MoveEffect(db: Db, k: string, i: nat, u: Record, nk: string)
    requires Wellformed(db) && IsAbtKey(k) && IsAbtKey(nk) && nk != k && i < |Read(db, k)|
    ensures var db1 := Put(db, k, RemoveAt(Read(db, k), i));
      var db' := Put(db1, nk, Read(db1, nk) + [u]);
      && Wellformed(db')
      && Total(db') == Total(db)
      && Read(db', k) == RemoveAt(Read(db, k), i)
      && Read(db', nk) == Read(db, nk) + [u]
      && forall k' :: k' != k && k' != nk ==> Read(db', k') == Read(db, k')
  {
    var rest := RemoveAt(Read(db, k), i);
    var db1 := Put(db, k, rest);
    assert Total(db1) == Total(db) - 1 by {
      TotalAfterPut(db, k, rest);
    }
    assert Read(db1, nk) == Read(db, nk);
    var db' := Put(db1, nk, Read(db, nk) + [u]);
    assert Total(db') == Total(db1) + 1 by {
      TotalAfterPut(db1, nk, Read(db, nk) + [u]);
    }
    assert Read(db', k) == rest;
  }

  /** `deleteRecord(id)`: removes the located record; no change when `id` is absent. */
  function DeleteSpec(db: Db, id: string): Db {
    match Locate(db, id)
    case None => db
    case Some(loc) => Put(db, loc.key, RemoveAt(Read(db, loc.key), loc.index))
  }

  lemma DeleteRecordEffect(db: Db, id: string)
    requires Wellformed(db)
    ensures var db' := DeleteSpec(db, id);
      && Wellformed(db')
      && (Locate(db, id).None? ==> db' == db)
      && (Locate(db, id).Some? ==>
            var loc := Locate(db, id).value;
            && Read(db', loc.key) == RemoveAt(Read(db, loc.key), loc.index)
            && (forall k :: k != loc.key ==> Read(db', k) == Read(db, k))
            && Total(db') == Total(db) - 1)
  {
    match Locate(db, id)
    case None =>
    case Some(loc) =>
      assert IsAbtKey(loc.key);
      TotalAfterPut(db, loc.key, RemoveAt(Read(db, loc.key), loc.index));
  }

  /** The records of `rs` whose partition is `k`, in order. */
  function RecordsFor(rs: seq<Record>, k: string): seq<Record> {
    if rs == [] then []
    else
      var init := RecordsFor(rs[..|rs| - 1], k);
      if PartitionKey(rs[|rs| - 1]) == k then init + [rs[|rs| - 1]] else init
  }

  /** Appends each record of `rs`, in order, to its partition. */
  function MigrateAll(db: Db, rs: seq<Record>): Db {
    if rs == [] then db else Append(MigrateAll(db, rs[..|rs| - 1]), rs[|rs| - 1])
  }

  /** Migrating one more record appends it to the result so far. */
  lemma MigrateAllSnoc(db: Db, rs: seq<Record>, i: nat)
    requires i < |rs|
    ensures MigrateAll(db, rs[..i + 1]) == Append(MigrateAll(db, rs[..i]), rs[i])
  {
    assert rs[..i + 1][..i] == rs[..i];
  }

  /**
   * `migrateFromSingleKey()`: when the legacy key holds a records list, each
   * record goes to the end of its partition and the legacy key is removed;
   * a missing or malformed legacy value changes nothing.
   */
  function MigrateSpec(db: Db): Db {
    if LegacyKey in db.slots && db.slots[LegacyKey].Payload? then
      Drop(MigrateAll(db, db.slots[LegacyKey].records), LegacyKey)
    else db
  }

  lemma MigrateAllPlaces(db: Db, rs: seq<Record>)
    requires Wellformed(db)
    ensures Wellformed(MigrateAll(db, rs))
    ensures forall k :: Read(MigrateAll(db, rs), k) == Read(db, k) + RecordsFor(rs, k)
    ensures LegacyKey in db.slots ==>
      LegacyKey in MigrateAll(db, rs).slots && MigrateAll(db, rs).slots[LegacyKey] == db.slots[LegacyKey]
  {
    MigrateAllKeeps(db, rs);
    forall k ensures Read(MigrateAll(db, rs), k) == Read(db, k) + RecordsFor(rs, k) {
      MigrateAllRead(db, rs, k);
    }
  }

  /** Appending records keeps storage well-formed and leaves the legacy value alone. */
  lemma {:induction false} MigrateAllKeeps(db: Db, rs: seq<Record>)
    requires Wellformed(db)
    ensures Wellformed(MigrateAll(db, rs))
    ensures LegacyKey in db.slots ==>
      LegacyKey in MigrateAll(db, rs).slots && MigrateAll(db, rs).slots[LegacyKey] == db.slots[LegacyKey]
  {
    if rs != [] {
      MigrateAllKeeps(db, rs[..|rs| - 1]);
      AppendKeeps(MigrateAll(db, rs[..|rs| - 1]), rs[|rs| - 1]);
    }
  }

  /** After appending `rs`, partition `k` holds what it held followed by the records of `rs` that belong to it. */
  lemma {:induction false} MigrateAllRead(db: Db, rs: seq<Record>, k: string)
    ensures Read(MigrateAll(db, rs), k) == Read(db, k) + RecordsFor(rs, k)
  {
    if rs != [] {
      var init, last := rs[..|rs| - 1], rs[|rs| - 1];
      var db0 := MigrateAll(db, init);
      var tail := if PartitionKey(last) == k then [last] else [];
      calc {
        Read(MigrateAll(db, rs), k);
        { assert MigrateAll(db, rs) == Append(db0, last); }
        Read(Append(db0, last), k);
        { AppendRead(db0, last, k); }
        Read(db0, k) + tail;
        { MigrateAllRead(db, init, k); }
        (Read(db, k) + RecordsFor(init, k)) + tail;
        Read(db, k) + (RecordsFor(init, k) + tail);
        { assert RecordsFor(rs, k) == RecordsFor(init, k) + tail; }
        Read(db, k) + RecordsFor(rs, k);
      }
    }
  }

  /** Appending a record keeps storage well-formed and leaves the legacy value alone. */
  lemma AppendKeeps(db: Db, rec: Record)
    requires Wellformed(db)
    ensures Wellformed(Append(db, rec))
    ensures LegacyKey in db.slots ==>
      LegacyKey in Append(db, rec).slots && Append(db, rec).slots[LegacyKey] == db.slots[LegacyKey]
  {
  }

  /** Appending a record adds it at the end of its own partition and nowhere else. */
  lemma AppendRead(db: Db, rec: Record, k: string)
    ensures Read(Append(db, rec), k) == Read(db, k) + (if PartitionKey(rec) == k then [rec] else [])
  {
  }

  lemma MigrateEffect(db: Db)
    requires Wellformed(db)
    ensures var db' := MigrateSpec(db);
      && Wellformed(db')
      && (LegacyKey !in db.slots || db.slots[LegacyKey] == Malformed ==> db' == db)
      && (LegacyKey in db.slots && db.slots[LegacyKey].Payload? ==>
            && LegacyKey !in db'.slots
            && forall k :: k != LegacyKey ==>
                 Read(db', k) == Read(db, k) + RecordsFor(db.slots[LegacyKey].records, k))
  {
    if LegacyKey in db.slots && db.slots[LegacyKey].Payload? {
      MigrateAllPlaces(db, db.slots[LegacyKey].records);
    }
  }
}

/**
 * The store as the page runs it: local storage held in a `KillStore`
 * object, and the operations of the page as methods that read partitions,
 * change their record lists and write them back. Each method is proved to
 * have exactly the effect its specification function in `Operations` or
 * `Retention` describes.
 */
module Store {
  import opened Wrappers
  import opened Calendar
  import opened KillRecords
  import opened Sorting
  import opened Storage
  import opened Retention
  import opened Operations
  import opened JsText

  /** The value of `Number(channelInput.value)`: a finite number, or NaN / an infinity. */
  datatype Num = Finite(value: real) | NonFinite

  /** The channel check of the submit handler: an integer in [1, 3000]. */
  function ParseChannel(n: Num): (ch: Option<int>)
    ensures ch.Some? <==> n.Finite? && n.value.Floor as real == n.value && 1.0 <= n.value <= 3000.0
    ensures ch.Some? ==> 1 <= ch.value <= 3000 && ch.value as real == n.value
  {
    if n.Finite? && n.value.Floor as real == n.value && 1.0 <= n.value <= 3000.0
    then Some(n.value.Floor) else None
  }

  /**
   * The kill time the form submits: the date of `now` at `timeOfDay`
   * milliseconds after midnight. A time of day inside the day keeps the
   * kill on today's partition.
   */
  function KillTime(now: int, timeOfDay: int): (t: int)
    ensures 0 <= timeOfDay < MsPerDay ==> DateOf(t) == DateOf(now) && t - timeOfDay <= now < t - timeOfDay + MsPerDay
  {
    var t := DayNumber(now) * MsPerDay + timeOfDay;
    SameDate(t, now);
    t
  }

  /** How a submission of the kill form ended. */
  datatype SubmitOutcome = BadChannel | NotFound | Updated | Added

  function NegTimestamp(r: Record): int {
    -r.timestamp
  }

  class KillStore {
    /** `localStorage.key(0 .. length - 1)`. */
    var keys: seq<string>
    /** `localStorage.getItem(k)` for every stored key. */
    var slots: map<string, Raw>

    ghost predicate Valid()
      reads this
    {
      Wellformed(Db(keys, slots))
    }

    function State(): Db
      reads this
    {
      Db(keys, slots)
    }

    constructor (db: Db)
      requires Wellformed(db)
      ensures Valid() && State() == db
    {
      keys, slots := db.keys, db.slots;
    }

    /** `writeRecordsForKey(k, { records: rs })`. */
    method WriteRecordsForKey(k: string, rs: seq<Record>)
      requires Valid()
      modifies this
      ensures Valid() && State() == Put(old(State()), k, rs)
    {
      if k !in slots {
        keys := keys + [k];
      }
      slots := slots[k := Payload(rs)];
    }

    /** `localStorage.removeItem(k)`. */
    method RemoveItem(k: string)
      requires Valid()
      modifies this
      ensures Valid() && State() == Drop(old(State()), k)
    {
      keys := Without(keys, k);
      slots := slots - {k};
    }

    /** `listAbtKeys()`: the keys starting with `abt:`, in enumeration order. */
    method ListAbtKeys() returns (ks: seq<string>)
      ensures ks == AbtKeys(keys)
    {
      ks := [];
      var i := 0;
      while i < |keys|
        invariant 0 <= i <= |keys|
        invariant ks == AbtKeys(keys[..i])
      {
        var k := keys[i];
        if IsAbtKey(k) {
          ks := ks + [k];
        }
        i := i + 1;
        assert keys[..i][..i - 1] == keys[..i - 1];
      }
      assert keys[..i] == keys;
    }

    /** `findRecordKeyById(id)`: the first partition, in key order, that holds `id`. */
    method FindRecordKeyById(id: string) returns (found: Option<Location>)
      ensures found == Locate(State(), id)
    {
      var ks := ListAbtKeys();
      var i := 0;
      while i < |ks|
        invariant 0 <= i <= |ks|
        invariant LocateIn(State(), ks, id) == LocateIn(State(), ks[i..], id)
      {
        var rs := Read(State(), ks[i]);
        var idx := FindIndex(rs, id);
        if idx.Some? {
          return Some(Location(ks[i], idx.value, rs[idx.value]));
        }
        assert ks[i..][1..] == ks[i + 1..];
        i := i + 1;
      }
      return None;
    }

    /** Appends `rec` to the end of the partition of its boss and day. */
    method AppendRecord(rec: Record)
      requires Valid()
      modifies this
      ensures Valid() && State() == Append(old(State()), rec)
    {
      var k := PartitionKey(rec);
      var rs := Read(State(), k);
      WriteRecordsForKey(k, rs + [rec]);
    }

    /** `addRecord(rec)`. */
    method AddRecord(rec: Record)
      requires Valid()
      modifies this
      ensures Valid() && State() == AddSpec(old(State()), rec)
    {
      AppendRecord(rec);
      PurgeIfNeeded(rec.bossId);
    }

    /** `updateRecord(id, changes)`, with the clock reading `now`. */
    method UpdateRecord(id: string, changes: Patch, now: int) returns (ok: bool)
      requires Valid()
      modifies this
      ensures Valid() && (ok, State()) == UpdateSpec(old(State()), id, changes, now)
    {
      var found := FindRecordKeyById(id);
      if found.None? {
        return false;
      }
      var oldKey := found.value.key;
      var storeOld := Read(State(), oldKey);
      var updated := Merge(storeOld[found.value.index], changes, now);
      var newKey := PartitionKey(updated);
      if newKey == oldKey {
        WriteRecordsForKey(oldKey, storeOld[found.value.index := updated]);
      } else {
        WriteRecordsForKey(oldKey, RemoveAt(storeOld, found.value.index));
        var storeNew := Read(State(), newKey);
        WriteRecordsForKey(newKey, storeNew + [updated]);
      }
      return true;
    }

    /** `deleteRecord(id)`. */
    method DeleteRecord(id: string)
      requires Valid()
      modifies this
      ensures Valid() && State() == DeleteSpec(old(State()), id)
    {
      var found := FindRecordKeyById(id);
      if found.None? {
        return;
      }
      var rs := Read(State(), found.value.key);
      WriteRecordsForKey(found.value.key, RemoveAt(rs, found.value.index));
    }

    /** Gathers `{ id, createdAt }` of every record of the partitions `ks`. */
    method CollectStamps(ks: seq<string>) returns (all: seq<Stamp>)
      ensures all == Collect(State(), ks)
    {
      all := [];
      var i := 0;
      while i < |ks|
        invariant 0 <= i <= |ks|
        invariant all == Collect(State(), ks[..i])
      {
        var s := Read(State(), ks[i]);
        var j := 0;
        while j < |s|
          invariant 0 <= j <= |s|
          invariant all == Collect(State(), ks[..i]) + StampsOf(s[..j])
        {
          all := all + [Stamp(s[j].id, s[j].createdAt)];
          StampsOfSnoc(s, j);
          j := j + 1;
        }
        assert s[..j] == s;
        CollectSnoc(State(), ks, i);
        i := i + 1;
      }
      assert ks[..i] == ks;
    }

    /** Writes back each partition of `ks` without the records listed in `ids`, when it lost some. */
    method DropListedRecords(ks: seq<string>, ids: seq<string>)
      requires Valid() && Distinct(ks)
      modifies this
      ensures Valid() && State() == DropListed(old(State()), ks, ids)
    {
      ghost var db0 := State();
      assert ks[..0] == [];
      DropListedNothing(db0, ids);
      var i := 0;
      while i < |ks|
        invariant 0 <= i <= |ks|
        invariant Valid() && State() == DropListed(db0, ks[..i], ids)
      {
        ghost var prev := State();
        var s := Read(State(), ks[i]);
        var kept := KeepUnlisted(s, ids);
        assert DropListed(db0, ks[..i + 1], ids) == if |kept| != |s| then Put(prev, ks[i], kept) else prev by {
          DropListedStep(db0, ks, i, ids);
        }
        if |kept| != |s| {
          WriteRecordsForKey(ks[i], kept);
        }
        i := i + 1;
      }
      assert ks[..i] == ks;
    }

    /** `purgeIfNeeded(bossId)`. */
    method PurgeIfNeeded(bossId: string)
      requires Valid()
      modifies this
      ensures Valid() && State() == PurgeSpec(old(State()), bossId)
    {
      ghost var db0 := State();
      var abt := ListAbtKeys();
      var ks := WithPrefix(abt, BossPrefix(bossId));
      assert ks == BossKeys(db0, bossId);
      var all := CollectStamps(ks);
      assert all == BossStamps(db0, bossId);
      if |all| <= MaxPerBoss {
        return;
      }
      var toRemove := Ids(SortBy(all, CreatedAt)[..|all| - MaxPerBoss]);
      assert toRemove == OldestIds(db0, bossId);
      DropListedRecords(ks, toRemove);
    }

    /**
     * `getTodayRecordsForBoss(bossId)` with the clock reading `now`: the
     * records of today's partition of the boss, newest first.
     */
    function TodayRecordsForBoss(bossId: string, now: int): (rs: seq<Record>)
      reads this
      ensures multiset(rs) == multiset(Read(State(), KeyFor(bossId, DateStr(DateOf(now)))))
      ensures forall i, j :: 0 <= i < j < |rs| ==> rs[i].timestamp >= rs[j].timestamp
    {
      var rs := SortBy(Read(State(), KeyFor(bossId, DateStr(DateOf(now)))), NegTimestamp);
      assert forall i, j :: 0 <= i < j < |rs| ==> NegTimestamp(rs[i]) <= NegTimestamp(rs[j]);
      rs
    }

    /** `migrateFromSingleKey()`. */
    method MigrateFromSingleKey()
      requires Valid()
      modifies this
      ensures Valid() && State() == MigrateSpec(old(State()))
    {
      if LegacyKey !in slots || slots[LegacyKey].Malformed? {
        return;
      }
      var rs := slots[LegacyKey].records;
      ghost var db0 := State();
      assert rs[..0] == [];
      var i := 0;
      while i < |rs|
        invariant 0 <= i <= |rs|
        invariant Valid() && State() == MigrateAll(db0, rs[..i])
      {
        MigrateAllSnoc(db0, rs, i);
        AppendRecord(rs[i]);
        i := i + 1;
      }
      assert rs[..i] == rs;
      assert State() == MigrateAll(db0, db0.slots[LegacyKey].records);
      RemoveItem(LegacyKey);
    }

    /**
     * The submit handler of the kill form. A channel that is not an integer
     * in [1, 3000] is refused before anything is written. Otherwise the kill
     * time is today's date at the entered time of day, the note is trimmed,
     * and the record under edit is updated, or a new record is added.
     */
    method SubmitKill(bossId: string, timeOfDay: int, channelInput: Num, looted: bool, noteText: string,
                      editingId: string, newId: string, now: int) returns (outcome: SubmitOutcome)
      requires Valid()
      modifies this
      ensures Valid()
      ensures outcome == BadChannel <==> ParseChannel(channelInput).None?
      ensures outcome == BadChannel ==> State() == old(State())
      ensures outcome != BadChannel && editingId != "" ==>
        var changes := Patch(Some(bossId), Some(KillTime(now, timeOfDay)),
                             Some(ParseChannel(channelInput).value), Some(looted), Some(Trim(noteText)));
        var (ok, db') := UpdateSpec(old(State()), editingId, changes, now);
        outcome == (if ok then Updated else NotFound) && State() == db'
      ensures outcome != BadChannel && editingId == "" ==>
        outcome == Added &&
        State() == AddSpec(old(State()), Record(newId, bossId, KillTime(now, timeOfDay),
                                                ParseChannel(channelInput).value, looted, Trim(noteText), now, now))
    {
      var ch := ParseChannel(channelInput);
      if ch.None? {
        return BadChannel;
      }
      var note := Trim(noteText);
      var timestamp := KillTime(now, timeOfDay);
      if editingId != "" {
        var ok := UpdateRecord(editingId, Patch(Some(bossId), Some(timestamp), Some(ch.value), Some(looted), Some(note)), now);
        return if ok then Updated else NotFound;
      }
      AddRecord(Record(newId, bossId, timestamp, ch.value, looted, note, now, now));
      return Added;
    }
  }
}

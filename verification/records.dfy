/**
 * Kill records, the partial updates the edit form applies to them, and the
 * partition key that places a record in the store: one partition per boss
 * and local calendar day, named `abt:<bossId>:<YYYY-MM-DD>`.
 */
module KillRecords {
  import opened Wrappers
  import opened Calendar

  /** One logged kill. Instants are integer milliseconds of local time. */
  datatype Record = Record(
    id: string,
    bossId: string,
    timestamp: int,
    channel: int,
    looted: bool,
    note: string,
    createdAt: int,
    updatedAt: int)

  /** The fields an edit may override; `None` leaves a field as it was. */
  datatype Patch = Patch(
    bossId: Option<string>,
    timestamp: Option<int>,
    channel: Option<int>,
    looted: Option<bool>,
    note: Option<string>)

  /**
   * `Object.assign({}, old, changes, { updatedAt: now })`: the changed fields
   * win, every other field is kept, and `updatedAt` becomes `now`.
   */
  function Merge(rec: Record, changes: Patch, now: int): (r: Record)
    ensures r.id == rec.id && r.createdAt == rec.createdAt && r.updatedAt == now
    ensures r.bossId == changes.bossId.GetOr(rec.bossId)
    ensures r.timestamp == changes.timestamp.GetOr(rec.timestamp)
    ensures r.channel == changes.channel.GetOr(rec.channel)
    ensures r.looted == changes.looted.GetOr(rec.looted)
    ensures r.note == changes.note.GetOr(rec.note)
    ensures changes == Patch(None, None, None, None, None) ==> r == rec.(updatedAt := now)
  {
    Record(
      rec.id,
      changes.bossId.GetOr(rec.bossId),
      changes.timestamp.GetOr(rec.timestamp),
      changes.channel.GetOr(rec.channel),
      changes.looted.GetOr(rec.looted),
      changes.note.GetOr(rec.note),
      rec.createdAt,
      now)
  }

  /** The key of the single store of the previous schema version. */
  const LegacyKey: string := "abt_records_v1"

  /** The prefix of every partition key. */
  const AbtPrefix: string := "abt:"

  predicate HasPrefix(s: string, p: string) {
    |p| <= |s| && s[..|p|] == p
  }

  predicate IsAbtKey(k: string) {
    HasPrefix(k, AbtPrefix)
  }

  /** `keyFor(bossId, dateStr)`. */
  function KeyFor(bossId: string, dateStr: string): (k: string)
    ensures IsAbtKey(k) && HasPrefix(k, BossPrefix(bossId))
    ensures k[|BossPrefix(bossId)|..] == dateStr
  {
    AbtPrefix + bossId + ":" + dateStr
  }

  /** The prefix shared by every partition of one boss. */
  function BossPrefix(bossId: string): string {
    AbtPrefix + bossId + ":"
  }

  /** The partition a record belongs in: its boss and the local date of its kill. */
  function PartitionKey(r: Record): (k: string)
    ensures IsAbtKey(k) && HasPrefix(k, BossPrefix(r.bossId)) && k != LegacyKey
  {
    var k := KeyFor(r.bossId, DateStr(DateOf(r.timestamp)));
    assert k[..|BossPrefix(r.bossId)|] == BossPrefix(r.bossId);
    assert k[3] != LegacyKey[3];
    k
  }

  /** Length of the longest prefix of `s` without a colon. */
  function ColonFreePrefix(s: string): nat {
    if s == [] || s[0] == ':' then 0 else 1 + ColonFreePrefix(s[1..])
  }

  /** Length of the longest suffix of `s` without a colon. */
  function ColonFreeSuffix(s: string): nat {
    if s == [] || s[|s| - 1] == ':' then 0 else 1 + ColonFreeSuffix(s[..|s| - 1])
  }

  lemma {:induction false} ColonFreePrefixOf(x: string, y: string)
    requires ':' !in x
    ensures ColonFreePrefix(x + ":" + y) == |x|
  {
    if x != [] {
      assert (x + ":" + y)[1..] == x[1..] + ":" + y;
      ColonFreePrefixOf(x[1..], y);
    }
  }

  lemma {:induction false} ColonFreeSuffixOf(x: string, d: string)
    requires ':' !in d
    ensures ColonFreeSuffix(x + ":" + d) == |d|
  {
    if d != [] {
      assert (x + ":" + d)[..|x + ":" + d| - 1] == x + ":" + d[..|d| - 1];
      ColonFreeSuffixOf(x, d[..|d| - 1]);
    }
  }

  lemma SplitAtLastColon(x1: string, d1: string, x2: string, d2: string)
    requires ':' !in d1 && ':' !in d2
    requires x1 + ":" + d1 == x2 + ":" + d2
    ensures x1 == x2 && d1 == d2
  {
    var s := x1 + ":" + d1;
    ColonFreeSuffixOf(x1, d1);
    ColonFreeSuffixOf(x2, d2);
    assert d1 == s[|s| - |d1|..] == d2;
    assert x1 == s[..|x1|] == x2;
  }

  /**
   * The key names the boss and the day: two records share a partition
   * exactly when they have the same boss and fall on the same local day.
   */
  lemma {:induction false} SamePartition(r1: Record, r2: Record)
    ensures PartitionKey(r1) == PartitionKey(r2) <==>
      r1.bossId == r2.bossId && DayNumber(r1.timestamp) == DayNumber(r2.timestamp)
  {
    var d1, d2 := DateOf(r1.timestamp), DateOf(r2.timestamp);
    SameDate(r1.timestamp, r2.timestamp);
    if PartitionKey(r1) == PartitionKey(r2) {
      DateStrShape(d1);
      DateStrShape(d2);
      SplitAtLastColon(AbtPrefix + r1.bossId, DateStr(d1), AbtPrefix + r2.bossId, DateStr(d2));
      assert r1.bossId == (AbtPrefix + r1.bossId)[4..];
      assert r2.bossId == (AbtPrefix + r2.bossId)[4..];
      DateStrInjective(d1, d2);
    }
  }

  lemma KeyNamesBoss(bossId: string, ds: string, b: string, k: string)
    requires ':' !in bossId && ':' !in b
    requires k == AbtPrefix + bossId + ":" + ds
    requires HasPrefix(k, BossPrefix(b))
    ensures bossId == b
  {
    var tail := k[|BossPrefix(b)|..];
    assert k == AbtPrefix + (b + ":" + tail) by {
      assert k == k[..|BossPrefix(b)|] + tail;
    }
    assert k[4..] == bossId + ":" + ds;
    assert k[4..] == b + ":" + tail;
    ColonFreePrefixOf(bossId, ds);
    ColonFreePrefixOf(b, tail);
    assert bossId == (b + ":" + tail)[..|b|];
  }

  /**
   * For boss ids without a colon, a partition key carries the prefix
   * `abt:<b>:` exactly when the record belongs to boss `b`.
   */
  lemma BossPrefixIdentifiesBoss(r: Record, b: string)
    requires ':' !in r.bossId && ':' !in b
    ensures HasPrefix(PartitionKey(r), BossPrefix(b)) <==> r.bossId == b
  {
    var k := PartitionKey(r);
    if HasPrefix(k, BossPrefix(b)) {
      KeyNamesBoss(r.bossId, DateStr(DateOf(r.timestamp)), b, k);
    }
  }
}

/**
 * The retention policy of `purgeIfNeeded`: a boss keeps at most
 * `MaxPerBoss` records across all of its day partitions; beyond that the
 * records with the oldest `createdAt` are removed, by id.
 */
module Retention {
  import opened KillRecords
  import opened Sorting
  import opened Storage

  /** `MAX_PER_BOSS`. */
  const MaxPerBoss: nat := 3000

  /** `{ id, createdAt }`: what the purge gathers of each record. */
  datatype Stamp = Stamp(id: string, createdAt: int)

  /** `keys.filter(k => k.startsWith(p))`. */
  function WithPrefix(keys: seq<string>, p: string): (ks: seq<string>)
    ensures forall k :: k in ks <==> k in keys && HasPrefix(k, p)
    ensures Distinct(keys) ==> Distinct(ks)
  {
    if keys == [] then []
    else
      var init := WithPrefix(keys[..|keys| - 1], p);
      var k := keys[|keys| - 1];
      assert forall k' :: k' in keys <==> k' in keys[..|keys| - 1] || k' == k;
      assert Distinct(keys) ==> k !in keys[..|keys| - 1];
      if HasPrefix(k, p) then init + [k] else init
  }

  /** The partitions the purge scans for boss `b`: the `abt:` keys that start with `abt:<b>:`. */
  function BossKeys(db: Db, b: string): (ks: seq<string>)
    ensures forall k :: k in ks <==> k in db.keys && HasPrefix(k, BossPrefix(b))
    ensures Distinct(db.keys) ==> Distinct(ks)
  {
    assert forall k :: HasPrefix(k, BossPrefix(b)) ==> IsAbtKey(k) by {
      forall k | HasPrefix(k, BossPrefix(b)) ensures IsAbtKey(k) {
        assert k[..4] == BossPrefix(b)[..4];
      }
    }
    WithPrefix(AbtKeys(db.keys), BossPrefix(b))
  }

  /** `records.map(r => ({ id: r.id, createdAt: r.createdAt }))`. */
  function StampsOf(rs: seq<Record>): (ss: seq<Stamp>)
    ensures |ss| == |rs|
    ensures forall i :: 0 <= i < |rs| ==> ss[i] == Stamp(rs[i].id, rs[i].createdAt)
  {
    if rs == [] then []
    else StampsOf(rs[..|rs| - 1]) + [Stamp(rs[|rs| - 1].id, rs[|rs| - 1].createdAt)]
  }

  /** The stamps of the records of the partitions `ks`, partition by partition. */
  function Collect(db: Db, ks: seq<string>): seq<Stamp> {
    if ks == [] then [] else Collect(db, ks[..|ks| - 1]) + StampsOf(Read(db, ks[|ks| - 1]))
  }

  /** One more record gives one more stamp. */
  lemma StampsOfSnoc(rs: seq<Record>, j: nat)
    requires j < |rs|
    ensures StampsOf(rs[..j + 1]) == StampsOf(rs[..j]) + [Stamp(rs[j].id, rs[j].createdAt)]
  {
    assert rs[..j + 1][..j] == rs[..j];
  }

  /** One more partition gives the stamps of its records. */
  lemma CollectSnoc(db: Db, ks: seq<string>, i: nat)
    requires i < |ks|
    ensures Collect(db, ks[..i + 1]) == Collect(db, ks[..i]) + StampsOf(Read(db, ks[i]))
  {
    assert ks[..i + 1][..i] == ks[..i];
  }

  /** Every record of boss `b`, in scan order. */
  function BossStamps(db: Db, b: string): seq<Stamp> {
    Collect(db, BossKeys(db, b))
  }

  function BossCount(db: Db, b: string): nat {
    |BossStamps(db, b)|
  }

  function CreatedAt(s: Stamp): int {
    s.createdAt
  }

  function Ids(ss: seq<Stamp>): (ids: seq<string>)
    ensures |ids| == |ss|
    ensures forall i :: 0 <= i < |ss| ==> ids[i] == ss[i].id
  {
    seq(|ss|, i requires 0 <= i < |ss| => ss[i].id)
  }

  /** `toRemove`: the ids of the `count - MaxPerBoss` oldest records of boss `b`. */
  function OldestIds(db: Db, b: string): seq<string> {
    var all := BossStamps(db, b);
    if |all| <= MaxPerBoss then [] else Ids(SortBy(all, CreatedAt)[..|all| - MaxPerBoss])
  }

  /** `records.filter(r => !toRemove.includes(r.id))`. */
  function KeepUnlisted(rs: seq<Record>, ids: seq<string>): (kept: seq<Record>)
    ensures |kept| <= |rs|
    ensures forall r :: r in kept <==> r in rs && r.id !in ids
  {
    if rs == [] then []
    else
      var init := KeepUnlisted(rs[..|rs| - 1], ids);
      var r := rs[|rs| - 1];
      assert forall x :: x in rs <==> x in rs[..|rs| - 1] || x == r;
      if r.id in ids then init else init + [r]
  }

  /** `filter` keeps every key with the prefix as often as it occurs, and no other key. */
  lemma {:induction false} WithPrefixCount(keys: seq<string>, p: string)
    ensures forall k :: multiset(WithPrefix(keys, p))[k] == if HasPrefix(k, p) then multiset(keys)[k] else 0
  {
    if keys != [] {
      var init := keys[..|keys| - 1];
      WithPrefixCount(init, p);
      assert keys == init + [keys[|keys| - 1]];
    }
  }

  /** `filter` keeps every unlisted record as often as it occurs, and no listed one. */
  lemma {:induction false} KeepUnlistedCount(rs: seq<Record>, ids: seq<string>)
    ensures forall r :: multiset(KeepUnlisted(rs, ids))[r] == if r.id in ids then 0 else multiset(rs)[r]
  {
    if rs != [] {
      var init := rs[..|rs| - 1];
      KeepUnlistedCount(init, ids);
      assert rs == init + [rs[|rs| - 1]];
    }
  }

  /** `filter` keeps the order of the keys: filtering a concatenation concatenates the filtered parts. */
  lemma {:induction false} WithPrefixConcat(a: seq<string>, c: seq<string>, p: string)
    ensures WithPrefix(a + c, p) == WithPrefix(a, p) + WithPrefix(c, p)
    decreases |c|
  {
    if c == [] {
      assert a + c == a;
    } else {
      var c' := c[..|c| - 1];
      assert (a + c)[..|a + c| - 1] == a + c';
      WithPrefixConcat(a, c', p);
    }
  }

  /** `filter` keeps the order of the records: filtering a concatenation concatenates the filtered parts. */
  lemma {:induction false} KeepUnlistedConcat(a: seq<Record>, c: seq<Record>, ids: seq<string>)
    ensures KeepUnlisted(a + c, ids) == KeepUnlisted(a, ids) + KeepUnlisted(c, ids)
    decreases |c|
  {
    if c == [] {
      assert a + c == a;
    } else {
      var c' := c[..|c| - 1];
      assert (a + c)[..|a + c| - 1] == a + c';
      KeepUnlistedConcat(a, c', ids);
    }
  }

  /**
   * `purgeIfNeeded(b)`. At or below the cap nothing is written. Above it,
   * each partition of `b` loses the records whose id is among the oldest
   * ones and is written back only when it lost something.
   */
  function PurgeSpec(db: Db, b: string): Db {
    if BossCount(db, b) <= MaxPerBoss then db
    else DropListed(db, BossKeys(db, b), OldestIds(db, b))
  }

  /**
   * Each partition of `ks` without the records listed in `ids`, written
   * back only when it lost something.
   */
  function DropListed(db: Db, ks: seq<string>, ids: seq<string>): Db {
    Db(db.keys, map k | k in db.slots ::
      if k in ks && |KeepUnlisted(Read(db, k), ids)| != |Read(db, k)|
      then Payload(KeepUnlisted(Read(db, k), ids))
      else db.slots[k])
  }

  /** Filtering no partition changes nothing. */
  lemma DropListedNothing(db: Db, ids: seq<string>)
    ensures DropListed(db, [], ids) == db
  {
    assert DropListed(db, [], ids).slots == db.slots;
  }

  /** Filtering one more partition is one more write, or none. */
  lemma DropListedStep(db: Db, ks: seq<string>, i: nat, ids: seq<string>)
    requires Distinct(ks) && i < |ks|
    ensures Read(DropListed(db, ks[..i], ids), ks[i]) == Read(db, ks[i])
    ensures var k := ks[i];
      var kept := KeepUnlisted(Read(db, k), ids);
      DropListed(db, ks[..i + 1], ids) ==
        if |kept| != |Read(db, k)| then Put(DropListed(db, ks[..i], ids), k, kept)
        else DropListed(db, ks[..i], ids)
  {
    var k := ks[i];
    var kept := KeepUnlisted(Read(db, k), ids);
    var prev := DropListed(db, ks[..i], ids);
    var next := DropListed(db, ks[..i + 1], ids);
    assert k !in ks[..i];
    assert Read(prev, k) == Read(db, k) by {
      if k in db.slots {
        assert prev.slots[k] == db.slots[k];
      }
    }
    assert ks[..i + 1] == ks[..i] + [k];
    if |kept| != |Read(db, k)| {
      assert k in db.slots;
      DropListedPut(db, ks[..i], k, kept, ids);
    } else {
      assert next.slots == prev.slots;
    }
  }

  /** The write of one more partition `k`, which lost records, is the filtering of `ks + [k]`. */
  lemma DropListedPut(db: Db, ks: seq<string>, k: string, kept: seq<Record>, ids: seq<string>)
    requires k in db.slots && k !in ks
    requires kept == KeepUnlisted(Read(db, k), ids) && |kept| != |Read(db, k)|
    ensures DropListed(db, ks + [k], ids) == Put(DropListed(db, ks, ids), k, kept)
  {
    var prev := DropListed(db, ks, ids);
    var next := DropListed(db, ks + [k], ids);
    var put := Put(prev, k, kept);
    assert put.keys == next.keys;
    assert put.slots.Keys == next.slots.Keys;
    forall k' | k' in next.slots
      ensures put.slots[k'] == next.slots[k']
    {
      if k' == k {
        assert next.slots[k'] == Payload(kept);
      } else {
        assert k' in ks + [k] <==> k' in ks;
        assert put.slots[k'] == prev.slots[k'];
      }
    }
    assert put.slots == next.slots;
  }

  lemma {:induction false} KeepAllWhenSameLength(rs: seq<Record>, ids: seq<string>)
    requires |KeepUnlisted(rs, ids)| == |rs|
    ensures KeepUnlisted(rs, ids) == rs
  {
    if rs != [] {
      var init, r := rs[..|rs| - 1], rs[|rs| - 1];
      assert KeepUnlisted(rs, ids) == if r.id in ids then KeepUnlisted(init, ids) else KeepUnlisted(init, ids) + [r];
      assert r.id !in ids;
      KeepAllWhenSameLength(init, ids);
      assert rs == init + [r];
    }
  }

  /**
   * The purge writes no key outside `abt:<b>:`, keeps the key order, and
   * leaves the store untouched when `b` is at or below the cap; above it,
   * every partition of `b` reads as its records minus those with an id in
   * `OldestIds`.
   */
  lemma PurgeFrame(db: Db, b: string)
    requires Wellformed(db)
    ensures var db' := PurgeSpec(db, b);
      && Wellformed(db')
      && db'.keys == db.keys && db'.slots.Keys == db.slots.Keys
      && (forall k :: k in db.slots && !HasPrefix(k, BossPrefix(b)) ==> db'.slots[k] == db.slots[k])
      && (BossCount(db, b) <= MaxPerBoss ==> db' == db)
      && (forall k :: k in BossKeys(db, b) ==> Read(db', k) == KeepUnlisted(Read(db, k), OldestIds(db, b)))
  {
    var db' := PurgeSpec(db, b);
    var ids := OldestIds(db, b);
    forall k | k in BossKeys(db, b)
      ensures Read(db', k) == KeepUnlisted(Read(db, k), ids)
    {
      if BossCount(db, b) <= MaxPerBoss {
        assert ids == [];
        assert |KeepUnlisted(Read(db, k), ids)| == |Read(db, k)| by {
          assert forall r :: r in Read(db, k) ==> r in KeepUnlisted(Read(db, k), ids);
          KeepAllOfUnlisted(Read(db, k), ids);
        }
      }
      if |KeepUnlisted(Read(db, k), ids)| == |Read(db, k)| {
        KeepAllWhenSameLength(Read(db, k), ids);
      }
    }
  }

  lemma {:induction false} KeepAllOfUnlisted(rs: seq<Record>, ids: seq<string>)
    requires forall r :: r in rs ==> r.id !in ids
    ensures KeepUnlisted(rs, ids) == rs
  {
    if rs != [] {
      KeepAllOfUnlisted(rs[..|rs| - 1], ids);
      assert rs == rs[..|rs| - 1] + [rs[|rs| - 1]];
    }
  }

  /**
   * Above the cap the purge picks exactly `count - MaxPerBoss` ids, those of
   * the first records in `createdAt` order: none of them is younger than any
   * record that stays.
   */
  lemma PurgeRemovesOldest(db: Db, b: string)
    requires BossCount(db, b) > MaxPerBoss
    ensures |OldestIds(db, b)| == BossCount(db, b) - MaxPerBoss
    ensures var all := BossStamps(db, b);
      var ids := OldestIds(db, b);
      forall j, x :: 0 <= j < |all| && all[j].id !in ids && x in ids ==>
        exists i :: 0 <= i < |all| && all[i].id == x && all[i].createdAt <= all[j].createdAt
  {
    var all := BossStamps(db, b);
    var ids := OldestIds(db, b);
    SortedOldest(db, b);
    forall j, x | 0 <= j < |all| && all[j].id !in ids && x in ids
      ensures exists i :: 0 <= i < |all| && all[i].id == x && all[i].createdAt <= all[j].createdAt
    {
      OlderChosen(all, SortBy(all, CreatedAt), |all| - MaxPerBoss, j, x);
    }
  }

  /** A stamp that stays is no older than some stamp carrying any chosen id. */
  lemma OlderChosen(all: seq<Stamp>, sorted: seq<Stamp>, m: nat, j: nat, x: string)
    requires multiset(sorted) == multiset(all) && m <= |sorted|
    requires forall i, k :: 0 <= i < m <= k < |sorted| ==> sorted[i].createdAt <= sorted[k].createdAt
    requires j < |all| && all[j].id !in Ids(sorted[..m]) && x in Ids(sorted[..m])
    ensures exists i :: 0 <= i < |all| && all[i].id == x && all[i].createdAt <= all[j].createdAt
  {
    var ids := Ids(sorted[..m]);
    var k :| 0 <= k < m && ids[k] == x;
    assert sorted[k] in multiset(all) by {
      assert sorted[k] in multiset(sorted);
    }
    var i :| 0 <= i < |all| && all[i] == sorted[k];
    assert all[j] in multiset(sorted) by {
      assert all[j] in multiset(all);
    }
    var p :| 0 <= p < |sorted| && sorted[p] == all[j];
    assert p >= m by {
      assert forall q :: 0 <= q < m ==> ids[q] == sorted[q].id;
    }
    assert all[i].createdAt <= all[j].createdAt;
  }

  /** Sorting puts the stamps whose ids are chosen first. */
  lemma SortedOldest(db: Db, b: string)
    requires BossCount(db, b) > MaxPerBoss
    ensures var all := BossStamps(db, b);
      var sorted := SortBy(all, CreatedAt);
      var m := |all| - MaxPerBoss;
      && multiset(sorted) == multiset(all)
      && |OldestIds(db, b)| == m
      && OldestIds(db, b) == Ids(sorted[..m])
      && forall i, j :: 0 <= i < m <= j < |sorted| ==> sorted[i].createdAt <= sorted[j].createdAt
  {
  }

  // ---- counting what is left ----

  /** The stamps whose id is not listed. */
  function KeepStamps(ss: seq<Stamp>, ids: seq<string>): seq<Stamp> {
    if ss == [] then []
    else
      var init := KeepStamps(ss[..|ss| - 1], ids);
      if ss[|ss| - 1].id in ids then init else init + [ss[|ss| - 1]]
  }

  lemma {:induction false} KeepStampsConcat(a: seq<Stamp>, c: seq<Stamp>, ids: seq<string>)
    ensures KeepStamps(a + c, ids) == KeepStamps(a, ids) + KeepStamps(c, ids)
    decreases |c|
  {
    if c != [] {
      var c' := c[..|c| - 1];
      assert (a + c)[..|a + c| - 1] == a + c';
      KeepStampsConcat(a, c', ids);
    } else {
      assert a + c == a;
    }
  }

  lemma {:induction false} StampsOfKept(rs: seq<Record>, ids: seq<string>)
    ensures StampsOf(KeepUnlisted(rs, ids)) == KeepStamps(StampsOf(rs), ids)
  {
    if rs != [] {
      var init := rs[..|rs| - 1];
      StampsOfKept(init, ids);
      assert StampsOf(rs)[..|rs| - 1] == StampsOf(init);
      var kept := KeepUnlisted(init, ids);
      if rs[|rs| - 1].id !in ids {
        assert (kept + [rs[|rs| - 1]])[..|kept|] == kept;
      }
    }
  }

  lemma {:induction false} CollectKept(db: Db, db': Db, ks: seq<string>, ids: seq<string>)
    requires forall k :: k in ks ==> Read(db', k) == KeepUnlisted(Read(db, k), ids)
    ensures Collect(db', ks) == KeepStamps(Collect(db, ks), ids)
  {
    if ks != [] {
      var init := ks[..|ks| - 1];
      var k := ks[|ks| - 1];
      CollectKept(db, db', init, ids);
      StampsOfKept(Read(db, k), ids);
      KeepStampsConcat(Collect(db, init), StampsOf(Read(db, k)), ids);
    }
  }

  lemma RepeatCount<T>(s: seq<T>, i: nat, j: nat)
    requires i < j < |s| && s[i] == s[j]
    ensures multiset(s)[s[i]] >= 2
  {
    var a, c := s[..j], s[j..];
    assert s == a + c;
    assert s[i] in a && s[j] in c;
    assert multiset(s)[s[i]] == multiset(a)[s[i]] + multiset(c)[s[i]];
  }

  lemma {:induction false} DistinctByCount<T>(s: seq<T>)
    ensures Distinct(s) <==> forall x :: multiset(s)[x] <= 1
  {
    if s != [] {
      var init := s[..|s| - 1];
      var x := s[|s| - 1];
      DistinctByCount(init);
      assert s == init + [x];
      if Distinct(s) {
        assert Distinct(init) by {
          assert forall i, j :: 0 <= i < j < |init| ==> init[i] == s[i] && init[j] == s[j];
        }
        assert x !in init by {
          assert forall i :: 0 <= i < |init| ==> init[i] == s[i];
        }
      } else {
        var i, j :| 0 <= i < j < |s| && s[i] == s[j];
        RepeatCount(s, i, j);
      }
    }
  }

  lemma {:induction false} DistinctCard<T>(s: seq<T>)
    requires Distinct(s)
    ensures |set x | x in s| == |s|
  {
    if s != [] {
      var init := s[..|s| - 1];
      var x := s[|s| - 1];
      assert Distinct(init) by {
        assert forall i :: 0 <= i < |init| ==> init[i] == s[i];
      }
      DistinctCard(init);
      assert x !in init by {
        assert forall i :: 0 <= i < |init| ==> init[i] == s[i];
      }
      assert (set y | y in s) == (set y | y in init) + {x};
    }
  }

  lemma RemoveAtCount<T>(t: seq<T>, p: nat)
    requires p < |t|
    ensures multiset(t[..p] + t[p + 1..]) + multiset{t[p]} == multiset(t)
  {
    assert t == t[..p] + [t[p]] + t[p + 1..];
  }

  lemma IdsRemoveAt(t: seq<Stamp>, p: nat)
    requires p < |t|
    ensures multiset(Ids(t[..p] + t[p + 1..])) + multiset{t[p].id} == multiset(Ids(t))
  {
    var t' := t[..p] + t[p + 1..];
    var u := Ids(t);
    assert Ids(t') == u[..p] + u[p + 1..] by {
      forall i | 0 <= i < |t'| ensures Ids(t')[i] == (u[..p] + u[p + 1..])[i] {
        if i < p {
          assert t'[i] == t[i];
        } else {
          assert t'[i] == t[i + 1];
        }
      }
    }
    RemoveAtCount(u, p);
    assert u[p] == t[p].id;
  }

  lemma CancelOne<T>(a: multiset<T>, c: multiset<T>, x: T)
    requires a + multiset{x} == c + multiset{x}
    ensures a == c
  {
    forall y ensures a[y] == c[y] {
      assert (a + multiset{x})[y] == (c + multiset{x})[y];
    }
  }

  /** Reordering the stamps reorders their ids. */
  lemma {:induction false} IdsPermutation(s: seq<Stamp>, t: seq<Stamp>)
    requires multiset(s) == multiset(t)
    ensures multiset(Ids(s)) == multiset(Ids(t))
    decreases |s|
  {
    if s == [] {
      assert |t| == |multiset(t)| == 0;
    } else {
      var init := s[..|s| - 1];
      var x := s[|s| - 1];
      assert s == init + [x];
      assert x in multiset(t);
      var p :| 0 <= p < |t| && t[p] == x;
      var t' := t[..p] + t[p + 1..];
      RemoveAtCount(t, p);
      CancelOne(multiset(t'), multiset(init), x);
      IdsPermutation(init, t');
      IdsRemoveAt(t, p);
      assert Ids(s) == Ids(init) + [x.id];
      calc {
        multiset(Ids(s));
        multiset(Ids(init)) + multiset{x.id};
        multiset(Ids(t')) + multiset{x.id};
        multiset(Ids(t));
      }
    }
  }

  lemma {:induction false} KeptCount(ss: seq<Stamp>, ids: seq<string>, gone: set<string>)
    requires Distinct(Ids(ss))
    requires forall i :: 0 <= i < |ss| ==> (ss[i].id in ids <==> ss[i].id in gone)
    requires forall x :: x in gone ==> x in Ids(ss)
    ensures |KeepStamps(ss, ids)| == |ss| - |gone|
  {
    if ss == [] {
      assert gone == {};
    } else {
      var init := ss[..|ss| - 1];
      var x := ss[|ss| - 1];
      assert Ids(init) == Ids(ss)[..|ss| - 1];
      assert Distinct(Ids(init));
      assert x.id !in Ids(init) by {
        assert forall i :: 0 <= i < |init| ==> Ids(ss)[i] == Ids(init)[i];
      }
      assert forall y :: y in Ids(ss) <==> y in Ids(init) || y == x.id by {
        assert Ids(ss) == Ids(init) + [x.id];
      }
      if x.id in ids {
        var gone' := gone - {x.id};
        forall i | 0 <= i < |init| ensures init[i].id in ids <==> init[i].id in gone' {
          assert init[i] == ss[i];
          assert init[i].id in Ids(init);
        }
        KeptCount(init, ids, gone');
      } else {
        forall i | 0 <= i < |init| ensures init[i].id in ids <==> init[i].id in gone {
          assert init[i] == ss[i];
        }
        KeptCount(init, ids, gone);
      }
    }
  }

  /** The ids `OldestIds` chooses are distinct ids of records of boss `b`. */
  lemma OldestIdsAreBossIds(db: Db, b: string)
    requires Distinct(Ids(BossStamps(db, b)))
    requires BossCount(db, b) > MaxPerBoss
    ensures Distinct(OldestIds(db, b))
    ensures forall x :: x in OldestIds(db, b) ==> x in Ids(BossStamps(db, b))
  {
    var all := BossStamps(db, b);
    var sorted := SortBy(all, CreatedAt);
    var m := |all| - MaxPerBoss;
    var ids := OldestIds(db, b);
    IdsPermutation(sorted, all);
    DistinctByCount(Ids(all));
    DistinctByCount(Ids(sorted));
    assert ids == Ids(sorted)[..m];
    forall x | x in ids ensures x in Ids(all) {
      assert x in multiset(Ids(sorted));
    }
  }

  /**
   * When the ids of boss `b` are unique and `b` is over the cap, the purge
   * leaves it exactly `MaxPerBoss` records.
   */
  lemma PurgeLeavesCap(db: Db, b: string)
    requires Wellformed(db)
    requires Distinct(Ids(BossStamps(db, b)))
    requires BossCount(db, b) > MaxPerBoss
    ensures BossCount(PurgeSpec(db, b), b) == MaxPerBoss
  {
    var all := BossStamps(db, b);
    var ids := OldestIds(db, b);
    PurgedStamps(db, b);
    var gone := set x | x in ids;
    OldestIdsAreBossIds(db, b);
    assert |gone| == |ids| by {
      DistinctCard(ids);
    }
    assert |ids| == |all| - MaxPerBoss by {
      PurgeRemovesOldest(db, b);
    }
    KeptCount(all, ids, gone);
  }

  /** Above the cap, what boss `b` keeps is its stamps without the chosen ids, in scan order. */
  lemma PurgedStamps(db: Db, b: string)
    requires Wellformed(db)
    requires BossCount(db, b) > MaxPerBoss
    ensures BossStamps(PurgeSpec(db, b), b) == KeepStamps(BossStamps(db, b), OldestIds(db, b))
  {
    var db' := PurgeSpec(db, b);
    var ks := BossKeys(db, b);
    PurgeFrame(db, b);
    assert BossKeys(db', b) == ks;
    CollectKept(db, db', ks, OldestIds(db, b));
  }

  lemma {:induction false} KeepStampsShorter(ss: seq<Stamp>, ids: seq<string>)
    ensures |KeepStamps(ss, ids)| <= |ss|
  {
    if ss != [] {
      KeepStampsShorter(ss[..|ss| - 1], ids);
    }
  }

  lemma {:induction false} KeepNoneListed(ss: seq<Stamp>, ids: seq<string>)
    requires forall i :: 0 <= i < |ss| ==> ss[i].id in ids
    ensures KeepStamps(ss, ids) == []
  {
    if ss != [] {
      KeepNoneListed(ss[..|ss| - 1], ids);
    }
  }

  /** How many stamps survive the filter does not depend on their order. */
  lemma {:induction false} KeepStampsPermutation(s: seq<Stamp>, t: seq<Stamp>, ids: seq<string>)
    requires multiset(s) == multiset(t)
    ensures |KeepStamps(s, ids)| == |KeepStamps(t, ids)|
    decreases |s|
  {
    if s == [] {
      assert |t| == |multiset(t)| == 0;
    } else {
      var init := s[..|s| - 1];
      var x := s[|s| - 1];
      assert s == init + [x];
      assert x in multiset(t);
      var p :| 0 <= p < |t| && t[p] == x;
      var t' := t[..p] + t[p + 1..];
      RemoveAtCount(t, p);
      CancelOne(multiset(t'), multiset(init), x);
      KeepStampsPermutation(init, t', ids);
      assert t == t[..p] + ([x] + t[p + 1..]);
      KeepStampsConcat(t[..p], [x] + t[p + 1..], ids);
      KeepStampsConcat([x], t[p + 1..], ids);
      KeepStampsConcat(t[..p], t[p + 1..], ids);
      KeepStampsConcat(init, [x], ids);
    }
  }

  /**
   * Whatever its ids, boss `b` has at most `MaxPerBoss` records after the
   * purge: every one of the oldest stamps has its id listed, so only stamps
   * among the youngest `MaxPerBoss` can survive the filter.
   */
  lemma PurgeCapsBoss(db: Db, b: string)
    requires Wellformed(db)
    ensures BossCount(PurgeSpec(db, b), b) <= MaxPerBoss
  {
    if BossCount(db, b) > MaxPerBoss {
      var all := BossStamps(db, b);
      var sorted := SortBy(all, CreatedAt);
      var m := |all| - MaxPerBoss;
      assert OldestIds(db, b) == Ids(sorted[..m]);
      assert BossCount(PurgeSpec(db, b), b) == |KeepStamps(all, Ids(sorted[..m]))| by {
        PurgedStamps(db, b);
      }
      assert |KeepStamps(all, Ids(sorted[..m]))| <= MaxPerBoss by {
        KeepOutsideOldest(all, sorted, m);
      }
    }
  }

  /** Filtering out the ids of the first `m` stamps of a reordering leaves at most the other stamps. */
  lemma KeepOutsideOldest(all: seq<Stamp>, sorted: seq<Stamp>, m: nat)
    requires multiset(sorted) == multiset(all) && m <= |sorted|
    ensures |KeepStamps(all, Ids(sorted[..m]))| <= |sorted| - m
  {
    var ids := Ids(sorted[..m]);
    KeepStampsPermutation(all, sorted, ids);
    assert sorted == sorted[..m] + sorted[m..];
    KeepStampsConcat(sorted[..m], sorted[m..], ids);
    KeepNoneListed(sorted[..m], ids);
    KeepStampsShorter(sorted[m..], ids);
  }
}

/**
 * `computeRespawnForRecord`: when a boss is expected back, from the kill
 * time of a record and the respawn rule of its boss. Instants are integer
 * milliseconds of local wall-clock time; what the page shows is the local
 * time of day of the instants computed here.
 */
module Respawn {
  import opened Wrappers
  import opened Calendar
  import opened KillRecords

  /** A respawn rule, by its `type`. */
  datatype Rule =
    | FixedMinutes(minutes: int)
    | RangeMinutes(min: int, max: int)
    | HourlyOffset(minute: int)
    | OtherType(name: string)

  /** `RESP_RULES`. */
  const RespRules: map<string, Rule> := map[
    "BossA" := FixedMinutes(60),
    "BossB" := RangeMinutes(45, 60),
    "BossC" := HourlyOffset(15)
  ]

  /** What the respawn column shows: no rule, one instant, a window, or no computable time. */
  datatype Respawn =
    | NoRule
    | At(time: int)
    | Window(earliest: int, latest: int)
    | Unsupported

  /** The instant at the top of the hour containing `t`. */
  function HourStart(t: int): (h: int)
    ensures h <= t < h + MsPerHour
    ensures h % MsPerHour == 0
  {
    t - t % MsPerHour
  }

  /** The minute of the hour at `t`, as `getMinutes()` reads it. */
  function MinuteOfHour(t: int): (m: int)
    ensures 0 <= m < 60
  {
    (t % MsPerHour) / MsPerMinute
  }

  /**
   * The hourly rule: seconds and milliseconds cleared, the minute set to
   * `offset`, and one hour added when that is not after the kill time `t`.
   */
  function NextAtMinute(t: int, offset: int): (next: int)
    ensures 0 <= offset < 60 ==> t < next <= t + MsPerHour
  {
    var next := HourStart(t) + offset * MsPerMinute;
    if next <= t then next + MsPerHour else next
  }

  /** The respawn for a kill at `t` under `rule` (`None` when the boss has no rule). */
  function Compute(rule: Option<Rule>, t: int): (r: Respawn)
    ensures r == NoRule <==> rule.None?
    ensures r == Unsupported <==> rule.Some? && rule.value.OtherType?
    ensures r.Window? <==> rule.Some? && rule.value.RangeMinutes?
    ensures r.Window? ==> r.earliest == t + rule.value.min * MsPerMinute && r.latest == t + rule.value.max * MsPerMinute
    ensures r.Window? && rule.value.min <= rule.value.max ==> r.earliest <= r.latest
    ensures r.At? && rule.value.FixedMinutes? ==> r.time == t + rule.value.minutes * MsPerMinute
    ensures r.At? && rule.value.HourlyOffset? && 0 <= rule.value.minute < 60 ==> t < r.time <= t + MsPerHour
  {
    match rule
    case None => NoRule
    case Some(FixedMinutes(m)) => At(t + m * MsPerMinute)
    case Some(RangeMinutes(lo, hi)) => Window(t + lo * MsPerMinute, t + hi * MsPerMinute)
    case Some(HourlyOffset(offset)) => At(NextAtMinute(t, offset))
    case Some(OtherType(_)) => Unsupported
  }

  /** `computeRespawnForRecord(rec)`. */
  function ComputeRespawnForRecord(rec: Record): (r: Respawn)
    ensures r == NoRule <==> rec.bossId !in RespRules
    ensures r != Unsupported
  {
    Compute(if rec.bossId in RespRules then Some(RespRules[rec.bossId]) else None, rec.timestamp)
  }

  /**
   * The hourly rule with an offset inside the hour gives the first instant
   * strictly after `t` whose minute of the hour is `offset` and whose
   * seconds are zero: it is at most one hour after `t`.
   */
  lemma HourlyIsNextOccurrence(t: int, offset: int)
    requires 0 <= offset < 60
    ensures var next := NextAtMinute(t, offset);
      && next % MsPerHour == offset * MsPerMinute
      && MinuteOfHour(next) == offset
      && t < next <= t + MsPerHour
      && (forall m :: t < m < next ==> m % MsPerHour != offset * MsPerMinute)
  {
    var q := t / MsPerHour;
    var h := q * MsPerHour;
    assert HourStart(t) == h;
    var next := NextAtMinute(t, offset);
    var c := offset * MsPerMinute;
    WithinHour(h + c, q);
    WithinHour(h + c + MsPerHour, q + 1);
    forall m | t < m < next
      ensures m % MsPerHour != c
    {
      if m < h + MsPerHour {
        WithinHour(m, q);
      } else {
        WithinHour(m, q + 1);
      }
    }
  }

  /** An instant inside hour number `q` lies `m - q * MsPerHour` into that hour. */
  lemma WithinHour(m: int, q: int)
    requires q * MsPerHour <= m < q * MsPerHour + MsPerHour
    ensures m % MsPerHour == m - q * MsPerHour
  {
  }

  /**
   * The hour rolls over exactly when the kill's minute of the hour has
   * reached the offset: a kill at 10:15:30 under offset 15 gives 11:15.
   */
  lemma HourlyRollsOverIffPastOffset(t: int, offset: int)
    requires 0 <= offset < 60
    ensures NextAtMinute(t, offset) == HourStart(t) + offset * MsPerMinute + MsPerHour
        <==> MinuteOfHour(t) >= offset
    ensures NextAtMinute(t, offset) == HourStart(t) + offset * MsPerMinute
        <==> MinuteOfHour(t) < offset
  {
    var r := t % MsPerHour;
    assert offset * MsPerMinute <= r <==> offset <= r / MsPerMinute;
  }

  /** The rule table: BossA, BossB and BossC, one rule of each kind. */
  lemma RuleTableRespawns(rec: Record)
    ensures rec.bossId == "BossA" ==> ComputeRespawnForRecord(rec) == At(rec.timestamp + 60 * MsPerMinute)
    ensures rec.bossId == "BossB" ==>
      ComputeRespawnForRecord(rec) == Window(rec.timestamp + 45 * MsPerMinute, rec.timestamp + 60 * MsPerMinute)
    ensures rec.bossId == "BossC" ==>
      var r := ComputeRespawnForRecord(rec);
      r.At? && MinuteOfHour(r.time) == 15 && rec.timestamp < r.time <= rec.timestamp + MsPerHour
  {
    if rec.bossId == "BossC" {
      HourlyIsNextOccurrence(rec.timestamp, 15);
    }
  }

  /** A BossC kill at 10:20 on some day respawns at 11:15; one at 10:05 at 10:15. */
  lemma HourlyExamples(day: int)
    ensures NextAtMinute(day * MsPerDay + 10 * MsPerHour + 20 * MsPerMinute, 15)
         == day * MsPerDay + 11 * MsPerHour + 15 * MsPerMinute
    ensures NextAtMinute(day * MsPerDay + 10 * MsPerHour + 5 * MsPerMinute, 15)
         == day * MsPerDay + 10 * MsPerHour + 15 * MsPerMinute
  {
    var base := day * MsPerDay + 10 * MsPerHour;
    assert base == (day * 24 + 10) * MsPerHour;
    assert (base + 20 * MsPerMinute) % MsPerHour == 20 * MsPerMinute;
    assert (base + 5 * MsPerMinute) % MsPerHour == 5 * MsPerMinute;
  }
}

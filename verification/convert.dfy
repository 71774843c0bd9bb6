/**
 * The fill loop of the boss-data converter: every boss entry that lacks
 * `minMinutes` or `maxMinutes` and has a respawn text that parses gets both
 * filled in place; `changed` records whether anything was filled. Reading
 * and writing the data file are not part of this model.
 *
 * The loop is written over any parser of respawn texts; `FillBossData`
 * runs it with `parseChineseRange`.
 */
module ConvertBosses {
  import opened Wrappers
  import opened RangeParser

  /**
   * One entry of the boss data. A `respawn` that is absent or not a string
   * is `None`; a `minMinutes`/`maxMinutes` that is `null` or absent is `None`.
   */
  datatype BossEntry = BossEntry(
    name: string,
    respawn: Option<string>,
    minMinutes: Option<int>,
    maxMinutes: Option<int>)

  /** A parser of respawn texts; `None` as input is a value that is not a string. */
  type Parser = Option<string> -> Option<MinuteRange>

  /** The guard of the loop body together with a successful parse. */
  predicate Updates(e: BossEntry, parse: Parser) {
    && (e.minMinutes.None? || e.maxMinutes.None?)
    && e.respawn.Some? && e.respawn.value != ""
    && parse(e.respawn).Some?
  }

  /** An entry after the loop body has seen it. */
  function Filled(e: BossEntry, parse: Parser): BossEntry {
    if Updates(e, parse) then
      var r := parse(e.respawn).value;
      e.(minMinutes := Some(r.min), maxMinutes := Some(r.max))
    else e
  }

  /**
   * Only the entries the guard admits and whose text parses change, and
   * they get both bounds of the parsed range; name and text stay.
   */
  lemma FilledEffect(e: BossEntry, parse: Parser)
    ensures Filled(e, parse).name == e.name && Filled(e, parse).respawn == e.respawn
    ensures !Updates(e, parse) ==> Filled(e, parse) == e
    ensures Updates(e, parse) ==> Filled(e, parse) != e
    ensures Updates(e, parse) ==> var r := parse(e.respawn).value;
      Filled(e, parse).minMinutes == Some(r.min) && Filled(e, parse).maxMinutes == Some(r.max)
  {
  }

  /** Running the converter a second time changes nothing. */
  lemma FillIsIdempotent(e: BossEntry, parse: Parser)
    ensures !Updates(Filled(e, parse), parse)
    ensures Filled(Filled(e, parse), parse) == Filled(e, parse)
  {
  }

  /** The body of the loop on one entry: the entry it leaves, and whether it set `changed`. */
  method FillEntry(b: BossEntry, parse: Parser) returns (e: BossEntry, updated: bool)
    ensures e == Filled(b, parse) && (updated <==> Updates(b, parse))
  {
    e, updated := b, false;
    if (b.minMinutes.None? || b.maxMinutes.None?) && b.respawn.Some? && b.respawn.value != "" {
      var parsed := parse(b.respawn);
      if parsed.Some? {
        e := b.(minMinutes := Some(parsed.value.min), maxMinutes := Some(parsed.value.max));
        updated := true;
      }
    }
  }

  /** `data.forEach(...)` with its `changed` flag. */
  method FillMissing(data: array<BossEntry>, parse: Parser) returns (changed: bool)
    modifies data
    ensures forall i :: 0 <= i < data.Length ==> data[i] == Filled(old(data[i]), parse)
    ensures changed <==> exists i :: 0 <= i < data.Length && Updates(old(data[i]), parse)
  {
    changed := false;
    var i := 0;
    while i < data.Length
      invariant 0 <= i <= data.Length
      invariant forall j :: 0 <= j < i ==> data[j] == Filled(old(data[j]), parse)
      invariant forall j :: i <= j < data.Length ==> data[j] == old(data[j])
      invariant changed <==> exists j :: 0 <= j < i && Updates(old(data[j]), parse)
    {
      var e, updated := FillEntry(data[i], parse);
      data[i] := e;
      changed := changed || updated;
      i := i + 1;
    }
  }

  /** The converter run on the boss data: the fill loop with `parseChineseRange`. */
  method FillBossData(data: array<BossEntry>) returns (changed: bool)
    modifies data
    ensures forall i :: 0 <= i < data.Length ==> data[i] == Filled(old(data[i]), ParseChineseRange)
    ensures changed <==> exists i :: 0 <= i < data.Length && Updates(old(data[i]), ParseChineseRange)
  {
    changed := FillMissing(data, ParseChineseRange);
  }

  /** A filled entry holds a range with its smaller bound first. */
  lemma FilledBoundsOrdered(e: BossEntry)
    requires Updates(e, ParseChineseRange)
    ensures Filled(e, ParseChineseRange).minMinutes.value <= Filled(e, ParseChineseRange).maxMinutes.value
  {
  }
}

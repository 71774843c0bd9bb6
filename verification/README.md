# Artale Boss Timer — kill-record store, respawn rules and boss-data converter

Artale Boss Timer is a single-page tool for logging boss kills. A player enters:

- the boss,
- the time of the kill,
- the channel (an integer from 1 to 3000),
- whether the boss dropped loot,
- a note.

The page keeps these kill records in the browser's local storage.

**Partitions.** Records are split into one partition per boss and calendar day. A partition's key is `abt:<bossId>:<YYYY-MM-DD>`, and its value holds a `records` list.

**Store operations.** Adding, updating, deleting and locating a record work on these partitions:

- An update that changes the boss or the day moves the record to the end of its new partition.
- After every add, a retention policy keeps at most 3000 records per boss. It removes the records with the oldest `createdAt`.
- A one-time migration moves the records of the legacy single key `abt_records_v1` into their partitions.

**Today's list.** The page shows today's records of a boss, newest first. For each record it shows the expected respawn, computed from the boss's rule:

- a fixed delay,
- a window of delays,
- or the next time the clock shows a given minute of the hour.

**Converter.** A command-line converter fills in the `minMinutes`/`maxMinutes` of boss entries. It parses respawn texts written in Chinese, such as `3小時30分~4小時` (3 h 30 min to 4 h).

This project models that core in Dafny:

- **Storage model.** Local storage is a map from keys to raw values, plus the insertion order of its keys. A value is either `Payload`, text that parses to an object with a `records` array, or `Malformed`, any other value.
- **Specification functions.** Each store operation is a function of the storage before the call, in `Operations` and `Retention`. Lemmas state what each operation promises.
- **The `KillStore` class.** It holds the storage as mutable fields. Its methods (the page's functions) are proved to have exactly the effect of those functions.
- **Respawn rules.** `Respawn` models the respawn computation.
- **Converter.** `RangeParser` models the converter's parser, including the JavaScript `trim` and the three regular expressions it uses. `ConvertBosses` models the fill loop over an array of entries.

Timestamps are integers: milliseconds of local wall-clock time. The calendar date of a timestamp comes from a proleptic Gregorian day count (module `Calendar`). This is what `getFullYear`/`getMonth`/`getDate` read.

## Model

| member | source | states |
|---|---|---|
| KillRecords.KeyFor | public/app.js:14 | a key starts with `abt:` and with the boss prefix `abt:<bossId>:`, and what follows that prefix is the date string |
| KillRecords.PartitionKey | public/app.js:14-15 | the key of a record's partition starts with `abt:` and with the boss prefix `abt:<bossId>:`, and is never the legacy key |
| KillRecords.SamePartition | public/app.js:14-15 | two records share a partition key exactly when they have the same boss and their timestamps fall on the same calendar day |
| KillRecords.BossPrefixIdentifiesBoss | public/app.js:14 | for boss ids without `:`, a partition key starts with `abt:<b>:` exactly when the record belongs to boss `b`, so the purge prefix selects only that boss's partitions |
| KillRecords.Merge | public/app.js:26 | `Object.assign({}, old, changes, {updatedAt})`: each field the patch names takes the patched value, every other field keeps the old one, the id and `createdAt` never change, `updatedAt` becomes the clock reading |
| Calendar.DaysInMonth | public/app.js:15 | month lengths of the Gregorian calendar: 28 to 31 days, and 29 exactly for February of a leap year (every fourth year, except centuries not divisible by 400) |
| Calendar.CivilFromDays | public/app.js:15 | the year/month/day read from a day count is a date of the Gregorian calendar: a month from 1 to 12 and a day within that month's length |
| Calendar.EpochDate | public/app.js:15 | day 0 is 1970-01-01 |
| Calendar.LeapDayDate | public/app.js:15 | day 19782 is 2024-02-29 |
| Calendar.CenturyFebruaryDates | public/app.js:15 | in 1900, which is not leap, February 28 (day -25509) is followed by March 1 |
| Calendar.DateOf | public/app.js:15 | the local date of an instant is a Gregorian date whose day count is the instant's whole days since the epoch |
| Calendar.CivilRoundTrip | public/app.js:15 | converting a day count to a date and back gives the same day count |
| Calendar.SameDate | public/app.js:15 | two instants have the same calendar date exactly when they fall on the same day |
| Calendar.Pad2TwoDigits | public/app.js:15 | a month or day below 100 is padded to exactly two digits that read back as the number |
| Calendar.DateStr | public/app.js:15 | the date text is at least seven characters long, with dashes six and three characters from its end |
| Calendar.DateStrShape | public/app.js:15 | the date string is the year's `String`, a dash, the padded month, a dash and the padded day; it contains no `:` |
| Calendar.DateStrInjective | public/app.js:15 | distinct dates give distinct date strings, so different days never share a partition key |
| Storage.Read | public/app.js:17 | a missing key or a value that does not parse reads as an empty list; a payload reads as its records |
| Storage.Put | public/app.js:18 | after a write the key reads as the written list and every other key reads as before; a new key is added at the end of the key order |
| Storage.AbtKeys | public/app.js:20 | the listed keys are exactly the stored keys that start with `abt:`, without repeats |
| Storage.AbtKeysAppend | public/app.js:20 | the listing follows storage order: one more stored key adds itself at the end of the list when it starts with `abt:`, and nothing otherwise |
| Storage.FindIndex | public/app.js:22 | `findIndex` by id: the first index holding the id, or none when no record has it |
| Storage.Drop | public/app.js:34 | after `removeItem` the key is absent and every other key reads as before |
| Storage.Locate | public/app.js:22 | a found record sits at the found index of a stored `abt:` partition and has the id; nothing is found exactly when no stored `abt:` partition holds the id |
| Storage.LocateIn | public/app.js:22 | a found location names a partition of the scan, the first index of the id there and the record at it; none exactly when no partition holds the id |
| Storage.LocateInFirst | public/app.js:22 | when partition `p` holds the id and no earlier one does, the location found is in partition `p` |
| Storage.TotalAfterPut | public/app.js:18 | writing a list to a key changes the total number of records by the change in that key's length |
| Store.KillStore.constructor | public/app.js:17-18 | a store over well-formed storage is valid and shows that storage |
| Store.KillStore.RemoveItem | public/app.js:34 | `localStorage.removeItem`: the new storage is `Drop` of the old one |
| Store.KillStore.WriteRecordsForKey | public/app.js:18 | `writeRecordsForKey`: the new storage is `Put` of the old one |
| Store.KillStore.ListAbtKeys | public/app.js:20 | the loop over `localStorage.key(i)` returns exactly `AbtKeys` of the stored keys |
| Store.KillStore.FindRecordKeyById | public/app.js:22 | the loop over the `abt:` keys returns the location `LocateIn` describes: the first partition holding the id |
| Store.KillStore.AppendRecord | public/app.js:24 | pushing a record onto its partition and writing it back is `Append` |
| Store.KillStore.AddRecord | public/app.js:24 | `addRecord`: append, then purge the record's boss; the new storage is `AddSpec` of the old |
| Store.KillStore.UpdateRecord | public/app.js:26 | `updateRecord`: the result and the new storage are those of `UpdateSpec` |
| Store.KillStore.DeleteRecord | public/app.js:28 | `deleteRecord`: the new storage is `DeleteSpec` of the old |
| Store.KillStore.CollectStamps | public/app.js:30 | the nested loops gather `{id, createdAt}` of every record of the boss partitions, partition by partition |
| Store.KillStore.DropListedRecords | public/app.js:30 | the filtering loop writes back exactly the partitions that lost a record, without the listed ids |
| Store.KillStore.PurgeIfNeeded | public/app.js:30 | `purgeIfNeeded`: the new storage is `PurgeSpec` of the old |
| Store.KillStore.TodayRecordsForBoss | public/app.js:32 | today's partition of the boss, the same records (as a multiset), ordered newest timestamp first |
| Store.KillStore.MigrateFromSingleKey | public/app.js:34 | `migrateFromSingleKey`: the new storage is `MigrateSpec` of the old |
| Store.ParseChannel | public/app.js:126 | a channel is accepted exactly when `Number(input)` is a finite integer from 1 to 3000, and the accepted value is that number |
| Store.KillTime | public/app.js:126 | the submitted kill time is today's date at the entered time of day: same calendar date as the clock, `timeOfDay` after that day's midnight |
| Store.KillStore.SubmitKill | public/app.js:126 | a bad channel writes nothing; otherwise an edit updates the record (or reports it missing) with all five form fields and the trimmed note, and a new kill adds a record whose `createdAt` and `updatedAt` are the clock reading |
| Operations.AddRecordEffect | public/app.js:24 | adding keeps storage well-formed and writes nothing outside the boss's partitions; unless the boss goes over the cap the record ends up last in its partition, nothing else changes and the total grows by one; whatever its ids, the boss never keeps more than 3000 records afterwards |
| Operations.RemoveAt | public/app.js:28 | `splice(i, 1)`: one fewer record, those before `i` in place, those after shifted down by one |
| Operations.UpdateRecordEffect | public/app.js:26 | the update succeeds exactly when some partition holds the id; on failure nothing changes; on success the total is unchanged, the merged record replaces the old one in place when its key is unchanged, otherwise it leaves the old partition and goes last in the new one; no other key changes |
| Operations.DeleteRecordEffect | public/app.js:28 | an absent id changes nothing; otherwise exactly the located record leaves its partition, no other key changes and the total falls by one |
| Operations.MigrateAllPlaces | public/app.js:34 | after appending a list of records every key reads as before followed by the records of that list that belong to it, in order |
| Operations.MigrateEffect | public/app.js:34 | a missing or unparsable legacy value changes nothing; otherwise the legacy key is gone and every other key reads as before followed by its legacy records in order |
| Retention.WithPrefix | public/app.js:30 | `keys.filter(startsWith(p))`: exactly the keys with the prefix, without repeats when the keys have none |
| Retention.BossKeys | public/app.js:30 | the scanned partitions are exactly the stored keys that start with `abt:<b>:` |
| Retention.StampsOf | public/app.js:30 | one `{id, createdAt}` per record, in order |
| Retention.KeepUnlisted | public/app.js:30 | `filter(r => !toRemove.includes(r.id))`: keeps exactly the records whose id is not listed, never more than before |
| Retention.WithPrefixCount | public/app.js:30 | each key with the prefix is kept as many times as it occurs, and no other key is kept |
| Retention.WithPrefixConcat | public/app.js:30 | filtering keeps the order: the filter of a concatenation is the concatenation of the filters |
| Retention.KeepUnlistedCount | public/app.js:30 | each record whose id is not listed is kept as many times as it occurs, and no record with a listed id is kept |
| Retention.KeepUnlistedConcat | public/app.js:30 | filtering keeps the order: the filter of a concatenation is the concatenation of the filters |
| Retention.DropListedStep | public/app.js:30 | filtering one more partition either writes its filtered list, when it lost a record, or writes nothing |
| Retention.PurgeFrame | public/app.js:30 | the purge keeps storage well-formed and the key order; at or below the cap it changes nothing; it never touches a key outside the boss prefix; each boss partition reads as itself without the chosen ids |
| Retention.PurgeRemovesOldest | public/app.js:30 | above the cap exactly `count - 3000` ids are chosen, and each belongs to a record of the boss no younger than any record whose id is not chosen |
| Retention.OldestIdsAreBossIds | public/app.js:30 | with unique ids the chosen ids are distinct ids of the boss's own records |
| Retention.PurgeLeavesCap | public/app.js:5 | when a boss with unique ids is over the cap, the purge leaves it exactly `MAX_PER_BOSS` = 3000 records |
| Retention.PurgeCapsBoss | public/app.js:30 | whatever the ids, after the purge the boss has at most `MAX_PER_BOSS` = 3000 records, because every id among the oldest `count - 3000` stamps is listed |
| Sorting.SortBy | public/app.js:30 | `Array.prototype.sort` by a numeric key: the result is ordered by the key and is a permutation of the input |
| Respawn.HourStart | public/app.js:45 | `setSeconds(0,0)` and minute 0: the top of the hour at or before `t` |
| Respawn.NextAtMinute | public/app.js:45 | for an offset in 0..59 the hourly candidate is strictly after the kill and at most one hour after it |
| Respawn.Compute | public/app.js:45 | no rule gives "no rule", an unknown rule type gives "cannot compute", a range rule gives a window exactly, ordered when `min <= max`, a fixed rule gives kill time plus the minutes, an hourly rule gives a time within the next hour |
| Respawn.ComputeRespawnForRecord | public/app.js:45 | the respawn is "no rule" exactly when the boss has no entry in `RESP_RULES`, and never "cannot compute" for the bosses in the table |
| Respawn.HourlyIsNextOccurrence | public/app.js:45 | the hourly rule gives the first instant strictly after the kill whose minute of the hour is the offset, with zero seconds |
| Respawn.HourlyRollsOverIffPastOffset | public/app.js:45 | the hour is advanced exactly when the kill's position within the hour is at or past the offset minute |
| Respawn.RuleTableRespawns | public/app.js:8-12 | BossA respawns 60 minutes after the kill, BossB in the window 45..60 minutes after it, BossC at the next minute 15 within the hour after it |
| Respawn.HourlyExamples | public/app.js:45 | a BossC kill at 10:20 respawns at 11:15, one at 10:05 at 10:15 |
| JsText.LeadingSpaces | scripts/convert_bosses.js:22 | the length of the longest prefix of JavaScript white space |
| JsText.TrailingStart | scripts/convert_bosses.js:27 | where the longest suffix of JavaScript white space begins |
| JsText.Trim | scripts/convert_bosses.js:22-27 | `trim` never lengthens a text and leaves no white space at either end |
| JsText.TrimSurrounds | scripts/convert_bosses.js:22-27 | the text is white space, then its trim, then white space; the trim is empty exactly when the text is all white space |
| JsText.TrimCommutes | scripts/convert_bosses.js:22 | trimming the start and trimming the end can be done in either order |
| JsText.TrimStartTwice | scripts/convert_bosses.js:27 | trimming the start twice is trimming it once |
| JsText.TrimEndTwice | scripts/convert_bosses.js:27 | trimming the end twice is trimming it once |
| JsText.TrimNoEdges | scripts/convert_bosses.js:27 | a text that neither starts nor ends with white space is left as it is by trimming |
| RangeParser.Tildes | scripts/convert_bosses.js:24 | the number of `~` in a text is zero exactly when it has none |
| RangeParser.RemoveParens | scripts/convert_bosses.js:22 | `replace(/（\|）/g, '')`: no full-width parenthesis remains and the number of tildes is unchanged |
| RangeParser.Split | scripts/convert_bosses.js:24 | `split('~')` gives one more part than there are tildes, and no part contains a tilde |
| RangeParser.SplitAtTilde | scripts/convert_bosses.js:24-25 | a text with one tilde splits into exactly its two sides |
| RangeParser.FirstMatch | scripts/convert_bosses.js:29-30 | the group captured by `(\d+)\s*unit` is a non-empty string of ASCII digits; `FirstMatchIsLeftmost`, `FirstMatchNone` and `MatchAtMeaning` give which one |
| RangeParser.FirstMatchIsLeftmost | scripts/convert_bosses.js:29-30 | when position `p` starts a match and no earlier position does, the match found is the one at `p` |
| RangeParser.FirstMatchNone | scripts/convert_bosses.js:29-30 | no match is found exactly when no position starts one |
| RangeParser.MatchAtMeaning | scripts/convert_bosses.js:29-30 | for the units `小時` and `分` (any unit starting with neither a digit nor white space), the pattern `(\d+)\s*unit` matches at a position exactly when a non-empty digit run there is followed by white space (possibly none) and then the unit, and the captured group is the whole digit run |
| RangeParser.ToMinutes | scripts/convert_bosses.js:26-35 | a side containing neither `小` nor `分` counts 0 minutes |
| RangeParser.SpacedHourExample | scripts/convert_bosses.js:26-35 | `1 小時`, with a space before the unit, counts 60 minutes |
| RangeParser.PrefixedMinuteExample | scripts/convert_bosses.js:26-35 | `約45分`, with text before the number, counts 45 minutes |
| RangeParser.ToMinutesOfSpelled | scripts/convert_bosses.js:26-35 | a duration spelled `<h>小時<m>分` (either part optional) counts as `60*h + m` minutes |
| RangeParser.ParseChineseRange | scripts/convert_bosses.js:19-40 | a non-string or empty input gives null; any other text gives a range exactly when it has one tilde, and the range has `0 <= min <= max` |
| RangeParser.ParseSides | scripts/convert_bosses.js:36-39 | a text `a~b` gives the minimum and the maximum of the minutes of its two sides |
| RangeParser.SpelledSide | scripts/convert_bosses.js:26-35 | a spelled duration has no tilde, and its minutes after the parentheses are removed are `60*h + m` |
| RangeParser.ParseSwapSides | scripts/convert_bosses.js:39 | writing the two sides the other way round gives the same range |
| RangeParser.ExampleFortyFiveMinutesToOneHour | scripts/convert_bosses.js:23 | `45分~1小時` parses as 45..60 minutes |
| RangeParser.ExampleTwentyMinutesToOneHour | scripts/convert_bosses.js:23 | `20分~1小時` parses as 20..60 minutes |
| RangeParser.ExampleThreeAndAHalfToFourHours | scripts/convert_bosses.js:23 | `3小時30分~4小時` parses as 210..240 minutes |
| Decimal.NatStrRoundTrip | scripts/convert_bosses.js:31-32 | `parseInt(s, 10)` of the decimal digits of `n` gives back `n` |
| ConvertBosses.FilledEffect | scripts/convert_bosses.js:43-52 | an entry changes exactly when a bound is missing, its respawn text is a non-empty string and it parses; then it gets both bounds of the parsed range, and name and text stay |
| ConvertBosses.FillIsIdempotent | scripts/convert_bosses.js:43-52 | a filled entry is not filled again: running the converter twice changes nothing more |
| ConvertBosses.FillEntry | scripts/convert_bosses.js:44-51 | the loop body leaves the filled entry and sets `changed` exactly when it filled it |
| ConvertBosses.FillMissing | scripts/convert_bosses.js:42-53 | every entry of the array is replaced in place by its filled form, and `changed` is true exactly when some entry was filled |
| ConvertBosses.FillBossData | scripts/convert_bosses.js:42-53 | the fill loop run with `parseChineseRange` |
| ConvertBosses.FilledBoundsOrdered | scripts/convert_bosses.js:47-48 | a filled entry has `minMinutes <= maxMinutes` |

## Left out

- Rendering, toasts, the confirm dialog, the boss selector and the other event listeners are outside the model. Only the submit handler's data path is modelled, as `SubmitKill`.
- `uid()`, `Date.now()`, `new Date()` and `Math.random` are parameters: the new id, and the clock reading `now` in milliseconds. One clock reading serves both `nowIso` in the submit handler and `updatedAt` in `updateRecord`.
- JSON text is not modelled. A stored value is `Payload` when it parses to an object with a `records` array, and `Malformed` otherwise: text that `JSON.parse` rejects, the empty string, and JSON such as `null`, `{}` or `{"records":5}`. `Malformed` reads as an empty list, which is what `readRecordsForKey` gives for a missing or unparsable value (public/app.js:17), and under the legacy key it makes `migrateFromSingleKey` return with nothing changed (public/app.js:34), as the source does.
- A value under a partition key that parses but has no `records` array is read as empty. In the source, `store.records.findIndex` or `store.records.push` then throws a `TypeError` (public/app.js:22, 24), which aborts `findRecordKeyById`, `addRecord`, `updateRecord` and `deleteRecord`. Inside the migration loop, the `catch` of `migrateFromSingleKey` then leaves the records migrated so far in place and the legacy key still stored. Neither the exception nor that partial migration is modelled.
- Storage writes always succeed. Quota errors, which the source catches and logs, are not modelled.
- Time zones, daylight saving time and the parsing of ISO strings by `new Date` are not modelled. Instants are milliseconds of local wall-clock time, and the ISO strings `timestamp`, `createdAt` and `updatedAt` are held as those instants. A form time that is empty or invalid gives an Invalid Date in the source, and `NaN` in its date key; this is not modelled.
- `toLocaleTimeString`, `formatTimeISOToLocalHHMMSS` and `getRuleDescription` only format text for display. `Respawn` returns the instants that would be shown.
- `Respawn.ComputeRespawnForRecord`: a `RESP_RULES` lookup of a name inherited from `Object.prototype` (such as `toString`) is not modelled. Only the three table entries count as rules.
- `KillRecords.Merge`: `Object.assign` copies any field of the changes object. The patch carries only the five fields the page ever sends, and the `version` field of new records is not kept.
- Storage key order is insertion order, with new keys at the end. The browser's `localStorage.key(i)` order is not specified.
- `Sorting.SortBy`: states the order and the permutation, but not stability.
- `KillRecords.BossPrefixIdentifiesBoss` holds only for boss ids without `:`. With ids that contain `:`, the prefix `abt:<b>:` can also match another boss's keys, and the source then purges those partitions too. `PurgeSpec` models the source's filter as written.
- `Retention.PurgeLeavesCap` assumes distinct ids within a boss for its exact count. With repeated ids, the source's filter by id can remove more than `count - 3000` records; the upper bound of 3000 holds for any ids (`Retention.PurgeCapsBoss`).
- `ConvertBosses.FillMissing`: the loop is proved for any parser of respawn texts, and `FillBossData` instantiates it with `ParseChineseRange`. File reading and writing, JSON parsing, console output and a non-array top-level value are outside the model. A `respawn` that is not a string is `None`, and a `minMinutes`/`maxMinutes` of any type other than a number or null/absent is not modelled.
- `RangeParser.ParseChineseRange`: `parseInt` is exact on unbounded integers, with no loss of precision above 2^53. The `isNaN` branch never returns, because each side always counts as a number of minutes. This matches the source.
- `Store.KillStore.DeleteRecord` returns nothing: `deleteRecord` returns `undefined` whether or not a record was removed (public/app.js:28).
- `docs/app.js` is an older copy of the page, and `scripts/ci-test.js` is a test script. Neither is part of this model.

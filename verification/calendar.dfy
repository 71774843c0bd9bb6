/**
 * Local calendar dates of the store's timestamps.
 *
 * An instant is an integer count of milliseconds of local wall-clock time
 * since 1970-01-01T00:00 local; time zones and daylight saving are not
 * modelled. `DateOf` plays the part of `getFullYear`, `getMonth() + 1` and
 * `getDate()` on a `Date`, and `DateStr` the `YYYY-MM-DD` formatting of
 * `dateFromISO`.
 */
module Calendar {
  import opened Decimal

  const MsPerMinute: int := 60_000
  const MsPerHour: int := 3_600_000
  const MsPerDay: int := 86_400_000

  /** A proleptic Gregorian calendar date. */
  datatype Date = Date(year: int, month: int, day: int)

  /** The Gregorian leap rule: every fourth year, except centuries not divisible by 400. */
  predicate IsLeapYear(y: int) {
    y % 4 == 0 && (y % 100 != 0 || y % 400 == 0)
  }

  /** The length of month `m` (January is 1) of year `y`. */
  function DaysInMonth(y: int, m: int): (n: int)
    requires 1 <= m <= 12
    ensures 28 <= n <= 31
    ensures n == 29 <==> m == 2 && IsLeapYear(y)
  {
    if m == 2 then (if IsLeapYear(y) then 29 else 28)
    else if m == 4 || m == 6 || m == 9 || m == 11 then 30
    else 31
  }

  /** A date that exists in the proleptic Gregorian calendar. */
  predicate ValidDate(d: Date) {
    1 <= d.month <= 12 && 1 <= d.day <= DaysInMonth(d.year, d.month)
  }

  /** Whole days since 1970-01-01 of an instant (floor division). */
  function DayNumber(t: int): int {
    t / MsPerDay
  }

  /**
   * Splits a day of a 400-year era (counted from March 1) into the year of the
   * era and the day of that March-based year: an era is four centuries of
   * 36524 days (the last has one day more), a century 25 blocks of four
   * years of 1461 days (the last has one day less), a block four years of
   * 365 days (the last has one day more).
   */
  function SplitEraDay(doe: int): (yd: (int, int))
    requires 0 <= doe < 146097
    ensures 0 <= yd.0 < 400 && 0 <= yd.1 < 366
    ensures 365 * yd.0 + yd.0 / 4 - yd.0 / 100 + yd.1 == doe
    ensures yd.1 == 365 ==> yd.0 % 4 == 3 && (yd.0 % 100 != 99 || yd.0 == 399)
  {
    var c := if doe / 36524 < 3 then doe / 36524 else 3;
    var doc := doe - 36524 * c;
    var q := doc / 1461;
    var dob := doc - 1461 * q;
    var r := if dob / 365 < 3 then dob / 365 else 3;
    var yoe := 100 * c + 4 * q + r;
    assert yoe / 4 == 25 * c + q && yoe / 100 == c;
    (yoe, dob - 365 * r)
  }

  /** The (month, day) of a day of a March-based year. */
  function MonthDay(doy: int): (md: (int, int))
    requires 0 <= doy < 366
    ensures 0 <= md.0 < 12 && 1 <= md.1 <= 31
    ensures (153 * md.0 + 2) / 5 + md.1 - 1 == doy
    ensures md.0 == 1 || md.0 == 3 || md.0 == 6 || md.0 == 8 ==> md.1 <= 30
    ensures md.0 == 11 ==> md.1 == doy - 336
  {
    var mp := (5 * doy + 2) / 153;
    (mp, doy - (153 * mp + 2) / 5 + 1)
  }

  /** The civil date of a day number. */
  function CivilFromDays(z: int): (d: Date)
    ensures ValidDate(d)
  {
    var z' := z + 719468;
    var era := z' / 146097;
    var (yoe, doy) := SplitEraDay(z' % 146097);
    var (mp, day) := MonthDay(doy);
    var month := if mp < 10 then mp + 3 else mp - 9;
    var y := yoe + era * 400;
    if month == 2 && day == 29 then
      LeapAfterYearOfEra(era, yoe);
      Date(y + 1, month, day)
    else
      Date(if month <= 2 then y + 1 else y, month, day)
  }

  /** The year after a March-based year of 366 days is a leap year. */
  lemma LeapAfterYearOfEra(era: int, yoe: int)
    requires 0 <= yoe < 400 && yoe % 4 == 3 && (yoe % 100 != 99 || yoe == 399)
    ensures IsLeapYear(yoe + era * 400 + 1)
  {
    var r := yoe + 1;
    var y := r + era * 400;
    assert r == (r / 4) * 4;
    RemainderWithin(y, 100 * era + r / 4, 4);
    if r == 400 {
      RemainderWithin(y, 4 * era + 4, 100);
      RemainderWithin(y, era + 1, 400);
    } else {
      assert r / 100 * 100 <= r < r / 100 * 100 + 100;
      RemainderWithin(y, 4 * era + r / 100, 100);
    }
  }

  /** The remainder of `m` by `n` when the quotient `q` is known. */
  lemma RemainderWithin(m: int, q: int, n: int)
    requires n == 4 || n == 100 || n == 400
    requires q * n <= m < q * n + n
    ensures m % n == m - q * n
  {
  }

  /** Day 0 is 1970-01-01. */
  lemma EpochDate()
    ensures CivilFromDays(0) == Date(1970, 1, 1)
  {
    assert (0 + 719468) / 146097 == 4 && (0 + 719468) % 146097 == 135080;
    assert SplitEraDay(135080) == (369, 306);
    assert MonthDay(306) == (10, 1);
  }

  /** Day 19782 is the leap day 2024-02-29. */
  lemma LeapDayDate()
    ensures CivilFromDays(19782) == Date(2024, 2, 29)
  {
    assert (19782 + 719468) / 146097 == 5 && (19782 + 719468) % 146097 == 8765;
    assert SplitEraDay(8765) == (23, 365);
    assert MonthDay(365) == (11, 29);
  }

  /** 1900 is a century year that is not leap: its February 28 is followed by March 1. */
  lemma CenturyFebruaryDates()
    ensures CivilFromDays(-25509) == Date(1900, 2, 28)
    ensures CivilFromDays(-25508) == Date(1900, 3, 1)
  {
    assert (-25509 + 719468) / 146097 == 4 && (-25509 + 719468) % 146097 == 109571;
    assert SplitEraDay(109571) == (299, 364);
    assert MonthDay(364) == (11, 28);
    assert (-25508 + 719468) / 146097 == 4 && (-25508 + 719468) % 146097 == 109572;
    assert SplitEraDay(109572) == (300, 0);
    assert MonthDay(0) == (0, 1);
  }

  /** The day number of a civil date: the inverse of `CivilFromDays`. */
  function DaysFromCivil(d: Date): int
    requires ValidDate(d)
  {
    var y := if d.month <= 2 then d.year - 1 else d.year;
    var era := y / 400;
    var yoe := y - era * 400;
    var mp := if d.month > 2 then d.month - 3 else d.month + 9;
    var doy := (153 * mp + 2) / 5 + d.day - 1;
    var doe := yoe * 365 + yoe / 4 - yoe / 100 + doy;
    era * 146097 + doe - 719468
  }

  /** The local calendar date of an instant. */
  function DateOf(t: int): (d: Date)
    ensures ValidDate(d)
    ensures DaysFromCivil(d) == DayNumber(t)
  {
    CivilRoundTrip(DayNumber(t));
    CivilFromDays(DayNumber(t))
  }

  lemma EraOfYear(y: int, era: int, yoe: int)
    requires 0 <= yoe < 400 && y == yoe + era * 400
    ensures y / 400 == era
  {
  }

  /** Converting a day to its date and back gives the same day. */
  lemma CivilRoundTrip(z: int)
    ensures DaysFromCivil(CivilFromDays(z)) == z
  {
    var z' := z + 719468;
    var era := z' / 146097;
    var doe := z' % 146097;
    var yd := SplitEraDay(doe);
    var md := MonthDay(yd.1);
    var d := CivilFromDays(z);
    assert d.day == md.1;
    assert md.0 == if d.month > 2 then d.month - 3 else d.month + 9;
    assert (if d.month <= 2 then d.year - 1 else d.year) == yd.0 + era * 400;
    DaysFromParts(d, era, yd.0, md.0);
    assert z' == era * 146097 + doe;
  }

  /** `DaysFromCivil` in terms of the era, the year of the era and the March-based month. */
  lemma DaysFromParts(d: Date, era: int, yoe: int, mp: int)
    requires ValidDate(d) && 0 <= yoe < 400
    requires (if d.month <= 2 then d.year - 1 else d.year) == yoe + era * 400
    requires mp == if d.month > 2 then d.month - 3 else d.month + 9
    ensures DaysFromCivil(d) == era * 146097 + (yoe * 365 + yoe / 4 - yoe / 100 + (153 * mp + 2) / 5 + d.day - 1) - 719468
  {
    EraOfYear(yoe + era * 400, era, yoe);
  }

  /** Two instants have the same local date exactly when they fall on the same day. */
  lemma SameDate(t1: int, t2: int)
    ensures DateOf(t1) == DateOf(t2) <==> DayNumber(t1) == DayNumber(t2)
  {
    CivilRoundTrip(DayNumber(t1));
    CivilRoundTrip(DayNumber(t2));
  }

  /** `String(n).padStart(2, '0')`. */
  function Pad2(n: nat): string {
    var s := NatStr(n);
    if |s| < 2 then "0" + s else s
  }

  /** `String(y)` for a possibly negative year. */
  function IntStr(y: int): string {
    if y < 0 then "-" + NatStr(-y) else NatStr(y)
  }

  /** The `YYYY-MM-DD` text of a date, as `dateFromISO` builds it. */
  function DateStr(d: Date): (s: string)
    requires ValidDate(d)
    ensures |s| >= 7 && s[|s| - 6] == '-' && s[|s| - 3] == '-'
  {
    Pad2TwoDigits(d.month);
    Pad2TwoDigits(d.day);
    IntStr(d.year) + "-" + Pad2(d.month) + "-" + Pad2(d.day)
  }

  /** A month or day below 100 pads to exactly two digits that read back as the number. */
  lemma Pad2TwoDigits(n: nat)
    requires n < 100
    ensures |Pad2(n)| == 2 && AllDigits(Pad2(n)) && DigitsValue(Pad2(n)) == n
  {
    NatStrRoundTrip(n);
    if n < 10 {
      assert Pad2(n)[..1] == "0";
    }
  }

  /** The date text is the year, `-`, the padded month, `-` and the padded day, and never contains a colon. */
  lemma DateStrShape(d: Date)
    requires ValidDate(d)
    ensures var s := DateStr(d);
      |s| >= 7 &&
      s[|s| - 6] == '-' && s[|s| - 3] == '-' &&
      s[..|s| - 6] == IntStr(d.year) &&
      s[|s| - 5..|s| - 3] == Pad2(d.month) && s[|s| - 2..] == Pad2(d.day) &&
      ':' !in s
  {
    Pad2TwoDigits(d.month);
    Pad2TwoDigits(d.day);
    var s := DateStr(d);
    var y := IntStr(d.year);
    assert s == y + ['-'] + Pad2(d.month) + ['-'] + Pad2(d.day);
    assert s[|s| - 5..|s| - 3] == Pad2(d.month);
    assert s[|s| - 2..] == Pad2(d.day);
    assert forall i :: 0 <= i < |y| ==> y[i] == '-' || IsDigit(y[i]);
  }

  lemma IntStrInjective(a: int, b: int)
    requires IntStr(a) == IntStr(b)
    ensures a == b
  {
    if a < 0 && b < 0 {
      assert NatStr(-a) == IntStr(a)[1..];
      NatStrInjective(-a, -b);
    } else if a >= 0 && b >= 0 {
      NatStrInjective(a, b);
    }
  }

  /** Different dates have different `YYYY-MM-DD` texts. */
  lemma DateStrInjective(d1: Date, d2: Date)
    requires ValidDate(d1) && ValidDate(d2) && DateStr(d1) == DateStr(d2)
    ensures d1 == d2
  {
    var s := DateStr(d1);
    DateStrShape(d1);
    DateStrShape(d2);
    Pad2TwoDigits(d1.month);
    Pad2TwoDigits(d1.day);
    Pad2TwoDigits(d2.month);
    Pad2TwoDigits(d2.day);
    IntStrInjective(d1.year, d2.year);
  }
}

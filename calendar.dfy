/**
 * The calendar fields that scripts/panel_feature_engineering.py reads off
 * ts_hour (lines 17-25): pandas' .dt accessors on an America/New_York
 * timestamp, written out on integer seconds.
 *
 * The zone's offset from UTC is a parameter: a function from the instant to
 * its whole-hour offset (-5 or -4 for New York). The Gregorian calendar is
 * computed by 400-year eras, centuries, four-year blocks and years, each
 * counted from 1 March so that the leap day falls last; DaysFromCivil is the
 * inverse it is proved against.
 */
module Calendar {
  import opened Common

  // 86400 seconds make a day, 146097 days a 400-year era, and 719468 days
  // lie between 0000-03-01 and 1970-01-01 in the proleptic Gregorian calendar.

  /** A calendar date: year, month 1..12, day of month 1..31. */
  datatype Date = Date(year: int, month: int, day: int)

  /** The wall-clock seconds of instant t in a zone whose offset at t is
      tz(t) hours. Converting the zone changes only what is displayed: the
      instant t itself, and so ts_hour, stays as it is. */
  function LocalSeconds(tz: Instant -> int, t: Instant): int
  {
    t + 3600 * tz(t)
  }

  /** The day number of a wall-clock time, 1970-01-01 being day 0; floored,
      so that times before the epoch fall on negative days. */
  function DayNumber(s: int): int
  {
    s / 86400
  }

  /** .dt.hour */
  function HourOfDay(s: int): (h: int)
    ensures 0 <= h <= 23
    ensures DayNumber(s) * 86400 + h * 3600 <= s < DayNumber(s) * 86400 + (h + 1) * 3600
  {
    (s % 86400) / 3600
  }

  /** .dt.dayofweek, Monday = 0: 1970-01-01 was a Thursday. */
  function DayOfWeek(s: int): (d: int)
    ensures 0 <= d <= 6
  {
    (DayNumber(s) + 3) % 7
  }

  /** is_weekend: 1 exactly on Saturday (5) and Sunday (6). */
  function IsWeekend(dayOfWeek: int): (w: int)
    ensures w == 1 <==> dayOfWeek in {5, 6}
    ensures w == 0 <==> dayOfWeek !in {5, 6}
  {
    if dayOfWeek == 5 || dayOfWeek == 6 then 1 else 0
  }

  /** Whether a year of the Gregorian calendar has a 29 February. */
  predicate IsLeapYear(y: int)
  {
    y % 4 == 0 && (y % 100 != 0 || y % 400 == 0)
  }

  /** The number of days of a month of year y. */
  function DaysInMonth(y: int, m: int): int
  {
    if m == 2 then (if IsLeapYear(y) then 29 else 28)
    else if m == 4 || m == 6 || m == 9 || m == 11 then 30
    else 31
  }

  /** A date that exists: month 1..12, day 1..the month's length. */
  predicate ValidDate(d: Date)
  {
    1 <= d.month <= 12 && 1 <= d.day <= DaysInMonth(d.year, d.month)
  }

  /** The days of March-based year yoe (0..399) of an era: 366 when the
      February it ends with is a leap month. */
  function EraYearLength(yoe: int): int
  {
    if yoe % 4 == 3 && (yoe % 100 != 99 || yoe == 399) then 366 else 365
  }

  /** The days of the months March (0) to January (10) of a March-based year. */
  function MarchMonthLength(mp: int): int
  {
    (153 * (mp + 1) + 2) / 5 - (153 * mp + 2) / 5
  }

  /** The year of the era (0..399) and the day of that March-based year
      (0..365) of day doe of a 400-year era. */
  function YearOfEra(doe: int): (yd: (int, int))
    requires 0 <= doe < 146097
    ensures 0 <= yd.0 < 400 && 0 <= yd.1 <= 365
    ensures 365 * yd.0 + yd.0 / 4 - yd.0 / 100 + yd.1 == doe
  {
    var cent := if doe / 36524 < 3 then doe / 36524 else 3;   // the last century has the leap day
    var r1 := doe - 36524 * cent;
    var quad := r1 / 1461;
    var r2 := r1 % 1461;                                      // day of the four-year block
    var yr := if r2 / 365 < 3 then r2 / 365 else 3;           // the last year has the leap day
    var yoe := 100 * cent + 4 * quad + yr;
    assert 0 <= quad <= 24 && 0 <= yr <= 3;
    assert yoe / 4 == 25 * cent + quad;
    assert yoe / 100 == cent;
    (yoe, r2 - 365 * yr)
  }

  /** The day YearOfEra finds lies within the year it finds: day 365 only
      in a year of 366 days. */
  lemma YearOfEraInYear(doe: int)
    requires 0 <= doe < 146097
    ensures YearOfEra(doe).1 < EraYearLength(YearOfEra(doe).0)
  {
    var cent := if doe / 36524 < 3 then doe / 36524 else 3;
    var r1 := doe - 36524 * cent;
    var quad := r1 / 1461;
    var r2 := r1 % 1461;
    var yr := if r2 / 365 < 3 then r2 / 365 else 3;
    var yoe := 100 * cent + 4 * quad + yr;
    assert 0 <= quad <= 24 && 0 <= yr <= 3 && 0 <= r2 < 1461;
    assert yoe % 4 == yr && yoe % 100 == 4 * quad + yr;
    assert YearOfEra(doe) == (yoe, r2 - 365 * yr);
    if yr < 3 {
      assert r2 - 365 * yr < 365;
    } else if quad == 24 && cent < 3 {
      assert r1 < 36524;
      assert r2 - 365 * yr < 365;
    }
  }

  /** The month counted from March (0..11) and the day of month (1..31) of
      day doy of a March-based year. */
  function MonthOfYear(doy: int): (md: (int, int))
    requires 0 <= doy <= 365
    ensures 0 <= md.0 <= 11 && 1 <= md.1 <= 31
    ensures (153 * md.0 + 2) / 5 + md.1 - 1 == doy
    ensures md.0 < 11 ==> md.1 <= MarchMonthLength(md.0)
  {
    var mp := (5 * doy + 2) / 153;
    assert 153 * mp <= 5 * doy + 2 < 153 * mp + 153;
    (mp, doy - (153 * mp + 2) / 5 + 1)
  }

  /** The date of day number z (1970-01-01 being day 0). */
  function CivilFromDays(z: int): (d: Date)
    ensures 1 <= d.month <= 12 && 1 <= d.day <= 31
  {
    var n := z + 719468;
    var era := n / 146097;
    var yd := YearOfEra(n % 146097);
    var md := MonthOfYear(yd.1);
    var month := if md.0 < 10 then md.0 + 3 else md.0 - 9;
    Date(era * 400 + yd.0 + (if month <= 2 then 1 else 0), month, md.1)
  }

  /** Every day number falls on a date that exists: its day lies within the
      length of its month, 29 February only in a leap year. */
  lemma CivilFromDaysValid(z: int)
    ensures ValidDate(CivilFromDays(z))
  {
    var n := z + 719468;
    var yd := YearOfEra(n % 146097);
    YearOfEraInYear(n % 146097);
    var md := MonthOfYear(yd.1);
    ValidOfParts(n / 146097, yd.0, yd.1, md.0, md.1);
    CivilFromDaysOf(z, n / 146097, yd.0, yd.1, md.0, md.1);
  }

  /** The date CivilFromDays assembles from an era, a year of the era, a day
      of that year and its month and day of month exists. */
  lemma ValidOfParts(era: int, yoe: int, doy: int, mp: int, day: int)
    requires 0 <= yoe < 400 && 0 <= doy < EraYearLength(yoe)
    requires 0 <= mp <= 11 && 1 <= day && (153 * mp + 2) / 5 + day - 1 == doy
    requires mp < 11 ==> day <= MarchMonthLength(mp)
    ensures var month := if mp < 10 then mp + 3 else mp - 9;
      ValidDate(Date(era * 400 + yoe + (if month <= 2 then 1 else 0), month, day))
  {
    var month := if mp < 10 then mp + 3 else mp - 9;
    var y := era * 400 + yoe;
    if mp == 11 {
      ShiftEra(yoe, era);
      assert y % 400 == yoe;
      LeapOfEraYear(y);
      assert month == 2 && day == doy - 336;
      assert IsLeapYear(y + 1) <==> EraYearLength(yoe) == 366;
    } else {
      MarchMonthIsMonth(mp, y + (if month <= 2 then 1 else 0));
    }
  }

  /** The February that ends March-based year y (so lies in civil year y + 1)
      is a leap month exactly when that year of its era has 366 days. */
  lemma LeapOfEraYear(y: int)
    ensures IsLeapYear(y + 1) <==> EraYearLength(y % 400) == 366
  {
    var q, yoe := y / 400, y % 400;
    ShiftByEras(yoe + 1, q);
    assert y + 1 == (yoe + 1) + 400 * q;
  }

  /** Whole eras do not change a year's place in the leap cycle. */
  lemma ShiftByEras(a: int, q: int)
    ensures (a + 400 * q) % 4 == a % 4
    ensures (a + 400 * q) % 100 == a % 100
    ensures (a + 400 * q) % 400 == a % 400
  {
    ShiftFour(a, 100 * q);
    ShiftHundred(a, 4 * q);
    ShiftEra(a, q);
  }

  lemma ShiftFour(a: int, k: int)
    ensures (a + 4 * k) % 4 == a % 4
  {
  }

  lemma ShiftHundred(a: int, k: int)
    ensures (a + 100 * k) % 100 == a % 100
  {
  }

  lemma ShiftEra(a: int, k: int)
    ensures (a + 400 * k) % 400 == a % 400
  {
  }

  /** March-based months 0..10 have the lengths of March .. January. */
  lemma MarchMonthIsMonth(mp: int, year: int)
    requires 0 <= mp < 11
    ensures MarchMonthLength(mp) == DaysInMonth(year, if mp < 10 then mp + 3 else mp - 9)
  {
  }

  /** The days before March-based year yoe of its era. */
  function DaysBeforeYear(yoe: int): int
  {
    365 * yoe + yoe / 4 - yoe / 100
  }

  /** Each year of an era starts where the one before it ends. */
  lemma DaysBeforeNextYear(yoe: int)
    requires 0 <= yoe < 399
    ensures DaysBeforeYear(yoe + 1) == DaysBeforeYear(yoe) + EraYearLength(yoe)
  {
    if yoe % 4 == 3 {
      assert (yoe + 1) / 4 == yoe / 4 + 1;
    } else {
      assert (yoe + 1) / 4 == yoe / 4;
    }
    if yoe % 100 == 99 {
      assert (yoe + 1) / 100 == yoe / 100 + 1;
    } else {
      assert (yoe + 1) / 100 == yoe / 100;
    }
  }

  lemma {:induction false} DaysBeforeMonotone(a: int, b: int)
    requires 0 <= a <= b < 400
    ensures DaysBeforeYear(a) <= DaysBeforeYear(b)
    decreases b - a
  {
    if a < b {
      DaysBeforeNextYear(a);
      DaysBeforeMonotone(a + 1, b);
    }
  }

  /** A day of an era has one year of the era and one day of that year. */
  lemma YearSplitUnique(y1: int, d1: int, y2: int, d2: int)
    requires 0 <= y1 < 400 && 0 <= d1 < EraYearLength(y1)
    requires 0 <= y2 < 400 && 0 <= d2 < EraYearLength(y2)
    requires DaysBeforeYear(y1) + d1 == DaysBeforeYear(y2) + d2
    ensures y1 == y2 && d1 == d2
  {
    if y1 < y2 {
      DaysBeforeNextYear(y1);
      DaysBeforeMonotone(y1 + 1, y2);
    } else if y2 < y1 {
      DaysBeforeNextYear(y2);
      DaysBeforeMonotone(y2 + 1, y1);
    }
  }

  /** The last year of an era ends with its last day. */
  lemma EraEnd(yoe: int)
    requires 0 <= yoe < 400
    ensures DaysBeforeYear(yoe) + EraYearLength(yoe) <= 146097
  {
    if yoe < 399 {
      DaysBeforeNextYear(yoe);
      DaysBeforeMonotone(yoe + 1, 399);
    }
  }

  /** A day of a March-based year has one month and one day of that month. */
  lemma MonthSplitUnique(doy: int, mp: int, day: int)
    requires 0 <= doy <= 365 && 0 <= mp <= 11 && 1 <= day
    requires mp < 11 ==> day <= MarchMonthLength(mp)
    requires (153 * mp + 2) / 5 + day - 1 == doy
    ensures MonthOfYear(doy) == (mp, day)
  {
    assert 153 * mp <= 5 * doy + 2 < 153 * (mp + 1);
  }

  /** The day number of a date: the inverse of CivilFromDays. */
  function DaysFromCivil(d: Date): int
  {
    var y := d.year - (if d.month <= 2 then 1 else 0);
    var era := y / 400;
    var yoe := y % 400;
    var mp := (d.month + 9) % 12;
    var doy := (153 * mp + 2) / 5 + d.day - 1;
    var doe := 365 * yoe + yoe / 4 - yoe / 100 + doy;
    era * 146097 + doe - 719468
  }

  /** Every date that exists is the date of its own day number: together
      with CivilRoundTrip, CivilFromDays and DaysFromCivil are inverse
      bijections between day numbers and valid dates. */
  lemma DaysFromCivilRoundTrip(d: Date)
    requires ValidDate(d)
    ensures CivilFromDays(DaysFromCivil(d)) == d
  {
    var y := d.year - (if d.month <= 2 then 1 else 0);
    var era, yoe := y / 400, y % 400;
    var mp := (d.month + 9) % 12;
    var doy := (153 * mp + 2) / 5 + d.day - 1;
    MarchMonthOf(d.month);
    DayOfYearOf(d, yoe, mp, doy);
    assert d.year == era * 400 + yoe + (if d.month <= 2 then 1 else 0);
    DaysFromCivilOf(d, era, yoe, mp, doy);
    CivilOfParts(DaysFromCivil(d), d, era, yoe, mp, doy);
  }

  /** CivilFromDays recovers a date from its era, year of the era, month
      counted from March and day of the year. */
  lemma CivilOfParts(z: int, d: Date, era: int, yoe: int, mp: int, doy: int)
    requires 0 <= yoe < 400 && 0 <= doy < EraYearLength(yoe)
    requires 0 <= mp <= 11 && 1 <= d.day && (mp < 11 ==> d.day <= MarchMonthLength(mp))
    requires doy == (153 * mp + 2) / 5 + d.day - 1
    requires d.month == (if mp < 10 then mp + 3 else mp - 9)
    requires d.year == era * 400 + yoe + (if d.month <= 2 then 1 else 0)
    requires z + 719468 == era * 146097 + DaysBeforeYear(yoe) + doy
    ensures CivilFromDays(z) == d
  {
    EraSplit(z + 719468, era, yoe, doy);
    MonthSplitUnique(doy, mp, d.day);
    CivilFromDaysOf(z, era, yoe, doy, mp, d.day);
  }

  /** CivilFromDays assembles its date from the stages it computes. */
  lemma CivilFromDaysOf(z: int, era: int, yoe: int, doy: int, mp: int, day: int)
    requires (z + 719468) / 146097 == era && 0 <= doy <= 365
    requires YearOfEra((z + 719468) % 146097) == (yoe, doy) && MonthOfYear(doy) == (mp, day)
    ensures var month := if mp < 10 then mp + 3 else mp - 9;
      CivilFromDays(z) == Date(era * 400 + yoe + (if month <= 2 then 1 else 0), month, day)
  {
  }

  /** A civil month and its place counted from March. */
  lemma MarchMonthOf(month: int)
    requires 1 <= month <= 12
    ensures var mp := (month + 9) % 12;
      0 <= mp <= 11 && month == if mp < 10 then mp + 3 else mp - 9
  {
  }

  /** The day of the March-based year of a valid date lies in that year. */
  lemma DayOfYearOf(d: Date, yoe: int, mp: int, doy: int)
    requires ValidDate(d) && yoe == (d.year - (if d.month <= 2 then 1 else 0)) % 400
    requires 0 <= mp <= 11 && d.month == (if mp < 10 then mp + 3 else mp - 9)
    requires doy == (153 * mp + 2) / 5 + d.day - 1
    ensures 0 <= doy < EraYearLength(yoe)
    ensures mp < 11 ==> d.day <= MarchMonthLength(mp)
  {
    if mp == 11 {
      LeapOfEraYear(d.year - 1);
    } else {
      MarchMonthIsMonth(mp, d.year);
      assert (153 * mp + 2) / 5 + MarchMonthLength(mp) <= 337;
    }
  }

  /** The era and the day of the era that a day count splits into. */
  lemma EraSplit(n: int, era: int, yoe: int, doy: int)
    requires 0 <= yoe < 400 && 0 <= doy < EraYearLength(yoe)
    requires n == era * 146097 + DaysBeforeYear(yoe) + doy
    ensures n / 146097 == era && YearOfEra(n % 146097) == (yoe, doy)
  {
    EraEnd(yoe);
    assert n / 146097 == era && n % 146097 == DaysBeforeYear(yoe) + doy;
    var yd := YearOfEra(n % 146097);
    YearOfEraInYear(n % 146097);
    YearSplitUnique(yd.0, yd.1, yoe, doy);
  }

  /** Every day number names its own date: counting the days of that date
      back from the epoch returns the day number, so no two days share a date. */
  lemma CivilRoundTrip(z: int)
    ensures DaysFromCivil(CivilFromDays(z)) == z
  {
    var n := z + 719468;
    var yd := YearOfEra(n % 146097);
    var md := MonthOfYear(yd.1);
    assert n == n / 146097 * 146097 + n % 146097;
    DaysFromCivilOf(CivilFromDays(z), n / 146097, yd.0, md.0, yd.1);
  }

  /** DaysFromCivil undoes each stage of CivilFromDays: the era, the year of
      the era and the month counted from March. */
  lemma DaysFromCivilOf(d: Date, era: int, yoe: int, mp: int, doy: int)
    requires 0 <= yoe < 400 && 0 <= mp <= 11
    requires d.month == if mp < 10 then mp + 3 else mp - 9
    requires d.year == era * 400 + yoe + (if d.month <= 2 then 1 else 0)
    requires (153 * mp + 2) / 5 + d.day - 1 == doy
    ensures DaysFromCivil(d) == era * 146097 + 365 * yoe + yoe / 4 - yoe / 100 + doy - 719468
  {
    var y := d.year - (if d.month <= 2 then 1 else 0);
    assert y / 400 == era && y % 400 == yoe;
    assert (d.month + 9) % 12 == mp;
  }

  /** Day numbers are in step with dates: CivilFromDays is one-to-one. */
  lemma CivilInjective(z1: int, z2: int)
    requires CivilFromDays(z1) == CivilFromDays(z2)
    ensures z1 == z2
  {
    CivilRoundTrip(z1);
    CivilRoundTrip(z2);
  }

  /** The weekday advances by one, Sunday wrapping to Monday, every 24 hours. */
  lemma DayOfWeekNextDay(s: int)
    ensures DayOfWeek(s + 86400) == (DayOfWeek(s) + 1) % 7
  {
    assert DayNumber(s + 86400) == DayNumber(s) + 1;
  }

  /** The hour of day advances by one, 23 wrapping to 0, every hour. */
  lemma HourOfDayNextHour(s: int)
    ensures HourOfDay(s + 3600) == (HourOfDay(s) + 1) % 24
  {
    var q := s / 86400;
    var h := HourOfDay(s);
    if h < 23 {
      assert (s + 3600) / 86400 == q;
    } else {
      assert (s + 3600) / 86400 == q + 1;
    }
  }

  /** The New York calendar fields of the first hour of 2021: the instant
      2021-01-01T05:00Z is midnight local time on Friday 1 January 2021. */
  lemma NewYearsDay2021(tz: Instant -> int)
    requires tz(1609477200) == -5
    ensures DayNumber(LocalSeconds(tz, 1609477200)) == 18628
    ensures CivilFromDays(18628) == Date(2021, 1, 1)
    ensures HourOfDay(LocalSeconds(tz, 1609477200)) == 0
    ensures DayOfWeek(LocalSeconds(tz, 1609477200)) == 4
    ensures IsWeekend(DayOfWeek(LocalSeconds(tz, 1609477200))) == 0
  {
    assert LocalSeconds(tz, 1609477200) == 1609459200;
    assert (18628 + 719468) / 146097 == 5 && (18628 + 719468) % 146097 == 7611;
    assert YearOfEra(7611) == (20, 306);
    assert MonthOfYear(306) == (10, 1);
  }

  /** 29 February 2020, the leap day of a year divisible by four. */
  lemma LeapDay2020()
    ensures CivilFromDays(18321) == Date(2020, 2, 29)
  {
    assert (18321 + 719468) / 146097 == 5 && (18321 + 719468) % 146097 == 7304;
    assert YearOfEra(7304) == (19, 365) && MonthOfYear(365) == (11, 29);
  }

  /** 29 February 2000, the leap day that ends a 400-year era. */
  lemma LeapDay2000()
    ensures CivilFromDays(11016) == Date(2000, 2, 29)
  {
    assert (11016 + 719468) / 146097 == 4 && (11016 + 719468) % 146097 == 146096;
    assert YearOfEra(146096) == (399, 365) && MonthOfYear(365) == (11, 29);
  }

  /** The last day before the epoch: Wednesday 31 December 1969. */
  lemma DayBeforeEpoch()
    ensures CivilFromDays(-1) == Date(1969, 12, 31)
    ensures DayOfWeek(-1) == 2
  {
    assert (-1 + 719468) / 146097 == 4 && (-1 + 719468) % 146097 == 135079;
    assert 135079 / 36524 == 3 && 25507 / 1461 == 17 && 25507 % 1461 == 670 && 670 / 365 == 1;
    assert YearOfEra(135079) == (369, 305) && MonthOfYear(305) == (9, 31);
  }
}

/**
 * The JSON converter between a Unix timestamp (whole seconds since
 * 1970-01-01T00:00:00Z) and a UTC date-time, on the proleptic Gregorian
 * calendar. Writing follows the "Seconds Since the Epoch" formula of
 * POSIX.1-2017, Base Definitions section 4.16; reading is its inverse.
 */
module UnixTime {
  import opened Wrappers

  const SecondsPerMinute := 60
  const SecondsPerHour := 3600
  const SecondsPerDay := 86400
  const SecondsPerWeek := 604800
  /** Every run of 400 consecutive Gregorian years holds exactly this many days. */
  const DaysPer400Years := 146097

  /** A UTC civil date-time with whole seconds. */
  datatype DateTime = DateTime(year: int, month: int, day: int, hour: int, minute: int, second: int)
  {
    /** The value names an existing calendar day and time of day. */
    predicate Valid() {
      && 1 <= month <= 12
      && 1 <= day <= DaysInMonth(year, month)
      && 0 <= hour < 24
      && 0 <= minute < 60
      && 0 <= second < 60
    }

    /** Zero-based day of the year (POSIX tm_yday). */
    function YearDay(): int
      requires 1 <= month <= 12
    {
      DaysBeforeMonth(year, month) + day - 1
    }

    /** Seconds elapsed since midnight. */
    function SecondOfDay(): int {
      hour * SecondsPerHour + minute * SecondsPerMinute + second
    }
  }

  const Epoch := DateTime(1970, 1, 1, 0, 0, 0)

  predicate IsLeapYear(y: int) {
    y % 4 == 0 && (y % 100 != 0 || y % 400 == 0)
  }

  function DaysInYear(y: int): int {
    if IsLeapYear(y) then 366 else 365
  }

  function DaysInMonth(y: int, m: int): int
    requires 1 <= m <= 12
  {
    if m == 2 then (if IsLeapYear(y) then 29 else 28)
    else if m == 4 || m == 6 || m == 9 || m == 11 then 30
    else 31
  }

  /** Days of year y that lie before the first of month m; m = 13 stands for the next year. */
  function DaysBeforeMonth(y: int, m: int): int
    requires 1 <= m <= 13
  {
    [0, 31, 59, 90, 120, 151, 181, 212, 243, 273, 304, 334, 365][m - 1]
      + (if m > 2 && IsLeapYear(y) then 1 else 0)
  }

  /**
   * Days from 1970-01-01 to January 1st of year y. This is the year part of the
   * POSIX formula, with floor division, which keeps it right for years before 1970.
   */
  function DaysBeforeYear(y: int): int {
    365 * (y - 1970) + (y - 1969) / 4 - (y - 1901) / 100 + (y - 1601) / 400
  }

  /** The number of the day of d counted from the epoch (0 for 1970-01-01). */
  function EpochDay(d: DateTime): int
    requires 1 <= d.month <= 12
  {
    DaysBeforeYear(d.year) + d.YearDay()
  }

  /**
   * The POSIX.1-2017 "Seconds Since the Epoch" expression, written with the
   * calendar year instead of tm_year = year - 1900. This is what the converter
   * writes for a UTC value.
   */
  function ToUnixSeconds(d: DateTime): (r: int)
    requires 1 <= d.month <= 12
    ensures r == EpochDay(d) * SecondsPerDay + d.SecondOfDay()
    ensures d.Valid() ==> r / SecondsPerDay == EpochDay(d) && r % SecondsPerDay == d.SecondOfDay()
  {
    var y := d.year;
    var seconds := d.second + d.minute * 60 + d.hour * 3600 + d.YearDay() * 86400
      + (y - 1970) * 31536000 + ((y - 1969) / 4) * 86400
      - ((y - 1901) / 100) * 86400 + ((y - 1601) / 400) * 86400;
    if d.Valid() then ClockBounds(d); seconds else seconds
  }

  /** The year whose days contain the given epoch day, found by walking up from year y. */
  function YearContaining(days: int, y: int): (r: int)
    requires DaysBeforeYear(y) <= days
    ensures DaysBeforeYear(r) <= days < DaysBeforeYear(r + 1)
    decreases days - DaysBeforeYear(y)
  {
    YearStep(y);
    if days < DaysBeforeYear(y + 1) then y else YearContaining(days, y + 1)
  }

  /** The month of year y that holds the zero-based year day yday, found by walking up from month m. */
  function MonthContaining(y: int, yday: int, m: int): (r: int)
    requires 1 <= m <= 12
    requires DaysBeforeMonth(y, m) <= yday < DaysInYear(y)
    ensures m <= r <= 12
    ensures DaysBeforeMonth(y, r) <= yday < DaysBeforeMonth(y, r + 1)
    decreases 12 - m
  {
    if m == 12 || yday < DaysBeforeMonth(y, m + 1) then m else MonthContaining(y, yday, m + 1)
  }

  /** The year that contains the given epoch day; the walk starts at the 400-year era the day falls in. */
  function YearOf(days: int): (r: int)
    ensures DaysBeforeYear(r) <= days < DaysBeforeYear(r) + DaysInYear(r)
  {
    EraStart(days / DaysPer400Years);
    var y := YearContaining(days, 1970 + 400 * (days / DaysPer400Years));
    YearStep(y);
    y
  }

  /** Midnight UTC of the zero-based day yday of year y. */
  function CivilFromYearDay(y: int, yday: int): (r: DateTime)
    requires 0 <= yday < DaysInYear(y)
    ensures r.year == y && 1 <= r.month <= 12 && 1 <= r.day <= DaysInMonth(y, r.month)
    ensures r.YearDay() == yday
  {
    var m := MonthContaining(y, yday, 1);
    DayInMonth(y, yday, m);
    DateTime(y, m, yday - DaysBeforeMonth(y, m) + 1, 0, 0, 0)
  }

  /** Midnight UTC of the given epoch day. */
  function CivilFromDays(days: int): DateTime {
    var y := YearOf(days);
    CivilFromYearDay(y, days - DaysBeforeYear(y))
  }

  /** The UTC date-time that lies s seconds after the epoch. */
  function FromUnixSeconds(s: int): (r: DateTime)
    ensures r.Valid()
    ensures EpochDay(r) == s / SecondsPerDay
    ensures r.SecondOfDay() == s % SecondsPerDay
  {
    var sod := s % SecondsPerDay;
    ClockSplit(sod);
    CivilFromDays(s / SecondsPerDay).(hour := sod / SecondsPerHour,
                                      minute := sod % SecondsPerHour / SecondsPerMinute,
                                      second := sod % SecondsPerMinute)
  }

  const MinInt64 := -0x8000_0000_0000_0000
  const MaxInt64 := 0x7fff_ffff_ffff_ffff

  /** The JSON token the reader stands on. */
  datatype JsonToken = Number(value: int) | Other

  /** The exceptions the converter can raise. */
  datatype ConverterError =
    | InvalidOperation   // the token is not a number
    | Format             // the number does not fit in a 64-bit integer
    | ArgumentNull       // no writer was given

  /**
   * Reading: take the token as a 64-bit count of seconds and return the UTC
   * date-time that many seconds after the epoch.
   */
  function Read(token: JsonToken): (r: Result<DateTime, ConverterError>)
    ensures r.Success? <==> token.Number? && MinInt64 <= token.value <= MaxInt64
    ensures token.Other? ==> r == Failure(InvalidOperation)
    ensures token.Number? && !(MinInt64 <= token.value <= MaxInt64) ==> r == Failure(Format)
    ensures r.Success? ==> r.value.Valid() && ToUnixSeconds(r.value) == token.value
  {
    match token
    case Other => Failure(InvalidOperation)
    case Number(n) =>
      if n < MinInt64 || MaxInt64 < n then Failure(Format)
      else
        WriteAfterRead(n);
        Success(FromUnixSeconds(n))
  }

  /** The output side of a JSON writer: the numbers emitted so far. */
  class JsonWriter {
    var written: seq<int>

    constructor ()
      ensures written == []
    {
      written := [];
    }

    method WriteNumberValue(n: int)
      modifies this
      ensures written == old(written) + [n]
    {
      written := written + [n];
    }
  }

  /**
   * Writing: refuse a missing writer before emitting anything, otherwise emit
   * the whole seconds between the UTC value and the epoch.
   */
  method Write(writer: JsonWriter?, value: DateTime) returns (r: Outcome<ConverterError>)
    requires value.Valid()
    modifies writer
    ensures writer == null ==> r == Fail(ArgumentNull)
    ensures writer != null ==> r == Pass && writer.written == old(writer.written) + [ToUnixSeconds(value)]
  {
    if writer == null {
      return Fail(ArgumentNull);
    }
    var unixTimestamp := ToUnixSeconds(value);
    writer.WriteNumberValue(unixTimestamp);
    return Pass;
  }

  /** Lexicographic order on date-times: a is strictly earlier than b. */
  predicate Before(a: DateTime, b: DateTime) {
    || a.year < b.year
    || (a.year == b.year && a.month < b.month)
    || (a.year == b.year && a.month == b.month && a.day < b.day)
    || (a.year == b.year && a.month == b.month && a.day == b.day && a.hour < b.hour)
    || (a.year == b.year && a.month == b.month && a.day == b.day && a.hour == b.hour && a.minute < b.minute)
    || (a.year == b.year && a.month == b.month && a.day == b.day && a.hour == b.hour && a.minute == b.minute
        && a.second < b.second)
  }

  // ---------------------------------------------------------------------------
  // Calendar arithmetic

  /** The leap-day count of every fourth year steps up exactly in the years divisible by 4. */
  lemma QuadStep(y: int)
    ensures (y - 1968) / 4 == (y - 1969) / 4 + (if y % 4 == 0 then 1 else 0)
  {
  }

  /** The century correction steps up exactly in the years divisible by 100. */
  lemma CenturyStep(y: int)
    ensures (y - 1900) / 100 == (y - 1901) / 100 + (if y % 100 == 0 then 1 else 0)
  {
  }

  /** The 400-year correction steps up exactly in the years divisible by 400. */
  lemma EraStep(y: int)
    ensures (y - 1600) / 400 == (y - 1601) / 400 + (if y % 400 == 0 then 1 else 0)
  {
  }

  /** Every multiple of 400 is a multiple of 100, and every multiple of 100 a multiple of 4. */
  lemma LeapDivisors(y: int)
    ensures y % 400 == 0 ==> y % 100 == 0
    ensures y % 100 == 0 ==> y % 4 == 0
  {
    if y % 400 == 0 {
      var k := y / 400;
      assert y == 400 * k;
      assert y / 100 == 4 * k;
    }
    if y % 100 == 0 {
      var k := y / 100;
      assert y == 100 * k;
      assert y / 4 == 25 * k;
    }
  }

  /** Going from one New Year to the next takes exactly the days of that year. */
  lemma YearStep(y: int)
    ensures DaysBeforeYear(y + 1) == DaysBeforeYear(y) + DaysInYear(y)
  {
    LeapDivisors(y);
    QuadStep(y);
    CenturyStep(y);
    EraStep(y);
  }

  /** New Year of every 400th year after 1970 falls exactly a whole number of eras after the epoch. */
  lemma EraStart(e: int)
    ensures DaysBeforeYear(1970 + 400 * e) == DaysPer400Years * e
  {
    assert (1 + 400 * e) / 4 == 100 * e;
    assert (69 + 400 * e) / 100 == 4 * e;
    assert (369 + 400 * e) / 400 == e;
  }

  /** A later year starts no earlier than the end of an earlier one. */
  lemma {:induction false} YearsOrdered(a: int, b: int)
    requires a < b
    ensures DaysBeforeYear(a + 1) <= DaysBeforeYear(b)
    decreases b - a
  {
    if a + 1 < b {
      YearsOrdered(a + 1, b);
      YearStep(a + 1);
    }
  }

  /** Only one year contains a given epoch day. */
  lemma YearUnique(days: int, y1: int, y2: int)
    requires DaysBeforeYear(y1) <= days < DaysBeforeYear(y1) + DaysInYear(y1)
    requires DaysBeforeYear(y2) <= days < DaysBeforeYear(y2) + DaysInYear(y2)
    ensures y1 == y2
  {
    if y1 < y2 {
      YearsOrdered(y1, y2);
      YearStep(y1);
    }
    if y2 < y1 {
      YearsOrdered(y2, y1);
      YearStep(y2);
    }
  }

  /** The month lengths add up to the year. */
  lemma MonthStep(y: int, m: int)
    requires 1 <= m <= 12
    ensures DaysBeforeMonth(y, m + 1) == DaysBeforeMonth(y, m) + DaysInMonth(y, m)
    ensures DaysBeforeMonth(y, 13) == DaysInYear(y)
  {
  }

  /** Only one month contains a given year day. */
  lemma MonthUnique(y: int, yday: int, m1: int, m2: int)
    requires 1 <= m1 <= 12 && 1 <= m2 <= 12
    requires DaysBeforeMonth(y, m1) <= yday < DaysBeforeMonth(y, m1 + 1)
    requires DaysBeforeMonth(y, m2) <= yday < DaysBeforeMonth(y, m2 + 1)
    ensures m1 == m2
  {
  }

  // ---------------------------------------------------------------------------
  // Reading and writing are inverse

  /** Splitting a second of the day into hours, minutes and seconds and joining them again is exact. */
  lemma ClockSplit(sod: int)
    requires 0 <= sod < SecondsPerDay
    ensures 0 <= sod / SecondsPerHour < 24
    ensures 0 <= sod % SecondsPerHour / SecondsPerMinute < 60
    ensures 0 <= sod % SecondsPerMinute < 60
    ensures (sod / SecondsPerHour) * SecondsPerHour + (sod % SecondsPerHour / SecondsPerMinute) * SecondsPerMinute
            + sod % SecondsPerMinute == sod
  {
    var h := sod / 3600;
    var r := sod % 3600;
    assert sod == h * 3600 + r;
    var m := r / 60;
    assert r == m * 60 + r % 60;
    assert r % 60 == sod % 60 by {
      assert sod == (h * 60 + m) * 60 + r % 60;
    }
  }

  /** A valid time of day lies within one day. */
  lemma ClockBounds(d: DateTime)
    requires d.Valid()
    ensures 0 <= d.SecondOfDay() < SecondsPerDay
  {
  }

  /** A year day that lies in month m gives a day of that month. */
  lemma DayInMonth(y: int, yday: int, m: int)
    requires 1 <= m <= 12
    requires DaysBeforeMonth(y, m) <= yday < DaysBeforeMonth(y, m + 1)
    ensures 1 <= yday - DaysBeforeMonth(y, m) + 1 <= DaysInMonth(y, m)
  {
    MonthStep(y, m);
  }

  /** Writing what was read gives back the timestamp. */
  lemma WriteAfterRead(s: int)
    ensures FromUnixSeconds(s).Valid()
    ensures ToUnixSeconds(FromUnixSeconds(s)) == s
  {
  }

  /** A valid date lies inside its month and its month inside its year. */
  lemma YearDayBounds(d: DateTime)
    requires d.Valid()
    ensures DaysBeforeMonth(d.year, d.month) <= d.YearDay() < DaysBeforeMonth(d.year, d.month + 1)
    ensures 0 <= d.YearDay() < DaysInYear(d.year)
  {
    MonthStep(d.year, d.month);
  }

  /** A valid date lies inside its year. */
  lemma EpochDayBounds(d: DateTime)
    requires d.Valid()
    ensures DaysBeforeYear(d.year) <= EpochDay(d) < DaysBeforeYear(d.year) + DaysInYear(d.year)
  {
    YearDayBounds(d);
  }

  /** The hour, minute and second are read back from the seconds since midnight. */
  lemma ClockOf(d: DateTime)
    requires d.Valid()
    ensures d.SecondOfDay() / SecondsPerHour == d.hour
    ensures d.SecondOfDay() % SecondsPerHour / SecondsPerMinute == d.minute
    ensures d.SecondOfDay() % SecondsPerMinute == d.second
  {
    assert d.SecondOfDay() % 3600 == d.minute * 60 + d.second;
  }

  /** The epoch day of a valid date lies in that date's year. */
  lemma YearOfEpochDay(d: DateTime)
    requires d.Valid()
    ensures YearOf(EpochDay(d)) == d.year
  {
    EpochDayBounds(d);
    YearUnique(EpochDay(d), d.year, YearOf(EpochDay(d)));
  }

  /** The place of an epoch day in its year lies within that year. */
  lemma YearDayOf(days: int, y: int, yday: int)
    requires YearOf(days) == y && days == DaysBeforeYear(y) + yday
    ensures 0 <= yday < DaysInYear(y)
  {
  }

  /** Once the year of an epoch day is known, the date is found from the day's place in that year. */
  lemma CivilFromYearOf(days: int, y: int, yday: int)
    requires YearOf(days) == y && days == DaysBeforeYear(y) + yday
    ensures 0 <= yday < DaysInYear(y)
    ensures CivilFromDays(days) == CivilFromYearDay(y, yday)
  {
    YearDayOf(days, y, yday);
  }

  /** The year day of a valid date gives back that date. */
  lemma CivilOfYearDay(d: DateTime)
    requires d.Valid()
    ensures 0 <= d.YearDay() < DaysInYear(d.year)
    ensures CivilFromYearDay(d.year, d.YearDay()) == d.(hour := 0, minute := 0, second := 0)
  {
    YearDayBounds(d);
    MonthUnique(d.year, d.YearDay(), d.month, MonthContaining(d.year, d.YearDay(), 1));
  }

  /** The epoch day of a valid date gives back that date. */
  lemma CivilOfEpochDay(d: DateTime)
    requires d.Valid()
    ensures CivilFromDays(EpochDay(d)) == d.(hour := 0, minute := 0, second := 0)
  {
    YearOfEpochDay(d);
    YearDayBounds(d);
    CivilFromYearOf(EpochDay(d), d.year, d.YearDay());
    CivilOfYearDay(d);
  }

  /** Reading what was written gives back the date-time. */
  lemma ReadAfterWrite(d: DateTime)
    requires d.Valid()
    ensures FromUnixSeconds(ToUnixSeconds(d)) == d
  {
    CivilOfEpochDay(d);
    ClockOf(d);
  }

  /** Writing is injective on valid date-times. */
  lemma WriteInjective(a: DateTime, b: DateTime)
    requires a.Valid() && b.Valid()
    requires ToUnixSeconds(a) == ToUnixSeconds(b)
    ensures a == b
  {
    ReadAfterWrite(a);
    ReadAfterWrite(b);
  }

  // ---------------------------------------------------------------------------
  // Order

  /** Between valid values, a comes first in the calendar exactly when it is written as a smaller timestamp. */
  lemma BeforeIffEarlier(a: DateTime, b: DateTime)
    requires a.Valid() && b.Valid()
    ensures Before(a, b) <==> ToUnixSeconds(a) < ToUnixSeconds(b)
  {
    BeforeImpliesEarlier(a, b);
    BeforeImpliesEarlier(b, a);
    if !Before(a, b) && !Before(b, a) {
      assert a == b;
    }
  }

  /** A later month of the same year starts no earlier than the end of an earlier one. */
  lemma MonthsOrdered(y: int, m1: int, m2: int)
    requires 1 <= m1 < m2 <= 13
    ensures DaysBeforeMonth(y, m1 + 1) <= DaysBeforeMonth(y, m2)
  {
  }

  /** A calendar day earlier in the year-month-day order has a smaller epoch day. */
  lemma DayOrder(a: DateTime, b: DateTime)
    requires a.Valid() && b.Valid()
    requires || a.year < b.year
             || (a.year == b.year && a.month < b.month)
             || (a.year == b.year && a.month == b.month && a.day < b.day)
    ensures EpochDay(a) < EpochDay(b)
  {
    if a.year < b.year {
      EpochDayBounds(a);
      EpochDayBounds(b);
      YearsOrdered(a.year, b.year);
      YearStep(a.year);
    } else if a.month < b.month {
      YearDayBounds(a);
      YearDayBounds(b);
      MonthsOrdered(a.year, a.month, b.month);
    }
  }

  lemma BeforeImpliesEarlier(a: DateTime, b: DateTime)
    requires a.Valid() && b.Valid()
    ensures Before(a, b) ==> ToUnixSeconds(a) < ToUnixSeconds(b)
  {
    if Before(a, b) {
      ClockBounds(a);
      ClockBounds(b);
      if a.year == b.year && a.month == b.month && a.day == b.day {
        assert a.SecondOfDay() < b.SecondOfDay();
      } else {
        DayOrder(a, b);
      }
    }
  }

  /** Reading is strictly increasing: a later timestamp is a later date-time. */
  lemma ReadIncreasing(s1: int, s2: int)
    requires s1 < s2
    ensures Before(FromUnixSeconds(s1), FromUnixSeconds(s2))
  {
    WriteAfterRead(s1);
    WriteAfterRead(s2);
    BeforeIffEarlier(FromUnixSeconds(s1), FromUnixSeconds(s2));
  }

  /** 604800 seconds later is seven calendar days later at the same time of day. */
  lemma WeekLater(s: int)
    ensures EpochDay(FromUnixSeconds(s + SecondsPerWeek)) == EpochDay(FromUnixSeconds(s)) + 7
    ensures FromUnixSeconds(s + SecondsPerWeek).SecondOfDay() == FromUnixSeconds(s).SecondOfDay()
  {
    assert (s + SecondsPerWeek) / SecondsPerDay == s / SecondsPerDay + 7;
  }

  /** A timestamp that a valid date-time is written as reads back as that date-time. */
  lemma ReadsAs(d: DateTime, s: int)
    requires d.Valid() && ToUnixSeconds(d) == s
    ensures FromUnixSeconds(s) == d
  {
    ReadAfterWrite(d);
  }

  /** The epoch itself is written as 0, and 0 reads as the epoch. */
  lemma EpochIsZero(zero: int)
    requires zero == 0
    ensures ToUnixSeconds(Epoch) == zero
    ensures FromUnixSeconds(zero) == Epoch
  {
    ReadsAs(Epoch, zero);
  }

  /** The week starts that the client tests decode: 2013-05-05 and 2013-05-12 at midnight UTC. */
  lemma SampleWeekStarts(first: int, second: int)
    requires first == 1367712000 && second == 1368316800
    ensures FromUnixSeconds(first) == DateTime(2013, 5, 5, 0, 0, 0)
    ensures FromUnixSeconds(second) == DateTime(2013, 5, 12, 0, 0, 0)
    ensures second - first == SecondsPerWeek
  {
    var fifth, twelfth := DateTime(2013, 5, 5, 0, 0, 0), DateTime(2013, 5, 12, 0, 0, 0);
    assert DaysBeforeYear(2013) == 15706;
    assert EpochDay(fifth) == 15830 && EpochDay(twelfth) == 15837;
    assert fifth.Valid() && twelfth.Valid();
    assert ToUnixSeconds(fifth) == 15830 * SecondsPerDay;
    assert ToUnixSeconds(twelfth) == 15837 * SecondsPerDay;
    ReadsAs(fifth, first);
    ReadsAs(twelfth, second);
  }

  /** A written timestamp reads back as the value it was written from. */
  lemma ReadWritten(d: DateTime)
    requires d.Valid()
    requires MinInt64 <= ToUnixSeconds(d) <= MaxInt64
    ensures Read(Number(ToUnixSeconds(d))) == Success(d)
  {
    ReadAfterWrite(d);
  }
}

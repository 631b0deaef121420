/**
 * The broken-down time `struct tm` and the library's own UTC civil-to-epoch conversion
 * (`is_leapyear` and the fallback `timegm`), with the properties that make it the
 * "Seconds Since the Epoch" of POSIX.1-2017 Base Definitions, section 4.16.
 */
module Civil {
  import TimeT

  /**
   * `struct tm`: `year` counts from 1900, `mon` from 0 (January), `wday` from 0 (Sunday),
   * `yday` from 0 (January 1st); `isdst` is positive, zero, or negative for "unknown".
   */
  datatype Tm = Tm(year: int, mon: int, mday: int, hour: int, min: int, sec: int,
                   wday: int, yday: int, isdst: int)

  /** The range of a C `int`. */
  const CIntMin := -0x8000_0000
  const CIntMax := 0x7fff_ffff

  /** A C `int` sum as the machine computes it: reduced modulo 2^32 into [INT_MIN, INT_MAX]. */
  function CastInt(x: int): (r: int)
    ensures CIntMin <= r <= CIntMax
    ensures (x - r) % UIntModulus == 0
    ensures CIntMin <= x <= CIntMax ==> r == x
  {
    (x - CIntMin) % UIntModulus + CIntMin
  }

  /** The ranges of a broken-down time produced by the C library; `year` is a C `int`. */
  predicate ValidTm(tm: Tm) {
    && CIntMin <= tm.year <= CIntMax
    && 0 <= tm.mon < 12
    && 1 <= tm.mday <= 31
    && 0 <= tm.hour < 24
    && 0 <= tm.min < 60
    && 0 <= tm.sec <= 60
    && 0 <= tm.wday < 7
    && 0 <= tm.yday < 366
  }

  const SecondsPerDay := 24 * 60 * 60
  const EpochYear := 70
  const UIntModulus := 0x1_0000_0000

  /**
   * `is_leapyear`. Its parameter is `unsigned int`, so a negative year is first reduced
   * modulo 2^32; for years 0 .. 2^32-1 it is the Gregorian rule.
   */
  function IsLeapYear(y: int): (leap: bool)
    ensures 0 <= y < UIntModulus ==> (leap <==> y % 4 == 0 && (y % 100 != 0 || y % 400 == 0))
  {
    var u := y % UIntModulus;
    u % 4 == 0 && (u % 100 != 0 || u % 400 == 0)
  }

  /** Seconds in the year `tm_year == y`. */
  function YearSeconds(y: int): int {
    if IsLeapYear(y + 1900) then 366 * SecondsPerDay else 365 * SecondsPerDay
  }

  /** Seconds from the start of 1970 to the start of `tm_year == y`; negative before 1970. */
  function YearsSeconds(y: int): int
    decreases if y < EpochYear then EpochYear - y else y - EpochYear
  {
    if y == EpochYear then 0
    else if y > EpochYear then YearsSeconds(y - 1) + YearSeconds(y - 1)
    else YearsSeconds(y + 1) - YearSeconds(y)
  }

  /** `ndays`: month lengths of a common year (row 0) and of a leap year (row 1). */
  const NDays: seq<seq<int>> := [
    [31, 28, 31, 30, 31, 30, 31, 31, 30, 31, 30, 31],
    [31, 29, 31, 30, 31, 30, 31, 31, 30, 31, 30, 31]
  ]

  function MonthRow(y: int): (row: seq<int>)
    ensures |row| == 12
  {
    NDays[if IsLeapYear(y + 1900) then 1 else 0]
  }

  /** Days in the months before month `m` (0-based) of a year with month lengths `row`. */
  function DaysBeforeMonth(row: seq<int>, m: int): int
    requires 0 <= m <= |row|
  {
    if m == 0 then 0 else DaysBeforeMonth(row, m - 1) + row[m - 1]
  }

  /** The day of the year (0-based) that a date denotes; `mday` past the month's end runs on. */
  function YearDay(tm: Tm): int
    requires 0 <= tm.mon < 12
  {
    DaysBeforeMonth(MonthRow(tm.year), tm.mon) + tm.mday - 1
  }

  /** The value `timegm` computes: each field contributes linearly, nothing is range-checked. */
  function CivilSeconds(tm: Tm): int
    requires 0 <= tm.mon < 12
  {
    YearsSeconds(tm.year) + YearDay(tm) * SecondsPerDay + tm.hour * 60 * 60 + tm.min * 60 + tm.sec
  }

  /** The value of `timegm`, term by term as its loops and sums add it up. */
  lemma CivilSecondsTerms(tm: Tm)
    requires 0 <= tm.mon < 12
    ensures CivilSeconds(tm) == YearsSeconds(tm.year) + DaysBeforeMonth(MonthRow(tm.year), tm.mon) * 86400
                                + (tm.mday - 1) * 86400 + tm.hour * 60 * 60 + tm.min * 60 + tm.sec
  {
  }

  /** `timegm`: whole years from 1970, then whole months of the target year, then the rest. */
  method Timegm(tm: Tm) returns (r: int)
    requires 0 <= tm.mon < 12
    ensures r == CivilSeconds(tm)
  {
    var nday := NDays[if IsLeapYear(tm.year + 1900) then 1 else 0];
    r := 0;
    if tm.year >= EpochYear {
      var i := EpochYear;
      while i < tm.year
        invariant EpochYear <= i <= tm.year
        invariant r == YearsSeconds(i)
      {
        r := r + if IsLeapYear(i + 1900) then 366 * 24 * 60 * 60 else 365 * 24 * 60 * 60;
        YearsSecondsStep(i);
        i := i + 1;
      }
    } else {
      var i := tm.year;
      while i < EpochYear
        invariant tm.year <= i <= EpochYear
        invariant r == YearsSeconds(tm.year) - YearsSeconds(i)
      {
        r := r - if IsLeapYear(i + 1900) then 366 * 24 * 60 * 60 else 365 * 24 * 60 * 60;
        YearsSecondsStep(i);
        i := i + 1;
      }
    }
    var i := 0;
    while i < tm.mon
      invariant 0 <= i <= tm.mon
      invariant r == YearsSeconds(tm.year) + DaysBeforeMonth(nday, i) * 86400
    {
      r := r + nday[i] * 24 * 60 * 60;
      i := i + 1;
    }
    r := r + (tm.mday - 1) * 24 * 60 * 60;
    CivilSecondsTerms(tm);
    r := r + tm.hour * 60 * 60;
    r := r + tm.min * 60;
    r := r + tm.sec;
  }

  /** Leap days between 1970 and the start of `tm_year == y`, by the Gregorian counting rule (floor division). */
  function LeapDays(y: int): int {
    (y - 69) / 4 - (y - 1) / 100 + (y + 299) / 400
  }

  /** One more than a multiple of the divisor moves floor division on by one. */
  lemma DivStep(a: int, d: int)
    requires d == 4 || d == 100 || d == 400
    ensures (a + 1) / d - a / d == if (a + 1) % d == 0 then 1 else 0
  {
    if d == 4 {
      assert (a + 1) / 4 - a / 4 == if (a + 1) % 4 == 0 then 1 else 0;
    } else if d == 100 {
      assert (a + 1) / 100 - a / 100 == if (a + 1) % 100 == 0 then 1 else 0;
    } else {
      assert (a + 1) / 400 - a / 400 == if (a + 1) % 400 == 0 then 1 else 0;
    }
  }

  lemma LeapDaysStep(y: int)
    requires -1900 <= y < UIntModulus - 1900
    ensures LeapDays(y + 1) == LeapDays(y) + if IsLeapYear(y + 1900) then 1 else 0
  {
    DivStep(y - 69, 4);
    DivStep(y - 1, 100);
    DivStep(y + 299, 400);
    assert (y - 68) % 4 == (y + 1900) % 4;
    assert y % 100 == (y + 1900) % 100;
    assert (y + 300) % 400 == (y + 1900) % 400;
  }

  /** From year 0 on, the year loop of `timegm` adds 365 days a year plus one per Gregorian leap day. */
  lemma {:induction false} YearsSecondsClosedForm(y: int)
    requires -1900 <= y < UIntModulus - 1900
    ensures YearsSeconds(y) == ((y - EpochYear) * 365 + LeapDays(y)) * 86400
    decreases if y < EpochYear then EpochYear - y else y - EpochYear
  {
    if y > EpochYear {
      YearsSecondsClosedForm(y - 1);
      LeapDaysStep(y - 1);
    } else if y < EpochYear {
      YearsSecondsClosedForm(y + 1);
      LeapDaysStep(y);
    }
  }

  /**
   * POSIX.1-2017 Base Definitions, section 4.16: for years from 1970 on, `timegm` is
   * tm_sec + tm_min*60 + tm_hour*3600 + tm_yday*86400 + (tm_year-70)*31536000
   * + ((tm_year-69)/4)*86400 - ((tm_year-1)/100)*86400 + ((tm_year+299)/400)*86400.
   */
  lemma PosixSecondsSinceEpoch(tm: Tm)
    requires EpochYear <= tm.year <= CIntMax && 0 <= tm.mon < 12
    ensures CivilSeconds(tm) ==
      tm.sec + tm.min * 60 + tm.hour * 3600 + YearDay(tm) * 86400 + (tm.year - 70) * 31536000
      + ((tm.year - 69) / 4) * 86400 - ((tm.year - 1) / 100) * 86400 + ((tm.year + 299) / 400) * 86400
  {
    YearsSecondsClosedForm(tm.year);
  }

  /** Days before each month: 0, 31, 59, ... for a common year, one more from March on in a leap year. */
  lemma {:induction false} DaysBeforeMonthTable(leap: bool, m: int)
    requires 0 <= m <= 12
    ensures DaysBeforeMonth(NDays[if leap then 1 else 0], m) ==
            [0, 31, 59, 90, 120, 151, 181, 212, 243, 273, 304, 334, 365][m] + if leap && m >= 2 then 1 else 0
  {
    if m > 0 {
      DaysBeforeMonthTable(leap, m - 1);
    }
  }

  /** 1970-01-01 00:00:00 is second 0, and 1969-12-31 23:59:59 is second -1. */
  lemma EpochIsZero()
    ensures CivilSeconds(Tm(70, 0, 1, 0, 0, 0, 0, 0, -1)) == 0
    ensures CivilSeconds(Tm(69, 11, 31, 23, 59, 59, 0, 0, -1)) == -1
  {
    assert !IsLeapYear(1969);
    DaysBeforeMonthTable(false, 11);
  }

  /** Adding one to `tm_sec` adds exactly one second, whatever the other fields. */
  lemma NextSecond(tm: Tm)
    requires 0 <= tm.mon < 12
    ensures CivilSeconds(tm.(sec := tm.sec + 1)) == CivilSeconds(tm) + 1
  {
  }

  /** Hour 24 of a day is hour 0 of the next day (which may itself run past the month's end). */
  lemma Hour24IsNextMidnight(tm: Tm)
    requires 0 <= tm.mon < 12
    ensures CivilSeconds(tm.(hour := 24)) == CivilSeconds(tm.(mday := tm.mday + 1, hour := 0))
  {
  }

  /** A day past the end of a month is a day of the next month: February 30 is March 1 or 2. */
  lemma MonthCarry(tm: Tm)
    requires 0 <= tm.mon < 11
    ensures CivilSeconds(tm.(mday := tm.mday + MonthRow(tm.year)[tm.mon])) ==
            CivilSeconds(tm.(mon := tm.mon + 1))
  {
  }

  lemma DaysInYear(y: int)
    ensures DaysBeforeMonth(MonthRow(y), 11) + MonthRow(y)[11] == YearSeconds(y) / SecondsPerDay
  {
    DaysBeforeMonthTable(IsLeapYear(y + 1900), 11);
  }

  /** December 32 is January 1 of the next year. */
  lemma YearCarry(tm: Tm)
    requires tm.mon == 11
    ensures CivilSeconds(tm.(mday := tm.mday + 31)) == CivilSeconds(tm.(year := tm.year + 1, mon := 0))
  {
    DaysInYear(tm.year);
  }

  lemma LeapDaysShift(y: int)
    ensures LeapDays(y + 400) == LeapDays(y) + 97
  {
    assert (y + 400 - 69) / 4 == (y - 69) / 4 + 100;
    assert (y + 400 - 1) / 100 == (y - 1) / 100 + 4;
    assert (y + 400 + 299) / 400 == (y + 299) / 400 + 1;
  }

  /** The Gregorian cycle: 400 years are exactly 146097 days, 97 of the years being leap years. */
  lemma FourHundredYearCycle(y: int)
    requires -1900 <= y && y + 400 < UIntModulus - 1900
    ensures YearsSeconds(y + 400) - YearsSeconds(y) == 146097 * SecondsPerDay
    ensures LeapDays(y + 400) - LeapDays(y) == 97
  {
    YearsSecondsClosedForm(y);
    YearsSecondsClosedForm(y + 400);
    LeapDaysShift(y);
  }

  /** The unsigned conversion: the year -100 (not a Gregorian leap year) counts as one. */
  lemma NegativeYearsWrap()
    ensures IsLeapYear(-100)
    ensures !IsLeapYear(-100 + 400 * 5)
  {
  }

  lemma {:induction false} YearsSecondsBounds(y: int)
    ensures y >= EpochYear ==> 0 <= YearsSeconds(y) <= (y - EpochYear) * 366 * SecondsPerDay
    ensures y <= EpochYear ==> (y - EpochYear) * 366 * SecondsPerDay <= YearsSeconds(y) <= 0
    decreases if y < EpochYear then EpochYear - y else y - EpochYear
  {
    if y > EpochYear {
      YearsSecondsBounds(y - 1);
    } else if y < EpochYear {
      YearsSecondsBounds(y + 1);
    }
  }

  /**
   * With `tm_year` a C int and the other fields in the ranges `time_mktime` admits, the
   * result of `timegm` lies within 2^31 + 72 years of 366 days of the Epoch, so it fits a
   * 64-bit time_t and the `time_t` accumulator of `timegm` never overflows.
   */
  lemma CivilSecondsFitsTimeT(tm: Tm)
    requires CIntMin <= tm.year <= CIntMax && 0 <= tm.mon < 12 && 1 <= tm.mday <= 31
    requires 0 <= tm.hour <= 24 && 0 <= tm.min <= 59 && 0 <= tm.sec <= 60
    ensures -0x8000_0046 * 31622400 <= CivilSeconds(tm) <= 0x7fff_ffbb * 31622400
    ensures TimeT.InTimeT(TimeT.Host, CivilSeconds(tm))
  {
    YearsSecondsRange(tm.year);
    var ys := YearsSeconds(tm.year);
    var yd := YearDay(tm);
    var dayPart := YearDayRange(tm);
    var rest := tm.hour * 3600 + tm.min * 60 + tm.sec;
    assert 0 <= rest <= 2 * 31622400;
    assert CivilSeconds(tm) == ys + (dayPart + rest);
    assert TimeT.TimeMin(TimeT.Host) == -0x8000_0000_0000_0000;
    assert TimeT.TimeMax(TimeT.Host) == 0x7fff_ffff_ffff_ffff;
  }

  /** The whole years before a C int `tm_year` span at most 2^31 + 70 years of 366 days. */
  lemma YearsSecondsRange(y: int)
    requires CIntMin <= y <= CIntMax
    ensures -0x8000_0046 * 31622400 <= YearsSeconds(y) <= 0x7fff_ffb9 * 31622400
  {
    YearsSecondsBounds(y);
    if y >= EpochYear {
      MulMono(y - EpochYear, 0x7fff_ffb9, 366 * SecondsPerDay);
    } else {
      MulMono(-0x8000_0046, y - EpochYear, 366 * SecondsPerDay);
    }
  }

  /** The days before `tm_mday` of a month, in seconds, are less than 396 days. */
  lemma YearDayRange(tm: Tm) returns (dayPart: int)
    requires 0 <= tm.mon < 12 && 1 <= tm.mday <= 31
    ensures dayPart == YearDay(tm) * SecondsPerDay
    ensures 0 <= dayPart <= 396 * SecondsPerDay
  {
    DaysBeforeMonthTable(IsLeapYear(tm.year + 1900), tm.mon);
    var yd := YearDay(tm);
    assert 0 <= yd <= 366 + 30;
    MulMono(yd, 396, SecondsPerDay);
    MulMono(0, yd, SecondsPerDay);
    dayPart := yd * SecondsPerDay;
  }

  lemma MulMono(a: int, b: int, c: int)
    requires a <= b && 0 <= c
    ensures a * c <= b * c
  {
    assert b * c - a * c == (b - a) * c;
  }

  /** A broken-down time in normal form: each field within its unit and the day within its month. */
  predicate Canonical(tm: Tm) {
    && 0 <= tm.mon < 12
    && 1 <= tm.mday <= MonthRow(tm.year)[tm.mon]
    && 0 <= tm.hour < 24 && 0 <= tm.min < 60 && 0 <= tm.sec < 60
  }

  lemma YearsSecondsStep(y: int)
    ensures YearsSeconds(y + 1) == YearsSeconds(y) + YearSeconds(y)
  {
  }

  /** The start of a later year is no earlier than the end of an earlier one. */
  lemma {:induction false} YearsSecondsIncreasing(a: int, b: int)
    requires a < b
    ensures YearsSeconds(a + 1) <= YearsSeconds(b)
    decreases b - a
  {
    if a + 1 < b {
      YearsSecondsIncreasing(a + 1, b);
      YearsSecondsStep(a + 1);
    }
  }

  /** Every month has 28 to 31 days. */
  lemma MonthLength(y: int, m: int)
    requires 0 <= m < 12
    ensures 28 <= MonthRow(y)[m] <= 31
  {
    var row := MonthRow(y);
    if m < 6 {
      if m == 0 { assert row[0] == 31; }
      else if m == 1 { assert row[1] >= 28; }
      else if m == 2 { assert row[2] == 31; }
      else if m == 3 { assert row[3] == 30; }
      else if m == 4 { assert row[4] == 31; }
      else { assert row[5] == 30; }
    } else {
      if m == 6 { assert row[6] == 31; }
      else if m == 7 { assert row[7] == 31; }
      else if m == 8 { assert row[8] == 30; }
      else if m == 9 { assert row[9] == 31; }
      else if m == 10 { assert row[10] == 30; }
      else { assert row[11] == 31; }
    }
  }

  /** The start of a later month is no earlier than the end of an earlier one. */
  lemma {:induction false} MonthsIncreasing(y: int, a: int, b: int)
    requires 0 <= a < b <= 12
    ensures DaysBeforeMonth(MonthRow(y), a + 1) <= DaysBeforeMonth(MonthRow(y), b)
    decreases b - a
  {
    if a + 1 < b {
      MonthsIncreasing(y, a + 1, b);
      MonthLength(y, a + 1);
    }
  }

  /** Quotient and remainder by d are unique. */
  lemma SplitUnique(q1: int, r1: int, q2: int, r2: int, d: int)
    requires 0 <= r1 < d && 0 <= r2 < d && q1 * d + r1 == q2 * d + r2
    ensures q1 == q2 && r1 == r2
  {
    if q1 < q2 {
      MulMono(q1 + 1, q2, d);
      assert false;
    } else if q2 < q1 {
      MulMono(q2 + 1, q1, d);
      assert false;
    }
  }

  /** A time in normal form lies within its own year. */
  lemma InYear(tm: Tm)
    requires Canonical(tm)
    ensures YearsSeconds(tm.year) <= CivilSeconds(tm) < YearsSeconds(tm.year + 1)
  {
    YearsSecondsStep(tm.year);
    var leap := IsLeapYear(tm.year + 1900);
    var row := MonthRow(tm.year);
    assert row == NDays[if leap then 1 else 0];
    if tm.mon < 11 {
      MonthsIncreasing(tm.year, tm.mon, 12);
    }
    assert DaysBeforeMonth(row, tm.mon + 1) == DaysBeforeMonth(row, tm.mon) + row[tm.mon];
    var days := DaysBeforeMonth(row, 12);
    DaysBeforeMonthTable(leap, tm.mon);
    DaysBeforeMonthTable(leap, 12);
    assert days * SecondsPerDay == YearSeconds(tm.year);
    var yd := YearDay(tm);
    assert 0 <= DaysBeforeMonth(row, tm.mon) && yd == DaysBeforeMonth(row, tm.mon) + (tm.mday - 1);
    assert 0 <= yd <= days - 1;
    var rest := tm.hour * 3600 + tm.min * 60 + tm.sec;
    assert 0 <= rest < SecondsPerDay;
    DayWithinYear(yd, rest, days);
    assert CivilSeconds(tm) == YearsSeconds(tm.year) + (yd * SecondsPerDay + rest);
  }

  /** A second of day `yd` of a `days`-day year lies within that year. */
  lemma DayWithinYear(yd: int, rest: int, days: int)
    requires 0 <= yd < days && 0 <= rest < SecondsPerDay
    ensures 0 <= yd * SecondsPerDay + rest < days * SecondsPerDay
  {
    MulMono(0, yd, SecondsPerDay);
    MulMono(yd + 1, days, SecondsPerDay);
  }

  /** `timegm` is one-to-one on times in normal form: the second it gives determines every field. */
  lemma CivilSecondsInjective(a: Tm, b: Tm)
    requires Canonical(a) && Canonical(b) && CivilSeconds(a) == CivilSeconds(b)
    ensures a.year == b.year && a.mon == b.mon && a.mday == b.mday
    ensures a.hour == b.hour && a.min == b.min && a.sec == b.sec
  {
    InYear(a);
    InYear(b);
    if a.year < b.year {
      YearsSecondsIncreasing(a.year, b.year);
      assert false;
    } else if b.year < a.year {
      YearsSecondsIncreasing(b.year, a.year);
      assert false;
    }
    SplitUnique(YearDay(a), a.hour * 3600 + a.min * 60 + a.sec, YearDay(b), b.hour * 3600 + b.min * 60 + b.sec, SecondsPerDay);
    SplitUnique(a.hour, a.min * 60 + a.sec, b.hour, b.min * 60 + b.sec, 3600);
    SplitUnique(a.min, a.sec, b.min, b.sec, 60);
    if a.mon < b.mon {
      MonthsIncreasing(a.year, a.mon, b.mon);
      assert false;
    } else if b.mon < a.mon {
      MonthsIncreasing(a.year, b.mon, a.mon);
      assert false;
    }
  }
}

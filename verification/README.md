# mruby `Time`, modelled and verified in Dafny

This project models the `Time` class of mruby's `mruby-time` gem (`mrbgems/mruby-time/src/time.c`),
the ISO/IEC 30170 section 15.2.19 Time class of Ruby. A Time holds a second count since the Epoch in
a `time_t`, a microsecond count, one of two zones (UTC or the host's local zone) and the broken-down
`struct tm` of that second in that zone. Its payload may be missing (an allocated but uninitialised
object); every accessor then raises ArgumentError "uninitialized time".

The model works on the build mruby uses on LP64 hosts: signed 64-bit `time_t`, 64-bit `mrb_int`,
32-bit C `int` (`TimeT.Host`). Where the source has no floating point (`MRB_NO_FLOAT`), as in the
difference of two Times, the integer branch is the one modelled. The conversions between `time_t` and
`mrb_int` are modelled for every 32/64-bit, signed/unsigned combination, because the casts in them go
wrong on some builds (see Findings).

Modules, one per file:

- `Wrappers` (`wrappers.dfy`): `Option` and `Result`.
- `Errors` (`errors.dfy`): one constructor per exception message, with its Ruby class.
- `TimeT` (`time_t.dfy`): the integer types of a build, `MRB_TIME_MIN`/`MRB_TIME_MAX`, C casts as
  wrap-around, `mrb_to_time_t`'s integer branch and `fixable_time_t_p`, as written and as intended.
- `Civil` (`civil.dfy`): `struct tm`, `is_leapyear` and the library's own `timegm`. The loops are a
  method proved equal to a closed formula. That formula is proved to be the POSIX "Seconds Since the
  Epoch" from 1970 on, to carry out-of-range fields, and to be one-to-one on dates in normal form.
- `Format` (`format.dfy`): the `asctime` text, built as `snprintf` builds it, with its column layout
  and the proof that it always fits the 32-byte buffer.
- `TimeValues` (`time_value.dfy`): the pure operations on (sec, usec, zone) values. These are
  microsecond normalisation, `<=>` and `==`, the operand conversion, the checked `+` and `-`, and the
  argument check and epoch-minus-one retry of `Time.gm`.
- `TimeObjects` (`time_object.dfy`): the `Time` class, whose fields the methods update in place.
  `gmtime_r`/`localtime_r` are a `Calendar` function passed in, and so is the host `mktime` used
  for the local zone.
- `Clock` (`clock.dfy`): the microsecond tie-break counter of builds without `gettimeofday`.

## Model

| member | source | states |
|---|---|---|
| Civil.IsLeapYear | mruby/mrbgems/mruby-time/src/time.c:142-146 | for years 0 to 2^32-1 the result is the Gregorian rule: divisible by 4, and not by 100 unless by 400 |
| Civil.Timegm | mruby/mrbgems/mruby-time/src/time.c:148-175 | the year loops, the month loop and the linear terms return exactly `CivilSeconds(tm)` |
| Civil.YearsSecondsClosedForm | mruby/mrbgems/mruby-time/src/time.c:157-166 | from year 0 on, the year loops add 365 days per year plus one day per Gregorian leap year between 1970 and the target, subtracting before 1970 |
| Civil.PosixSecondsSinceEpoch | mruby/mrbgems/mruby-time/src/time.c:148-175 | for years from 1970 on, `timegm` equals the formula of POSIX.1-2017 Base Definitions, section 4.16 |
| Civil.DaysBeforeMonthTable | mruby/mrbgems/mruby-time/src/time.c:150-153 | the months before month m hold 0, 31, 59, ..., 334, 365 days, one more from March on in a leap year |
| Civil.MonthLength | mruby/mrbgems/mruby-time/src/time.c:150-153 | every entry of both `ndays` rows is between 28 and 31 |
| Civil.DaysInYear | mruby/mrbgems/mruby-time/src/time.c:150-160 | the twelve month lengths of a row add up to the length of the year the year loop counts |
| Civil.EpochIsZero | mruby/mrbgems/mruby-time/src/time.c:148-175 | 1970-01-01 00:00:00 converts to 0 and 1969-12-31 23:59:59 to -1 |
| Civil.NextSecond | mruby/mrbgems/mruby-time/src/time.c:174 | adding 1 to `tm_sec` adds exactly 1 to the result, whatever the other fields |
| Civil.Hour24IsNextMidnight | mruby/mrbgems/mruby-time/src/time.c:171-172 | hour 24 of a day converts like hour 0 of the next day |
| Civil.MonthCarry | mruby/mrbgems/mruby-time/src/time.c:167-171 | a day past the month's end carries into the next month (February 30 is March 1 or 2) and is not rejected |
| Civil.YearCarry | mruby/mrbgems/mruby-time/src/time.c:157-171 | December 32 converts like January 1 of the next year |
| Civil.FourHundredYearCycle | mruby/mrbgems/mruby-time/src/time.c:142-166 | 400 consecutive years are exactly 146097 days, 97 of them leap days |
| Civil.NegativeYearsWrap | mruby/mrbgems/mruby-time/src/time.c:142-146 | the unsigned parameter makes year -100 count as a leap year, while year 1900 does not |
| Civil.YearsSecondsBounds | mruby/mrbgems/mruby-time/src/time.c:157-166 | the year loops move at most 366 days per year, in the direction of the target year |
| Civil.CastInt | mruby/mrbgems/mruby-time/src/time.c:725 | a C `int` sum lies in [INT_MIN, INT_MAX], is congruent to the exact sum modulo 2^32, and is the exact sum when that fits |
| Civil.YearsSecondsRange | mruby/mrbgems/mruby-time/src/time.c:157-166 | for a C `int` `tm_year` the year loops end within 2^31+70 years of 366 days of the Epoch |
| Civil.CivilSecondsFitsTimeT | mruby/mrbgems/mruby-time/src/time.c:148-175 | with a C `int` year and the other fields in the ranges `time_mktime` admits, the result stays within 2^31+72 years of 366 days of the Epoch, inside a 64-bit `time_t` |
| Civil.InYear | mruby/mrbgems/mruby-time/src/time.c:148-175 | a date in normal form converts to a second between the start of its year and the start of the next |
| Civil.CivilSecondsInjective | mruby/mrbgems/mruby-time/src/time.c:148-175 | two dates in normal form that convert to the same second have the same year, month, day, hour, minute and second |
| TimeT.CastTimeT | mruby/mrbgems/mruby-time/src/time.c:285 | `(time_t)x` lies in the `time_t` range, is congruent to x modulo 2^bits, and is x when x is in range |
| TimeT.CastMrbInt | mruby/mrbgems/mruby-time/src/time.c:218 | `(mrb_int)x` lies in the `mrb_int` range, is congruent to x modulo 2^bits, and is x when x is in range |
| TimeT.ToTimeTAsWritten | mruby/mrbgems/mruby-time/src/time.c:275-286 | the range test as written: an accepted integer becomes the `time_t` congruent to it, a rejected one raises "out of Time range" |
| TimeT.ToTimeT | mruby/mrbgems/mruby-time/src/time.c:275-297 | an Integer converts exactly when it lies in the `time_t` range, to itself; otherwise ArgumentError "out of Time range" |
| TimeT.ToTimeTAsWrittenCorrectWhenWide | mruby/mrbgems/mruby-time/src/time.c:279-282 | with a signed `time_t` at least as wide as `mrb_int` the written test equals the intended one |
| TimeT.ToTimeTAsWrittenWrapsOnNarrowTime | mruby/mrbgems/mruby-time/src/time.c:279-285 | with 32-bit `time_t` and 64-bit `mrb_int`, 2^31 is accepted and becomes -2^31 |
| TimeT.ToTimeTAsWrittenWrapsOnUnsignedTime | mruby/mrbgems/mruby-time/src/time.c:279-285 | with unsigned `time_t`, -1 is accepted and becomes the largest `time_t` |
| TimeT.FixableAsWritten | mruby/mrbgems/mruby-time/src/time.c:213-221 | the written test never rejects a value that fits in `mrb_int`, and accepts one that does not only on 64-bit signed `time_t` with 32-bit `mrb_int` |
| TimeT.FixableAsWrittenCorrect | mruby/mrbgems/mruby-time/src/time.c:213-221 | the written `fixable_time_t_p` is "fits in `mrb_int`" on every build except 64-bit signed `time_t` with 32-bit `mrb_int` |
| TimeT.FixableAsWrittenWrongOnNarrowInt | mruby/mrbgems/mruby-time/src/time.c:213-221 | on that build the second of 1900-01-01 00:00:00 UTC is called fixable and would convert to 2085978496 |
| TimeT.HostAlwaysFixable | mruby/mrbgems/mruby-time/src/time.c:213-221 | on the host every `time_t` fits in `mrb_int`, by the written and by the intended test |
| TimeT.FromTimeT | mruby/mrbgems/mruby-time/src/time.c:303-324 | a `time_t` becomes the Integer of the same value when it fits in `mrb_int`, and raises "Time too big" otherwise |
| Format.DecimalRoundTrip | mruby/mrbgems/mruby-time/src/time.c:779-782 | the decimal digits printed for a number read back as that number |
| Format.DecimalLength | mruby/mrbgems/mruby-time/src/time.c:779-782 | a number below 10^k prints in at most k digits |
| Format.Asctime | mruby/mrbgems/mruby-time/src/time.c:779-782 | the `snprintf` text of a breakdown, the year printed as the C `int` `tm_year + 1900`, is at least 24 characters (layout and buffer bound in the lemmas below) |
| Format.FormatWidth | mruby/mrbgems/mruby-time/src/time.c:779 | `%2d` and `%02d` are never narrower than their width |
| Format.FormatPrecision | mruby/mrbgems/mruby-time/src/time.c:779 | `%.4d` prints at least four digits |
| Format.PadLeft | mruby/mrbgems/mruby-time/src/time.c:779 | a padded field is the text preceded by pad characters up to the width, never cut |
| Format.ZeroPaddedValue | mruby/mrbgems/mruby-time/src/time.c:779 | a zero-padded number reads back as the number |
| Format.TwoDigits | mruby/mrbgems/mruby-time/src/time.c:779-781 | `%2d` and `%02d` of 0..99 are two characters that read back as the number |
| Format.NameLengths | mruby/mrbgems/mruby-time/src/time.c:184-190 | every weekday and month name is three letters long |
| Format.AsctimeLayout | mruby/mrbgems/mruby-time/src/time.c:779-782 | for a valid breakdown with a four-digit year the text is 24 characters with the names, separators and each field at fixed columns |
| Format.AsctimeReadsBack | mruby/mrbgems/mruby-time/src/time.c:779-782 | day, hour, minute, second and year read back from their columns as the broken-down values |
| Format.AsctimeFitsBuffer | mruby/mrbgems/mruby-time/src/time.c:776-782 | for every valid breakdown the text has at most 31 characters, so the 32-byte buffer never truncates it |
| TimeValues.NDiv | mruby/mrbgems/mruby-time/src/time.c:26 | for a negative dividend `NDIV` is a negative quotient whose multiple lies at most one divisor below the dividend |
| TimeValues.CDiv | mruby/mrbgems/mruby-time/src/time.c:372 | C's `/` by a positive divisor truncates toward zero: the remainder has the dividend's sign and is smaller than the divisor |
| TimeValues.NDivIsFloor | mruby/mrbgems/mruby-time/src/time.c:26 | for a negative dividend `NDIV` is the floor quotient |
| TimeValues.Normalize | mruby/mrbgems/mruby-time/src/time.c:358-380 | the stored usec is in [0, 10^6); an already normalised pair is kept; sec*10^6+usec is preserved unless the carry leaves `time_t`, when the second wraps modulo 2^64 |
| TimeValues.NormalizedUnique | mruby/mrbgems/mruby-time/src/time.c:363-375 | a normalised value is the only one with its zone and its microsecond instant |
| TimeValues.Compare | mruby/mrbgems/mruby-time/src/time.c:599-612 | -1, 0 or 1, 0 exactly on equal (sec, usec) and -1 exactly when lexicographically smaller |
| TimeValues.TimeCmp | mruby/mrbgems/mruby-time/src/time.c:590-613 | nil unless both sides hold Time data, otherwise the lexicographic comparison |
| TimeValues.TimeEq | mruby/mrbgems/mruby-time/src/time.c:576-588 | true only for two Times with data, and then `<=>` gives 0 |
| TimeValues.CmpZeroIffEq | mruby/mrbgems/mruby-time/src/time.c:576-613 | `<=>` gives 0 exactly when `==` is true |
| TimeValues.CompareAntisymmetric | mruby/mrbgems/mruby-time/src/time.c:599-612 | swapping the two sides negates the comparison |
| TimeValues.CompareTransitive | mruby/mrbgems/mruby-time/src/time.c:599-612 | the comparison is transitive |
| TimeValues.EqIgnoresZone | mruby/mrbgems/mruby-time/src/time.c:585 | the same instant in two zones is `==` |
| TimeValues.CompareIsInstantOrder | mruby/mrbgems/mruby-time/src/time.c:599-612 | on normalised values the comparison orders by sec*10^6+usec, in all three outcomes |
| TimeValues.OperandToTimeT | mruby/mrbgems/mruby-time/src/time.c:275-297 | an Integer in `time_t` converts to itself, one outside raises "out of Time range", anything else (a Time too) raises TypeError "cannot convert" |
| TimeValues.AddChecked | mruby/mrbgems/mruby-time/src/time.c:634-645 | the sign-split test fails exactly when the sum leaves `time_t`, with RangeError for addition |
| TimeValues.SubChecked | mruby/mrbgems/mruby-time/src/time.c:678-689 | the sign-split test fails exactly when the difference leaves `time_t`, with RangeError for subtraction |
| TimeValues.PlusValue | mruby/mrbgems/mruby-time/src/time.c:621-648 | `t + n` is t shifted by exactly n seconds with the same usec and zone; it fails with the conversion error or with the addition overflow exactly in those cases |
| TimeValues.MinusValue | mruby/mrbgems/mruby-time/src/time.c:650-693 | with a Time the result is whole seconds; with an Integer it is t shifted back by exactly n, same usec and zone, or the conversion or subtraction error |
| TimeValues.PlusMinusRoundTrip | mruby/mrbgems/mruby-time/src/time.c:621-693 | `(t + n) - n` is t, second, microsecond and zone |
| TimeValues.MinusPlusRoundTrip | mruby/mrbgems/mruby-time/src/time.c:621-693 | `(t - n) + n` is t |
| TimeValues.ElapsedIsFloor | mruby/mrbgems/mruby-time/src/time.c:665-668 | the difference of two Times is the floor of their exact difference in seconds |
| TimeValues.PlusThenDifference | mruby/mrbgems/mruby-time/src/time.c:621-693 | `(t + n) - t` is n |
| TimeValues.ElapsedAntisymmetry | mruby/mrbgems/mruby-time/src/time.c:665-668 | `a - b` and `b - a` add up to 0 when the microseconds agree and to -1 otherwise |
| TimeValues.FieldsInRange | mruby/mrbgems/mruby-time/src/time.c:499-507 | the fields the check admits fill a `struct tm` with a C `int` year, month 0..11, day 1..31, hour 0..24 (24 only at 24:00:00), minute 0..59 and second 0..60 |
| TimeValues.CivilTm | mruby/mrbgems/mruby-time/src/time.c:509-515 | the `struct tm` holds the year minus 1900, the month minus 1, the other fields as given, and DST unknown |
| TimeValues.MkWithRetry | mruby/mrbgems/mruby-time/src/time.c:517-532 | the result is the conversion's value; it fails with "Not a valid time" exactly when the conversion gives -1 and one second later is not 0 |
| TimeValues.TimegmRetryTransparent | mruby/mrbgems/mruby-time/src/time.c:524-532 | with `timegm` as the conversion the retry never rejects |
| TimeValues.GmValue | mruby/mrbgems/mruby-time/src/time.c:485-535 | `Time.gm` fails with "argument out of range" exactly for the listed out-of-range fields (hour 24 only with zero minute and second); otherwise it gives a normalised UTC value at `timegm`*10^6+usec |
| TimeValues.GmNoWrap | mruby/mrbgems/mruby-time/src/time.c:534 | a `Time.gm` second plus any `mrb_int` microsecond carry stays inside `time_t` |
| TimeValues.GmNewYear2024 | mruby/mrbgems/mruby-time/src/time.c:485-535 | `Time.gm(2024)` is second 1704067200 |
| TimeValues.GmEpochMinusOne | mruby/mrbgems/mruby-time/src/time.c:524-532 | `Time.gm(1969, 12, 31, 23, 59, 59)` passes the retry and is second -1 |
| TimeValues.GmMicrosecondCarry | mruby/mrbgems/mruby-time/src/time.c:363-375 | usec -1 borrows a second (-1, 999999) and usec 1500000 carries one (1, 500000) |
| TimeValues.GmHour24 | mruby/mrbgems/mruby-time/src/time.c:499-507 | hour 24 with zero minute and second is accepted and equals midnight of the next day |
| TimeValues.GmFebruary30 | mruby/mrbgems/mruby-time/src/time.c:499-507 | 2023-02-30 is accepted and equals 2023-03-02 |
| TimeObjects.DefaultFields | mruby/mrbgems/mruby-time/src/time.c:542-545 | the given arguments come first; missing ones default to month 1, day 1 and zeros |
| TimeObjects.Time.constructor | mruby/mrbgems/mruby-time/src/time.c:1102 | a freshly allocated Time has no payload |
| TimeObjects.Time.UpdateDatetime | mruby/mrbgems/mruby-time/src/time.c:326-349 | the breakdown becomes the calendar's for (sec, zone); when the calendar fails it is left as it was and the error is "<sec> out of Time range"; sec, usec and zone never change |
| TimeObjects.Time.AllocTime | mruby/mrbgems/mruby-time/src/time.c:358-380 | the step-by-step borrow (by `NDIV`) or carry (by C `/`) stores exactly `Normalize(sec, usec, zone)` in a new object, broken down, or fails with the calendar |
| TimeObjects.Time.At | mruby/mrbgems/mruby-time/src/time.c:382-391 | `Time.at(sec, usec)` fails with the first conversion error; once both convert it succeeds exactly when `localtime_r` breaks down the normalised second, giving a new local Time holding `Normalize(sec, usec, Local)`, and otherwise raises "<sec> out of Time range" |
| TimeObjects.Time.MkTime | mruby/mrbgems/mruby-time/src/time.c:485-535 | the range check first; for UTC the new Time holds exactly `GmValue`; for local time it fails with "Not a valid time" when `mktime` and its retry fail, and otherwise succeeds exactly when `localtime_r` breaks down the normalised second, holding that value, or raises "<sec> out of Time range"; in both zones the calendar is the only other way to fail |
| TimeObjects.Time.Mk | mruby/mrbgems/mruby-time/src/time.c:517-523 | UTC converts by `timegm`, the local zone by the host `mktime` |
| TimeObjects.Time.Initialize | mruby/mrbgems/mruby-time/src/time.c:854-878 | the old payload is dropped first; no arguments give the clock reading in the local zone; otherwise `time_mktime` for the local zone on the fields with defaults: "argument out of range", "Not a valid time", or success exactly when `localtime_r` breaks down the normalised second and "<sec> out of Time range" when it does not; on any error the Time is left without payload |
| TimeObjects.Time.GetPtr | mruby/mrbgems/mruby-time/src/time.c:564-574 | the payload, or ArgumentError "uninitialized time" exactly when there is none |
| TimeObjects.Time.Plus | mruby/mrbgems/mruby-time/src/time.c:621-648 | "uninitialized time" first; then a new Time holding exactly `PlusValue`, or its error, or the breakdown's error |
| TimeObjects.Time.Minus | mruby/mrbgems/mruby-time/src/time.c:650-693 | "uninitialized time" first; then the whole seconds of `MinusValue` for a Time, or a new Time holding its shifted value, or its error |
| TimeObjects.Time.GetZone | mruby/mrbgems/mruby-time/src/time.c:813-839 | `getutc`/`getlocal` give a new Time with the same sec and usec (so `==` holds) in the other zone, freshly broken down; the receiver is unchanged |
| TimeObjects.Time.SetZone | mruby/mrbgems/mruby-time/src/time.c:907-916 | `utc`/`localtime` switch the receiver's zone in place and keep sec and usec; on success they return self with a matching breakdown, and on failure the zone stays switched while the breakdown is stale |
| TimeObjects.Time.InitCopy | mruby/mrbgems/mruby-time/src/time.c:882-903 | copying onto itself changes nothing; a non-Time raises TypeError and an uninitialised source "uninitialized time", both leaving the receiver unchanged; otherwise the receiver takes the whole payload |
| TimeObjects.Time.Year | mruby/mrbgems/mruby-time/src/time.c:719-726 | `tm_year + 1900` as a C `int`: the calendar year when `tm_year` is at most INT_MAX-1900, a negative wrapped value above that; or "uninitialized time" |
| TimeObjects.Time.YearPastIntMaxWraps | mruby/mrbgems/mruby-time/src/time.c:499-507 | `Time.gm(2147485500)` passes the argument check, and a Time broken down into that year answers `year` with -2147481796 |
| TimeObjects.Time.Month | mruby/mrbgems/mruby-time/src/time.c:942-949 | `tm_mon + 1`, in 1..12, or "uninitialized time" (`mon` and `month`) |
| TimeObjects.Time.Day | mruby/mrbgems/mruby-time/src/time.c:920-927 | `tm_mday`, in 1..31, or "uninitialized time" (`mday`, and `day` at lines 789-796) |
| TimeObjects.Time.Hour | mruby/mrbgems/mruby-time/src/time.c:843-850 | `tm_hour`, in 0..23, or "uninitialized time" |
| TimeObjects.Time.Minute | mruby/mrbgems/mruby-time/src/time.c:931-938 | `tm_min`, in 0..59, or "uninitialized time" |
| TimeObjects.Time.Second | mruby/mrbgems/mruby-time/src/time.c:953-960 | `tm_sec`, in 0..60, or "uninitialized time" |
| TimeObjects.Time.Wday | mruby/mrbgems/mruby-time/src/time.c:697-704 | `tm_wday`, in 0..6, or "uninitialized time" |
| TimeObjects.Time.Yday | mruby/mrbgems/mruby-time/src/time.c:708-715 | `tm_yday + 1`, in 1..366, or "uninitialized time" |
| TimeObjects.Time.Usec | mruby/mrbgems/mruby-time/src/time.c:988-995 | the stored microseconds, in 0..999999, or "uninitialized time" |
| TimeObjects.Time.ToI | mruby/mrbgems/mruby-time/src/time.c:977-984 | the stored second as an Integer (it always fits on the host), or "uninitialized time" |
| TimeObjects.Time.IsUtc | mruby/mrbgems/mruby-time/src/time.c:1012-1019 | true exactly for the UTC zone, or "uninitialized time" |
| TimeObjects.Time.IsDst | mruby/mrbgems/mruby-time/src/time.c:801-808 | the C truth value of `tm_isdst`, or "uninitialized time" |
| TimeObjects.Time.WdayIs | mruby/mrbgems/mruby-time/src/time.c:1050-1094 | `sunday?` to `saturday?`: true exactly when `wday` is the given number |
| TimeObjects.Time.Asctime | mruby/mrbgems/mruby-time/src/time.c:761-785 | the `asctime` text of the breakdown (year as the C `int` `tm_year + 1900`), shorter than the 32-byte buffer, or "uninitialized time" |
| TimeObjects.Time.GmFieldsRoundTrip | mruby/mrbgems/mruby-time/src/time.c:485-535 | a Time made by `Time.gm` from a date in normal form from year 0 on, broken down by a `gmtime` that inverts `timegm` from year 0 on, returns the given month, day, hour, minute, second and usec from its accessors, and the year as a C `int` |
| TimeObjects.Time.GmBreakdown | mruby/mrbgems/mruby-time/src/time.c:485-535 | under the same conditions the stored microseconds and zone are the given ones and the breakdown holds the given fields |
| TimeObjects.Time.ExactlyOneWeekday | mruby/mrbgems/mruby-time/src/time.c:1050-1094 | an initialised Time answers true to exactly one of the seven weekday predicates |
| Clock.TieBreaker.constructor | mruby/mrbgems/mruby-time/src/time.c:428 | both counters start at 0 |
| Clock.TieBreaker.Sample | mruby/mrbgems/mruby-time/src/time.c:426-440 | a new second restarts the microsecond counter at 0 and the same second adds 1; when the clock does not go back, each reading is strictly later than the previous one |

## Left out

- Floating point: the float branch of `mrb_to_time_t` (lines 229-251), `to_f` (966-972) and the float difference of two Times (659-663). The integer difference (665-668) is modelled instead.
- Big integers: the bigint branches of `mrb_to_time_t` (254-273) and `time_value_from_time_t` (307-313). On the host the bigint branch converts through `mrb_bint_as_int`, which is not part of this model; that an Integer outside `time_t` raises "out of Time range" is the model's choice.
- `hash` (1040-1048): it hashes the bytes of the struct with `mrb_byte_hash`, which is not part of this model. It includes the zone while `eql?` ignores it, so no hash/equality property is stated.
- `to_s`, `inspect`, `zone` and `time_zonename` (728-757, 1021-1038): they are `strftime` output of the host C library.
- The host calendar: `gmtime_r`/`localtime_r` are the `Calendar` parameter, and the local `mktime` is the `localMk` parameter. Their side effects on the `struct tm` they are given (normalising fields, setting `tm_isdst`) are not modelled; the model passes them the fields by value.
- Clock reads in `current_mrb_time` (412-449) and the Win32 `gettimeofday` shim (111-129): the reading is a parameter (`Initialize`'s `nowSec`/`nowUsec`, `Sample`'s `now`). `Time.now` is not modelled separately, because beyond the clock read it is `Initialize` with no arguments.
- `Clock.TieBreaker.Sample`: the counter is not reduced below 10^6 (neither is it in the source), so more than a million readings within one second give a Time whose usec is 10^6 or more. `Initialize` requires a reading with usec below 10^6.
- Object plumbing: `time_wrap`, `mrb_malloc`/`mrb_free`, `mrb_get_args` argument counting and type errors, and class registration (1096-1166). A Time argument is passed as its data value (`TimeValues.Operand`), and an argument of another class as `null` in `InitCopy`.
- `TimeValues.MinusValue`: the difference of two Times is computed on unbounded integers. In C, `tm->sec - tm2->sec` is a `time_t` subtraction that overflows when the two seconds are more than 2^63 apart.
- `TimeObjects.Time.UpdateDatetime`: when the C calendar call fails, the model leaves `datetime` untouched; whatever `gmtime_r`/`localtime_r` write before failing is not modelled.
- The sums inside `Civil.Timegm` are unbounded integers. `Civil.CivilSecondsFitsTimeT` shows that the final value fits in `time_t` for every date `time_mktime` admits; the partial sums of the year loops run monotonically from 0 to the value `Civil.YearsSecondsRange` bounds, and the later sums add non-negative terms up to the final value, so they fit as well.
- The `MRB_HAVE_TYPE_GENERIC_CHECKED_ARITHMETIC_BUILTINS` branches of `+` and `-` (630-633, 674-677): the portable sign-split tests are modelled, and `AddChecked`/`SubChecked` prove that they fail exactly when the builtins would report overflow.
- `mrb_to_time_t` overflow of `tusec` in `time_alloc` (388) cannot happen for Integer arguments, because the first conversion sets it to 0.
- `MRB_NO_STDIO` `asctime` through the C library (767-776): the `snprintf` layout is modelled.
- The debugger's `apiprint.c` is not part of this model. It only evaluates expressions through the interpreter.
- `TimeObjects.Time.Year` and `Format.Asctime`: `tm_year + 1900` overflows a C `int` for `tm_year` above INT_MAX-1900, which C leaves undefined; the model takes the two's-complement wrap (`Civil.CastInt`) that compilers produce.
- `TimeObjects.Time.GmFieldsRoundTrip`: stated for years from 0 on. `is_leapyear` takes its argument modulo 2^32, so `timegm` counts years -100, -200, -300, -500, ... as leap years, and a proleptic Gregorian `gmtime_r` does not give the fields back before year 0.

## Findings

| source | as written | input that shows it | evidently intended | confidence | as-written member | corrected member |
|---|---|---|---|---|---|---|
| mruby/mrbgems/mruby-time/src/time.c:279-285 | the upper bound is tested on `(time_t)i`, which can never exceed MRB_TIME_MAX, and the lower-bound test is skipped for unsigned `time_t` | 32-bit signed `time_t`, 64-bit `mrb_int`: `Time.at(2**31)` is accepted and becomes -2^31 (1901); unsigned `time_t`: `Time.at(-1)` is accepted and becomes the largest `time_t` | an Integer outside the `time_t` range raises ArgumentError "out of Time range" | high for the arithmetic, not executed | TimeT.ToTimeTAsWrittenWrapsOnNarrowTime | TimeT.ToTimeT |
| mruby/mrbgems/mruby-time/src/time.c:213-221 | the lower bound is tested on `(mrb_int)v`, which wraps a `time_t` below MRB_INT_MIN | 64-bit signed `time_t`, 32-bit `mrb_int`: `Time.gm(1900).to_i` (second -2208988800) is called fixable and converts to 2085978496 | report "not fixable" and fall back to a float, a big integer or "Time too big" | high for the arithmetic, not executed | TimeT.FixableAsWrittenWrongOnNarrowInt | TimeT.FromTimeT |

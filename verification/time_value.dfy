/**
 * The value inside a Time object (`struct mrb_time` without its broken-down fields): whole
 * seconds since the Epoch in a `time_t`, microseconds, and one of the two zones. This module
 * holds the pure parts of the Time class on these values: microsecond normalisation, the
 * operand conversion, the overflow-checked `+` and `-`, `<=>` and `==`, and the argument check
 * and retry of `Time.gm`.
 */
module TimeValues {
  import opened Wrappers
  import opened Errors
  import TimeT
  import Civil

  /** `enum mrb_timezone`: only UTC and the host's local zone exist. */
  datatype Zone = Utc | Local

  datatype TimeValue = TimeValue(sec: int, usec: int, zone: Zone)

  const UsecPerSec := 1000000

  /** What every constructed Time holds: a `time_t` second and a microsecond in [0, 10^6). */
  predicate Normalized(v: TimeValue) {
    TimeT.InTimeT(TimeT.Host, v.sec) && 0 <= v.usec < UsecPerSec
  }

  /** The instant as a count of microseconds since the Epoch. */
  function TotalUsec(v: TimeValue): int {
    v.sec * UsecPerSec + v.usec
  }

  // ---------------------------------------------------------------- normalisation

  /** C's integer `/` for a positive divisor: the quotient truncated toward zero. */
  function CDiv(a: int, b: int): (q: int)
    requires b > 0
    ensures a >= 0 ==> 0 <= q && q * b <= a < q * b + b
    ensures a < 0 ==> q <= 0 && q * b - b < a <= q * b
  {
    if a >= 0 then
      DivBracket(a, b);
      a / b
    else
      DivBracket(-a, b);
      -((-a) / b)
  }

  /** For a non-negative dividend, truncating and floor division agree. */
  lemma DivBracket(n: int, b: int)
    requires n >= 0 && b > 0
    ensures 0 <= n / b && (n / b) * b <= n < (n / b) * b + b
    ensures -(n / b) * b == -((n / b) * b)
  {
  }

  /** The `NDIV(x,y)` macro, built on C's truncating `/`; for a negative x it brackets x from below. */
  function NDiv(x: int, y: int): (q: int)
    requires y > 0
    ensures x < 0 ==> q < 0 && q * y <= x < q * y + y
  {
    -CDiv(-(x + 1), y) - 1
  }

  /** For a negative dividend `NDIV` rounds toward minus infinity, where C's `/` rounds toward zero. */
  lemma NDivIsFloor(x: int, y: int)
    requires x < 0 < y
    ensures NDiv(x, y) * y <= x < NDiv(x, y) * y + y
    ensures NDiv(x, y) == x / y
  {
    var q := (-(x + 1)) / y;
    assert q * y <= -(x + 1) < q * y + y;
    assert NDiv(x, y) == -q - 1;
    assert (-q - 1) * y == -(q * y) - y;
    FloorUnique(x, y, -q - 1);
  }

  /** A quotient that brackets the dividend is Dafny's (floor) quotient. */
  lemma FloorUnique(x: int, y: int, q: int)
    requires y > 0 && q * y <= x < q * y + y
    ensures q == x / y && x % y == x - q * y
  {
    var q' := x / y;
    assert q' * y <= x < q' * y + y;
    if q' > q {
      Civil.MulMono(q + 1, q', y);
      assert false;
    } else if q' < q {
      Civil.MulMono(q' + 1, q, y);
      assert false;
    }
  }

  /**
   * The fields `time_alloc_time` stores: the microseconds brought into [0, 10^6) and the whole
   * seconds moved into `sec`. The carry is added in `time_t`, so a sum past the type's range
   * wraps (modulo 2^64); otherwise the instant is exactly the one given.
   */
  function Normalize(sec: int, usec: int, zone: Zone): (v: TimeValue)
    requires TimeT.InTimeT(TimeT.Host, sec) && TimeT.InTimeT(TimeT.Host, usec)
    ensures Normalized(v) && v.zone == zone
    ensures 0 <= usec < UsecPerSec ==> v == TimeValue(sec, usec, zone)
    ensures TimeT.InTimeT(TimeT.Host, sec + usec / UsecPerSec) ==>
              TotalUsec(v) == sec * UsecPerSec + usec
    ensures (v.sec - (sec + usec / UsecPerSec)) % TimeT.Modulus(64) == 0
  {
    TimeValue(TimeT.CastTimeT(TimeT.Host, sec + usec / UsecPerSec), usec % UsecPerSec, zone)
  }

  /** A normalised value is the only one with its zone and instant. */
  lemma NormalizedUnique(v: TimeValue, w: TimeValue)
    requires Normalized(v) && Normalized(w) && v.zone == w.zone
    requires TotalUsec(v) == TotalUsec(w)
    ensures v == w
  {
    FloorUnique(TotalUsec(v), UsecPerSec, v.sec);
    FloorUnique(TotalUsec(w), UsecPerSec, w.sec);
  }

  // ---------------------------------------------------------------- comparison

  /** The argument of a Time method: an Integer, a Time (whose data may be missing), or anything else. */
  datatype Operand = IntArg(i: int) | TimeArg(data: Option<TimeValue>) | OtherArg

  /** The Time data `DATA_CHECK_GET_PTR` finds in an operand, if any. */
  function TimeData(o: Operand): (d: Option<TimeValue>)
    ensures d.Some? <==> o.TimeArg? && o.data.Some?
  {
    if o.TimeArg? then o.data else None
  }

  /** The three-way result of `time_cmp` on two present times. */
  function Compare(a: TimeValue, b: TimeValue): (c: int)
    ensures -1 <= c <= 1
    ensures c == 0 <==> a.sec == b.sec && a.usec == b.usec
    ensures c == -1 <==> a.sec < b.sec || (a.sec == b.sec && a.usec < b.usec)
  {
    if a.sec > b.sec then 1
    else if a.sec < b.sec then -1
    else if a.usec > b.usec then 1
    else if a.usec < b.usec then -1
    else 0
  }

  /** `<=>`: nil unless both the receiver and the argument hold Time data. */
  function TimeCmp(self: Option<TimeValue>, other: Operand): (r: Option<int>)
    ensures r.Some? <==> self.Some? && TimeData(other).Some?
    ensures r.Some? ==> r.value == Compare(self.value, TimeData(other).value)
  {
    match (self, TimeData(other))
    case (Some(a), Some(b)) => Some(Compare(a, b))
    case _ => None
  }

  /** `==` and `eql?`: the same second and microsecond; the zone is not compared. */
  function TimeEq(self: Option<TimeValue>, other: Operand): (eq: bool)
    ensures eq ==> self.Some? && other.TimeArg? && other.data.Some?
    ensures eq ==> TimeCmp(self, other) == Some(0)
  {
    match (self, TimeData(other))
    case (Some(a), Some(b)) => a.sec == b.sec && a.usec == b.usec
    case _ => false
  }

  /** `<=>` returns 0 exactly when `==` is true. */
  lemma CmpZeroIffEq(self: Option<TimeValue>, other: Operand)
    ensures TimeCmp(self, other) == Some(0) <==> TimeEq(self, other)
  {
  }

  /** Swapping the sides negates `<=>`. */
  lemma CompareAntisymmetric(a: TimeValue, b: TimeValue)
    ensures Compare(a, b) == -Compare(b, a)
  {
  }

  lemma CompareTransitive(a: TimeValue, b: TimeValue, c: TimeValue)
    requires Compare(a, b) <= 0 && Compare(b, c) <= 0
    ensures Compare(a, c) <= 0
  {
  }

  /** The same zone-less instant compares equal whatever the zones are. */
  lemma EqIgnoresZone(v: TimeValue, z: Zone)
    ensures TimeEq(Some(v), TimeArg(Some(v.(zone := z))))
  {
  }

  /** On normalised times `<=>` orders by the instant, counted in microseconds. */
  lemma CompareIsInstantOrder(a: TimeValue, b: TimeValue)
    requires Normalized(a) && Normalized(b)
    ensures Compare(a, b) == -1 <==> TotalUsec(a) < TotalUsec(b)
    ensures Compare(a, b) == 0 <==> TotalUsec(a) == TotalUsec(b)
    ensures Compare(a, b) == 1 <==> TotalUsec(a) > TotalUsec(b)
  {
    if a.sec < b.sec {
      assert a.sec * UsecPerSec + UsecPerSec <= b.sec * UsecPerSec;
    } else if a.sec > b.sec {
      assert b.sec * UsecPerSec + UsecPerSec <= a.sec * UsecPerSec;
    }
  }

  // ---------------------------------------------------------------- arithmetic

  /** The integer branch of `mrb_to_time_t`; anything that is not an Integer cannot be converted. */
  function OperandToTimeT(o: Operand): (r: Result<int, Error>)
    ensures r.Success? <==> o.IntArg? && TimeT.InTimeT(TimeT.Host, o.i)
    ensures r.Success? ==> r.value == o.i
    ensures o.IntArg? && r.Failure? ==> r.error == OutOfTimeRange(o.i)
    ensures !o.IntArg? ==> r == Failure(CannotConvert) && r.error.Class() == TypeError
  {
    match o
    case IntArg(i) => TimeT.ToTimeT(TimeT.Host, i)
    case _ => Failure(CannotConvert)
  }

  /** The overflow test of `time_plus`, split on the sign of the addend. */
  function AddChecked(a: int, b: int): (r: Result<int, Error>)
    requires TimeT.InTimeT(TimeT.Host, a) && TimeT.InTimeT(TimeT.Host, b)
    ensures r.Success? <==> TimeT.InTimeT(TimeT.Host, a + b)
    ensures r.Success? ==> r.value == a + b
    ensures r.Failure? ==> r.error == Overflow(Addition) && r.error.Class() == RangeError
  {
    if b >= 0 then
      if a > TimeT.TimeMax(TimeT.Host) - b then Failure(Overflow(Addition)) else Success(a + b)
    else
      if a < TimeT.TimeMin(TimeT.Host) - b then Failure(Overflow(Addition)) else Success(a + b)
  }

  /** The overflow test of `time_minus`, split on the sign of the subtrahend. */
  function SubChecked(a: int, b: int): (r: Result<int, Error>)
    requires TimeT.InTimeT(TimeT.Host, a) && TimeT.InTimeT(TimeT.Host, b)
    ensures r.Success? <==> TimeT.InTimeT(TimeT.Host, a - b)
    ensures r.Success? ==> r.value == a - b
    ensures r.Failure? ==> r.error == Overflow(Subtraction) && r.error.Class() == RangeError
  {
    if b >= 0 then
      if a < TimeT.TimeMin(TimeT.Host) + b then Failure(Overflow(Subtraction)) else Success(a - b)
    else
      if a > TimeT.TimeMax(TimeT.Host) + b then Failure(Overflow(Subtraction)) else Success(a - b)
  }

  /**
   * The value `time_plus` gives the new Time before its breakdown: the operand converted,
   * the addition checked, and `time_alloc_time` applied to the sum and the receiver's usec.
   */
  function PlusValue(v: TimeValue, o: Operand): (r: Result<TimeValue, Error>)
    requires Normalized(v)
    ensures r.Success? <==> o.IntArg? && TimeT.InTimeT(TimeT.Host, o.i) && TimeT.InTimeT(TimeT.Host, v.sec + o.i)
    ensures r.Success? ==> r.value == TimeValue(v.sec + o.i, v.usec, v.zone)
    ensures r.Success? ==> TotalUsec(r.value) == TotalUsec(v) + o.i * UsecPerSec
    ensures !o.IntArg? ==> r == Failure(CannotConvert)
    ensures o.IntArg? && !TimeT.InTimeT(TimeT.Host, o.i) ==> r == Failure(OutOfTimeRange(o.i))
    ensures o.IntArg? && TimeT.InTimeT(TimeT.Host, o.i) && !TimeT.InTimeT(TimeT.Host, v.sec + o.i) ==>
              r == Failure(Overflow(Addition))
  {
    var n :- OperandToTimeT(o);
    var s :- AddChecked(v.sec, n);
    // `tm->usec + usec`: the fractional part `mrb_to_time_t` gives an Integer is 0
    Success(Normalize(s, v.usec, v.zone))
  }

  /** What `-` returns: a new Time, or (for a Time argument) the elapsed whole seconds. */
  datatype Difference = Shifted(time: TimeValue) | Elapsed(seconds: int)

  /**
   * `time_minus` in a build without floating point: for a Time argument the difference of the
   * seconds, less one when the receiver's microseconds are the smaller; otherwise the checked
   * subtraction of an Integer.
   */
  function MinusValue(v: TimeValue, o: Operand): (r: Result<Difference, Error>)
    requires Normalized(v)
    ensures TimeData(o).Some? ==> r.Success? && r.value.Elapsed?
    ensures TimeData(o).None? ==>
      (r.Success? <==> o.IntArg? && TimeT.InTimeT(TimeT.Host, o.i) && TimeT.InTimeT(TimeT.Host, v.sec - o.i))
    ensures TimeData(o).None? && r.Success? ==> r.value == Shifted(TimeValue(v.sec - o.i, v.usec, v.zone))
    ensures TimeData(o).None? && !o.IntArg? ==> r == Failure(CannotConvert)
    ensures o.IntArg? && !TimeT.InTimeT(TimeT.Host, o.i) ==> r == Failure(OutOfTimeRange(o.i))
    ensures o.IntArg? && TimeT.InTimeT(TimeT.Host, o.i) && !TimeT.InTimeT(TimeT.Host, v.sec - o.i) ==>
              r == Failure(Overflow(Subtraction))
  {
    match TimeData(o)
    case Some(w) =>
      Success(Elapsed(v.sec - w.sec - (if v.usec < w.usec then 1 else 0)))
    case None =>
      var n :- OperandToTimeT(o);
      var s :- SubChecked(v.sec, n);
      // `tm->usec - usec`: the fractional part `mrb_to_time_t` gives an Integer is 0
      Success(Shifted(Normalize(s, v.usec, v.zone)))
  }

  /** `(t + n) - n` is `t` again: second, microsecond and zone. */
  lemma PlusMinusRoundTrip(v: TimeValue, n: int)
    requires Normalized(v)
    requires PlusValue(v, IntArg(n)).Success?
    ensures MinusValue(PlusValue(v, IntArg(n)).value, IntArg(n)) == Success(Shifted(v))
  {
  }

  /** `(t - n) + n` is `t` again. */
  lemma MinusPlusRoundTrip(v: TimeValue, n: int)
    requires Normalized(v)
    requires MinusValue(v, IntArg(n)).Success?
    ensures PlusValue(MinusValue(v, IntArg(n)).value.time, IntArg(n)) == Success(v)
  {
  }

  /** The difference of two Times is the exact difference of their instants, rounded down to whole seconds. */
  lemma ElapsedIsFloor(a: TimeValue, b: TimeValue)
    requires Normalized(a) && Normalized(b)
    ensures MinusValue(a, TimeArg(Some(b))) == Success(Elapsed((TotalUsec(a) - TotalUsec(b)) / UsecPerSec))
  {
    var q := a.sec - b.sec - (if a.usec < b.usec then 1 else 0);
    var d := TotalUsec(a) - TotalUsec(b);
    assert d == (a.sec - b.sec) * UsecPerSec + (a.usec - b.usec);
    FloorUnique(d, UsecPerSec, q);
  }

  /** `(t + n) - t` is `n`. */
  lemma PlusThenDifference(v: TimeValue, n: int)
    requires Normalized(v)
    requires PlusValue(v, IntArg(n)).Success?
    ensures MinusValue(PlusValue(v, IntArg(n)).value, TimeArg(Some(v))) == Success(Elapsed(n))
  {
  }

  /** `a - b` and `b - a` add up to 0 when the microseconds agree, and to -1 otherwise. */
  lemma ElapsedAntisymmetry(a: TimeValue, b: TimeValue)
    requires Normalized(a) && Normalized(b)
    ensures var x, y := MinusValue(a, TimeArg(Some(b))).value.seconds, MinusValue(b, TimeArg(Some(a))).value.seconds;
      x + y == (if a.usec == b.usec then 0 else -1)
  {
  }

  // ---------------------------------------------------------------- Time.gm

  /** `OUTINT` on a build whose mrb_int is wider than C int: outside [INT_MIN, INT_MAX]. */
  predicate OutInt(x: int) {
    x < Civil.CIntMin || Civil.CIntMax < x
  }

  /**
   * The argument check of `time_mktime`; `year` is the calendar year as passed in. The fields it
   * admits fill a `struct tm` within the ranges `timegm` is proved for, hour 24 only at 24:00:00.
   */
  function FieldsInRange(year: int, month: int, day: int, hour: int, min: int, sec: int): (ok: bool)
    ensures ok ==>
              var tm := CivilTm(year, month, day, hour, min, sec);
              && Civil.CIntMin <= tm.year <= Civil.CIntMax && 0 <= tm.mon < 12 && 1 <= tm.mday <= 31
              && 0 <= tm.hour <= 24 && 0 <= tm.min <= 59 && 0 <= tm.sec <= 60
              && (tm.hour == 24 ==> tm.min == 0 && tm.sec == 0)
  {
    !(OutInt(year - 1900)
      || month < 1 || month > 12
      || day < 1 || day > 31
      || hour < 0 || hour > 24
      || (hour == 24 && (min > 0 || sec > 0))
      || min < 0 || min > 59
      || sec < 0 || sec > 60)
  }

  /** The `struct tm` that `time_mktime` fills in: years since 1900, months from 0, DST unknown. */
  function CivilTm(year: int, month: int, day: int, hour: int, min: int, sec: int): (tm: Civil.Tm)
    ensures tm.year + 1900 == year && tm.mon + 1 == month && tm.mday == day
    ensures tm.hour == hour && tm.min == min && tm.sec == sec && tm.isdst == -1
  {
    Civil.Tm(year - 1900, month - 1, day, hour, min, sec, 0, 0, -1)
  }

  /**
   * The call of `mk` in `time_mktime` and its retry: -1 is both the error value of `mk` and a real
   * second (1969-12-31 23:59:59 UTC); it is accepted only when one second later is the Epoch.
   */
  function MkWithRetry(mk: Civil.Tm --> int, tm: Civil.Tm): (r: Result<int, Error>)
    requires mk.requires(tm) && mk.requires(tm.(sec := tm.sec + 1))
    ensures r.Success? ==> r.value == mk(tm)
    ensures r.Failure? <==> mk(tm) == -1 && mk(tm.(sec := tm.sec + 1)) != 0
    ensures r.Failure? ==> r.error == NotAValidTime
  {
    var s := mk(tm);
    if s == -1 then
      if mk(tm.(sec := tm.sec + 1)) != 0 then Failure(NotAValidTime) else Success(-1)
    else Success(s)
  }

  /** With `timegm` as `mk` the retry never rejects: -1 from it is always the real epoch minus one. */
  lemma TimegmRetryTransparent(tm: Civil.Tm)
    requires 0 <= tm.mon < 12
    ensures MkWithRetry(Civil.CivilSeconds, tm) == Success(Civil.CivilSeconds(tm))
  {
    Civil.NextSecond(tm);
  }

  /**
   * The value `Time.gm` gives the new Time before its breakdown: the fields checked, the
   * conversion by `timegm` with its retry, and `time_alloc_time` on the result and `usec`.
   */
  function GmValue(year: int, month: int, day: int, hour: int, min: int, sec: int, usec: int): (r: Result<TimeValue, Error>)
    requires TimeT.InMrbInt(TimeT.Host, usec)
    ensures r.Failure? <==> !FieldsInRange(year, month, day, hour, min, sec)
    ensures r.Failure? ==> r.error == ArgumentOutOfRange
    ensures r.Success? ==> Normalized(r.value) && r.value.zone == Utc
    ensures r.Success? ==>
              TotalUsec(r.value) == Civil.CivilSeconds(CivilTm(year, month, day, hour, min, sec)) * UsecPerSec + usec
  {
    if !FieldsInRange(year, month, day, hour, min, sec) then Failure(ArgumentOutOfRange)
    else
      var tm := CivilTm(year, month, day, hour, min, sec);
      Civil.CivilSecondsFitsTimeT(tm);
      TimegmRetryTransparent(tm);
      match MkWithRetry(Civil.CivilSeconds, tm)
      case Failure(e) => Failure(e)
      case Success(s) =>
        GmNoWrap(s, usec);
        Success(Normalize(s, usec, Utc))
  }

  /** A Time.gm second (at most 2^31 years from 1900) plus any mrb_int microsecond count stays in time_t. */
  lemma GmNoWrap(s: int, usec: int)
    requires TimeT.InMrbInt(TimeT.Host, usec)
    requires -0x8000_0046 * 31622400 <= s <= 0x7fff_ffbb * 31622400
    ensures TimeT.InTimeT(TimeT.Host, s) && TimeT.InTimeT(TimeT.Host, usec)
    ensures TimeT.InTimeT(TimeT.Host, s + usec / UsecPerSec)
  {
  }

  /** 2024-01-01 00:00:00 UTC is second 1704067200. */
  lemma GmNewYear2024()
    ensures GmValue(2024, 1, 1, 0, 0, 0, 0) == Success(TimeValue(1704067200, 0, Utc))
  {
    Civil.YearsSecondsClosedForm(124);
    assert Civil.LeapDays(124) == 13;
    Civil.DaysBeforeMonthTable(true, 0);
  }

  /** 1969-12-31 23:59:59 UTC goes through the retry and is accepted as second -1. */
  lemma GmEpochMinusOne()
    ensures GmValue(1969, 12, 31, 23, 59, 59, 0) == Success(TimeValue(-1, 0, Utc))
  {
    Civil.EpochIsZero();
  }

  /** Microseconds outside [0, 10^6) move whole seconds, in either direction. */
  lemma GmMicrosecondCarry()
    ensures GmValue(1970, 1, 1, 0, 0, 0, -1) == Success(TimeValue(-1, 999999, Utc))
    ensures GmValue(1970, 1, 1, 0, 0, 0, 1500000) == Success(TimeValue(1, 500000, Utc))
  {
    Civil.EpochIsZero();
  }

  /** Hour 24 (with zero minutes and seconds) is midnight of the next day. */
  lemma GmHour24(year: int, month: int, day: int, usec: int)
    requires TimeT.InMrbInt(TimeT.Host, usec)
    requires FieldsInRange(year, month, day, 24, 0, 0) && day < 31
    ensures GmValue(year, month, day, 24, 0, 0, usec) == GmValue(year, month, day + 1, 0, 0, 0, usec)
  {
    Civil.Hour24IsNextMidnight(CivilTm(year, month, day, 0, 0, 0).(hour := 0));
  }

  /** A day past the end of the month is accepted and carries: 2023-02-30 is 2023-03-02. */
  lemma GmFebruary30()
    ensures GmValue(2023, 2, 30, 12, 0, 0, 0) == GmValue(2023, 3, 2, 12, 0, 0, 0)
  {
    var tm := CivilTm(2023, 3, 2, 12, 0, 0);
    assert Civil.MonthRow(123)[1] == 28;
    Civil.MonthCarry(tm.(mon := 1));
  }
}

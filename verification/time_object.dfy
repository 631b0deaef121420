/**
 * The Time object: a data object whose payload (`struct mrb_time`) holds the second, the
 * microsecond, the zone and the broken-down time of that second in that zone. The payload may be
 * missing (an allocated but uninitialised Time), in which case every accessor raises
 * "uninitialized time".
 *
 * The C library's `gmtime_r`/`localtime_r` are a `Calendar` passed in, and so is `mktime` for the
 * local zone; the UTC conversion is the library's own `timegm` (module Civil).
 */
module TimeObjects {
  import opened Wrappers
  import opened Errors
  import TimeT
  import Civil
  import Format
  import opened TimeValues

  /** The host's breakdown of a second in a zone (`gmtime_r` for UTC, `localtime_r` for local); None on failure. */
  type Calendar = (int, Zone) -> Option<Civil.Tm>

  /** Every breakdown the calendar produces has its fields in the C library's ranges. */
  ghost predicate WellFormed(cal: Calendar) {
    forall s, z :: cal(s, z).Some? ==> Civil.ValidTm(cal(s, z).value)
  }

  /**
   * From the start of year 0 on, the UTC breakdown undoes `timegm`: it is in normal form and
   * converts back to the second broken down. Before year 0 `is_leapyear` sees its argument wrapped
   * modulo 2^32, so `timegm` counts years -100, -200, -300, -500, ... as leap years and no
   * proleptic Gregorian `gmtime_r` could undo it there.
   */
  ghost predicate UtcInverse(cal: Calendar) {
    forall s :: s >= Civil.YearsSeconds(-1900) && cal(s, Utc).Some? ==>
      Civil.Canonical(cal(s, Utc).value) && Civil.CivilSeconds(cal(s, Utc).value) == s
  }

  /**
   * The seven integer arguments of `Time.gm`, `Time.local` and `Time.new` (year, month, day, hour,
   * minute, second, microsecond) with the missing trailing ones given their defaults.
   */
  function DefaultFields(args: seq<int>): (f: seq<int>)
    requires |args| <= 7
    ensures |f| == 7 && f[..|args|] == args
    ensures forall i :: |args| <= i < 7 ==> f[i] == (if i == 1 || i == 2 then 1 else 0)
    ensures (forall i :: 0 <= i < |args| ==> TimeT.InMrbInt(TimeT.Host, args[i])) ==>
              forall i :: 0 <= i < 7 ==> TimeT.InMrbInt(TimeT.Host, f[i]) && TimeT.InTimeT(TimeT.Host, f[i])
  {
    args + [0, 1, 1, 0, 0, 0, 0][|args|..]
  }

  /** The result of `-`: a new Time, or the whole seconds between two Times. */
  datatype MinusResult = NewTime(time: Time) | Seconds(n: int)

  class Time {
    /** Whether the payload exists (`DATA_PTR` is not NULL). */
    var initialized: bool
    var sec: int
    var usec: int
    var zone: Zone
    /** The broken-down time of `sec` in `zone`, as last computed. */
    var datetime: Civil.Tm

    ghost predicate Valid()
      reads this
    {
      && Civil.ValidTm(datetime)
      && (initialized ==> Normalized(TimeValue(sec, usec, zone)))
    }

    /** The payload's value, or None for an uninitialised Time. */
    function Data(): (d: Option<TimeValue>)
      reads this
      ensures d.Some? <==> initialized
    {
      if initialized then Some(TimeValue(sec, usec, zone)) else None
    }

    /** The breakdown is the calendar's for the current second and zone. */
    ghost predicate Consistent(cal: Calendar)
      reads this
    {
      initialized && cal(sec, zone) == Some(datetime)
    }

    /** An allocated Time without payload. */
    constructor ()
      ensures !initialized && Valid() && Civil.ValidTm(datetime)
    {
      initialized := false;
      sec, usec, zone := 0, 0, Utc;
      datetime := Civil.Tm(0, 0, 1, 0, 0, 0, 0, 0, 0);
    }

    /**
     * `time_update_datetime`: the breakdown of `sec` in `zone`. On failure the breakdown is left
     * as it was and the error is ArgumentError "<sec> out of Time range".
     */
    method UpdateDatetime(cal: Calendar) returns (r: Result<Time, Error>)
      requires Valid() && initialized && WellFormed(cal)
      modifies this
      ensures unchanged(this`initialized, this`sec, this`usec, this`zone)
      ensures r.Success? <==> cal(sec, zone).Some?
      ensures r.Success? ==> r.value == this && datetime == cal(sec, zone).value
      ensures r.Failure? ==> r.error == OutOfTimeRange(sec) && datetime == old(datetime)
      ensures Valid()
    {
      match cal(sec, zone)
      case Some(tm) =>
        datetime := tm;
        r := Success(this);
      case None =>
        TimeT.HostAlwaysFixable(sec);
        match TimeT.FromTimeT(TimeT.Host, sec)
        case Success(value) => r := Failure(OutOfTimeRange(value));
        case Failure(e) => r := Failure(e);
    }

    /**
     * `time_alloc_time`: a new Time whose microseconds are brought into [0, 10^6) by moving whole
     * seconds (floor division for a negative count), then broken down in `zone`.
     */
    static method AllocTime(sec: int, usec: int, zone: Zone, cal: Calendar) returns (r: Result<Time, Error>)
      requires TimeT.InTimeT(TimeT.Host, sec) && TimeT.InTimeT(TimeT.Host, usec)
      requires WellFormed(cal)
      ensures var v := Normalize(sec, usec, zone);
        && (r.Success? <==> cal(v.sec, zone).Some?)
        && (r.Success? ==> fresh(r.value) && r.value.Data() == Some(v) && r.value.Consistent(cal) && r.value.Valid())
        && (r.Failure? ==> r.error == OutOfTimeRange(v.sec))
    {
      var t := new Time();
      var s, u := sec, usec;
      if u < 0 {
        var sec2 := NDiv(u, UsecPerSec);
        NDivIsFloor(u, UsecPerSec);
        u := u - sec2 * UsecPerSec;
        s := TimeT.CastTimeT(TimeT.Host, s + sec2);
      } else if u >= UsecPerSec {
        var sec2 := CDiv(u, UsecPerSec);
        u := u - sec2 * UsecPerSec;
        s := TimeT.CastTimeT(TimeT.Host, s + sec2);
      }
      assert TimeValue(s, u, zone) == Normalize(sec, usec, zone);
      t.initialized, t.sec, t.usec, t.zone := true, s, u, zone;
      r := t.UpdateDatetime(cal);
    }

    /**
     * `Time.at(sec, usec = 0)` on Integer arguments: both converted to `time_t`, then a local
     * Time from `time_alloc_time`.
     */
    static method At(secArg: Operand, usecArg: Operand, cal: Calendar) returns (r: Result<Time, Error>)
      requires WellFormed(cal)
      ensures OperandToTimeT(secArg).Failure? ==> r == Failure(OperandToTimeT(secArg).error)
      ensures OperandToTimeT(secArg).Success? && OperandToTimeT(usecArg).Failure? ==>
                r == Failure(OperandToTimeT(usecArg).error)
      ensures r.Success? ==> OperandToTimeT(secArg).Success? && OperandToTimeT(usecArg).Success?
      ensures OperandToTimeT(secArg).Success? && OperandToTimeT(usecArg).Success? ==>
                var v := Normalize(OperandToTimeT(secArg).value, OperandToTimeT(usecArg).value, Local);
                && (r.Success? <==> cal(v.sec, Local).Some?)
                && (r.Failure? ==> r.error == OutOfTimeRange(v.sec))
      ensures r.Success? ==> fresh(r.value) && r.value.Consistent(cal) && r.value.Valid()
      ensures r.Success? ==> r.value.Data() == Some(Normalize(secArg.i, usecArg.i, Local))
    {
      var s :- OperandToTimeT(secArg);
      var u :- OperandToTimeT(usecArg);
      // `tusec`, the fractional part of an Integer `sec`, is 0, so the microseconds are `u`
      r := AllocTime(s, u, Local, cal);
    }

    /**
     * `time_mktime` (`Time.gm`, `Time.local`): the fields checked, converted by `timegm` for UTC
     * or by the host's `mktime` for the local zone, retried once when the conversion gives -1,
     * and passed to `time_alloc_time` with `usec`.
     */
    static method MkTime(year: int, month: int, day: int, hour: int, min: int, sec: int, usec: int,
                         zone: Zone, localMk: Civil.Tm -> int, cal: Calendar)
      returns (r: Result<Time, Error>)
      requires TimeT.InMrbInt(TimeT.Host, usec)
      requires forall tm :: TimeT.InTimeT(TimeT.Host, localMk(tm))
      requires WellFormed(cal)
      ensures !FieldsInRange(year, month, day, hour, min, sec) ==> r == Failure(ArgumentOutOfRange)
      ensures zone == Utc && FieldsInRange(year, month, day, hour, min, sec) ==>
                var v := GmValue(year, month, day, hour, min, sec, usec).value;
                && (r.Success? <==> cal(v.sec, Utc).Some?)
                && (r.Success? ==> fresh(r.value) && r.value.Data() == Some(v) && r.value.Consistent(cal))
                && (r.Failure? ==> r.error == OutOfTimeRange(v.sec))
      ensures zone == Local && FieldsInRange(year, month, day, hour, min, sec) ==>
                var tm := CivilTm(year, month, day, hour, min, sec);
                && (MkWithRetry(localMk, tm).Failure? ==> r == Failure(NotAValidTime))
                && (MkWithRetry(localMk, tm).Success? ==>
                      var v := Normalize(MkWithRetry(localMk, tm).value, usec, Local);
                      && (r.Success? <==> cal(v.sec, Local).Some?)
                      && (r.Failure? ==> r.error == OutOfTimeRange(v.sec)))
                && (r.Success? ==>
                      && MkWithRetry(localMk, tm).Success? && fresh(r.value) && r.value.Consistent(cal)
                      && r.value.Data() == Some(Normalize(MkWithRetry(localMk, tm).value, usec, Local)))
      ensures r.Success? ==> r.value.Valid()
    {
      if !FieldsInRange(year, month, day, hour, min, sec) {
        return Failure(ArgumentOutOfRange);
      }
      var tm := CivilTm(year, month, day, hour, min, sec);
      Civil.CivilSecondsFitsTimeT(tm);
      var nowsecs := Mk(zone, localMk, tm);
      if nowsecs == -1 {
        var again := Mk(zone, localMk, tm.(sec := tm.sec + 1));
        if again != 0 {
          if zone == Utc {
            Civil.NextSecond(tm);
            assert false;
          }
          return Failure(NotAValidTime);
        }
        nowsecs := -1;
      }
      if zone == Utc {
        TimegmRetryTransparent(tm);
        GmNoWrap(nowsecs, usec);
      }
      r := AllocTime(nowsecs, usec, zone, cal);
    }

    /**
     * `initialize` (`Time.new`): the old payload is dropped first. With no arguments the Time is
     * the clock reading `nowSec`/`nowUsec` in the local zone; otherwise it is `time_mktime` in the
     * local zone of the given fields, the missing ones defaulting as in `DefaultFields`. On an error
     * the Time is left without payload.
     */
    method Initialize(args: seq<int>, nowSec: int, nowUsec: int, localMk: Civil.Tm -> int, cal: Calendar)
      returns (r: Result<Time, Error>)
      requires |args| <= 7 && forall i :: 0 <= i < |args| ==> TimeT.InMrbInt(TimeT.Host, args[i])
      requires TimeT.InTimeT(TimeT.Host, nowSec) && 0 <= nowUsec < UsecPerSec
      requires forall tm :: TimeT.InTimeT(TimeT.Host, localMk(tm))
      requires Valid() && WellFormed(cal)
      modifies this
      ensures Valid()
      ensures r.Failure? ==> !initialized
      ensures r.Success? ==> r.value == this && Consistent(cal)
      ensures |args| == 0 ==> (r.Success? <==> cal(nowSec, Local).Some?)
      ensures |args| == 0 && r.Success? ==> Data() == Some(TimeValue(nowSec, nowUsec, Local))
      ensures |args| == 0 && r.Failure? ==> r.error == OutOfTimeRange(nowSec)
      ensures |args| > 0 ==>
                var f := DefaultFields(args);
                var tm := CivilTm(f[0], f[1], f[2], f[3], f[4], f[5]);
                && (!FieldsInRange(f[0], f[1], f[2], f[3], f[4], f[5]) ==> r == Failure(ArgumentOutOfRange))
                && (FieldsInRange(f[0], f[1], f[2], f[3], f[4], f[5]) && MkWithRetry(localMk, tm).Failure? ==>
                      r == Failure(NotAValidTime))
                && (FieldsInRange(f[0], f[1], f[2], f[3], f[4], f[5]) && MkWithRetry(localMk, tm).Success? ==>
                      var v := Normalize(MkWithRetry(localMk, tm).value, f[6], Local);
                      && (r.Success? <==> cal(v.sec, Local).Some?)
                      && (r.Failure? ==> r.error == OutOfTimeRange(v.sec)))
                && (r.Success? ==>
                      && FieldsInRange(f[0], f[1], f[2], f[3], f[4], f[5]) && MkWithRetry(localMk, tm).Success?
                      && Data() == Some(Normalize(MkWithRetry(localMk, tm).value, f[6], Local)))
    {
      initialized := false;
      if |args| == 0 {
        initialized, sec, usec, zone := true, nowSec, nowUsec, Local;
        r := UpdateDatetime(cal);
        if r.Failure? {
          initialized := false;
        }
        return;
      }
      var f := DefaultFields(args);
      var t :- MkTime(f[0], f[1], f[2], f[3], f[4], f[5], f[6], Local, localMk, cal);
      initialized, sec, usec, zone, datetime := true, t.sec, t.usec, t.zone, t.datetime;
      r := Success(this);
    }

    /** The conversion `time_mktime` picks: `timegm` for UTC, `mktime` for the local zone. */
    static method Mk(zone: Zone, localMk: Civil.Tm -> int, tm: Civil.Tm) returns (s: int)
      requires 0 <= tm.mon < 12
      ensures s == if zone == Utc then Civil.CivilSeconds(tm) else localMk(tm)
    {
      if zone == Utc {
        s := Civil.Timegm(tm);
      } else {
        s := localMk(tm);
      }
    }

    /** `time_get_ptr`: the payload, or ArgumentError "uninitialized time". */
    function GetPtr(): (r: Result<TimeValue, Error>)
      reads this
      ensures r.Success? <==> initialized
      ensures r.Success? ==> Some(r.value) == Data()
      ensures r.Failure? ==> r.error == Uninitialized && r.error.Class() == ArgumentError
    {
      if initialized then Success(TimeValue(sec, usec, zone)) else Failure(Uninitialized)
    }

    /** `+` with an Integer: a new Time that many seconds later, same microseconds and zone. */
    method Plus(o: Operand, cal: Calendar) returns (r: Result<Time, Error>)
      requires Valid() && WellFormed(cal)
      ensures !initialized ==> r == Failure(Uninitialized)
      ensures initialized && PlusValue(Data().value, o).Failure? ==> r == Failure(PlusValue(Data().value, o).error)
      ensures initialized && PlusValue(Data().value, o).Success? ==>
                var v := PlusValue(Data().value, o).value;
                && (r.Success? <==> cal(v.sec, v.zone).Some?)
                && (r.Success? ==> fresh(r.value) && r.value.Data() == Some(v) && r.value.Consistent(cal) && r.value.Valid())
                && (r.Failure? ==> r.error == OutOfTimeRange(v.sec))
    {
      var self :- GetPtr();
      var n :- OperandToTimeT(o);
      var s :- AddChecked(self.sec, n);
      // an Integer operand has no fractional microseconds to add
      r := AllocTime(s, self.usec, self.zone, cal);
    }

    /**
     * `-`: with a Time, the whole seconds between the two (no floating point); with an Integer, a
     * new Time that many seconds earlier, same microseconds and zone.
     */
    method Minus(o: Operand, cal: Calendar) returns (r: Result<MinusResult, Error>)
      requires Valid() && WellFormed(cal)
      ensures !initialized ==> r == Failure(Uninitialized)
      ensures initialized && MinusValue(Data().value, o).Failure? ==> r == Failure(MinusValue(Data().value, o).error)
      ensures initialized ==> var d := MinusValue(Data().value, o);
                d.Success? && d.value.Elapsed? ==> r == Success(Seconds(d.value.seconds))
      ensures initialized && MinusValue(Data().value, o).Success? && MinusValue(Data().value, o).value.Shifted? ==>
                var v := MinusValue(Data().value, o).value.time;
                && (r.Success? <==> cal(v.sec, v.zone).Some?)
                && (r.Success? ==> r.value.NewTime? && fresh(r.value.time) && r.value.time.Data() == Some(v)
                                   && r.value.time.Consistent(cal) && r.value.time.Valid())
                && (r.Failure? ==> r.error == OutOfTimeRange(v.sec))
    {
      var self :- GetPtr();
      match TimeData(o)
      case Some(other) =>
        var f := self.sec - other.sec;
        if self.usec < other.usec {
          f := f - 1;
        }
        r := Success(Seconds(f));
      case None =>
        var n :- OperandToTimeT(o);
        var s :- SubChecked(self.sec, n);
        // an Integer operand has no fractional microseconds to subtract
        var t := AllocTime(s, self.usec, self.zone, cal);
        match t
        case Success(tt) => r := Success(NewTime(tt));
        case Failure(e) => r := Failure(e);
    }

    /**
     * `getutc`/`getgm` (z = Utc) and `getlocal` (z = Local): a new Time with this one's second
     * and microsecond in zone z, broken down afresh; this Time is not changed.
     */
    method GetZone(z: Zone, cal: Calendar) returns (r: Result<Time, Error>)
      requires Valid() && WellFormed(cal)
      ensures !initialized ==> r == Failure(Uninitialized)
      ensures initialized ==> (r.Success? <==> cal(sec, z).Some?)
      ensures initialized && r.Failure? ==> r.error == OutOfTimeRange(sec)
      ensures r.Success? ==> fresh(r.value) && r.value.Data() == Some(TimeValue(sec, usec, z))
      ensures r.Success? ==> r.value.Consistent(cal) && r.value.Valid()
      ensures r.Success? ==> TimeEq(Data(), TimeArg(r.value.Data()))
    {
      var self :- GetPtr();
      var t := new Time();
      t.initialized, t.sec, t.usec, t.zone, t.datetime := true, sec, usec, zone, datetime;
      t.zone := z;
      r := t.UpdateDatetime(cal);
    }

    /**
     * `utc`/`gmtime` (z = Utc) and `localtime` (z = Local): switch this Time's zone in place and
     * break it down again. The zone is switched before the breakdown, so when the breakdown fails
     * the Time keeps the new zone with its old broken-down fields.
     */
    method SetZone(z: Zone, cal: Calendar) returns (r: Result<Time, Error>)
      requires Valid() && WellFormed(cal)
      modifies this
      ensures Valid()
      ensures unchanged(this`initialized, this`sec, this`usec)
      ensures !initialized ==> r == Failure(Uninitialized) && unchanged(this)
      ensures initialized ==> zone == z
      ensures initialized ==> (r.Success? <==> cal(sec, z).Some?)
      ensures r.Success? ==> r.value == this && Consistent(cal)
      ensures initialized && r.Failure? ==> r.error == OutOfTimeRange(sec) && datetime == old(datetime)
    {
      var self :- GetPtr();
      zone := z;
      r := UpdateDatetime(cal);
    }

    /**
     * `initialize_copy`: the receiver takes the source's whole payload. Copying onto itself does
     * nothing; `src` is null when the argument is not an instance of Time.
     */
    method InitCopy(src: Time?) returns (r: Result<Time, Error>)
      requires Valid() && (src != null ==> src.Valid())
      modifies this
      ensures Valid()
      ensures r.Success? ==> r.value == this
      ensures src == this ==> r.Success? && unchanged(this)
      ensures src == null ==> r == Failure(WrongArgumentClass) && unchanged(this)
      ensures src != null && src != this && !old(src.initialized) ==> r == Failure(Uninitialized) && unchanged(this)
      ensures src != null && src != this && old(src.initialized) ==>
                && r.Success? && initialized
                && sec == old(src.sec) && usec == old(src.usec) && zone == old(src.zone) && datetime == old(src.datetime)
    {
      if src == this {
        return Success(this);
      }
      if src == null {
        return Failure(WrongArgumentClass);
      }
      if !src.initialized {
        return Failure(Uninitialized);
      }
      initialized, sec, usec, zone, datetime := true, src.sec, src.usec, src.zone, src.datetime;
      r := Success(this);
    }

    // ------------------------------------------------------------ accessors

    /**
     * `year`: the calendar year, `tm_year + 1900` computed as a C `int`, so a `tm_year` within
     * 1900 of INT_MAX wraps to a negative year.
     */
    function Year(): (r: Result<int, Error>)
      reads this
      requires Valid()
      ensures r.Success? <==> initialized
      ensures r.Failure? ==> r.error == Uninitialized
      ensures r.Success? ==> Civil.CIntMin <= r.value <= Civil.CIntMax
      ensures r.Success? ==> (r.value - (datetime.year + 1900)) % Civil.UIntModulus == 0
      ensures r.Success? && datetime.year <= Civil.CIntMax - 1900 ==> r.value == datetime.year + 1900
      ensures r.Success? && datetime.year > Civil.CIntMax - 1900 ==> r.value < 0
    {
      var tm :- GetPtr();
      Success(Civil.CastInt(datetime.year + 1900))
    }

    /**
     * `Time.gm(2147485500)` passes the argument check (its `tm_year` is 2147483600), and a Time
     * broken down into that year reports year -2147481796.
     */
    lemma YearPastIntMaxWraps()
      requires Valid() && initialized && datetime.year == 2147483600
      ensures FieldsInRange(2147485500, 1, 1, 0, 0, 0)
      ensures Year() == Success(-2147481796)
    {
    }

    /** `mon` and `month`: the month, 1 for January. */
    function Month(): (r: Result<int, Error>)
      reads this
      requires Valid()
      ensures r.Success? <==> initialized
      ensures r.Failure? ==> r.error == Uninitialized
      ensures r.Success? ==> 1 <= r.value <= 12 && r.value - 1 == datetime.mon
    {
      var tm :- GetPtr();
      Success(datetime.mon + 1)
    }

    /** `day` and `mday`: the day of the month. */
    function Day(): (r: Result<int, Error>)
      reads this
      requires Valid()
      ensures r.Success? <==> initialized
      ensures r.Failure? ==> r.error == Uninitialized
      ensures r.Success? ==> 1 <= r.value <= 31 && r.value == datetime.mday
    {
      var tm :- GetPtr();
      Success(datetime.mday)
    }

    /** `hour` */
    function Hour(): (r: Result<int, Error>)
      reads this
      requires Valid()
      ensures r.Success? <==> initialized
      ensures r.Failure? ==> r.error == Uninitialized
      ensures r.Success? ==> 0 <= r.value < 24 && r.value == datetime.hour
    {
      var tm :- GetPtr();
      Success(datetime.hour)
    }

    /** `min` */
    function Minute(): (r: Result<int, Error>)
      reads this
      requires Valid()
      ensures r.Success? <==> initialized
      ensures r.Failure? ==> r.error == Uninitialized
      ensures r.Success? ==> 0 <= r.value < 60 && r.value == datetime.min
    {
      var tm :- GetPtr();
      Success(datetime.min)
    }

    /** `sec`: the second of the minute, 60 for a leap second. */
    function Second(): (r: Result<int, Error>)
      reads this
      requires Valid()
      ensures r.Success? <==> initialized
      ensures r.Failure? ==> r.error == Uninitialized
      ensures r.Success? ==> 0 <= r.value <= 60 && r.value == datetime.sec
    {
      var tm :- GetPtr();
      Success(datetime.sec)
    }

    /** `wday`: the day of the week, 0 for Sunday. */
    function Wday(): (r: Result<int, Error>)
      reads this
      requires Valid()
      ensures r.Success? <==> initialized
      ensures r.Failure? ==> r.error == Uninitialized
      ensures r.Success? ==> 0 <= r.value < 7 && r.value == datetime.wday
    {
      var tm :- GetPtr();
      Success(datetime.wday)
    }

    /** `yday`: the day of the year, 1 for January 1st. */
    function Yday(): (r: Result<int, Error>)
      reads this
      requires Valid()
      ensures r.Success? <==> initialized
      ensures r.Failure? ==> r.error == Uninitialized
      ensures r.Success? ==> 1 <= r.value <= 366 && r.value - 1 == datetime.yday
    {
      var tm :- GetPtr();
      Success(datetime.yday + 1)
    }

    /** `usec`: the microseconds within the second. */
    function Usec(): (r: Result<int, Error>)
      reads this
      requires Valid()
      ensures r.Success? <==> initialized
      ensures r.Failure? ==> r.error == Uninitialized
      ensures r.Success? ==> 0 <= r.value < UsecPerSec && r.value == usec
    {
      var tm :- GetPtr();
      Success(tm.usec)
    }

    /** `to_i`: the seconds since the Epoch, an Integer on a build whose mrb_int holds every time_t. */
    function ToI(): (r: Result<int, Error>)
      reads this
      requires Valid()
      ensures r.Success? <==> initialized
      ensures r.Failure? ==> r.error == Uninitialized
      ensures r.Success? ==> r.value == sec && TimeT.InMrbInt(TimeT.Host, r.value)
    {
      var tm :- GetPtr();
      TimeT.HostAlwaysFixable(tm.sec);
      TimeT.FromTimeT(TimeT.Host, tm.sec)
    }

    /** `utc?`/`gmt?`: whether the zone is UTC. */
    function IsUtc(): (r: Result<bool, Error>)
      reads this
      ensures r.Success? <==> initialized
      ensures r.Failure? ==> r.error == Uninitialized
      ensures r.Success? ==> (r.value <==> zone == Utc)
    {
      var tm :- GetPtr();
      Success(tm.zone == Utc)
    }

    /** `dst?`/`isdst`: the C truth value of the breakdown's `tm_isdst`; -1 ("unknown") counts as true. */
    function IsDst(): (r: Result<bool, Error>)
      reads this
      ensures r.Success? <==> initialized
      ensures r.Failure? ==> r.error == Uninitialized
      ensures r.Success? ==> (r.value <==> datetime.isdst != 0)
    {
      var tm :- GetPtr();
      Success(datetime.isdst != 0)
    }

    /** `sunday?` .. `saturday?`: whether the weekday is `num` (0 for Sunday). */
    function WdayIs(num: int): (r: Result<bool, Error>)
      reads this
      requires Valid()
      ensures r.Success? <==> initialized
      ensures r.Failure? ==> r.error == Uninitialized
      ensures r.Success? ==> (r.value <==> Wday() == Success(num))
    {
      var tm :- GetPtr();
      Success(datetime.wday == num)
    }

    /** `asctime`/`ctime`: the breakdown as "Www Mmm dd hh:mm:ss yyyy". */
    function Asctime(): (r: Result<string, Error>)
      reads this
      requires Valid()
      ensures r.Success? <==> initialized
      ensures r.Failure? ==> r.error == Uninitialized
      ensures r.Success? ==> |r.value| < Format.BufferSize
    {
      var tm :- GetPtr();
      Format.AsctimeFitsBuffer(datetime);
      Success(Format.Asctime(datetime))
    }

    /**
     * A Time made by `Time.gm` from a date in normal form from year 0 on (with usec in [0, 10^6))
     * gives back, through its accessors, exactly the fields it was made from; the year as a C `int`.
     */
    lemma GmFieldsRoundTrip(cal: Calendar, year: int, month: int, day: int, hour: int, min: int, sec: int, usec: int)
      requires Valid() && UtcInverse(cal) && Consistent(cal)
      requires TimeT.InMrbInt(TimeT.Host, usec) && 0 <= usec < UsecPerSec
      requires FieldsInRange(year, month, day, hour, min, sec) && Civil.Canonical(CivilTm(year, month, day, hour, min, sec))
      requires year >= 0
      requires Data() == Some(GmValue(year, month, day, hour, min, sec, usec).value)
      ensures Year() == Success(Civil.CastInt(year)) && Month() == Success(month) && Day() == Success(day)
      ensures Hour() == Success(hour) && Minute() == Success(min) && Second() == Success(sec)
      ensures Usec() == Success(usec) && IsUtc() == Success(true)
    {
      GmBreakdown(cal, year, month, day, hour, min, sec, usec);
    }

    /** The second and microsecond `Time.gm` stores, and the breakdown the calendar gives for them. */
    lemma GmBreakdown(cal: Calendar, year: int, month: int, day: int, hour: int, min: int, sec: int, usec: int)
      requires Valid() && UtcInverse(cal) && Consistent(cal)
      requires TimeT.InMrbInt(TimeT.Host, usec) && 0 <= usec < UsecPerSec
      requires FieldsInRange(year, month, day, hour, min, sec) && Civil.Canonical(CivilTm(year, month, day, hour, min, sec))
      requires year >= 0
      requires Data() == Some(GmValue(year, month, day, hour, min, sec, usec).value)
      ensures this.usec == usec && zone == Utc && initialized
      ensures datetime.year == year - 1900 && datetime.mon == month - 1 && datetime.mday == day
      ensures datetime.hour == hour && datetime.min == min && datetime.sec == sec
    {
      var tm := CivilTm(year, month, day, hour, min, sec);
      Civil.SplitUnique(this.sec, this.usec, Civil.CivilSeconds(tm), usec, UsecPerSec);
      Civil.InYear(tm);
      Civil.YearsSecondsStep(-1900);
      if tm.year > -1900 {
        Civil.YearsSecondsIncreasing(-1900, tm.year);
      }
      assert this.sec >= Civil.YearsSeconds(-1900);
      Civil.CivilSecondsInjective(datetime, tm);
    }

    /** An initialised Time is on exactly one of the seven weekdays. */
    lemma ExactlyOneWeekday()
      requires Valid() && initialized
      ensures exists num :: 0 <= num < 7 && WdayIs(num) == Success(true)
      ensures forall num, other :: WdayIs(num) == Success(true) && WdayIs(other) == Success(true) ==> num == other
    {
      assert WdayIs(datetime.wday) == Success(true);
    }
  }
}

/**
 * The integer types of a build: `time_t` (32 or 64 bits, signed or unsigned) and the interpreter's
 * integer `mrb_int` (32 or 64 bits), the bounds MRB_TIME_MIN/MRB_TIME_MAX and MRB_INT_MIN/MRB_INT_MAX
 * they give, and the two conversions between them: the integer branch of `mrb_to_time_t` and
 * `fixable_time_t_p`.
 *
 * Both conversions are written twice: as the C code does them (casts included) and as intended.
 * The two agree on every build the rest of the model uses (`Host`), and the lemmas below name the
 * builds and inputs on which the written code goes wrong.
 */
module TimeT {
  import opened Wrappers
  import opened Errors

  /** A build configuration: width and signedness of `time_t`, width of `mrb_int`. */
  datatype Platform = Platform(timeBits: nat, timeUnsigned: bool, intBits: nat)

  predicate Supported(p: Platform) {
    (p.timeBits == 32 || p.timeBits == 64) && (p.intBits == 32 || p.intBits == 64)
  }

  /** LP64 hosts: signed 64-bit `time_t` and 64-bit `mrb_int`. The rest of the model runs on this build. */
  const Host: Platform := Platform(64, false, 64)

  function Modulus(bits: nat): nat
    requires bits == 32 || bits == 64
  {
    if bits == 32 then 0x1_0000_0000 else 0x1_0000_0000_0000_0000
  }

  /** MRB_TIME_MIN */
  function TimeMin(p: Platform): int
    requires Supported(p)
  {
    if p.timeUnsigned then 0 else -(Modulus(p.timeBits) / 2)
  }

  /** MRB_TIME_MAX */
  function TimeMax(p: Platform): int
    requires Supported(p)
  {
    if p.timeUnsigned then Modulus(p.timeBits) - 1 else Modulus(p.timeBits) / 2 - 1
  }

  /** MRB_INT_MIN */
  function IntMin(p: Platform): int
    requires Supported(p)
  {
    -(Modulus(p.intBits) / 2)
  }

  /** MRB_INT_MAX */
  function IntMax(p: Platform): int
    requires Supported(p)
  {
    Modulus(p.intBits) / 2 - 1
  }

  predicate InTimeT(p: Platform, x: int)
    requires Supported(p)
  {
    TimeMin(p) <= x <= TimeMax(p)
  }

  predicate InMrbInt(p: Platform, x: int)
    requires Supported(p)
  {
    IntMin(p) <= x <= IntMax(p)
  }

  /** The C conversion `(time_t)x`: the value of time_t congruent to x modulo 2^bits. */
  function CastTimeT(p: Platform, x: int): (r: int)
    requires Supported(p)
    ensures InTimeT(p, r)
    ensures (r - x) % Modulus(p.timeBits) == 0
    ensures InTimeT(p, x) ==> r == x
  {
    TimeMin(p) + (x - TimeMin(p)) % Modulus(p.timeBits)
  }

  /** The C conversion `(mrb_int)x`: the value of mrb_int congruent to x modulo 2^bits. */
  function CastMrbInt(p: Platform, x: int): (r: int)
    requires Supported(p)
    ensures InMrbInt(p, r)
    ensures (r - x) % Modulus(p.intBits) == 0
    ensures InMrbInt(p, x) ==> r == x
  {
    IntMin(p) + (x - IntMin(p)) % Modulus(p.intBits)
  }

  /**
   * The integer branch of `mrb_to_time_t` as written: the upper-bound test compares `(time_t)i`,
   * which can never exceed MRB_TIME_MAX, and the lower-bound test is skipped for unsigned time_t.
   */
  function ToTimeTAsWritten(p: Platform, i: int): (r: Result<int, Error>)
    requires Supported(p) && InMrbInt(p, i)
    ensures r.Success? ==> InTimeT(p, r.value) && (r.value - i) % Modulus(p.timeBits) == 0
    ensures r.Failure? ==> r.error == OutOfTimeRange(i)
  {
    if (IntMax(p) > TimeMax(p) && i > 0 && CastTimeT(p, i) > TimeMax(p))
       || (0 > TimeMin(p) && TimeMin(p) > IntMin(p) && TimeMin(p) > i)
    then Failure(OutOfTimeRange(i))
    else Success(CastTimeT(p, i))
  }

  /** The integer branch of `mrb_to_time_t` as intended: an integer outside time_t raises ArgumentError. */
  function ToTimeT(p: Platform, i: int): (r: Result<int, Error>)
    requires Supported(p)
    ensures r.Success? <==> InTimeT(p, i)
    ensures r.Success? ==> r.value == i
    ensures r.Failure? ==> r.error == OutOfTimeRange(i) && r.error.Class() == ArgumentError
  {
    if InTimeT(p, i) then Success(i) else Failure(OutOfTimeRange(i))
  }

  /** On a build whose signed time_t is at least as wide as mrb_int the written test is right. */
  lemma ToTimeTAsWrittenCorrectWhenWide(p: Platform, i: int)
    requires Supported(p) && InMrbInt(p, i)
    requires !p.timeUnsigned && p.intBits <= p.timeBits
    ensures ToTimeTAsWritten(p, i) == ToTimeT(p, i)
  {
  }

  /** 32-bit time_t, 64-bit mrb_int: 2^31 passes the range test and wraps to -2^31. */
  lemma ToTimeTAsWrittenWrapsOnNarrowTime()
    ensures ToTimeTAsWritten(Platform(32, false, 64), 0x8000_0000) == Success(-0x8000_0000)
    ensures ToTimeT(Platform(32, false, 64), 0x8000_0000) == Failure(OutOfTimeRange(0x8000_0000))
  {
  }

  /** Unsigned time_t: -1 passes the range test and wraps to the largest time_t. */
  lemma ToTimeTAsWrittenWrapsOnUnsignedTime()
    ensures ToTimeTAsWritten(Platform(64, true, 64), -1) == Success(0xffff_ffff_ffff_ffff)
    ensures ToTimeT(Platform(64, true, 64), -1) == Failure(OutOfTimeRange(-1))
  {
  }

  /**
   * `fixable_time_t_p` as written, casts included. It never rejects a value that fits in mrb_int;
   * it accepts one that does not only on 64-bit signed time_t with 32-bit mrb_int.
   */
  function FixableAsWritten(p: Platform, v: int): (ok: bool)
    requires Supported(p) && InTimeT(p, v)
    ensures InMrbInt(p, v) ==> ok
    ensures ok && !InMrbInt(p, v) ==> p.timeBits == 64 && !p.timeUnsigned && p.intBits == 32
  {
    if IntMin(p) <= TimeMin(p) && TimeMax(p) <= IntMax(p) then true
    else if v > CastTimeT(p, IntMax(p)) then false
    else if p.timeUnsigned then true
    else if IntMin(p) > CastMrbInt(p, v) then false
    else true
  }

  /** `fixable_time_t_p` as intended: the time_t value fits in mrb_int. */
  function Fixable(p: Platform, v: int): bool
    requires Supported(p)
  {
    InMrbInt(p, v)
  }

  /** The written test is right on every build except 64-bit signed time_t with 32-bit mrb_int. */
  lemma FixableAsWrittenCorrect(p: Platform, v: int)
    requires Supported(p) && InTimeT(p, v)
    requires !(p.timeBits == 64 && !p.timeUnsigned && p.intBits == 32)
    ensures FixableAsWritten(p, v) == Fixable(p, v)
  {
  }

  /**
   * 64-bit signed time_t, 32-bit mrb_int: the epoch second of 1900-01-01 00:00:00 UTC is below
   * MRB_INT_MIN, but `(mrb_int)v` wraps it to a positive number, so the test calls it fixable and
   * `to_i` would answer the wrapped number.
   */
  lemma FixableAsWrittenWrongOnNarrowInt()
    ensures FixableAsWritten(Platform(64, false, 32), -2208988800)
    ensures !Fixable(Platform(64, false, 32), -2208988800)
    ensures CastMrbInt(Platform(64, false, 32), -2208988800) == 2085978496
  {
  }

  /** On the host every time_t is an mrb_int, so `to_i` never needs the big-integer or float fallback. */
  lemma HostAlwaysFixable(v: int)
    requires InTimeT(Host, v)
    ensures FixableAsWritten(Host, v) && Fixable(Host, v)
  {
  }

  /**
   * `time_value_from_time_t` in a build with neither floats nor big integers: the Integer with the
   * same value when it fits, ArgumentError "Time too big" otherwise.
   */
  function FromTimeT(p: Platform, t: int): (r: Result<int, Error>)
    requires Supported(p) && InTimeT(p, t)
    ensures r.Success? <==> InMrbInt(p, t)
    ensures r.Success? ==> r.value == t
    ensures r.Failure? ==> r.error == TimeTooBig && r.error.Class() == ArgumentError
  {
    if Fixable(p, t) then Success(CastMrbInt(p, t)) else Failure(TimeTooBig)
  }
}

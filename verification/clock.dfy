/**
 * The clock of builds without `gettimeofday` (NO_GETTIMEOFDAY): `time(NULL)` has whole seconds
 * only, so readings taken within one second are told apart by a microsecond counter that is kept
 * from one call to the next. The reading of `time(NULL)` itself is the parameter `now`.
 */
module Clock {

  class TieBreaker {
    /** The function-static `last_sec`. */
    var lastSec: int
    /** The function-static `last_usec`. */
    var lastUsec: int

    /** Both statics start at zero. */
    constructor ()
      ensures lastSec == 0 && lastUsec == 0
    {
      lastSec, lastUsec := 0, 0;
    }

    /**
     * One reading in `current_mrb_time`: a new second restarts the counter at 0, the same second
     * again adds one microsecond. The counter is not reduced below 10^6, so more than a million
     * readings within one second give a microsecond count of 10^6 or more.
     */
    method Sample(now: int) returns (sec: int, usec: int)
      modifies this
      ensures sec == now && lastSec == sec && lastUsec == usec
      ensures now != old(lastSec) ==> usec == 0
      ensures now == old(lastSec) ==> usec == old(lastUsec) + 1
      ensures old(lastUsec) >= 0 ==> usec >= 0
      ensures now >= old(lastSec) ==>
                old(lastSec) < sec || (old(lastSec) == sec && old(lastUsec) < usec)
    {
      sec := now;
      if sec != lastSec {
        lastSec := sec;
        lastUsec := 0;
      } else {
        lastUsec := lastUsec + 1;
      }
      usec := lastUsec;
    }
  }
}

/** The millisecond timeout of Timers.cpp, in the source's integer widths. */
module Timers {

  const INT_MAX: int := 0x7FFF_FFFF
  const LLONG_MAX: int := 0x7FFF_FFFF_FFFF_FFFF
  const NANOS_PER_MILLI: int := 1_000_000

  /** nsecs_t. */
  newtype Nanos = x: int | -LLONG_MAX - 1 <= x <= LLONG_MAX

  /** The unsigned 64-bit `timeoutDelay`. */
  newtype Unsigned64 = x: int | 0 <= x <= 2 * LLONG_MAX + 1

  /** The result type `int`. */
  newtype Int32 = x: int | -INT_MAX - 1 <= x <= INT_MAX

  /** The longest delay, in nanoseconds, that has a millisecond timeout. */
  const LONGEST: int := (INT_MAX - 1) * NANOS_PER_MILLI

  /** `timeoutTime - referenceTime` must be an nsecs_t when it is computed. */
  predicate DelayFits(referenceTime: Nanos, timeoutTime: Nanos) {
    timeoutTime > referenceTime ==> timeoutTime as int - referenceTime as int <= LLONG_MAX
  }

  function ToMillisecondTimeoutDelay(referenceTime: Nanos, timeoutTime: Nanos): (r: Int32)
    requires DelayFits(referenceTime, timeoutTime)
  {
    if timeoutTime > referenceTime then
      var timeoutDelay := (timeoutTime - referenceTime) as Unsigned64;
      if timeoutDelay > LONGEST as Unsigned64 then -1
      else ((timeoutDelay + 999_999) as Nanos / 1_000_000) as Int32
    else 0
  }

  lemma NonNegativeTimesFit(referenceTime: Nanos, timeoutTime: Nanos)
    requires 0 <= referenceTime && 0 <= timeoutTime
    ensures DelayFits(referenceTime, timeoutTime)
  {
  }

  /**
   The timeout is the delay rounded up to whole milliseconds, 0 when it is
   already over, and -1 exactly when the delay is beyond an int of milliseconds.
   */
  lemma TimeoutCoversDelay(referenceTime: Nanos, timeoutTime: Nanos)
    requires DelayFits(referenceTime, timeoutTime)
    ensures var r := ToMillisecondTimeoutDelay(referenceTime, timeoutTime) as int;
            var delay := timeoutTime as int - referenceTime as int;
            && (r == -1 <==> delay > LONGEST)
            && (r == 0 <==> delay <= 0)
            && (r > 0 ==> (r - 1) * NANOS_PER_MILLI < delay <= r * NANOS_PER_MILLI)
            && -1 <= r < INT_MAX
  {
  }
}

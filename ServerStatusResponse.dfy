/**
 * The status snapshot returned by `/api/server-status`: a fixed `"UP"`, the
 * configured version, the uptime since process start and the JVM memory
 * counters. The two clock reads of `ServerStatusResponse.of` are
 * parameters.
 */
module ServerStatus {
  import opened JavaTime

  const TWO_TO_64: int := 0x1_0000_0000_0000_0000
  const LONG_MIN: int := -0x8000_0000_0000_0000
  const LONG_MAX: int := 0x7FFF_FFFF_FFFF_FFFF
  const INT_MIN: int := -0x8000_0000
  const INT_MAX: int := 0x7FFF_FFFF

  /** Java `long` and `int` values. */
  type Int64 = x: int | LONG_MIN <= x <= LONG_MAX
  type Int32 = x: int | INT_MIN <= x <= INT_MAX

  /**
   * Two's-complement wrap-around of Java `long` arithmetic: the `long` that
   * agrees with `x` modulo 2^64, which is `x` itself when `x` fits.
   */
  function WrapLong(x: int): (r: Int64)
    ensures (x - r) % TWO_TO_64 == 0
    ensures LONG_MIN <= x <= LONG_MAX ==> r == x
  {
    (x - LONG_MIN) % TWO_TO_64 + LONG_MIN
  }

  /** Java `long` subtraction `a - b`. */
  function LongSub(a: Int64, b: Int64): (r: Int64)
    ensures (a - b - r) % TWO_TO_64 == 0
    ensures LONG_MIN <= a - b <= LONG_MAX ==> r == a - b
  {
    WrapLong(a - b)
  }

  datatype ServerStatusResponse = ServerStatusResponse(
    status: string,
    version: string,
    timestamp: Instant,
    uptime: Int64,
    availableProcessors: Int32,
    totalMemory: Int64,
    freeMemory: Int64,
    usedMemory: Int64)

  /**
   * `ServerStatusResponse.of`, reading the clock as `currentTimeMillis` and
   * `now`: status is `"UP"`, the inputs are copied through, used memory is
   * total minus free and uptime is the time elapsed since `startTime`, both
   * exact whenever the difference fits in a `long`.
   */
  function Of(version: string, startTime: Int64, availableProcessors: Int32, totalMemory: Int64,
              freeMemory: Int64, currentTimeMillis: Int64, now: Instant): (r: ServerStatusResponse)
    ensures r.status == "UP"
    ensures r.version == version && r.timestamp == now && r.availableProcessors == availableProcessors
    ensures r.totalMemory == totalMemory && r.freeMemory == freeMemory
    ensures (totalMemory - freeMemory - r.usedMemory) % TWO_TO_64 == 0
    ensures LONG_MIN <= totalMemory - freeMemory <= LONG_MAX ==> r.usedMemory == totalMemory - freeMemory
    ensures (currentTimeMillis - startTime - r.uptime) % TWO_TO_64 == 0
    ensures LONG_MIN <= currentTimeMillis - startTime <= LONG_MAX ==> r.uptime == currentTimeMillis - startTime
  {
    var usedMemory := LongSub(totalMemory, freeMemory);
    var uptime := LongSub(currentTimeMillis, startTime);
    ServerStatusResponse("UP", version, now, uptime, availableProcessors, totalMemory, freeMemory, usedMemory)
  }

  /**
   * With the JVM's counters (`0 <= freeMemory <= totalMemory`) used memory is
   * exactly total minus free, and lies between 0 and the total.
   */
  lemma UsedMemoryIsTotalMinusFree(version: string, startTime: Int64, availableProcessors: Int32,
                                   totalMemory: Int64, freeMemory: Int64, currentTimeMillis: Int64, now: Instant)
    requires 0 <= freeMemory <= totalMemory
    ensures var r := Of(version, startTime, availableProcessors, totalMemory, freeMemory, currentTimeMillis, now);
      r.usedMemory == r.totalMemory - r.freeMemory && 0 <= r.usedMemory <= r.totalMemory
  {
  }

  /**
   * For a start time on the epoch clock and a later reading, uptime is the
   * exact, non-negative elapsed time.
   */
  lemma UptimeNonNegative(version: string, startTime: Int64, availableProcessors: Int32,
                          totalMemory: Int64, freeMemory: Int64, currentTimeMillis: Int64, now: Instant)
    requires 0 <= startTime <= currentTimeMillis
    ensures var r := Of(version, startTime, availableProcessors, totalMemory, freeMemory, currentTimeMillis, now);
      r.uptime == currentTimeMillis - startTime && r.uptime >= 0
  {
  }

  /** A later clock reading gives a strictly larger uptime; an equal one gives the same. */
  lemma UptimeMonotonic(version: string, startTime: Int64, availableProcessors: Int32,
                        totalMemory: Int64, freeMemory: Int64, t1: Int64, t2: Int64, now1: Instant, now2: Instant)
    requires 0 <= startTime <= t1 <= t2
    ensures var r1 := Of(version, startTime, availableProcessors, totalMemory, freeMemory, t1, now1);
            var r2 := Of(version, startTime, availableProcessors, totalMemory, freeMemory, t2, now2);
      r1.uptime <= r2.uptime && (t1 < t2 ==> r1.uptime < r2.uptime)
  {
  }

  /**
   * Without a bound on `startTime` the subtraction can wrap: a start time of
   * `LONG_MIN` read at time 0 overflows to a negative uptime.
   */
  lemma UptimeWrapsOnOverflow()
    ensures Of("", LONG_MIN, 1, 0, 0, 0, 0).uptime == LONG_MIN
  {
  }
}

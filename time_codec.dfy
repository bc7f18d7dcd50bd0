/**
 * Conversion of Apple "absolute time" (counted from 2001-01-01 00:00:00 UTC)
 * to Unix time, and the rendering of a Unix time as a UTC timestamp string.
 * Older rows store seconds, newer rows nanoseconds; a value above 0xFFFFFFFF
 * is taken to be nanoseconds. Time is a `real`: the model does not follow
 * the IEEE rounding of the division by 1e9.
 */
module TimeCodec {

  /** Seconds from 1970-01-01 to 2001-01-01, both UTC. */
  const MacEpochOffset: int := 978307200

  /** The largest value still read as seconds. */
  const SecondsCeiling: int := 0xFFFF_FFFF

  const NanosPerSecond: real := 1000000000.0

  /** The encoding the converter assumes for `v`: strictly above the ceiling means nanoseconds. */
  predicate ReadAsNanoseconds(v: int) {
    v > SecondsCeiling
  }

  /**
   * Unix time of an absolute time. The result minus the epoch offset is
   * the input itself when it is read as seconds, and the input scaled down
   * by 1e9 when it is read as nanoseconds.
   */
  function MacAbsTimeToUnixTime(v: int): (r: real)
    ensures !ReadAsNanoseconds(v) ==> r - MacEpochOffset as real == v as real
    ensures ReadAsNanoseconds(v) ==> (r - MacEpochOffset as real) * NanosPerSecond == v as real
  {
    var seconds := if v > SecondsCeiling then v as real / NanosPerSecond else v as real;
    seconds + MacEpochOffset as real
  }

  /**
   * Renders a Unix time as a UTC calendar date and time followed by the
   * literal " UTC" (parse_sms.db.py:38). The calendar part is the parameter
   * `clock`; the literal tail is kept, so a rendered time is never empty.
   */
  function UnixTimeToString(clock: real -> string, t: real): (s: string)
    ensures |s| >= 4 && s[|s| - 4..] == " UTC"
    ensures s[..|s| - 4] == clock(t)
  {
    clock(t) + " UTC"
  }

  /** Boundary values: 0 is the 2001 epoch, the ceiling itself is seconds, one above is nanoseconds. */
  lemma ConversionAtBoundaries()
    ensures MacAbsTimeToUnixTime(0) == 978307200.0
    ensures MacAbsTimeToUnixTime(0xFFFF_FFFF) == 4294967295.0 + 978307200.0
    ensures MacAbsTimeToUnixTime(0x1_0000_0000) == 4294967296.0 / 1000000000.0 + 978307200.0
  {
  }

  /**
   * One instant written either way converts to the same Unix time, as long
   * as its nanosecond count lies above the ceiling and its second count
   * does not: from 5 seconds after the epoch to 0xFFFFFFFF seconds.
   */
  lemma SameInstantEitherEncoding(s: int)
    requires 5 <= s <= SecondsCeiling
    ensures ReadAsNanoseconds(s * 1_000_000_000) && !ReadAsNanoseconds(s)
    ensures MacAbsTimeToUnixTime(s * 1_000_000_000) == MacAbsTimeToUnixTime(s)
  {
  }

  /**
   * The heuristic's blind spot: a nanosecond count of 1 to 4 whole seconds
   * stays under the ceiling, is read as seconds and lands 1e9 times too late.
   */
  lemma SmallNanosecondCountsReadAsSeconds(s: int)
    requires 1 <= s <= 4
    ensures !ReadAsNanoseconds(s * 1_000_000_000)
    ensures MacAbsTimeToUnixTime(s * 1_000_000_000) != MacAbsTimeToUnixTime(s)
  {
  }

  /** Within one encoding the conversion keeps the order of instants. */
  lemma MonotoneWithinEncoding(a: int, b: int)
    requires a <= b
    requires ReadAsNanoseconds(a) == ReadAsNanoseconds(b)
    ensures MacAbsTimeToUnixTime(a) <= MacAbsTimeToUnixTime(b)
  {
  }
}

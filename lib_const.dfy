/**
 * Library-wide constants: web timeouts in milliseconds and time spans in
 * seconds. The time spans are Java `long` constants built from `int`
 * constant expressions, so each product must stay below 2^31.
 */
module LibConst {
  import opened JavaLang

  const WEB_CONNECTION_TIMEOUT: int := 15000
  const WEB_SO_TIMEOUT: int := 15000

  const TIMESTAMP_MINUTE: int := 60
  const TIMESTAMP_HOUR: int := 60 * 60
  const TIMESTAMP_DAY: int := 24 * 60 * 60
  const TIMESTAMP_MONTH: int := 30 * 24 * 60 * 60
  const TIMESTAMP_YEAR: int := 12 * 30 * 24 * 60 * 60

  /** Each span is a whole number of the next smaller one; a "year" is twelve 30-day months. */
  lemma TimeSpansComposed()
    ensures TIMESTAMP_HOUR == 60 * TIMESTAMP_MINUTE && TIMESTAMP_HOUR == 3600
    ensures TIMESTAMP_DAY == 24 * TIMESTAMP_HOUR && TIMESTAMP_DAY == 86400
    ensures TIMESTAMP_MONTH == 30 * TIMESTAMP_DAY
    ensures TIMESTAMP_YEAR == 12 * TIMESTAMP_MONTH && TIMESTAMP_YEAR == 360 * TIMESTAMP_DAY
    ensures TIMESTAMP_YEAR != 365 * TIMESTAMP_DAY
  {
  }

  /** The spans are strictly increasing, and the largest int-typed product does not overflow. */
  lemma TimeSpansOrderedAndInRange()
    ensures 0 < TIMESTAMP_MINUTE < TIMESTAMP_HOUR < TIMESTAMP_DAY < TIMESTAMP_MONTH < TIMESTAMP_YEAR
    ensures TIMESTAMP_YEAR == 31104000 && IsInt32(TIMESTAMP_YEAR)
  {
  }

  /** Both web timeouts are fifteen seconds. */
  lemma WebTimeouts()
    ensures WEB_CONNECTION_TIMEOUT == WEB_SO_TIMEOUT == 15 * 1000
  {
  }
}

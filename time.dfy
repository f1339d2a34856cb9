/**
 * Instants and durations as the backend's `chrono` timestamps use them:
 * an instant is a count of nanoseconds since the Unix epoch in UTC, with no
 * leap seconds, and a duration (Rust's `std::time::Duration`) is a
 * non-negative count of nanoseconds.
 *
 * The calendar fields of an instant are read with flooring division, which
 * is what Dafny's Euclidean `/` and `%` give for a positive divisor, so the
 * fields are right for instants before the epoch too.
 */
module Time {

  type Instant = int
  type Duration = nat

  const NANOS_PER_SECOND: int := 1_000_000_000
  const NANOS_PER_MINUTE: int := 60_000_000_000
  const NANOS_PER_HOUR: int := 3_600_000_000_000
  const NANOS_PER_DAY: int := 86_400_000_000_000

  /** `chrono::Duration::minutes(n)`, in nanoseconds. */
  function Minutes(n: int): int { n * NANOS_PER_MINUTE }

  /** `chrono::Duration::days(n)`, in nanoseconds. */
  function Days(n: int): int { n * NANOS_PER_DAY }

  /** The calendar day (days since 1970-01-01): what `date_naive()` compares. */
  function Day(t: Instant): int { t / NANOS_PER_DAY }

  /** `time().hour()` */
  function Hour(t: Instant): nat { (t % NANOS_PER_DAY) / NANOS_PER_HOUR }

  /** `time().minute()` */
  function Minute(t: Instant): nat { (t % NANOS_PER_HOUR) / NANOS_PER_MINUTE }

  /** `time().second()` */
  function Second(t: Instant): nat { (t % NANOS_PER_MINUTE) / NANOS_PER_SECOND }

  /** `time().nanosecond()` */
  function Nanosecond(t: Instant): nat { t % NANOS_PER_SECOND }

  /** The instant on day `d` at `h:m:s` plus `n` nanoseconds. */
  function FromFields(d: int, h: int, m: int, s: int, n: int): Instant {
    d * NANOS_PER_DAY + h * NANOS_PER_HOUR + m * NANOS_PER_MINUTE + s * NANOS_PER_SECOND + n
  }

  lemma DivModDay(t: int, q: int, r: int)
    requires t == q * NANOS_PER_DAY + r && 0 <= r < NANOS_PER_DAY
    ensures t / NANOS_PER_DAY == q && t % NANOS_PER_DAY == r
  {
  }

  lemma DivModHour(t: int, q: int, r: int)
    requires t == q * NANOS_PER_HOUR + r && 0 <= r < NANOS_PER_HOUR
    ensures t / NANOS_PER_HOUR == q && t % NANOS_PER_HOUR == r
  {
  }

  lemma DivModMinute(t: int, q: int, r: int)
    requires t == q * NANOS_PER_MINUTE + r && 0 <= r < NANOS_PER_MINUTE
    ensures t / NANOS_PER_MINUTE == q && t % NANOS_PER_MINUTE == r
  {
  }

  lemma DivModSecond(t: int, q: int, r: int)
    requires t == q * NANOS_PER_SECOND + r && 0 <= r < NANOS_PER_SECOND
    ensures t / NANOS_PER_SECOND == q && t % NANOS_PER_SECOND == r
  {
  }

  /** Every instant is its calendar fields, each within its range. */
  lemma Decompose(t: Instant)
    ensures Hour(t) < 24 && Minute(t) < 60 && Second(t) < 60 && Nanosecond(t) < NANOS_PER_SECOND
    ensures t == FromFields(Day(t), Hour(t), Minute(t), Second(t), Nanosecond(t))
  {
    var d, inDay := t / NANOS_PER_DAY, t % NANOS_PER_DAY;
    var h, inHour := inDay / NANOS_PER_HOUR, inDay % NANOS_PER_HOUR;
    DivModHour(t, d * 24 + h, inHour);
    var m, inMinute := inHour / NANOS_PER_MINUTE, inHour % NANOS_PER_MINUTE;
    DivModMinute(t, (d * 24 + h) * 60 + m, inMinute);
    var s, n := inMinute / NANOS_PER_SECOND, inMinute % NANOS_PER_SECOND;
    DivModSecond(t, ((d * 24 + h) * 60 + m) * 60 + s, n);
    assert h < 24 && m < 60 && s < 60;
  }

  /** An instant built from in-range fields reads back exactly those fields. */
  lemma Compose(d: int, h: int, m: int, s: int, n: int)
    requires 0 <= h < 24 && 0 <= m < 60 && 0 <= s < 60 && 0 <= n < NANOS_PER_SECOND
    ensures var t := FromFields(d, h, m, s, n);
      Day(t) == d && Hour(t) == h && Minute(t) == m && Second(t) == s && Nanosecond(t) == n
  {
    var t := FromFields(d, h, m, s, n);
    var inMinute := s * NANOS_PER_SECOND + n;
    var inHour := m * NANOS_PER_MINUTE + inMinute;
    var inDay := h * NANOS_PER_HOUR + inHour;
    DivModSecond(inMinute, s, n);
    DivModMinute(inHour, m, inMinute);
    DivModHour(inDay, h, inHour);
    DivModDay(t, d, inDay);
    DivModHour(t, d * 24 + h, inHour);
    DivModMinute(t, (d * 24 + h) * 60 + m, inMinute);
    DivModSecond(t, ((d * 24 + h) * 60 + m) * 60 + s, n);
  }

  /** `with_hour(h)`: the same instant with the hour of day replaced. */
  function WithHour(t: Instant, h: nat): (r: Instant)
    requires h < 24
    ensures Day(r) == Day(t) && Hour(r) == h && Minute(r) == Minute(t)
    ensures Second(r) == Second(t) && Nanosecond(r) == Nanosecond(t)
  {
    Decompose(t);
    Compose(Day(t), h, Minute(t), Second(t), Nanosecond(t));
    FromFields(Day(t), h, Minute(t), Second(t), Nanosecond(t))
  }

  /** `with_minute(m)`: the same instant with the minute replaced. */
  function WithMinute(t: Instant, m: nat): (r: Instant)
    requires m < 60
    ensures Day(r) == Day(t) && Hour(r) == Hour(t) && Minute(r) == m
    ensures Second(r) == Second(t) && Nanosecond(r) == Nanosecond(t)
  {
    Decompose(t);
    Compose(Day(t), Hour(t), m, Second(t), Nanosecond(t));
    FromFields(Day(t), Hour(t), m, Second(t), Nanosecond(t))
  }

  /** `with_second(s)`: the same instant with the second replaced. */
  function WithSecond(t: Instant, s: nat): (r: Instant)
    requires s < 60
    ensures Day(r) == Day(t) && Hour(r) == Hour(t) && Minute(r) == Minute(t)
    ensures Second(r) == s && Nanosecond(r) == Nanosecond(t)
  {
    Decompose(t);
    Compose(Day(t), Hour(t), Minute(t), s, Nanosecond(t));
    FromFields(Day(t), Hour(t), Minute(t), s, Nanosecond(t))
  }

  /** `with_nanosecond(n)`: the same instant with the sub-second part replaced. */
  function WithNanosecond(t: Instant, n: nat): (r: Instant)
    requires n < NANOS_PER_SECOND
    ensures Day(r) == Day(t) && Hour(r) == Hour(t) && Minute(r) == Minute(t)
    ensures Second(r) == Second(t) && Nanosecond(r) == n
  {
    Decompose(t);
    Compose(Day(t), Hour(t), Minute(t), Second(t), n);
    FromFields(Day(t), Hour(t), Minute(t), Second(t), n)
  }

  /**
   * Epoch-aligned 5-minute buckets nest inside hours and days: the index of
   * the bucket holding `t` is its day, hour and minute-bucket read as one
   * mixed-radix number (288 buckets a day, 12 an hour).
   */
  lemma FiveMinuteBucket(t: Instant)
    ensures t / Minutes(5) == Day(t) * 288 + Hour(t) * 12 + Minute(t) / 5
    ensures t % Minutes(5) == (Minute(t) % 5) * NANOS_PER_MINUTE + Second(t) * NANOS_PER_SECOND + Nanosecond(t)
    ensures Hour(t) < 24 && Minute(t) / 5 < 12
  {
    Decompose(t);
    var q := Day(t) * 288 + Hour(t) * 12 + Minute(t) / 5;
    var r := (Minute(t) % 5) * NANOS_PER_MINUTE + Second(t) * NANOS_PER_SECOND + Nanosecond(t);
    assert Minute(t) == (Minute(t) / 5) * 5 + Minute(t) % 5;
    assert 0 <= r < Minutes(5);
    assert t == q * Minutes(5) + r;
  }

  /** Later instants are in the same or a later 5-minute bucket. */
  lemma BucketMonotone(a: Instant, b: Instant)
    requires a <= b
    ensures a / Minutes(5) <= b / Minutes(5)
  {
  }

  /** Two instants in the same 5-minute bucket share their day, hour and minute-bucket. */
  lemma SameBucketSameFields(a: Instant, b: Instant)
    ensures a / Minutes(5) == b / Minutes(5) ==>
              Day(a) == Day(b) && Hour(a) == Hour(b) && Minute(a) / 5 == Minute(b) / 5
  {
    FiveMinuteBucket(a);
    FiveMinuteBucket(b);
    Decompose(a);
    Decompose(b);
  }
}

/** Wall-clock arithmetic for the two schedulers. Python's `datetime` is
    modelled as a count of microseconds from 0001-01-01T00:00:00, the first
    instant of its calendar; that day was a Monday, so `weekday()` is the
    day count modulo 7 (0 = Monday, 6 = Sunday). Time zones and leap
    seconds are not part of `datetime` arithmetic and not of the model. */
module Clock {

  type Instant = nat

  const MicrosPerMinute: nat := 60_000_000
  const MicrosPerHour: nat := 3_600_000_000
  const MicrosPerDay: nat := 86_400_000_000

  /** Days since 0001-01-01: two instants have the same `date()` exactly
      when their day counts agree. */
  function Day(t: Instant): nat
  {
    t / MicrosPerDay
  }

  function TimeOfDay(t: Instant): (r: nat)
    ensures r < MicrosPerDay
  {
    t % MicrosPerDay
  }

  /** `weekday()`. */
  function Weekday(t: Instant): (r: nat)
    ensures r < 7
  {
    Day(t) % 7
  }

  function Hour(t: Instant): (r: nat)
    ensures r < 24
  {
    TimeOfDay(t) / MicrosPerHour
  }

  function Minute(t: Instant): (r: nat)
    ensures r < 60
  {
    TimeOfDay(t) % MicrosPerHour / MicrosPerMinute
  }

  /** The arguments `replace(hour=..., minute=...)` accepts; any other
      value raises `ValueError`. */
  predicate ValidTime(hour: int, minute: int)
  {
    0 <= hour < 24 && 0 <= minute < 60
  }

  /** `t.replace(hour=hour, minute=minute, second=0, microsecond=0)`. */
  function AtTime(t: Instant, hour: nat, minute: nat): (r: Instant)
    requires ValidTime(hour, minute)
    ensures Day(r) == Day(t)
    ensures TimeOfDay(r) == hour * MicrosPerHour + minute * MicrosPerMinute
    ensures Hour(r) == hour && Minute(r) == minute
  {
    Day(t) * MicrosPerDay + hour * MicrosPerHour + minute * MicrosPerMinute
  }

  /** `t + timedelta(days=days)`. */
  function AddDays(t: Instant, days: nat): (r: Instant)
    ensures Day(r) == Day(t) + days && TimeOfDay(r) == TimeOfDay(t)
  {
    t + days * MicrosPerDay
  }

  lemma DaySplit(t: Instant)
    ensures t == Day(t) * MicrosPerDay + TimeOfDay(t)
  {
  }

  lemma DayMonotone(a: Instant, b: Instant)
    requires a <= b
    ensures Day(a) <= Day(b)
  {
    DaySplit(a);
    DaySplit(b);
  }

  /** The minute of the day, counted the way `Hour` and `Minute` read it. */
  lemma MinuteOfDay(t: Instant)
    ensures TimeOfDay(t) / MicrosPerMinute == Hour(t) * 60 + Minute(t)
  {
    var tod := TimeOfDay(t);
    assert tod == Hour(t) * MicrosPerHour + tod % MicrosPerHour;
    assert tod % MicrosPerHour == Minute(t) * MicrosPerMinute + tod % MicrosPerHour % MicrosPerMinute;
  }

  /** `t >= t.replace(hour=h, minute=m, second=0, microsecond=0)` holds
      exactly when the clock shows h:m or later. */
  lemma ReachedIff(t: Instant, hour: nat, minute: nat)
    requires ValidTime(hour, minute)
    ensures t >= AtTime(t, hour, minute) <==> Hour(t) * 60 + Minute(t) >= hour * 60 + minute
  {
    DaySplit(t);
    MinuteOfDay(t);
    var tod := TimeOfDay(t);
    assert hour * MicrosPerHour + minute * MicrosPerMinute == (hour * 60 + minute) * MicrosPerMinute;
    assert tod == (tod / MicrosPerMinute) * MicrosPerMinute + tod % MicrosPerMinute;
  }
}

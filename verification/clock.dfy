/** Naive local date-times and time differences, as the bot handles them with
    `datetime.now()`: no time zone and no daylight-saving offset is attached
    to any value. An instant is a calendar day ordinal and a second of that
    day; the wall clock itself is never read here, the caller passes "now". */
module Clock {
  import opened Calendar

  const SecondsPerDay := 86400

  type SecOfDay = s: int | 0 <= s < 86400

  /** A naive datetime truncated to whole seconds: `day` is the ordinal of
      its date (see Calendar.ToOrdinal) and `sec` the seconds since midnight. */
  datatype Instant = Instant(day: int, sec: SecOfDay)

  /** A time of day as Python's `time(hour, minute)`, seconds being zero. */
  datatype TimeOfDay = TimeOfDay(hour: int, minute: int)

  predicate ValidTime(t: TimeOfDay) {
    0 <= t.hour < 24 && 0 <= t.minute < 60
  }

  function Hour(s: SecOfDay): int { s / 3600 }

  function Minute(s: SecOfDay): int { s / 60 % 60 }

  function Second(s: SecOfDay): int { s % 60 }

  /** The second of the day at which `t` begins. */
  function SecondOf(t: TimeOfDay): (s: SecOfDay)
    requires ValidTime(t)
    ensures Hour(s) == t.hour && Minute(s) == t.minute && Second(s) == 0
  {
    t.hour * 3600 + t.minute * 60
  }

  /** The instant `hour:minute:second` on date `d`, as `datetime(y, m, d, h, mi, s)`. */
  function At(d: Date, hour: int, minute: int, second: int): (i: Instant)
    requires Valid(d)
    requires 0 <= hour < 24 && 0 <= minute < 60 && 0 <= second < 60
    ensures i.day == ToOrdinal(d)
    ensures Hour(i.sec) == hour && Minute(i.sec) == minute && Second(i.sec) == second
  {
    var s := hour * 3600 + minute * 60 + second;
    assert s / 60 == hour * 60 + minute && s % 60 == second;
    assert s / 3600 == hour;
    Instant(ToOrdinal(d), s)
  }

  /** Seconds since the start of day ordinal 0: the instant's position on one
      line, on which Python compares datetimes. */
  function Timeline(i: Instant): int {
    i.day * SecondsPerDay + i.sec
  }

  /** Comparing on the timeline is comparing day first, then second of day;
      in particular two instants at the same position are the same instant. */
  lemma TimelineOrder(a: Instant, b: Instant)
    ensures Timeline(a) < Timeline(b) <==> a.day < b.day || (a.day == b.day && a.sec < b.sec)
    ensures Timeline(a) == Timeline(b) <==> a == b
  {
    if a.day < b.day {
      assert Timeline(a) < (a.day + 1) * SecondsPerDay <= b.day * SecondsPerDay;
    } else if b.day < a.day {
      assert Timeline(b) < (b.day + 1) * SecondsPerDay <= a.day * SecondsPerDay;
    }
  }

  /** Python's normalised `timedelta`: a whole number of days, possibly
      negative, and a non-negative remainder of seconds below one day. */
  datatype Timedelta = Timedelta(days: int, seconds: SecOfDay)

  function TotalSeconds(d: Timedelta): int {
    d.days * SecondsPerDay + d.seconds
  }

  /** `a - b` for naive datetimes. Normalisation floors the day count, so a
      negative difference of less than a day has `days == -1`. */
  function Subtract(a: Instant, b: Instant): (d: Timedelta)
    ensures TotalSeconds(d) == Timeline(a) - Timeline(b)
  {
    var total := Timeline(a) - Timeline(b);
    Timedelta(total / SecondsPerDay, total % SecondsPerDay)
  }

  /** Elapsed whole days since midnight of day `day` are the difference of
      day ordinals, whatever the time of day of `now` and whichever side of
      `day` it lies on. */
  lemma DaysSinceMidnight(now: Instant, day: int)
    ensures Subtract(now, Instant(day, 0)).days == now.day - day
  {
  }
}

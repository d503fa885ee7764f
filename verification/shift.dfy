/** The shift rotation: which of the four crews a report is tagged with at a
    given instant. Whole days are counted from midnight of the reference date
    2024-10-18; between 08:00 (inclusive) and 20:00 (exclusive) the rotation
    is one step ahead of the day count, otherwise it equals it, taken modulo
    the number of crews. */
module Shift {
  import opened Calendar
  import opened Clock

  const Labels: seq<char> := ['A', 'B', 'C', 'D']

  const Reference := Date(2024, 10, 18)

  /** 08:00, where the day segment begins, and 20:00, where the night segment begins. */
  const DayStart: SecOfDay := 8 * 3600
  const NightStart: SecOfDay := 20 * 3600

  /** Whole days from midnight of the reference date to `now`, floored as
      `timedelta.days` floors: negative before the reference date. */
  function DaysElapsed(now: Instant): int {
    Subtract(now, Instant(ToOrdinal(Reference), 0)).days
  }

  /** The half-open day segment [08:00, 20:00); the rest of the day, on both
      sides of midnight, is night. */
  predicate InDaySegment(s: SecOfDay) {
    DayStart <= s < NightStart
  }

  /** Position of the active crew in `Labels`. Python's `%` by a positive
      divisor never returns a negative number, and neither does Dafny's. */
  function ShiftIndex(now: Instant): (i: int)
    ensures 0 <= i < |Labels|
  {
    if InDaySegment(now.sec) then (DaysElapsed(now) + 1) % |Labels|
    else DaysElapsed(now) % |Labels|
  }

  /** The crew label a report made at `now` is tagged with. */
  function CurrentShift(now: Instant): (crew: char)
    ensures crew in Labels
  {
    Labels[ShiftIndex(now)]
  }

  /** The index in terms of the calendar alone: the number of calendar days
      between the reference date and the date of `now`, one more during the
      day segment, modulo four. */
  lemma ShiftIndexByCalendarDay(now: Instant)
    ensures InDaySegment(now.sec) ==> ShiftIndex(now) == (now.day - ToOrdinal(Reference) + 1) % 4
    ensures !InDaySegment(now.sec) ==> ShiftIndex(now) == (now.day - ToOrdinal(Reference)) % 4
  {
    DaysSinceMidnight(now, ToOrdinal(Reference));
  }

  /** At a fixed time of day, one day later the rotation is one step further. */
  lemma NextDayAdvances(now: Instant)
    ensures ShiftIndex(Instant(now.day + 1, now.sec)) == (ShiftIndex(now) + 1) % |Labels|
  {
    ShiftIndexByCalendarDay(now);
    ShiftIndexByCalendarDay(Instant(now.day + 1, now.sec));
    var k := now.day - ToOrdinal(Reference);
    ModSuccessor(k);
    ModSuccessor(k + 1);
  }

  lemma ModSuccessor(x: int)
    ensures (x + 1) % 4 == (x % 4 + 1) % 4
  {
  }

  /** The same on the calendar: on the following date, at the same wall-clock
      time, the label is the next one in the rotation (D is followed by A). */
  lemma NextDateAdvances(d: Date, hour: int, minute: int, second: int)
    requires Valid(d) && d != LastDate
    requires 0 <= hour < 24 && 0 <= minute < 60 && 0 <= second < 60
    ensures Valid(NextDate(d))
    ensures ShiftIndex(At(NextDate(d), hour, minute, second))
         == (ShiftIndex(At(d, hour, minute, second)) + 1) % |Labels|
  {
    NextDateOrdinal(d);
    var today := At(d, hour, minute, second);
    assert At(NextDate(d), hour, minute, second) == Instant(today.day + 1, today.sec);
    NextDayAdvances(today);
  }

  /** 08:00 belongs to the day segment: the label at 08:00 is the one after
      the label at 07:59:59 of the same day. */
  lemma DayStartAdvances(day: int)
    ensures ShiftIndex(Instant(day, DayStart)) == (ShiftIndex(Instant(day, DayStart - 1)) + 1) % |Labels|
    ensures CurrentShift(Instant(day, DayStart)) != CurrentShift(Instant(day, DayStart - 1))
  {
    ShiftIndexByCalendarDay(Instant(day, DayStart));
    ShiftIndexByCalendarDay(Instant(day, DayStart - 1));
  }

  /** 20:00 belongs to the night segment: the label at 20:00 is the one before
      the label at 19:59:59 of the same day. */
  lemma NightStartRecedes(day: int)
    ensures ShiftIndex(Instant(day, NightStart - 1)) == (ShiftIndex(Instant(day, NightStart)) + 1) % |Labels|
    ensures CurrentShift(Instant(day, NightStart)) != CurrentShift(Instant(day, NightStart - 1))
  {
    ShiftIndexByCalendarDay(Instant(day, NightStart));
    ShiftIndexByCalendarDay(Instant(day, NightStart - 1));
  }

  /** Because the day count changes at midnight, the night segment that runs
      from 20:00 to 08:00 carries two labels: the one of the evening, and
      after midnight the one of the day segment that preceded it. */
  lemma NightChangesAtMidnight(day: int)
    ensures CurrentShift(Instant(day + 1, 0)) != CurrentShift(Instant(day, SecondsPerDay - 1))
    ensures CurrentShift(Instant(day + 1, 0)) == CurrentShift(Instant(day, NightStart - 1))
  {
    ShiftIndexByCalendarDay(Instant(day + 1, 0));
    ShiftIndexByCalendarDay(Instant(day, SecondsPerDay - 1));
    ShiftIndexByCalendarDay(Instant(day, NightStart - 1));
  }

  /** Within one day the label changes only at 08:00 and 20:00: two instants of
      the same day before 08:00, in the day segment, or from 20:00 on, share it. */
  lemma ConstantWithinSegment(a: Instant, b: Instant)
    requires a.day == b.day
    requires (a.sec < DayStart && b.sec < DayStart)
          || (InDaySegment(a.sec) && InDaySegment(b.sec))
          || (NightStart <= a.sec && NightStart <= b.sec)
    ensures CurrentShift(a) == CurrentShift(b)
  {
    ShiftIndexByCalendarDay(a);
    ShiftIndexByCalendarDay(b);
  }

  /** Python's ordinals of the reference date and of dates around it. */
  lemma ReferenceOrdinal()
    ensures ToOrdinal(Reference) == 739177
    ensures Valid(Date(2024, 10, 17)) && ToOrdinal(Date(2024, 10, 17)) == 739176
    ensures Valid(Date(2024, 10, 19)) && ToOrdinal(Date(2024, 10, 19)) == 739178
  {
  }

  /** The label a report made on date `d` at `hour:minute` gets, `k` days
      after the reference date. */
  lemma ShiftOnDay(d: Date, k: int, hour: int, minute: int)
    requires Valid(d) && ToOrdinal(d) == 739177 + k
    requires 0 <= hour < 24 && 0 <= minute < 60
    ensures CurrentShift(At(d, hour, minute, 0))
         == Labels[if 8 <= hour < 20 then (k + 1) % 4 else k % 4]
  {
    ReferenceOrdinal();
    var i := At(d, hour, minute, 0);
    assert i.sec / 3600 == hour;
    ShiftIndexByCalendarDay(i);
  }

  /** 2024-10-18 09:00, day segment of the reference date: B. */
  lemma ExampleReferenceMorning()
    ensures CurrentShift(At(Date(2024, 10, 18), 9, 0, 0)) == 'B'
  {
    ReferenceOrdinal();
    ShiftOnDay(Date(2024, 10, 18), 0, 9, 0);
  }

  /** 2024-10-18 21:00, night segment of the reference date: A. */
  lemma ExampleReferenceEvening()
    ensures CurrentShift(At(Date(2024, 10, 18), 21, 0, 0)) == 'A'
  {
    ReferenceOrdinal();
    ShiftOnDay(Date(2024, 10, 18), 0, 21, 0);
  }

  /** 2024-10-19 09:00, one day later: C. */
  lemma ExampleNextMorning()
    ensures CurrentShift(At(Date(2024, 10, 19), 9, 0, 0)) == 'C'
  {
    ReferenceOrdinal();
    ShiftOnDay(Date(2024, 10, 19), 1, 9, 0);
  }

  /** 2024-10-17 21:00, before the reference date: the floored day count is
      -1 and its non-negative remainder picks D. */
  lemma ExampleBeforeReference()
    ensures CurrentShift(At(Date(2024, 10, 17), 21, 0, 0)) == 'D'
  {
    ReferenceOrdinal();
    ShiftOnDay(Date(2024, 10, 17), -1, 21, 0);
  }
}

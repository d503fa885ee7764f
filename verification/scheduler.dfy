/** The next-fire step of the daily report scheduler: from "now" and a list
    of times of day, the earliest instant strictly after now that falls on
    one of those times, with seconds set to zero. Each time of day is placed
    on today's date and moved to tomorrow when it is not strictly later than
    now; the earliest of these candidates wins. */
module Scheduler {
  import opened Optional
  import opened Calendar
  import opened Clock
  import SendWindow

  /** 20:00 and 08:00, in the order the scheduler lists them. */
  const FireTimes: seq<TimeOfDay> := [TimeOfDay(20, 0), TimeOfDay(8, 0)]

  predicate AllValid(times: seq<TimeOfDay>) {
    forall j :: 0 <= j < |times| ==> ValidTime(times[j])
  }

  /** `x` is an occurrence of one of `times`, on any day. */
  predicate Scheduled(x: Instant, times: seq<TimeOfDay>)
    requires AllValid(times)
  {
    exists j :: 0 <= j < |times| && x.sec == SecondOf(times[j])
  }

  /** Time `t` on the date of `now` (`now.replace(hour=..., minute=...,
      second=0, microsecond=0)`), one day later when that is not after `now`. */
  function Candidate(now: Instant, t: TimeOfDay): (c: Instant)
    requires ValidTime(t)
    ensures c.sec == SecondOf(t)
    ensures Timeline(now) < Timeline(c) <= Timeline(now) + SecondsPerDay
  {
    var target := Instant(now.day, SecondOf(t));
    if Timeline(target) <= Timeline(now) then Instant(now.day + 1, target.sec) else target
  }

  /** The candidate is the first occurrence of `t` strictly after `now`. */
  lemma CandidateIsFirst(now: Instant, t: TimeOfDay, x: Instant)
    requires ValidTime(t)
    requires x.sec == SecondOf(t) && Timeline(now) < Timeline(x)
    ensures Timeline(Candidate(now, t)) <= Timeline(x)
  {
    TimelineOrder(now, x);
  }

  /** The scan over `times` keeping the earliest candidate so far in `best`,
      replaced only by a strictly earlier one. */
  function Earliest(now: Instant, times: seq<TimeOfDay>, best: Option<Instant>): (r: Option<Instant>)
    requires AllValid(times)
    ensures r.None? <==> best.None? && |times| == 0
    decreases |times|
  {
    if |times| == 0 then best
    else
      var target := Candidate(now, times[0]);
      var next := if best.None? || Timeline(target) < Timeline(best.value) then Some(target) else best;
      Earliest(now, times[1..], next)
  }

  /** The scan ends with the starting value or one of the candidates, and
      with nothing later than the starting value or any candidate. */
  lemma {:induction false} EarliestIsLeast(now: Instant, times: seq<TimeOfDay>, best: Option<Instant>)
    requires AllValid(times)
    ensures var r := Earliest(now, times, best);
      r.Some? ==> (best.Some? && r.value == best.value)
                  || exists j :: 0 <= j < |times| && r.value == Candidate(now, times[j])
    ensures var r := Earliest(now, times, best);
      r.Some? && best.Some? ==> Timeline(r.value) <= Timeline(best.value)
    ensures var r := Earliest(now, times, best);
      r.Some? ==> forall j :: 0 <= j < |times| ==> Timeline(r.value) <= Timeline(Candidate(now, times[j]))
    decreases |times|
  {
    if |times| > 0 {
      var target := Candidate(now, times[0]);
      var next := if best.None? || Timeline(target) < Timeline(best.value) then Some(target) else best;
      var rest := times[1..];
      assert AllValid(rest);
      EarliestIsLeast(now, rest, next);
      var r := Earliest(now, rest, next);
      assert r == Earliest(now, times, best);
      if r.Some? {
        if next.Some? && r.value == next.value {
          if next != best {
            assert r.value == Candidate(now, times[0]);
          }
        } else {
          var j :| 0 <= j < |rest| && r.value == Candidate(now, rest[j]);
          assert rest[j] == times[j + 1];
        }
        forall j | 0 <= j < |times|
          ensures Timeline(r.value) <= Timeline(Candidate(now, times[j]))
        {
          if j > 0 {
            assert rest[j - 1] == times[j];
          }
        }
      }
    }
  }

  /** The next fire instant for schedule `times`; `None` for an empty
      schedule, where the scheduler has nothing to wait for. Otherwise it is
      strictly after `now`, at most one day later, on the schedule, and no
      scheduled instant lies between `now` and it. */
  function NextFire(now: Instant, times: seq<TimeOfDay>): (r: Option<Instant>)
    requires AllValid(times)
    ensures r.None? <==> |times| == 0
    ensures r.Some? ==> Timeline(now) < Timeline(r.value) <= Timeline(now) + SecondsPerDay
    ensures r.Some? ==> Second(r.value.sec) == 0 && Scheduled(r.value, times)
    ensures r.Some? ==> forall x :: Scheduled(x, times) && Timeline(now) < Timeline(x) ==> Timeline(r.value) <= Timeline(x)
  {
    var r := Earliest(now, times, None);
    EarliestIsLeast(now, times, None);
    if r.Some? then
      BelowAllCandidates(now, times, r.value);
      r
    else r
  }

  /** Whatever is no later than every candidate is no later than any
      scheduled instant after `now`. */
  lemma BelowAllCandidates(now: Instant, times: seq<TimeOfDay>, r: Instant)
    requires AllValid(times)
    requires forall j :: 0 <= j < |times| ==> Timeline(r) <= Timeline(Candidate(now, times[j]))
    ensures forall x :: Scheduled(x, times) && Timeline(now) < Timeline(x) ==> Timeline(r) <= Timeline(x)
  {
    forall x | Scheduled(x, times) && Timeline(now) < Timeline(x)
      ensures Timeline(r) <= Timeline(x)
    {
      var k :| 0 <= k < |times| && x.sec == SecondOf(times[k]);
      CandidateIsFirst(now, times[k], x);
    }
  }

  /** The order of the schedule's entries, and repeated entries, do not
      change the next fire instant. */
  lemma NextFireOrderIndependent(now: Instant, a: seq<TimeOfDay>, b: seq<TimeOfDay>)
    requires AllValid(a) && AllValid(b)
    requires forall t :: t in a <==> t in b
    ensures NextFire(now, a) == NextFire(now, b)
  {
    var ra, rb := NextFire(now, a), NextFire(now, b);
    assert |a| > 0 ==> a[0] in b;
    assert |b| > 0 ==> b[0] in a;
    if |a| > 0 {
      var j :| 0 <= j < |a| && ra.value.sec == SecondOf(a[j]);
      assert a[j] in b;
      var k :| 0 <= k < |b| && rb.value.sec == SecondOf(b[k]);
      assert b[k] in a;
      assert Scheduled(ra.value, b);
      assert Scheduled(rb.value, a);
      TimelineOrder(ra.value, rb.value);
    }
  }

  /** The bot's own schedule. */
  function NextSend(now: Instant): (r: Instant)
    ensures Timeline(now) < Timeline(r) <= Timeline(now) + SecondsPerDay
    ensures r.sec == 8 * 3600 || r.sec == 20 * 3600
    ensures SendWindow.IsSendTime(r.sec)
  {
    assert AllValid(FireTimes);
    var r := NextFire(now, FireTimes);
    assert r.value.sec == SecondOf(FireTimes[0]) || r.value.sec == SecondOf(FireTimes[1]);
    r.value
  }

  /** The bot's schedule in closed form: 08:00 today before 08:00, 20:00 today
      from 08:00 until before 20:00, 08:00 tomorrow from 20:00 on. */
  lemma NextSendClosedForm(now: Instant)
    ensures NextSend(now) == if now.sec < 8 * 3600 then Instant(now.day, 8 * 3600)
                             else if now.sec < 20 * 3600 then Instant(now.day, 20 * 3600)
                             else Instant(now.day + 1, 8 * 3600)
  {
    var r := NextSend(now);
    var c := if now.sec < 8 * 3600 then Instant(now.day, 8 * 3600)
             else if now.sec < 20 * 3600 then Instant(now.day, 20 * 3600)
             else Instant(now.day + 1, 8 * 3600);
    assert c.sec == SecondOf(FireTimes[0]) || c.sec == SecondOf(FireTimes[1]);
    assert Scheduled(c, FireTimes);
    TimelineOrder(now, c);
    assert Timeline(r) <= Timeline(c);
    TimelineOrder(now, r);
    TimelineOrder(r, c);
    if now.sec < 8 * 3600 {
      assert r.day == now.day;
    } else if now.sec < 20 * 3600 {
      assert r.day == now.day;
      assert r.sec == 20 * 3600;
    } else {
      assert r.day == now.day + 1;
    }
  }

  /** Seconds the scheduler sleeps before the next send. */
  function WaitSeconds(now: Instant): (w: int)
    ensures 0 < w <= SecondsPerDay
    ensures Timeline(now) + w == Timeline(NextSend(now))
  {
    TotalSeconds(Subtract(NextSend(now), now))
  }

  /** Woken at a send instant or at any moment in the twelve hours after it
      (the firing itself takes time), the scheduler next fires twelve hours
      after that instant: as long as the wall clock has reached the chosen
      instant on waking, no occurrence is fired twice or skipped. */
  lemma SendsTwelveHoursApart(now: Instant, later: Instant)
    requires Timeline(NextSend(now)) <= Timeline(later) < Timeline(NextSend(now)) + 12 * 3600
    ensures Timeline(NextSend(later)) == Timeline(NextSend(now)) + 12 * 3600
  {
    NextSendClosedForm(now);
    NextSendClosedForm(later);
    TimelineOrder(later, NextSend(now));
  }

  /** Python datetimes end with 9999-12-31. The instant the model chooses
      stays on a date Python can represent exactly unless `now` is on that
      last date at or after 20:00. (Python stops earlier: see
      `LastDateScanOverflows`.) */
  lemma NextSendWithinRange(now: Instant)
    requires now.day <= ToOrdinal(LastDate)
    ensures NextSend(now).day <= ToOrdinal(LastDate)
        <==> now.day < ToOrdinal(LastDate) || now.sec < 20 * 3600
  {
    NextSendClosedForm(now);
  }

  /** The scan builds every candidate, also those it will not choose, and
      moving one to the next day past 9999-12-31 raises `OverflowError`.
      For the bot's schedule some candidate passes that date exactly when
      `now` is on it at or after 08:00, when the 08:00 entry is already due;
      between 08:00 and 20:00 of that date the model still chooses 20:00 of
      that date, where the source raises instead. */
  lemma LastDateScanOverflows(now: Instant)
    requires now.day <= ToOrdinal(LastDate)
    ensures Candidate(now, FireTimes[0]).day > ToOrdinal(LastDate)
         || Candidate(now, FireTimes[1]).day > ToOrdinal(LastDate)
        <==> now.day == ToOrdinal(LastDate) && now.sec >= 8 * 3600
    ensures now.day == ToOrdinal(LastDate) && 8 * 3600 <= now.sec < 20 * 3600
        ==> NextSend(now) == Instant(ToOrdinal(LastDate), 20 * 3600)
  {
    NextSendClosedForm(now);
  }

  /** The sleep counts seconds, not wall-clock time. After the 20:00 firing
      the next send is 08:00 of the following day; when the local clock is
      set back an hour during the sleep, the scheduler wakes at 07:00 wall
      time, fires, and then chooses that same 08:00 again. */
  lemma WokenEarlyFiresTwice(now: Instant)
    requires now.sec >= 20 * 3600
    ensures NextSend(now) == Instant(now.day + 1, 8 * 3600)
    ensures NextSend(Instant(now.day + 1, 7 * 3600)) == NextSend(now)
  {
    NextSendClosedForm(now);
    NextSendClosedForm(Instant(now.day + 1, 7 * 3600));
  }
}

# Shift rotation and daily report scheduling of the report bot

The bot records free-text reports from the crews of a four-crew rotation
(A, B, C, D), tags each report with the crew on duty, and sends a PDF of all
reports to every registered chat at 08:00 and 20:00. This project models the
two pieces of pure logic inside it and proves their properties:

- **the shift rotation** (`calcola_turno`): whole days elapsed since midnight
  of 2024-10-18, one step ahead during the day segment [08:00, 20:00), modulo
  four; and **the send-time check** (`is_orario_invio`): the hour and minute
  equal 08:00 or 20:00;
- **the scheduler's next-fire step** (in `scheduler_pdf_giornaliero`): the
  earliest 08:00 or 20:00 strictly after now, and the number of seconds to
  sleep until then;
  **the fan-out** (`genera_e_invia_pdf_giornaliero`): send the document to
  every subscriber, isolate failures, count successes; and **registration**
  (`start`): `INSERT OR IGNORE` of the chat id with its registration time.

Time is naive local time, as in the bot: an instant is a day ordinal (Python's
proleptic Gregorian ordinal, 0001-01-01 being 1) and a second of that day.
"Now" is always a parameter. Python's floored `timedelta.days` and its
non-negative `%` by a positive divisor agree with Dafny's Euclidean `/` and
`%`, and the model uses them directly.

Modules: `Optional` (a value that may be absent), `Calendar` (date ordinals and the leap-year rule), `Clock` (instants,
`timedelta`, comparison), `Shift` and `SendWindow`
(`backup_bot/bot_funzionante_20241023_0859.py`), `Scheduler`, `Registry` and
`Dispatch` (`bot.py`, a patch applied on top of the backup file; it calls
`genera_pdf` and `get_db_connection` from there).

Two behaviours of the code worth knowing, both proved:

- The night segment, 20:00 to 08:00, is labelled with two letters. The day
  count changes at midnight, so after midnight the label is the one of the
  preceding day segment (`Shift.NightChangesAtMidnight`).
- When the subscriber query fails after the PDF was written, nothing is sent
  and the PDF file is left behind, because `os.remove` is only reached after
  the send loop: the file is written and not removed exactly in the
  `QueryFailed` case (`Dispatch.DailyFiring`).

The code attaches no time zone or daylight-saving offset to any value: it
uses naive `datetime.now()`. The scheduler sleeps for the computed number of
seconds rather than polling the clock, and keeps no marker of the last firing. The
subscriber table keeps, besides each chat id, the time of its first
registration, and the model keeps it too.

## Model

| member | source | states |
|---|---|---|
| Calendar.YearLength | backup_bot/bot_funzionante_20241023_0859.py:39 | the closed-form day count before a year grows by 366 over a leap year and 365 otherwise (the 4/100/400 rule Python's date subtraction uses) |
| Calendar.NextDateOrdinal | backup_bot/bot_funzionante_20241023_0859.py:39 | the calendar day after a valid date is valid and its ordinal is one more, across month ends, year ends and 29 February |
| Calendar.FirstOrdinal | backup_bot/bot_funzionante_20241023_0859.py:39 | 0001-01-01 has ordinal 1, as Python's `date.toordinal` numbers days |
| Clock.At | backup_bot/bot_funzionante_20241023_0859.py:36 | `datetime(y, m, d, h, mi, s)` gives an instant on that date's ordinal whose hour, minute and second read back as h, mi, s |
| Clock.SecondOf | bot.py:66 | `replace(hour=h, minute=m, second=0)` gives a second of day whose hour is h, minute m and second 0 |
| Clock.TimelineOrder | bot.py:67-69 | comparing datetimes is comparing the day first, then the second of day; equal positions are equal instants |
| Clock.Subtract | backup_bot/bot_funzionante_20241023_0859.py:39 | the normalised `timedelta` of `a - b` has a remainder in [0, 86400) and its total seconds are exactly the difference of the instants |
| Clock.DaysSinceMidnight | backup_bot/bot_funzionante_20241023_0859.py:39 | `.days` of `now` minus a midnight is the difference of day ordinals, for any time of day and also when negative |
| Shift.ShiftIndex | backup_bot/bot_funzionante_20241023_0859.py:44-47 | the shift index is always in [0, 4), also before the reference date |
| Shift.CurrentShift | backup_bot/bot_funzionante_20241023_0859.py:38-49 | the returned label is always one of A, B, C, D |
| Shift.ShiftIndexByCalendarDay | backup_bot/bot_funzionante_20241023_0859.py:39-47 | the index is (days + 1) mod 4 from 08:00 inclusive to 20:00 exclusive and days mod 4 otherwise, days being the calendar days since 2024-10-18 |
| Shift.NextDayAdvances | backup_bot/bot_funzionante_20241023_0859.py:39-47 | at a fixed second of the day, the next day's index is one step further mod 4 |
| Shift.NextDateAdvances | backup_bot/bot_funzionante_20241023_0859.py:36-47 | on the next calendar date at the same wall-clock time the label is the next in the rotation (D is followed by A) |
| Shift.DayStartAdvances | backup_bot/bot_funzionante_20241023_0859.py:41-45 | 08:00 belongs to the day segment: its label is the successor of the label at 07:59:59 and differs from it |
| Shift.NightStartRecedes | backup_bot/bot_funzionante_20241023_0859.py:42-47 | 20:00 belongs to the night segment: its label is the predecessor of the label at 19:59:59 and differs from it |
| Shift.NightChangesAtMidnight | backup_bot/bot_funzionante_20241023_0859.py:39-47 | the label at 00:00 differs from the label at 23:59:59 the evening before and equals the label at 19:59:59 of that preceding day |
| Shift.ConstantWithinSegment | backup_bot/bot_funzionante_20241023_0859.py:44-47 | within one day the label is the same before 08:00, the same in [08:00, 20:00) and the same from 20:00 on |
| Shift.ReferenceOrdinal | backup_bot/bot_funzionante_20241023_0859.py:36 | the reference date 2024-10-18 has ordinal 739177, and its neighbouring dates the neighbouring ordinals |
| Shift.ShiftOnDay | backup_bot/bot_funzionante_20241023_0859.py:36-49 | on a date k days after the reference, at h:m, the label is the one at (k + 1) mod 4 when 8 <= h < 20 and at k mod 4 otherwise |
| Shift.ExampleReferenceMorning | backup_bot/bot_funzionante_20241023_0859.py:36-49 | 2024-10-18 09:00 is labelled B |
| Shift.ExampleReferenceEvening | backup_bot/bot_funzionante_20241023_0859.py:36-49 | 2024-10-18 21:00 is labelled A |
| Shift.ExampleNextMorning | backup_bot/bot_funzionante_20241023_0859.py:36-49 | 2024-10-19 09:00 is labelled C |
| Shift.ExampleBeforeReference | backup_bot/bot_funzionante_20241023_0859.py:36-49 | 2024-10-17 21:00, before the reference date, is labelled D |
| SendWindow.AnyMatchesExists | backup_bot/bot_funzionante_20241023_0859.py:59-63 | the loop with early return is true exactly when some listed time has the same hour and minute |
| SendWindow.IsSendTime | backup_bot/bot_funzionante_20241023_0859.py:52-63 | true exactly when the hour is 8 or 20 and the minute is 0, i.e. for every second of 08:00 and of 20:00 and at no other second |
| SendWindow.NeighbourMinutes | backup_bot/bot_funzionante_20241023_0859.py:59-63 | false at every second of 07:59, 08:01, 19:59 and 20:01; true at every second of 08:00 and 20:00 |
| Scheduler.Candidate | bot.py:66-68 | a schedule time placed on today and rolled to tomorrow when not later than now is strictly after now, at most one day later, with that time of day |
| Scheduler.CandidateIsFirst | bot.py:66-68 | no instant with the same time of day lies strictly between now and the candidate |
| Scheduler.Earliest | bot.py:64-70 | the scan yields nothing only for an empty list with nothing chosen yet |
| Scheduler.EarliestIsLeast | bot.py:64-70 | the scan ends with one of the candidates (or its start value), no later than every candidate |
| Scheduler.NextFire | bot.py:56-70 | the chosen instant exists iff the schedule is non-empty; it is strictly after now, at most 86400 s later, has second 0 and a scheduled time of day, and no scheduled instant lies strictly between now and it |
| Scheduler.NextFireOrderIndependent | bot.py:58-70 | reordering or repeating the schedule's entries does not change the chosen instant |
| Scheduler.NextSend | bot.py:56-70 | for the bot's schedule the chosen instant is at 08:00 or 20:00, within (now, now + 1 day], and `is_orario_invio` accepts it |
| Scheduler.NextSendClosedForm | bot.py:58-70 | before 08:00 it is 08:00 today, from 08:00 until before 20:00 it is 20:00 today, from 20:00 on it is 08:00 tomorrow |
| Scheduler.WaitSeconds | bot.py:73 | the wait is in (0, 86400] and ends exactly at the chosen instant |
| Scheduler.SendsTwelveHoursApart | bot.py:54-77 | woken at a send instant or at any moment in the twelve hours after it, the next send instant is twelve hours after that send, so, while the local clock advances with the sleep, one occurrence is neither fired twice nor skipped |
| Scheduler.WokenEarlyFiresTwice | bot.py:56-77 | woken one hour early by a clock set back during the sleep after a 20:00 firing, the scheduler chooses that same 08:00 occurrence again |
| Scheduler.NextSendWithinRange | bot.py:64-70 | the instant the model chooses lies on or before 9999-12-31 exactly when now is before that date or before 20:00 on it |
| Scheduler.LastDateScanOverflows | bot.py:64-68 | some candidate of the bot's schedule is moved past 9999-12-31 (where `target += timedelta(days=1)` raises) exactly when now is on that date at or after 08:00; from 08:00 until 20:00 of that date the model still chooses 20:00 of it |
| Registry.Register | bot.py:115-116 | after registering, the chat ids are the old ones plus the new one, existing rows keep their registration time, and a new row gets now |
| Registry.RegisterIdempotent | bot.py:115-116 | registering the same chat id again leaves the table unchanged |
| Registry.RegisterCommutes | bot.py:115-116 | registrations of two different chats give the same table in either order |
| Registry.RegisterAllContents | bot.py:107-119 | after any series of /start commands the chat ids are the old ones plus every sender, old rows are unchanged and a new chat keeps the time of its first /start |
| Dispatch.CountDelivered | bot.py:27-39 | the number of successful sends is at most the number of chats, equals it iff all succeed, and is 0 iff all fail |
| Dispatch.SendToAll | bot.py:27-44 | every listed chat is attempted exactly once, in order, whatever the earlier outcomes; the counter equals the number of successes |
| Dispatch.CountDeliveredIsSuccessfulChats | bot.py:22-39 | with no chat id repeated, the count equals the number of distinct chats whose send succeeded |
| Dispatch.DeliveredPerSubscriber | bot.py:20-48 | when the query lists every subscriber once, the count is the number of subscribers whose send succeeded and the total is the number of subscribers |
| Dispatch.SecondOfThreeFails | bot.py:30-44 | with three subscribers of which the second fails, two sends succeed |
| Dispatch.DailyFiring | bot.py:13-51 | a render failure sends nothing; a query failure sends nothing; otherwise every listed chat is attempted and the success count is at most the total; the file is written iff rendering succeeded, removed iff the loop completed, and left behind exactly on a query failure |

## Left out

- Telegram handlers, keyboards, reply texts and webhook/polling startup (`main`, `aiuto`, `lista`, `genera_PDF`): user interface and transport.
- SQLite access (`get_db_connection`, `init_db`, the report table, `SELECT`): persistence I/O. The subscriber table is a map from chat id to registration instant; the query result is a sequence given as input.
- Registry.Register: a failing `INSERT` in `start` (caught and answered with an error message) is not modelled as a separate path.
- PDF rendering (`genera_pdf`, FPDF) and opening the file: foreign library and filesystem; rendering is a success flag.
- Dispatch.DailyFiring: a failure of `os.remove` after the loop is not modelled; the firing is still `Completed`; in the source the final count log line is then replaced by the error line of the outer handler.
- Sending one document (`send_document`): the network; its outcome is a parameter `sent(chat)`.
- `asyncio.sleep`, the `while True` loop, its 5-minute back-off on errors, the 1-second pause after each successful send and `asyncio.create_task`: asynchronous concurrency. Only the next-fire step is modelled.
- Scheduler.SendsTwelveHoursApart: the conclusion that no occurrence is fired twice assumes the local wall clock advances with the sleep. `asyncio.sleep` waits on a monotonic clock while `now` is the naive local time, so when the local clock is set back during the sleep (a daylight-saving fall-back, say) the bot fires early at the wrong wall-clock time and then computes and fires the same occurrence again (`Scheduler.WokenEarlyFiresTwice`).
- Time zones and daylight saving: the code has no offset logic and uses naive local time, so none is modelled.
- Sub-second precision: instants are whole seconds. Every boundary in the code is a whole second, so comparisons agree with microsecond datetimes; the wait is exact only for whole-second "now".
- Scheduler.NextSend: the Python datetime range is not enforced on instants. On 9999-12-31 from 08:00 on, the 08:00 candidate is due and `target += timedelta(days=1)` raises `OverflowError` even though it would not be chosen; the loop catches it and answers with a 5-minute back-off, so nothing is sent again, not even the 20:00 send of that date. The model instead chooses 20:00 of that date from 08:00 until 20:00 and an instant on the day after from 20:00 on, and `Scheduler.Candidate`, `Scheduler.NextFire` and `Scheduler.WaitSeconds` likewise return values past the last date. `Scheduler.LastDateScanOverflows` states exactly when the source raises. Calendar dates themselves are valid for years 1 to 9999.
- The inline send in `gestisci_messaggio`: it is `is_orario_invio` wrapped around I/O; its tagging of reports with `calcola_turno` is I/O around `Shift.CurrentShift`.

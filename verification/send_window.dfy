/** The check "is it time to send the report?": the current hour and minute
    are compared with each dispatch time in turn, seconds being ignored. */
module SendWindow {
  import opened Clock

  /** 08:00 and 20:00, in the order the bot lists them. */
  const SendTimes: seq<TimeOfDay> := [TimeOfDay(8, 0), TimeOfDay(20, 0)]

  /** `s` lies in minute `t.hour:t.minute`. */
  predicate SameMinute(s: SecOfDay, t: TimeOfDay) {
    Hour(s) == t.hour && Minute(s) == t.minute
  }

  /** The loop over the dispatch times, returning at the first match. */
  function AnyMatches(s: SecOfDay, times: seq<TimeOfDay>): bool {
    if |times| == 0 then false
    else if SameMinute(s, times[0]) then true
    else AnyMatches(s, times[1..])
  }

  lemma {:induction false} AnyMatchesExists(s: SecOfDay, times: seq<TimeOfDay>)
    ensures AnyMatches(s, times) <==> exists j :: 0 <= j < |times| && SameMinute(s, times[j])
  {
    if |times| > 0 {
      AnyMatchesExists(s, times[1..]);
      if !SameMinute(s, times[0]) && AnyMatches(s, times) {
        var j :| 0 <= j < |times[1..]| && SameMinute(s, times[1..][j]);
        assert SameMinute(s, times[j + 1]);
      }
      if exists j :: 0 <= j < |times| && SameMinute(s, times[j]) {
        var j :| 0 <= j < |times| && SameMinute(s, times[j]);
        if j > 0 {
          assert SameMinute(s, times[1..][j - 1]);
        }
      }
    }
  }

  /** True for every second of the minutes 08:00 and 20:00, and at no other
      time of day. */
  function IsSendTime(s: SecOfDay): (r: bool)
    ensures r <==> (Hour(s) == 8 || Hour(s) == 20) && Minute(s) == 0
    ensures r <==> (8 * 3600 <= s < 8 * 3600 + 60 || 20 * 3600 <= s < 20 * 3600 + 60)
  {
    AnyMatchesExists(s, SendTimes);
    AnyMatches(s, SendTimes)
  }

  /** The minutes on either side of each dispatch time do not match. */
  lemma NeighbourMinutes(sec: int)
    requires 0 <= sec < 60
    ensures !IsSendTime(7 * 3600 + 59 * 60 + sec)
    ensures !IsSendTime(8 * 3600 + 1 * 60 + sec)
    ensures !IsSendTime(19 * 3600 + 59 * 60 + sec)
    ensures !IsSendTime(20 * 3600 + 1 * 60 + sec)
    ensures IsSendTime(8 * 3600 + sec) && IsSendTime(20 * 3600 + sec)
  {
  }
}

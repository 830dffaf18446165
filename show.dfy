/** The `show` command: which view a requested range selects, which
    activities the range view lists, the total time of a listing and the
    text form of a duration. */
module Show {
  import opened Wrappers
  import opened Time
  import opened Text
  import opened Seqs
  import opened ActivityEntries
  import opened ActivityRange
  import EntryCommands

  // ---------------------------------------------------------------------
  // Durations as text

  /** Integer division rounding toward zero, as on Rust's `i64`. */
  function TruncDiv(a: int, b: int): (q: int)
    requires b > 0
    ensures a >= 0 ==> 0 <= a - q * b < b
    ensures a < 0 ==> -b < a - q * b <= 0
  {
    if a >= 0 then a / b else -((-a) / b)
  }

  /** `TimeDelta::num_seconds`: whole seconds, rounded toward zero. */
  function NumSeconds(delta: int): int
  {
    TruncDiv(delta, 1_000_000_000)
  }

  /** `TimeDelta::num_minutes`: whole minutes, rounded toward zero (the
      whole seconds divided by 60, rounded toward zero, are the same). */
  function NumMinutes(delta: int): int
  {
    TruncDiv(delta, 60_000_000_000)
  }

  /** `TimeDelta::num_hours`: whole hours, rounded toward zero. */
  function NumHours(delta: int): int
  {
    TruncDiv(delta, 3_600_000_000_000)
  }

  /** `TimeDelta::num_days`: whole days, rounded toward zero. */
  function NumDays(delta: int): int
  {
    TruncDiv(delta, 86_400_000_000_000)
  }

  datatype Breakdown = Breakdown(days: int, hours: int, minutes: int, seconds: int)

  /** The whole seconds of a non-negative duration as days, hours, minutes
      and seconds. */
  function BreakdownOf(delta: int): (b: Breakdown)
    requires delta >= 0
    ensures b.days >= 0 && 0 <= b.hours < 24 && 0 <= b.minutes < 60 && 0 <= b.seconds < 60
    ensures b.days * 86400 + b.hours * 3600 + b.minutes * 60 + b.seconds == delta / 1_000_000_000
  {
    var s := delta / 1_000_000_000;
    var r := s % 86400;
    Breakdown(s / 86400, r / 3600, r % 3600 / 60, r % 3600 % 60)
  }

  /** A segment such as `3h `, shown only for a positive count. */
  function Segment(n: int, unit: string): string
  {
    if n > 0 then IntToString(n) + unit else ""
  }

  /** The text of a non-negative duration: days, hours and minutes when
      positive, seconds always. */
  function DeltaText(delta: int): string
    requires delta >= 0
  {
    var b := BreakdownOf(delta);
    Segment(b.days, "d ") + Segment(b.hours, "h ") + Segment(b.minutes, "m ") + (IntToString(b.seconds) + "s")
  }

  /** Taking `m` whole seconds off a duration that holds at least that
      many takes them off its whole seconds. */
  lemma NumSecondsSub(delta: int, m: int)
    requires 0 <= m * 1_000_000_000 <= delta
    ensures NumSeconds(delta - m * 1_000_000_000) == delta / 1_000_000_000 - m
  {
  }

  /** On a non-negative duration the truncating steps of
      `format_time_delta` compute the breakdown. */
  lemma ChainNonNegative(delta: int)
    requires delta >= 0
    ensures var days := NumDays(delta);
      var rem1 := delta - days * 86_400_000_000_000;
      var hours := NumHours(rem1);
      var rem2 := rem1 - hours * 3_600_000_000_000;
      var minutes := NumMinutes(rem2);
      var seconds := NumSeconds(rem2 - minutes * 60_000_000_000);
      && Breakdown(days, hours, minutes, seconds) == BreakdownOf(delta)
      && rem1 >= 0 && rem2 >= 0 && rem2 - minutes * 60_000_000_000 >= 0
  {
    var b := BreakdownOf(delta);
    assert NumDays(delta) == b.days;
    var m1 := b.days * 86400;
    NumSecondsSub(delta, m1);
    var rem1 := delta - b.days * 86_400_000_000_000;
    assert rem1 == delta - m1 * 1_000_000_000;
    assert NumHours(rem1) == b.hours;
    var m2 := m1 + b.hours * 3600;
    NumSecondsSub(delta, m2);
    var rem2 := rem1 - b.hours * 3_600_000_000_000;
    assert rem2 == delta - m2 * 1_000_000_000;
    assert NumMinutes(rem2) == b.minutes;
    var m3 := m2 + b.minutes * 60;
    NumSecondsSub(delta, m3);
    assert rem2 - b.minutes * 60_000_000_000 == delta - m3 * 1_000_000_000;
  }

  /** Truncation is symmetric: a negative duration steps through the
      negated values of its absolute value. */
  lemma NegateDays(x: int)
    requires x >= 0
    ensures NumDays(-x) == -NumDays(x)
  {
  }

  lemma NegateHours(x: int)
    requires x >= 0
    ensures NumHours(-x) == -NumHours(x)
  {
  }

  lemma NegateMinutes(x: int)
    requires x >= 0
    ensures NumMinutes(-x) == -NumMinutes(x)
  {
  }

  lemma NegateSeconds(x: int)
    requires x >= 0
    ensures NumSeconds(-x) == -NumSeconds(x)
  {
  }

  lemma ChainNegative(delta: int)
    requires delta < 0
    ensures var days := NumDays(delta);
      var rem1 := delta - days * 86_400_000_000_000;
      var hours := NumHours(rem1);
      var rem2 := rem1 - hours * 3_600_000_000_000;
      var minutes := NumMinutes(rem2);
      var seconds := NumSeconds(rem2 - minutes * 60_000_000_000);
      Breakdown(-days, -hours, -minutes, -seconds) == BreakdownOf(-delta)
  {
    ChainNonNegative(-delta);
    var days := NumDays(-delta);
    var rem1 := -delta - days * 86_400_000_000_000;
    var hours := NumHours(rem1);
    var rem2 := rem1 - hours * 3_600_000_000_000;
    var minutes := NumMinutes(rem2);
    var rem3 := rem2 - minutes * 60_000_000_000;
    NegateDays(-delta);
    assert NumDays(delta) == -days;
    assert delta - NumDays(delta) * 86_400_000_000_000 == -rem1;
    NegateHours(rem1);
    assert -rem1 - (-hours) * 3_600_000_000_000 == -rem2;
    NegateMinutes(rem2);
    assert -rem2 - (-minutes) * 60_000_000_000 == -rem3;
    NegateSeconds(rem3);
  }

  /** `format_time_delta`: peel off whole days (86400 s), hours (3600 s)
      and minutes (60 s) in turn, printing each only when positive, then
      print the seconds left. A negative duration prints only its
      (negative) seconds below a minute. */
  method FormatTimeDelta(delta: int) returns (out: string)
    ensures delta >= 0 ==> out == DeltaText(delta)
    ensures delta < 0 ==> out == IntToString(-BreakdownOf(-delta).seconds) + "s"
  {
    out := "";
    var days := NumDays(delta);
    if days > 0 {
      out := out + (IntToString(days) + "d ");
    }
    var rem := delta - days * 86_400_000_000_000;
    var hours := NumHours(rem);
    if hours > 0 {
      out := out + (IntToString(hours) + "h ");
    }
    rem := rem - hours * 3_600_000_000_000;
    var minutes := NumMinutes(rem);
    if minutes > 0 {
      out := out + (IntToString(minutes) + "m ");
    }
    rem := rem - minutes * 60_000_000_000;
    var seconds := NumSeconds(rem);
    out := out + (IntToString(seconds) + "s");
    PushedSegments(days, hours, minutes, seconds);
    FormatSteps(delta, days, hours, minutes, seconds);
  }

  /** Pushing a segment only when its count is positive builds the
      segments' text. */
  lemma PushedSegments(days: int, hours: int, minutes: int, seconds: int)
    ensures var out1 := if days > 0 then "" + (IntToString(days) + "d ") else "";
      var out2 := if hours > 0 then out1 + (IntToString(hours) + "h ") else out1;
      var out3 := if minutes > 0 then out2 + (IntToString(minutes) + "m ") else out2;
      out3 + (IntToString(seconds) + "s")
      == Segment(days, "d ") + Segment(hours, "h ") + Segment(minutes, "m ") + (IntToString(seconds) + "s")
  {
    var sd := Segment(days, "d ");
    var sh := Segment(hours, "h ");
    var sm := Segment(minutes, "m ");
    assert "" + sd == sd;
    assert sd + "" == sd;
    assert sd + sh + "" == sd + sh;
  }

  /** The values the steps of `format_time_delta` print, assembled into
      its text, give the text of the breakdown. */
  lemma FormatSteps(delta: int, days: int, hours: int, minutes: int, seconds: int)
    requires days == NumDays(delta)
    requires hours == NumHours(delta - days * 86_400_000_000_000)
    requires minutes == NumMinutes(delta - days * 86_400_000_000_000 - hours * 3_600_000_000_000)
    requires seconds == NumSeconds(delta - days * 86_400_000_000_000 - hours * 3_600_000_000_000 - minutes * 60_000_000_000)
    ensures delta >= 0 ==>
      Segment(days, "d ") + Segment(hours, "h ") + Segment(minutes, "m ") + (IntToString(seconds) + "s") == DeltaText(delta)
    ensures delta < 0 ==>
      Segment(days, "d ") + Segment(hours, "h ") + Segment(minutes, "m ") + (IntToString(seconds) + "s")
      == IntToString(-BreakdownOf(-delta).seconds) + "s"
  {
    if delta >= 0 {
      ChainNonNegative(delta);
      FormatStepsNonNegative(delta, days, hours, minutes, seconds);
    } else {
      ChainNegative(delta);
      FormatStepsNegative(delta, days, hours, minutes, seconds);
    }
  }

  lemma FormatStepsNonNegative(delta: int, days: int, hours: int, minutes: int, seconds: int)
    requires delta >= 0 && Breakdown(days, hours, minutes, seconds) == BreakdownOf(delta)
    ensures Segment(days, "d ") + Segment(hours, "h ") + Segment(minutes, "m ") + (IntToString(seconds) + "s") == DeltaText(delta)
  {
    DeltaTextOf(delta, Breakdown(days, hours, minutes, seconds));
  }

  lemma FormatStepsNegative(delta: int, days: int, hours: int, minutes: int, seconds: int)
    requires delta < 0 && Breakdown(-days, -hours, -minutes, -seconds) == BreakdownOf(-delta)
    ensures Segment(days, "d ") + Segment(hours, "h ") + Segment(minutes, "m ") + (IntToString(seconds) + "s")
      == IntToString(-BreakdownOf(-delta).seconds) + "s"
  {
    assert Segment(days, "d ") + Segment(hours, "h ") + Segment(minutes, "m ") == "";
    var text := IntToString(seconds) + "s";
    EmptyPrefix(text);
  }

  lemma EmptyPrefix(x: string)
    ensures "" + x == x
  {
  }

  /** The text of a duration in terms of its breakdown. */
  lemma DeltaTextOf(delta: int, b: Breakdown)
    requires delta >= 0 && BreakdownOf(delta) == b
    ensures DeltaText(delta) == Segment(b.days, "d ") + Segment(b.hours, "h ") + Segment(b.minutes, "m ") + (IntToString(b.seconds) + "s")
  {
  }

  /** Under a minute only the seconds show; in particular zero is `0s`. */
  lemma DeltaTextUnderMinute(delta: int)
    requires 0 <= delta < 60_000_000_000
    ensures DeltaText(delta) == IntToString(delta / 1_000_000_000) + "s"
    ensures delta < 1_000_000_000 ==> DeltaText(delta) == "0s"
  {
    var s := delta / 1_000_000_000;
    assert 0 <= s < 60;
    assert BreakdownOf(delta) == Breakdown(0, 0, 0, s);
    if s == 0 {
      assert IntToString(0) == "0";
    }
  }

  /** A whole number of days shows as that many days and zero seconds. */
  lemma DeltaTextWholeDays(n: int)
    requires n > 0
    ensures DeltaText(n * 86_400_000_000_000) == IntToString(n) + "d 0s"
  {
    var delta := n * 86_400_000_000_000;
    assert delta / 1_000_000_000 == n * 86400;
    assert BreakdownOf(delta) == Breakdown(n, 0, 0, 0);
    assert IntToString(0) == "0";
  }

  // ---------------------------------------------------------------------
  // Total time of a listing

  /** `show_activity_time`'s delta: from the first activity's start to the
      last one's end (or `now`), zero for no activities. */
  function TotalTime(activities: seq<TrackedActivity>, now: Timestamp): int
  {
    if activities == [] then 0
    else activities[|activities| - 1].EndOr(now) - activities[0].StartTime()
  }

  /** The time between each completed activity's end and the next start. */
  function Gaps(activities: seq<TrackedActivity>): int
    requires forall i :: 0 <= i < |activities| - 1 ==> activities[i].end.Some?
  {
    if |activities| <= 1 then 0
    else activities[1].StartTime() - activities[0].end.value + Gaps(activities[1..])
  }

  /** The total time is the sum of the durations plus the gaps between
      them: with no gaps it is the summed durations, and for pieces one
      nanosecond apart (as midnight splitting leaves them) it exceeds that
      sum by one nanosecond per cut. */
  lemma {:induction false} TotalTimeGaps(activities: seq<TrackedActivity>, now: Timestamp)
    requires forall i :: 0 <= i < |activities| - 1 ==> activities[i].end.Some?
    ensures TotalTime(activities, now) == TotalDuration(activities, now) + Gaps(activities)
  {
    if |activities| > 1 {
      var rest := activities[1..];
      TotalTimeGaps(rest, now);
      assert rest[|rest| - 1] == activities[|activities| - 1];
      assert TotalDuration(activities, now) == activities[0].Duration(now) + TotalDuration(rest, now);
    }
  }

  /** Pieces cut at midnight: the total time is the summed durations plus
      one nanosecond per cut. */
  lemma {:induction false} TotalTimeOfPieces(start: ActivityStart, end: Option<Timestamp>, fallback: Timestamp)
    ensures var ps := MidnightPieces(start, end, fallback);
      TotalTime(ps, fallback) == TotalDuration(ps, fallback) + (|ps| - 1)
  {
    var ps := MidnightPieces(start, end, fallback);
    MidnightPiecesCount(start, end, fallback);
    MidnightPiecesEnds(start, end, fallback);
    MidnightPiecesGaps(start, end, fallback);
    MidnightPiecesDuration(start, end, fallback);
  }

  // ---------------------------------------------------------------------
  // Dispatch

  datatype ShowView = CurrentEntry | RangeView(range: ActivityRange)

  /** `show_activities`: `Count(0)` shows the current entry, every other
      range the range view. */
  function Dispatch(last: ActivityRange): (v: ShowView)
    ensures v.CurrentEntry? <==> last == Count(0)
    ensures v.RangeView? ==> v.range == last
  {
    match last
    case Count(0) => CurrentEntry
    case _ => RangeView(last)
  }

  /** What the current-entry view reports. */
  datatype CurrentStatus = NoData | NotTracking | Tracking(entry: ActivityStart, trackedFor: int)

  /** `show_current_entry`: nothing recorded, not tracking after an end,
      or the running activity with the time since its start. */
  function CurrentOf(lastEntry: Option<ActivityEntry>, now: Timestamp): (s: CurrentStatus)
    ensures s.NoData? <==> lastEntry.None?
    ensures s.NotTracking? <==> lastEntry.Some? && lastEntry.value.End?
    ensures s.Tracking? ==> lastEntry == Some(Start(s.entry)) && s.entry.timeStamp + s.trackedFor == now
  {
    match lastEntry
    case None => NoData
    case Some(End(_)) => NotTracking
    case Some(Start(e)) => Tracking(e, now - e.timeStamp)
  }

  /** What the range view reports. */
  datatype RangeStatus = NoDataYet | NoDataInTimeframe | Listing(activities: seq<TrackedActivity>)

  /** `show_activity_range`: the last `n` activities for a count, the
      activities since the start of the timeframe otherwise; an empty
      result says whether anything was recorded at all. */
  method ShowActivityRange(log: seq<ActivityEntry>, range: ActivityRange, now: Timestamp) returns (s: RangeStatus)
    requires range.Count? ==> range.count >= 0
    ensures range.Count? ==> s == StatusOf(log, LastN(log, range.count, now))
    ensures range.Timeframe? ==> s == StatusOf(log, Since(log, BackFrom(range.inLast, now), now))
  {
    var activities: seq<TrackedActivity>;
    match range {
      case Count(n) =>
        activities := EntryCommands.GetLastNActivities(log, n, now);
      case Timeframe(tf) =>
        activities := EntryCommands.GetActivitiesSince(log, BackFrom(tf, now), now);
    }
    if activities == [] {
      if EntryCommands.LastEntry(log).None? {
        return NoDataYet;
      } else {
        return NoDataInTimeframe;
      }
    }
    return Listing(activities);
  }

  /** The last `n` activities of the log. */
  function LastN(log: seq<ActivityEntry>, n: nat, now: Timestamp): (r: seq<TrackedActivity>)
    ensures |r| == Min(n, |EntryCommands.ActivitiesFrom(log, 0, now)|)
    ensures r == EntryCommands.ActivitiesFrom(log, 0, now)[|EntryCommands.ActivitiesFrom(log, 0, now)| - |r|..]
  {
    var all := EntryCommands.ActivitiesFrom(log, 0, now);
    all[|all| - Min(n, |all|)..]
  }

  /** The activities since `startTime`. */
  function Since(log: seq<ActivityEntry>, startTime: Timestamp, now: Timestamp): seq<TrackedActivity>
  {
    EntryCommands.ActivitiesSince(log[EntryCommands.WindowStart(log, startTime)..], startTime, now)
  }

  /** The range view's report for a result. */
  function StatusOf(log: seq<ActivityEntry>, activities: seq<TrackedActivity>): (s: RangeStatus)
    ensures s.Listing? <==> activities != []
    ensures s.Listing? ==> s.activities == activities
    ensures s == NoDataYet <==> activities == [] && log == []
  {
    if activities != [] then Listing(activities)
    else if log == [] then NoDataYet
    else NoDataInTimeframe
  }

  /** An empty log lists nothing, whatever the range, so the range view
      says nothing was recorded yet. */
  lemma EmptyLogNoDataYet(range: ActivityRange, now: Timestamp)
    requires range.Count? ==> range.count >= 0
    ensures range.Count? ==> StatusOf([], LastN([], range.count, now)) == NoDataYet
    ensures range.Timeframe? ==> StatusOf([], Since([], BackFrom(range.inLast, now), now)) == NoDataYet
  {
  }
}

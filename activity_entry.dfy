/** The activity log's entries (`src/activity_entry.rs`): one tab-separated
    line per entry, either the start of an activity or a bare end marker; the
    intervals reconstructed from them; and the iterator that cuts an interval
    at every local midnight. */
module ActivityEntries {
  import opened Wrappers
  import opened Time
  import Text
  import Seqs

  /** The activity name that marks an `End` line. */
  const END_SENTINEL: string := "__END"

  datatype ParseEntryError =
    | MissingTime
    | MissingName
    | MissingAttendance
    | MissingWbs
    | ParseDatetime

  datatype ActivityStart = ActivityStart(
    timeStamp: Timestamp,
    activityName: string,
    attendanceType: string,
    description: string,
    wbs: string)
  {
    /** `ActivityStart::with_timestamp`: the same activity starting at `t`. */
    function WithTimestamp(t: Timestamp): (r: ActivityStart)
      ensures r.timeStamp == t && SameActivity(r, this)
    {
      this.(timeStamp := t)
    }
  }

  /** Equal in every field except the time stamp. */
  predicate SameActivity(a: ActivityStart, b: ActivityStart)
  {
    && a.activityName == b.activityName
    && a.attendanceType == b.attendanceType
    && a.description == b.description
    && a.wbs == b.wbs
  }

  datatype ActivityEntry = Start(start: ActivityStart) | End(endTime: Timestamp)
  {
    function TimeStamp(): Timestamp
    {
      match this
      case Start(s) => s.timeStamp
      case End(t) => t
    }

    /** `ActivityEntry::with_timestamp`: the same kind of entry at `t`. */
    function WithTimestamp(t: Timestamp): (r: ActivityEntry)
      ensures r.TimeStamp() == t
      ensures r.Start? <==> this.Start?
      ensures r.Start? ==> SameActivity(r.start, this.start)
    {
      match this
      case Start(s) => Start(s.WithTimestamp(t))
      case End(_) => End(t)
    }

    /** `ActivityEntry::attendance_type`. */
    function AttendanceType(): (r: Option<string>)
      ensures r.Some? <==> this.Start?
      ensures r.Some? ==> r.value == this.start.attendanceType
    {
      match this
      case Start(s) => Some(s.attendanceType)
      case End(_) => None
    }
  }

  // ---------------------------------------------------------------------
  // Codec

  /** `ActivityEntry::from_str`. Field 1 is the time stamp and field 2 the
      activity name; the time stamp is parsed as soon as both are present,
      before an `End` line is recognised and before the attendance (field 3)
      and the WBS (field 4) are looked for; field 5, the description, may be
      absent. */
  function Parse(line: string): Result<ActivityEntry, ParseEntryError>
  {
    var fields := Text.Split(line, '\t');
    if |fields| < 1 then Err(MissingTime)
    else if |fields| < 2 then Err(MissingName)
    else
      match ParseTimestamp(fields[0])
      case None => Err(ParseDatetime)
      case Some(t) =>
        if fields[1] == END_SENTINEL then Ok(End(t))
        else if |fields| < 3 then Err(MissingAttendance)
        else if |fields| < 4 then Err(MissingWbs)
        else
          var description := if |fields| >= 5 then fields[4] else "";
          Ok(Start(ActivityStart(t, fields[1], fields[2], description, fields[3])))
  }

  /** The fields `Display` writes, in order. */
  function Fields(e: ActivityEntry): seq<string>
  {
    match e
    case End(t) => [FormatTimestamp(t), END_SENTINEL]
    case Start(s) => [FormatTimestamp(s.timeStamp), s.activityName, s.attendanceType, s.wbs, s.description]
  }

  /** `Display for ActivityEntry`: time stamp, name, attendance, WBS and
      description separated by tabs, or the time stamp and the end marker. */
  function Format(e: ActivityEntry): string
  {
    Text.Join(Fields(e), '\t')
  }

  /** An entry whose text form reads back as itself: no field holds a tab,
      and a start does not use the end marker as its name. */
  predicate WellFormed(e: ActivityEntry)
  {
    e.Start? ==>
      && e.start.activityName != END_SENTINEL
      && '\t' !in e.start.activityName
      && '\t' !in e.start.attendanceType
      && '\t' !in e.start.wbs
      && '\t' !in e.start.description
  }

  /** Parsing the text of a well-formed entry gives the entry back. */
  lemma ParseFormat(e: ActivityEntry)
    requires WellFormed(e)
    ensures Parse(Format(e)) == Ok(e)
  {
    var fs := Fields(e);
    Text.SplitJoin(fs, '\t');
    ParseFormatTimestamp(e.TimeStamp());
  }

  /** A line whose second field is the end marker is an `End` at the first
      field's time, whatever follows. */
  lemma ParseEndIgnoresRest(t: Timestamp, fields: seq<string>)
    requires |fields| >= 2 && fields[0] == FormatTimestamp(t) && fields[1] == END_SENTINEL
    requires forall i :: 2 <= i < |fields| ==> '\t' !in fields[i]
    ensures Parse(Text.Join(fields, '\t')) == Ok(End(t))
  {
    assert '\t' !in END_SENTINEL;
    Text.SplitJoin(fields, '\t');
    ParseFormatTimestamp(t);
  }

  /** A start line with only four fields has an empty description. */
  lemma ParseFourFields(t: Timestamp, name: string, attendance: string, wbs: string)
    requires name != END_SENTINEL
    requires '\t' !in name && '\t' !in attendance && '\t' !in wbs
    ensures Parse(Text.Join([FormatTimestamp(t), name, attendance, wbs], '\t'))
         == Ok(Start(ActivityStart(t, name, attendance, "", wbs)))
  {
    Text.SplitJoin([FormatTimestamp(t), name, attendance, wbs], '\t');
    ParseFormatTimestamp(t);
  }

  /** A start line with more than five fields reads the fifth as the
      description and ignores the rest. */
  lemma ParseExtraFields(fields: seq<string>, t: Timestamp)
    requires |fields| > 5 && forall i :: 0 <= i < |fields| ==> '\t' !in fields[i]
    requires fields[0] == FormatTimestamp(t) && fields[1] != END_SENTINEL
    ensures Parse(Text.Join(fields, '\t')) == Ok(Start(ActivityStart(t, fields[1], fields[2], fields[4], fields[3])))
    ensures Parse(Text.Join(fields, '\t')) == Parse(Text.Join(fields[..5], '\t'))
  {
    Text.SplitJoin(fields, '\t');
    var written := fields[..5];
    assert forall i :: 0 <= i < |written| ==> written[i] == fields[i];
    Text.SplitJoin(written, '\t');
    ParseFormatTimestamp(t);
  }

  /** The order in which `Parse` reports errors: a line without a tab lacks
      the name, whatever it holds; then a bad time stamp is reported even if
      attendance and WBS are missing too; then the attendance, then the WBS.
      A missing time stamp is never reported, since splitting always yields a
      first field. */
  lemma ParseErrorOrder(line: string)
    ensures var fs := Text.Split(line, '\t');
      && (Parse(line) == Err(MissingName) <==> '\t' !in line)
      && (Parse(line) == Err(ParseDatetime) <==> '\t' in line && ParseTimestamp(fs[0]).None?)
      && (Parse(line) == Err(MissingAttendance) <==>
            |fs| == 2 && ParseTimestamp(fs[0]).Some? && fs[1] != END_SENTINEL)
      && (Parse(line) == Err(MissingWbs) <==>
            |fs| == 3 && ParseTimestamp(fs[0]).Some? && fs[1] != END_SENTINEL)
      && Parse(line) != Err(MissingTime)
  {
    Text.SplitSingle(line, '\t');
  }

  // ---------------------------------------------------------------------
  // Tracked activities and the midnight splitter

  /** An interval of one activity; `end == None` while it is still running. */
  datatype TrackedActivity = TrackedActivity(startEntry: ActivityStart, end: Option<Timestamp>)
  {
    function StartTime(): Timestamp
    {
      startEntry.timeStamp
    }

    /** The end, or `now` for a running activity. */
    function EndOr(now: Timestamp): Timestamp
    {
      end.UnwrapOr(now)
    }

    /** `(end or now) - start`, in nanoseconds. */
    function Duration(now: Timestamp): int
    {
      EndOr(now) - StartTime()
    }
  }

  /** The pieces `SplitActivity` yields for an activity that starts with
      `start` and ends at `end`, where `fallback` stands in for a missing end
      when deciding where to cut: while the start's date is before the end's,
      a piece runs to one nanosecond before the next midnight and the rest
      starts at that midnight; the last piece keeps the original end. */
  function MidnightPieces(start: ActivityStart, end: Option<Timestamp>, fallback: Timestamp): seq<TrackedActivity>
    decreases Date(end.UnwrapOr(fallback)) - Date(start.timeStamp)
  {
    if Date(start.timeStamp) < Date(end.UnwrapOr(fallback)) then
      var next := NextMidnight(start.timeStamp);
      [TrackedActivity(start, Some(next - 1))] + MidnightPieces(start.WithTimestamp(next), end, fallback)
    else
      [TrackedActivity(start, end)]
  }

  /** Number of pieces: one per local date from the start's to the end's. */
  lemma {:induction false} MidnightPiecesCount(start: ActivityStart, end: Option<Timestamp>, fallback: Timestamp)
    ensures var days := Date(end.UnwrapOr(fallback)) - Date(start.timeStamp);
      |MidnightPieces(start, end, fallback)| == if days > 0 then days + 1 else 1
    decreases Date(end.UnwrapOr(fallback)) - Date(start.timeStamp)
  {
    if Date(start.timeStamp) < Date(end.UnwrapOr(fallback)) {
      MidnightPiecesCount(start.WithTimestamp(NextMidnight(start.timeStamp)), end, fallback);
    }
  }

  /** The first piece starts where the activity starts and the last keeps
      the activity's end (an open end stays open). */
  lemma {:induction false} MidnightPiecesEnds(start: ActivityStart, end: Option<Timestamp>, fallback: Timestamp)
    ensures var ps := MidnightPieces(start, end, fallback);
      |ps| >= 1 && ps[0].startEntry == start && ps[|ps| - 1].end == end
    decreases Date(end.UnwrapOr(fallback)) - Date(start.timeStamp)
  {
    if Date(start.timeStamp) < Date(end.UnwrapOr(fallback)) {
      MidnightPiecesEnds(start.WithTimestamp(NextMidnight(start.timeStamp)), end, fallback);
    }
  }

  /** Every piece carries the same activity; piece `i` starts on the `i`-th
      day after the start's date, and every piece after the first starts at
      midnight. */
  lemma {:induction false} MidnightPiecesDays(start: ActivityStart, end: Option<Timestamp>, fallback: Timestamp, i: nat)
    requires i < |MidnightPieces(start, end, fallback)|
    ensures SameActivity(MidnightPieces(start, end, fallback)[i].startEntry, start)
    ensures Date(MidnightPieces(start, end, fallback)[i].StartTime()) == Date(start.timeStamp) + i
    ensures i > 0 ==>
      MidnightPieces(start, end, fallback)[i].StartTime() == StartOfDay(MidnightPieces(start, end, fallback)[i].StartTime())
    decreases i
  {
    if i > 0 {
      var next := NextMidnight(start.timeStamp);
      MidnightPiecesDays(start.WithTimestamp(next), end, fallback, i - 1);
    }
  }

  /** Every piece but the last is completed, ends on the day it starts, and
      ends exactly one nanosecond before the next piece starts. */
  lemma {:induction false} MidnightPiecesGaps(start: ActivityStart, end: Option<Timestamp>, fallback: Timestamp)
    ensures var ps := MidnightPieces(start, end, fallback);
      && (forall i :: 0 <= i < |ps| - 1 ==> ps[i].end == Some(ps[i + 1].StartTime() - 1))
      && (forall i :: 0 <= i < |ps| - 1 ==> Date(ps[i + 1].StartTime() - 1) == Date(ps[i].StartTime()))
    decreases Date(end.UnwrapOr(fallback)) - Date(start.timeStamp)
  {
    if Date(start.timeStamp) < Date(end.UnwrapOr(fallback)) {
      var next := NextMidnight(start.timeStamp);
      MidnightPiecesGaps(start.WithTimestamp(next), end, fallback);
      MidnightPiecesEnds(start.WithTimestamp(next), end, fallback);
      var ps := MidnightPieces(start, end, fallback);
      var rest := MidnightPieces(start.WithTimestamp(next), end, fallback);
      assert ps[1..] == rest;
      assert forall i :: 0 < i < |ps| ==> ps[i] == rest[i - 1];
      assert ps[1].StartTime() == next;
    }
  }

  /** Sum of the pieces' durations, each open end read as `now`. */
  function TotalDuration(pieces: seq<TrackedActivity>, now: Timestamp): int
  {
    if pieces == [] then 0 else pieces[0].Duration(now) + TotalDuration(pieces[1..], now)
  }

  /** Splitting keeps the whole duration except the one nanosecond lost at
      each cut: every completed piece ends one nanosecond before the next
      one starts. */
  lemma {:induction false} MidnightPiecesDuration(start: ActivityStart, end: Option<Timestamp>, fallback: Timestamp)
    ensures var ps := MidnightPieces(start, end, fallback);
      TotalDuration(ps, fallback) == end.UnwrapOr(fallback) - start.timeStamp - (|ps| - 1)
    decreases Date(end.UnwrapOr(fallback)) - Date(start.timeStamp)
  {
    if Date(start.timeStamp) < Date(end.UnwrapOr(fallback)) {
      var next := NextMidnight(start.timeStamp);
      MidnightPiecesDuration(start.WithTimestamp(next), end, fallback);
      var ps := MidnightPieces(start, end, fallback);
      assert ps[1..] == MidnightPieces(start.WithTimestamp(next), end, fallback);
    }
  }

  // ---------------------------------------------------------------------
  // Time order

  /** Pieces in time order: a completed piece does not end before it
      starts, and every piece but the last is completed and ends no later
      than any later piece starts. */
  predicate Chronological(ps: seq<TrackedActivity>)
  {
    && (forall i :: 0 <= i < |ps| && ps[i].end.Some? ==> ps[i].StartTime() <= ps[i].end.value)
    && (forall i, j :: 0 <= i < j < |ps| ==> ps[i].end.Some? && ps[i].end.value <= ps[j].StartTime())
  }

  /** In pieces in time order the starts never decrease. */
  lemma ChronologicalStarts(ps: seq<TrackedActivity>)
    requires Chronological(ps)
    ensures forall i, j :: 0 <= i <= j < |ps| ==> ps[i].StartTime() <= ps[j].StartTime()
  {
    forall i, j | 0 <= i < j < |ps|
      ensures ps[i].StartTime() <= ps[j].StartTime()
    {
      var x, y := ps[i], ps[j];
      assert x.end.Some? && x.StartTime() <= x.end.value <= y.StartTime();
    }
  }

  /** Pieces in time order followed by pieces in time order are in time
      order when every earlier piece ends before every later one starts. */
  lemma ChronologicalAppend(a: seq<TrackedActivity>, b: seq<TrackedActivity>)
    requires Chronological(a) && Chronological(b)
    requires forall x, y :: x in a && y in b ==> x.end.Some? && x.end.value <= y.StartTime()
    ensures Chronological(a + b)
  {
    var ab := a + b;
    forall i, j | 0 <= i < j < |ab|
      ensures ab[i].end.Some? && ab[i].end.value <= ab[j].StartTime()
    {
      if j >= |a| && i < |a| {
        assert ab[i] in a && ab[j] in b;
      } else if i >= |a| {
        var x, y := b[i - |a|], b[j - |a|];
        assert ab[i] == x && ab[j] == y;
      } else {
        var x, y := a[i], a[j];
        assert ab[i] == x && ab[j] == y;
      }
    }
  }

  /** Keeping a subsequence of pieces in time order keeps them in order:
      dropping a suffix or a prefix. */
  lemma ChronologicalSlice(ps: seq<TrackedActivity>, k: nat)
    requires Chronological(ps) && k <= |ps|
    ensures Chronological(ps[k..]) && Chronological(ps[..k])
  {
    ChronologicalSuffix(ps, k);
    ChronologicalPrefix(ps, k);
  }

  lemma ChronologicalSuffix(ps: seq<TrackedActivity>, k: nat)
    requires Chronological(ps) && k <= |ps|
    ensures Chronological(ps[k..])
  {
    var t := ps[k..];
    forall i | 0 <= i < |t| && t[i].end.Some?
      ensures t[i].StartTime() <= t[i].end.value
    {
      var x := ps[k + i];
      assert t[i] == x;
    }
    forall i, j | 0 <= i < j < |t|
      ensures t[i].end.Some? && t[i].end.value <= t[j].StartTime()
    {
      var x, y := ps[k + i], ps[k + j];
      assert x.end.Some? && x.end.value <= y.StartTime();
      assert t[i] == x && t[j] == y;
    }
  }

  lemma ChronologicalPrefix(ps: seq<TrackedActivity>, k: nat)
    requires Chronological(ps) && k <= |ps|
    ensures Chronological(ps[..k])
  {
    var u := ps[..k];
    forall i | 0 <= i < |u| && u[i].end.Some?
      ensures u[i].StartTime() <= u[i].end.value
    {
      var x := ps[i];
      assert u[i] == x;
    }
    forall i, j | 0 <= i < j < |u|
      ensures u[i].end.Some? && u[i].end.value <= u[j].StartTime()
    {
      var x, y := ps[i], ps[j];
      assert x.end.Some? && x.end.value <= y.StartTime();
      assert u[i] == x && u[j] == y;
    }
  }


  /** In a time-ordered sequence the first piece is completed before any
      later piece starts. */
  lemma ChronologicalHead(ps: seq<TrackedActivity>)
    requires Chronological(ps) && ps != []
    ensures forall y :: y in ps[1..] ==> ps[0].end.Some? && ps[0].end.value <= y.StartTime()
  {
    forall y | y in ps[1..]
      ensures ps[0].end.Some? && ps[0].end.value <= y.StartTime()
    {
      var k :| 0 <= k < |ps| - 1 && ps[1..][k] == y;
      var x, z := ps[0], ps[k + 1];
      assert z == y;
    }
  }

  /** The recursive case of `MidnightPiecesChronological`: the piece up to
      the next midnight, put before pieces from that midnight on that are in
      time order, keeps them in time order. */
  lemma MidnightPiecesPrepend(start: ActivityStart, next: Timestamp, end: Option<Timestamp>, rest: seq<TrackedActivity>)
    requires start.timeStamp < next
    requires end.Some? ==> next <= end.value
    requires Chronological(rest)
    requires forall k :: 0 <= k < |rest| ==> next <= rest[k].StartTime()
    requires forall k :: 0 <= k < |rest| && end.Some? ==> rest[k].end.Some? && rest[k].end.value <= end.value
    ensures var ps := [TrackedActivity(start, Some(next - 1))] + rest;
      && Chronological(ps)
      && (forall k :: 0 <= k < |ps| ==> start.timeStamp <= ps[k].StartTime())
      && (forall k :: 0 <= k < |ps| && end.Some? ==> ps[k].end.Some? && ps[k].end.value <= end.value)
  {
    var first := TrackedActivity(start, Some(next - 1));
    var ps := [first] + rest;
    forall x, y | x in [first] && y in rest
      ensures x.end.Some? && x.end.value <= y.StartTime()
    {
      var k :| 0 <= k < |rest| && rest[k] == y;
    }
    ChronologicalAppend([first], rest);
    forall k | 0 <= k < |ps|
      ensures start.timeStamp <= ps[k].StartTime()
      ensures end.Some? ==> ps[k].end.Some? && ps[k].end.value <= end.value
    {
      if k > 0 {
        assert ps[k] == rest[k - 1];
      }
    }
  }

  /** The pieces of an activity that does not end before it starts are in
      time order and start no earlier than it; when it has an end, every
      piece is completed and ends no later than it. */
  lemma {:induction false} MidnightPiecesChronological(start: ActivityStart, end: Option<Timestamp>, fallback: Timestamp)
    requires end.Some? ==> start.timeStamp <= end.value
    ensures var ps := MidnightPieces(start, end, fallback);
      && Chronological(ps)
      && (forall k :: 0 <= k < |ps| ==> start.timeStamp <= ps[k].StartTime())
      && (forall k :: 0 <= k < |ps| && end.Some? ==> ps[k].end.Some? && ps[k].end.value <= end.value)
    decreases Date(end.UnwrapOr(fallback)) - Date(start.timeStamp)
  {
    var ps := MidnightPieces(start, end, fallback);
    if Date(start.timeStamp) < Date(end.UnwrapOr(fallback)) {
      var next := NextMidnight(start.timeStamp);
      assert end.Some? ==> next <= end.value;
      var rest := MidnightPieces(start.WithTimestamp(next), end, fallback);
      MidnightPiecesChronological(start.WithTimestamp(next), end, fallback);
      MidnightPiecesPrepend(start, next, end, rest);
      assert ps == [TrackedActivity(start, Some(next - 1))] + rest;
    } else {
      assert ps == [TrackedActivity(start, end)];
    }
  }

  /** `SplitActivity`, the iterator `split_on_midnight` returns. Each call of
      `Next` takes the current start; while the start's date is before the
      end's (or the fallback's) it puts back the next midnight's start. */
  class SplitActivity {
    var currentStart: Option<ActivityStart>
    const end: Option<Timestamp>
    const endFallback: Timestamp

    /** The pieces still to come. */
    ghost function Remaining(): seq<TrackedActivity>
      reads this
    {
      match currentStart
      case None => []
      case Some(s) => MidnightPieces(s, end, endFallback)
    }

    /** `TrackedActivity::split_on_midnight`. */
    constructor (activity: TrackedActivity, endFallback: Timestamp)
      ensures currentStart == Some(activity.startEntry)
      ensures end == activity.end && this.endFallback == endFallback
      ensures Remaining() == MidnightPieces(activity.startEntry, activity.end, endFallback)
    {
      currentStart := Some(activity.startEntry);
      end := activity.end;
      this.endFallback := endFallback;
    }

    /** `SplitActivity::next`: yields the first remaining piece; once
        exhausted it yields `None` on every call. */
    method Next() returns (item: Option<TrackedActivity>)
      modifies this
      ensures old(Remaining()) == [] ==> item == None && Remaining() == []
      ensures old(Remaining()) != [] ==>
        item == Some(old(Remaining())[0]) && Remaining() == old(Remaining())[1..]
    {
      if currentStart.None? {
        return None;
      }
      var start := currentStart.value;
      currentStart := None;
      var e := end.UnwrapOr(endFallback);
      if Date(start.timeStamp) < Date(e) {
        var nextMidnight := StartOfDay(start.timeStamp) + NS_PER_DAY;
        currentStart := Some(start.WithTimestamp(nextMidnight));
        item := Some(TrackedActivity(start, Some(nextMidnight - 1)));
      } else {
        item := Some(TrackedActivity(start, end));
      }
    }
  }

  /** `split_on_midnight(..).collect()`: drains a fresh iterator. */
  method SplitOnMidnight(activity: TrackedActivity, endFallback: Timestamp) returns (pieces: seq<TrackedActivity>)
    ensures pieces == MidnightPieces(activity.startEntry, activity.end, endFallback)
  {
    var iter := new SplitActivity(activity, endFallback);
    pieces := [];
    var item := iter.Next();
    while item.Some?
      invariant item.Some? ==>
        pieces + [item.value] + iter.Remaining() == MidnightPieces(activity.startEntry, activity.end, endFallback)
      invariant item.None? ==>
        pieces == MidnightPieces(activity.startEntry, activity.end, endFallback)
      invariant item.None? ==> iter.Remaining() == []
      decreases |iter.Remaining()| + (if item.Some? then 1 else 0)
    {
      pieces := pieces + [item.value];
      item := iter.Next();
    }
  }
}

/** Starting and ending activities, and rebuilding tracked activities from
    the entry log read backwards (`src/entry_commands.rs`). The log is the
    sequence of entries in file order; reading it backwards is indexing it
    from the end. A missing log file reads as the empty log. */
module EntryCommands {
  import opened Wrappers
  import opened Time
  import opened Seqs
  import opened ActivityEntries

  // ---------------------------------------------------------------------
  // Descriptions

  /** `str::replace` of one character by a string. */
  function ReplaceChar(s: string, c: char, repl: string): (r: string)
    ensures forall d :: d in r ==> (d in s && d != c) || d in repl
    ensures c !in s ==> r == s
  {
    if s == [] then []
    else (if s[0] == c then repl else [s[0]]) + ReplaceChar(s[1..], c, repl)
  }

  lemma {:induction false} ReplaceCharAppend(a: string, b: string, c: char, repl: string)
    ensures ReplaceChar(a + b, c, repl) == ReplaceChar(a, c, repl) + ReplaceChar(b, c, repl)
  {
    if a != [] {
      assert (a + b)[1..] == a[1..] + b;
      ReplaceCharAppend(a[1..], b, c, repl);
    } else {
      assert a + b == b;
    }
  }

  /** `sanitize_description`: tabs become four spaces, then newlines become
      `" -- "`. */
  function SanitizeDescription(description: string): (r: string)
    ensures '\t' !in r && '\n' !in r
  {
    ReplaceChar(ReplaceChar(description, '\t', "    "), '\n', " -- ")
  }

  /** What one character becomes. */
  function SanitizeChar(ch: char): string
  {
    if ch == '\t' then "    " else if ch == '\n' then " -- " else [ch]
  }

  function SanitizeEach(s: string): string
  {
    if s == [] then [] else SanitizeChar(s[0]) + SanitizeEach(s[1..])
  }

  /** The two passes act as one pass replacing each character on its own,
      and text without tabs or newlines is left as it is (so sanitizing is
      idempotent). */
  lemma {:induction false} SanitizeSinglePass(s: string)
    ensures SanitizeDescription(s) == SanitizeEach(s)
    ensures '\t' !in s && '\n' !in s ==> SanitizeDescription(s) == s
  {
    if s != [] {
      SanitizeSinglePass(s[1..]);
      var head := if s[0] == '\t' then "    " else [s[0]];
      var tail := ReplaceChar(s[1..], '\t', "    ");
      assert ReplaceChar(s, '\t', "    ") == head + tail;
      ReplaceCharAppend(head, tail, '\n', " -- ");
      assert ReplaceChar(head, '\n', " -- ") == SanitizeChar(s[0]) by {
        if s[0] == '\t' {
          assert ReplaceChar(head, '\n', " -- ") == head;
        } else {
          assert head[1..] == [];
        }
      }
    }
  }

  // ---------------------------------------------------------------------
  // Starting and ending

  datatype StartError = AttendanceNotDefined(attendance: string)
  datatype EndError = NotTracking

  /** `get_last_entry`: the last line of the log, if any. */
  function LastEntry(log: seq<ActivityEntry>): (r: Option<ActivityEntry>)
    ensures r.None? <==> log == []
    ensures r.Some? ==> r.value == log[|log| - 1]
  {
    if log == [] then None else Some(log[|log| - 1])
  }

  /** The attendance a new start gets: the one asked for, else the previous
      start's, else the configured default. */
  function ChooseAttendance(explicit: Option<string>, lastEntry: Option<ActivityEntry>, default: string): string
  {
    if explicit.Some? then explicit.value
    else if lastEntry.Some? && lastEntry.value.Start? then lastEntry.value.start.attendanceType
    else default
  }

  /** The description a new start gets: the one asked for, else the
      activity's default, sanitized; empty when there is neither. */
  function ChooseDescription(explicit: Option<string>, activityDescription: Option<string>): string
  {
    if explicit.Some? then SanitizeDescription(explicit.value)
    else if activityDescription.Some? then SanitizeDescription(activityDescription.value)
    else ""
  }

  /** The entry `start_activity` appends, or the error it reports when the
      chosen attendance type is not configured. */
  function StartActivity(
    activityName: string, wbs: string, activityDescription: Option<string>,
    explicitAttendance: Option<string>, explicitDescription: Option<string>,
    attendanceTypes: set<string>, defaultAttendance: string,
    lastEntry: Option<ActivityEntry>, now: Timestamp): (r: Result<ActivityEntry, StartError>)
    ensures var attendance := ChooseAttendance(explicitAttendance, lastEntry, defaultAttendance);
      && (r.Ok? <==> attendance in attendanceTypes)
      && (r.Err? ==> r.error == AttendanceNotDefined(attendance))
      && (r.Ok? ==> r.value.Start? && r.value.start.timeStamp == now
                    && r.value.start.activityName == activityName
                    && r.value.start.attendanceType == attendance
                    && r.value.start.wbs == wbs
                    && r.value.start.description == ChooseDescription(explicitDescription, activityDescription))
    ensures r.Ok? ==> '\t' !in r.value.start.description && '\n' !in r.value.start.description
  {
    var attendance := ChooseAttendance(explicitAttendance, lastEntry, defaultAttendance);
    if attendance !in attendanceTypes then Err(AttendanceNotDefined(attendance))
    else
      var description := ChooseDescription(explicitDescription, activityDescription);
      Ok(Start(ActivityStart(now, activityName, attendance, description, wbs)))
  }

  /** The entry `end_activity` appends: only when the last entry is a start. */
  function EndActivity(lastEntry: Option<ActivityEntry>, now: Timestamp): (r: Result<ActivityEntry, EndError>)
    ensures r.Ok? <==> lastEntry.Some? && lastEntry.value.Start?
    ensures r.Ok? ==> r.value == End(now)
    ensures r.Err? ==> r.error == NotTracking
  {
    match lastEntry
    case Some(Start(_)) => Ok(End(now))
    case _ => Err(NotTracking)
  }

  /** After a start has been written, an end is accepted; after an end has
      been written, another end is refused. */
  lemma StartThenEnd(
    log: seq<ActivityEntry>, activityName: string, wbs: string, activityDescription: Option<string>,
    explicitAttendance: Option<string>, explicitDescription: Option<string>,
    attendanceTypes: set<string>, defaultAttendance: string, now: Timestamp, later: Timestamp)
    requires StartActivity(activityName, wbs, activityDescription, explicitAttendance, explicitDescription,
                           attendanceTypes, defaultAttendance, LastEntry(log), now).Ok?
    ensures var entry := StartActivity(activityName, wbs, activityDescription, explicitAttendance, explicitDescription,
                                       attendanceTypes, defaultAttendance, LastEntry(log), now).value;
      && EndActivity(LastEntry(log + [entry]), later) == Ok(End(later))
      && EndActivity(LastEntry(log + [entry, End(later)]), later).Err?
  {
  }

  /** The line written for a new start reads back as the same entry, as long
      as the name is not the end marker and no field but the (sanitized)
      description could hold a tab. */
  lemma StartEntryRoundTrip(
    activityName: string, wbs: string, activityDescription: Option<string>,
    explicitAttendance: Option<string>, explicitDescription: Option<string>,
    attendanceTypes: set<string>, defaultAttendance: string,
    lastEntry: Option<ActivityEntry>, now: Timestamp)
    requires activityName != END_SENTINEL && '\t' !in activityName && '\t' !in wbs
    requires '\t' !in ChooseAttendance(explicitAttendance, lastEntry, defaultAttendance)
    requires StartActivity(activityName, wbs, activityDescription, explicitAttendance, explicitDescription,
                           attendanceTypes, defaultAttendance, lastEntry, now).Ok?
    ensures var e := StartActivity(activityName, wbs, activityDescription, explicitAttendance, explicitDescription,
                                   attendanceTypes, defaultAttendance, lastEntry, now).value;
      Parse(Format(e)) == Ok(e)
  {
    var e := StartActivity(activityName, wbs, activityDescription, explicitAttendance, explicitDescription,
                           attendanceTypes, defaultAttendance, lastEntry, now).value;
    ParseFormat(e);
  }

  // ---------------------------------------------------------------------
  // The last activities

  /** When the start at `j` ends: at the next entry's time stamp, or never
      for the last entry. */
  function NextTimestamp(log: seq<ActivityEntry>, j: nat): Option<Timestamp>
    requires j < |log|
  {
    if j + 1 < |log| then Some(log[j + 1].TimeStamp()) else None
  }

  /** The pieces the entry at `j` yields: none for an end, the midnight
      split of its activity for a start. */
  function PiecesAt(log: seq<ActivityEntry>, j: nat, fallback: Timestamp): (r: seq<TrackedActivity>)
    requires j < |log|
    ensures log[j].End? ==> r == []
    ensures log[j].Start? ==> |r| >= 1 && r[0].startEntry == log[j].start && r[|r| - 1].end == NextTimestamp(log, j)
  {
    if log[j].Start? then
      MidnightPiecesEnds(log[j].start, NextTimestamp(log, j), fallback);
      MidnightPieces(log[j].start, NextTimestamp(log, j), fallback)
    else []
  }

  /** The pieces of every entry, one block per entry. */
  function EntryPieces(log: seq<ActivityEntry>, fallback: Timestamp): (r: seq<seq<TrackedActivity>>)
    ensures |r| == |log|
  {
    seq(|log|, j requires 0 <= j < |log| => PiecesAt(log, j, fallback))
  }

  /** All pieces from entry `j` on, in log order. */
  function ActivitiesFrom(log: seq<ActivityEntry>, j: nat, fallback: Timestamp): seq<TrackedActivity>
    requires j <= |log|
  {
    Flatten(EntryPieces(log, fallback)[j..])
  }

  /** The pieces from entry `j` on are that entry's pieces followed by the
      pieces from the next entry on; none are left after the last entry. */
  lemma {:induction false} ActivitiesFromStep(log: seq<ActivityEntry>, j: nat, fallback: Timestamp)
    requires j <= |log|
    ensures j == |log| ==> ActivitiesFrom(log, j, fallback) == []
    ensures j < |log| ==> ActivitiesFrom(log, j, fallback) == PiecesAt(log, j, fallback) + ActivitiesFrom(log, j + 1, fallback)
  {
    if j < |log| {
      FlattenFrom(EntryPieces(log, fallback), j);
    } else {
      assert EntryPieces(log, fallback)[j..] == [];
    }
  }

  /** The pieces from a later entry on are a suffix of those from an
      earlier one. */
  lemma {:induction false} ActivitiesFromSuffix(log: seq<ActivityEntry>, i: nat, j: nat, fallback: Timestamp)
    requires i <= j <= |log|
    ensures IsSuffix(ActivitiesFrom(log, j, fallback), ActivitiesFrom(log, i, fallback))
  {
    var ss := EntryPieces(log, fallback);
    FlattenSuffix(ss[i..], j - i);
    assert ss[i..][j - i..] == ss[j..];
  }

  /** Taking up to `count - |acc|` more of the newest pieces extends the
      newest-first list to the next entry. */
  lemma {:induction false} TakeNewest<T>(acc: seq<T>, before: seq<T>, pieces: seq<T>, count: nat)
    requires |acc| == Min(count, |before|) && acc == Reverse(before)[..|acc|] && |acc| < count
    ensures var next := acc + Reverse(pieces)[..Min(count - |acc|, |pieces|)];
      |next| == Min(count, |pieces + before|) && next == Reverse(pieces + before)[..|next|]
  {
    ReverseAppend(pieces, before);
    assert |acc| == |before|;
    assert Reverse(before)[..|acc|] == Reverse(before);
  }

  /** Once the newest-first list is full or the whole log is read, its
      reverse is the wanted suffix of all pieces. */
  lemma {:induction false} NewestDone<T>(all: seq<T>, read: seq<T>, acc: seq<T>, count: nat)
    requires IsSuffix(read, all)
    requires |acc| == Min(count, |read|) && acc == Reverse(read)[..|acc|]
    requires |read| == |all| || |acc| >= count
    ensures |Reverse(acc)| == Min(count, |all|) && Reverse(acc) == all[|all| - |acc|..]
  {
    ReverseSuffixPrefix(all, read, |acc|);
    ReversePrefix(all, |acc|);
  }

  /** What the backwards scan knows after `k` entries from the end: `read`
      holds their pieces, and `acc` the newest of them, newest first, as
      many as `count` allows. */
  ghost predicate TailScanned(log: seq<ActivityEntry>, k: nat, read: seq<TrackedActivity>, acc: seq<TrackedActivity>, count: nat, now: Timestamp)
  {
    && k <= |log|
    && read == ActivitiesFrom(log, |log| - k, now)
    && |acc| == Min(count, |read|)
    && acc == Reverse(read)[..|acc|]
  }

  /** One step of the backwards scan: reading the next entry back prepends
      its pieces to those read so far, and the newest-first list grows by up
      to the missing number of that entry's pieces, newest first. */
  lemma {:induction false} TailStep(log: seq<ActivityEntry>, k: nat, read: seq<TrackedActivity>, acc: seq<TrackedActivity>, count: nat, now: Timestamp)
    requires TailScanned(log, k, read, acc, count, now)
    requires k < |log| && |acc| < count
    ensures var pieces := PiecesAt(log, |log| - 1 - k, now);
      TailScanned(log, k + 1, pieces + read, acc + Reverse(pieces)[..Min(count - |acc|, |pieces|)], count, now)
  {
    var j := |log| - 1 - k;
    assert j + 1 == |log| - k && j == |log| - (k + 1);
    ActivitiesFromStep(log, j, now);
    TakeNewest(acc, read, PiecesAt(log, j, now), count);
  }

  /** When the backwards scan stops, because the list is full or the log is
      exhausted, the reversed list is the newest `count` pieces. */
  lemma {:induction false} TailDone(log: seq<ActivityEntry>, k: nat, read: seq<TrackedActivity>, acc: seq<TrackedActivity>, count: nat, now: Timestamp)
    requires TailScanned(log, k, read, acc, count, now)
    requires k == |log| || |acc| >= count
    ensures var all := ActivitiesFrom(log, 0, now);
      |Reverse(acc)| == Min(count, |all|) && Reverse(acc) == all[|all| - |Reverse(acc)|..]
    ensures StampsAscending(log) ==> Chronological(Reverse(acc))
  {
    var all := ActivitiesFrom(log, 0, now);
    ActivitiesFromSuffix(log, 0, |log| - k, now);
    if k == |log| {
      assert |log| - k == 0;
      assert read == all;
    }
    NewestDone(all, read, acc, count);
    if StampsAscending(log) {
      LatestChronological(log, |all| - |Reverse(acc)|, now);
    }
  }

  /** `get_last_n_activities`: the last `count` pieces of the log's
      activities (open ones split with `now` as their end), in log order. */
  method GetLastNActivities(log: seq<ActivityEntry>, count: nat, now: Timestamp) returns (activities: seq<TrackedActivity>)
    ensures var all := ActivitiesFrom(log, 0, now);
      |activities| == Min(count, |all|) && activities == all[|all| - |activities|..]
    ensures StampsAscending(log) ==> Chronological(activities)
  {
    var acc: seq<TrackedActivity> := [];
    var lastTimestamp: Option<Timestamp> := None;
    var k := 0;
    ghost var read: seq<TrackedActivity> := [];
    ActivitiesFromStep(log, |log|, now);
    while k < |log| && |acc| < count
      invariant TailScanned(log, k, read, acc, count, now)
      invariant lastTimestamp == if k == 0 then None else Some(log[|log| - k].TimeStamp())
    {
      var j := |log| - 1 - k;
      var entry := log[j];
      var endTimestamp := lastTimestamp;
      assert endTimestamp == NextTimestamp(log, j);
      lastTimestamp := Some(entry.TimeStamp());
      ghost var pieces := PiecesAt(log, j, now);
      TailStep(log, k, read, acc, count, now);
      if entry.Start? {
        var split := SplitOnMidnight(TrackedActivity(entry.start, endTimestamp), now);
        assert split == pieces;
        var newest := Reverse(split);
        acc := acc + newest[..Min(count - |acc|, |newest|)];
      } else {
        assert Reverse(pieces)[..Min(count - |acc|, |pieces|)] == [];
      }
      read := pieces + read;
      k := k + 1;
    }
    TailDone(log, k, read, acc, count, now);
    activities := Reverse(acc);
  }

  /** Within the pieces of one entry, only the last can be open, and only
      for the log's last entry. */
  lemma PiecesAtOpen(log: seq<ActivityEntry>, j: nat, fallback: Timestamp)
    requires j < |log|
    ensures forall i :: 0 <= i < |PiecesAt(log, j, fallback)| && PiecesAt(log, j, fallback)[i].end.None? ==>
      i == |PiecesAt(log, j, fallback)| - 1 && j == |log| - 1 && log[j].Start?
  {
    if log[j].Start? {
      var p := PiecesAt(log, j, fallback);
      MidnightPiecesGaps(log[j].start, NextTimestamp(log, j), fallback);
      assert p == MidnightPieces(log[j].start, NextTimestamp(log, j), fallback);
      forall i | 0 <= i < |p| - 1
        ensures p[i].end.Some?
      {
        assert p[i].end == Some(p[i + 1].StartTime() - 1);
      }
    }
  }

  /** Only the newest piece can be ongoing, and it is exactly when the last
      entry of the log is a start; an end entry never yields a piece. */
  lemma {:induction false} OngoingOnlyLast(log: seq<ActivityEntry>, j: nat, fallback: Timestamp)
    requires j <= |log|
    ensures forall i :: 0 <= i < |ActivitiesFrom(log, j, fallback)| && ActivitiesFrom(log, j, fallback)[i].end.None? ==>
      i == |ActivitiesFrom(log, j, fallback)| - 1 && log[|log| - 1].Start?
    ensures j < |log| && log[|log| - 1].Start? ==>
      |ActivitiesFrom(log, j, fallback)| > 0 && ActivitiesFrom(log, j, fallback)[|ActivitiesFrom(log, j, fallback)| - 1].end.None?
    decreases |log| - j
  {
    if j < |log| {
      OngoingOnlyLast(log, j + 1, fallback);
      PiecesAtOpen(log, j, fallback);
      var p := PiecesAt(log, j, fallback);
      var rest := ActivitiesFrom(log, j + 1, fallback);
      var r := ActivitiesFrom(log, j, fallback);
      ActivitiesFromStep(log, j, fallback);
      forall i | 0 <= i < |r| && r[i].end.None?
        ensures i == |r| - 1 && log[|log| - 1].Start?
      {
        if i < |p| {
          assert p[i] == r[i];
          assert rest == [];
        } else {
          assert r[i] == rest[i - |p|];
        }
      }
    } else {
      ActivitiesFromStep(log, j, fallback);
    }
  }

  /** A log as it is written: each entry's time stamp is at or after the
      previous one's. */
  predicate StampsAscending(log: seq<ActivityEntry>)
  {
    forall i :: 0 <= i < |log| - 1 ==> log[i].TimeStamp() <= log[i + 1].TimeStamp()
  }

  /** A later part of an ordered log is ordered. */
  lemma StampsAscendingFrom(log: seq<ActivityEntry>, w: nat)
    requires StampsAscending(log) && w <= |log|
    ensures StampsAscending(log[w..])
  {
    var t := log[w..];
    forall i | 0 <= i < |t| - 1
      ensures t[i].TimeStamp() <= t[i + 1].TimeStamp()
    {
      assert t[i] == log[w + i] && t[i + 1] == log[w + i + 1];
    }
  }

  /** The pieces of an ordered log, from entry `j` on, are in time order
      and start no earlier than entry `j`: each start is split up to the
      next entry, and the next start is no earlier than that. */
  lemma {:induction false} ActivitiesFromChronological(log: seq<ActivityEntry>, j: nat, fallback: Timestamp)
    requires StampsAscending(log) && j <= |log|
    ensures Chronological(ActivitiesFrom(log, j, fallback))
    ensures j < |log| ==> forall y :: y in ActivitiesFrom(log, j, fallback) ==> log[j].TimeStamp() <= y.StartTime()
    decreases |log| - j
  {
    ActivitiesFromStep(log, j, fallback);
    if j < |log| {
      ActivitiesFromChronological(log, j + 1, fallback);
      if log[j].Start? {
        StartPiecesChronological(log, j, fallback);
      } else {
        ActivitiesFromStep(log, j + 1, fallback);
        assert ActivitiesFrom(log, j, fallback) == ActivitiesFrom(log, j + 1, fallback);
      }
    }
  }

  /** The latest pieces of an ordered log are in time order. */
  lemma LatestChronological(log: seq<ActivityEntry>, k: nat, now: Timestamp)
    requires StampsAscending(log) && k <= |ActivitiesFrom(log, 0, now)|
    ensures Chronological(ActivitiesFrom(log, 0, now)[k..])
  {
    ActivitiesFromChronological(log, 0, now);
    ChronologicalSlice(ActivitiesFrom(log, 0, now), k);
  }

  /** One start entry's pieces, put before the time-ordered pieces of the
      entries after it. */
  lemma StartPiecesChronological(log: seq<ActivityEntry>, j: nat, fallback: Timestamp)
    requires StampsAscending(log) && j < |log| && log[j].Start?
    requires Chronological(ActivitiesFrom(log, j + 1, fallback))
    requires j + 1 < |log| ==> forall y :: y in ActivitiesFrom(log, j + 1, fallback) ==> log[j + 1].TimeStamp() <= y.StartTime()
    ensures Chronological(PiecesAt(log, j, fallback) + ActivitiesFrom(log, j + 1, fallback))
    ensures forall y :: y in PiecesAt(log, j, fallback) + ActivitiesFrom(log, j + 1, fallback) ==> log[j].TimeStamp() <= y.StartTime()
  {
    var rest := ActivitiesFrom(log, j + 1, fallback);
    ActivitiesFromStep(log, j + 1, fallback);
    var next := NextTimestamp(log, j);
    MidnightPiecesChronological(log[j].start, next, fallback);
    var p := PiecesAt(log, j, fallback);
    forall x, y | x in p && y in rest
      ensures x.end.Some? && x.end.value <= y.StartTime()
    {
      assert next == Some(log[j + 1].TimeStamp());
    }
    ChronologicalAppend(p, rest);
  }

  // ---------------------------------------------------------------------
  // Activities since a point in time

  /** Where the backwards scan stops: the last entry at or before
      `startTime`, else the first entry. */
  function WindowStartIn(log: seq<ActivityEntry>, startTime: Timestamp, n: nat): (w: nat)
    requires n <= |log|
    ensures w <= n && (n > 0 ==> w < n)
    ensures forall i :: w < i < n ==> log[i].TimeStamp() > startTime
    ensures w > 0 ==> log[w].TimeStamp() <= startTime
  {
    if n == 0 then 0
    else if log[n - 1].TimeStamp() <= startTime then n - 1
    else WindowStartIn(log, startTime, n - 1)
  }

  function WindowStart(log: seq<ActivityEntry>, startTime: Timestamp): nat
  {
    WindowStartIn(log, startTime, |log|)
  }

  lemma {:induction false} WindowStartSkip(log: seq<ActivityEntry>, startTime: Timestamp, m: nat, n: nat)
    requires m <= n <= |log|
    requires forall i :: m <= i < n ==> log[i].TimeStamp() > startTime
    ensures WindowStartIn(log, startTime, n) == WindowStartIn(log, startTime, m)
    decreases n - m
  {
    if m < n {
      WindowStartSkip(log, startTime, m, n - 1);
    }
  }

  /** `get_backwards_entries_since`: the entries from the newest back to,
      and including, the first one at or before `startTime`. */
  method GetBackwardsEntriesSince(log: seq<ActivityEntry>, startTime: Timestamp) returns (entries: seq<ActivityEntry>)
    ensures entries == Reverse(log[WindowStart(log, startTime)..])
  {
    entries := [];
    var k := 0;
    while k < |log|
      invariant 0 <= k <= |log|
      invariant entries == Reverse(log[|log| - k..])
      invariant forall i :: |log| - k <= i < |log| ==> log[i].TimeStamp() > startTime
    {
      var entry := log[|log| - 1 - k];
      assert log[|log| - 1 - k..][1..] == log[|log| - k..];
      entries := entries + [entry];
      k := k + 1;
      if entry.TimeStamp() <= startTime {
        WindowStartSkip(log, startTime, |log| - k + 1, |log|);
        return;
      }
    }
    WindowStartSkip(log, startTime, 0, |log|);
  }

  /** Keeps the pieces not ended before `startTime`. */
  function EndedSince(pieces: seq<TrackedActivity>, startTime: Timestamp): (r: seq<TrackedActivity>)
    ensures forall a :: a in r <==> a in pieces && (a.end.None? || a.end.value >= startTime)
    ensures multiset(r) <= multiset(pieces)
    ensures (forall a :: a in pieces ==> a.end.None? || a.end.value >= startTime) ==> r == pieces
  {
    if pieces == [] then []
    else
      var a := pieces[0];
      assert pieces == [a] + pieces[1..];
      (if a.end.None? || a.end.value >= startTime then [a] else []) + EndedSince(pieces[1..], startTime)
  }

  /** The completed pieces among the first `n` entries of a chronological
      window: each start is closed by the entry after it. */
  function Completed(window: seq<ActivityEntry>, n: nat, startTime: Timestamp, now: Timestamp): seq<TrackedActivity>
    requires n <= |window|
  {
    if n <= 1 then []
    else
      Completed(window, n - 1, startTime, now)
        + (if window[n - 2].Start?
           then EndedSince(MidnightPieces(window[n - 2].start, Some(window[n - 1].TimeStamp()), now), startTime)
           else [])
  }

  /** One more entry closes the pending start, if there is one. */
  lemma CompletedStep(window: seq<ActivityEntry>, i: nat, startTime: Timestamp, now: Timestamp)
    requires i < |window|
    ensures Completed(window, i + 1, startTime, now)
         == Completed(window, i, startTime, now)
            + (if Pending(window, i).Some?
               then EndedSince(MidnightPieces(Pending(window, i).value, Some(window[i].TimeStamp()), now), startTime)
               else [])
  {
  }

  /** The start still open after the first `n` entries: an end clears it. */
  function Pending(window: seq<ActivityEntry>, n: nat): Option<ActivityStart>
    requires n <= |window|
  {
    if n > 0 && window[n - 1].Start? then Some(window[n - 1].start) else None
  }

  /** What `get_activities_since` builds from a chronological window. */
  function ActivitiesSince(window: seq<ActivityEntry>, startTime: Timestamp, now: Timestamp): seq<TrackedActivity>
  {
    Completed(window, |window|, startTime, now)
      + (if Pending(window, |window|).Some? then [TrackedActivity(Pending(window, |window|).value, None)] else [])
  }

  /** The loop of `get_activities_since` over the window, oldest first:
      close each pending start at the next entry, split it at midnight and
      keep the pieces that end at or after `startTime`; a start still open
      at the end is added once, ongoing and unsplit. */
  method ReplayWindow(window: seq<ActivityEntry>, startTime: Timestamp, now: Timestamp) returns (activities: seq<TrackedActivity>)
    ensures activities == ActivitiesSince(window, startTime, now)
  {
    activities := [];
    var lastActivityStart: Option<ActivityStart> := None;
    for i := 0 to |window|
      invariant activities == Completed(window, i, startTime, now)
      invariant lastActivityStart == Pending(window, i)
    {
      var entry := window[i];
      CompletedStep(window, i, startTime, now);
      if lastActivityStart.Some? {
        var split := SplitOnMidnight(TrackedActivity(lastActivityStart.value, Some(entry.TimeStamp())), now);
        activities := activities + EndedSince(split, startTime);
      }
      lastActivityStart := match entry
        case Start(activityStart) => Some(activityStart)
        case End(_) => None;
    }
    if lastActivityStart.Some? {
      activities := activities + [TrackedActivity(lastActivityStart.value, None)];
    }
  }

  /** `get_activities_since`: the activities of the window that reaches
      back to the last entry at or before `startTime`. */
  method GetActivitiesSince(log: seq<ActivityEntry>, startTime: Timestamp, now: Timestamp) returns (activities: seq<TrackedActivity>)
    ensures activities == ActivitiesSince(log[WindowStart(log, startTime)..], startTime, now)
    ensures StampsAscending(log) ==> Chronological(activities)
  {
    var backwards := GetBackwardsEntriesSince(log, startTime);
    ReverseReverse(log[WindowStart(log, startTime)..]);
    activities := ReplayWindow(Reverse(backwards), startTime, now);
    if StampsAscending(log) {
      StampsAscendingFrom(log, WindowStart(log, startTime));
      ActivitiesSinceChronological(log[WindowStart(log, startTime)..], startTime, now);
    }
  }

  lemma {:induction false} CompletedEnded(window: seq<ActivityEntry>, n: nat, startTime: Timestamp, now: Timestamp)
    requires n <= |window|
    ensures forall a :: a in Completed(window, n, startTime, now) ==> a.end.Some? && a.end.value >= startTime
  {
    if n > 1 {
      CompletedEnded(window, n - 1, startTime, now);
      if window[n - 2].Start? {
        var ps := MidnightPieces(window[n - 2].start, Some(window[n - 1].TimeStamp()), now);
        MidnightPiecesGaps(window[n - 2].start, Some(window[n - 1].TimeStamp()), now);
        MidnightPiecesEnds(window[n - 2].start, Some(window[n - 1].TimeStamp()), now);
        forall i | 0 <= i < |ps|
          ensures ps[i].end.Some?
        {
          if i < |ps| - 1 {
            assert ps[i].end == Some(ps[i + 1].StartTime() - 1);
          }
        }
      }
    }
  }

  /** Every activity since `startTime` ends at or after it, except one
      ongoing activity: the last, present exactly when the window's last
      entry is a start, and then that start unsplit. */
  lemma ActivitiesSinceShape(window: seq<ActivityEntry>, startTime: Timestamp, now: Timestamp)
    ensures var r := ActivitiesSince(window, startTime, now);
      && (forall i :: 0 <= i < |r| && r[i].end.Some? ==> r[i].end.value >= startTime)
      && (forall i :: 0 <= i < |r| && r[i].end.None? ==> i == |r| - 1)
      && (window != [] && window[|window| - 1].Start? <==> r != [] && r[|r| - 1].end.None?)
      && (window != [] && window[|window| - 1].Start? ==> r[|r| - 1] == TrackedActivity(window[|window| - 1].start, None))
  {
    CompletedEnded(window, |window|, startTime, now);
    var c := Completed(window, |window|, startTime, now);
    var r := ActivitiesSince(window, startTime, now);
    assert forall i :: 0 <= i < |c| ==> r[i] == c[i] && c[i] in c;
  }

  /** Filtering pieces in time order keeps them in time order. */
  lemma {:induction false} EndedSinceChronological(pieces: seq<TrackedActivity>, startTime: Timestamp)
    requires Chronological(pieces)
    ensures Chronological(EndedSince(pieces, startTime))
  {
    if pieces != [] {
      var a, rest := pieces[0], pieces[1..];
      ChronologicalSlice(pieces, 1);
      ChronologicalHead(pieces);
      EndedSinceChronological(rest, startTime);
      var kept := EndedSince(rest, startTime);
      if a.end.None? || a.end.value >= startTime {
        ChronologicalAppend([a], kept);
        assert EndedSince(pieces, startTime) == [a] + kept;
      } else {
        assert EndedSince(pieces, startTime) == kept;
      }
    }
  }

  /** The completed pieces of an ordered window are in time order and end
      no later than the window's `n`-th entry. */
  lemma {:induction false} CompletedChronological(window: seq<ActivityEntry>, n: nat, startTime: Timestamp, now: Timestamp)
    requires StampsAscending(window) && n <= |window|
    ensures Chronological(Completed(window, n, startTime, now))
    ensures n >= 1 ==> forall x :: x in Completed(window, n, startTime, now) ==>
      x.end.Some? && x.end.value <= window[n - 1].TimeStamp()
  {
    if n > 1 {
      CompletedChronological(window, n - 1, startTime, now);
      var before := Completed(window, n - 1, startTime, now);
      assert window[n - 2].TimeStamp() <= window[n - 1].TimeStamp();
      if window[n - 2].Start? {
        var end := Some(window[n - 1].TimeStamp());
        var ps := MidnightPieces(window[n - 2].start, end, now);
        MidnightPiecesChronological(window[n - 2].start, end, now);
        EndedSinceChronological(ps, startTime);
        var kept := EndedSince(ps, startTime);
        forall x, y | x in before && y in kept
          ensures x.end.Some? && x.end.value <= y.StartTime()
        {
          var k :| 0 <= k < |ps| && ps[k] == y;
        }
        ChronologicalAppend(before, kept);
        forall x | x in kept
          ensures x.end.Some? && x.end.value <= window[n - 1].TimeStamp()
        {
          var k :| 0 <= k < |ps| && ps[k] == x;
        }
        assert Completed(window, n, startTime, now) == before + kept;
      } else {
        assert Completed(window, n, startTime, now) == before;
      }
    }
  }

  /** The activities of an ordered window are in time order: the completed
      pieces, then the ongoing start, which begins at the last entry. */
  lemma ActivitiesSinceChronological(window: seq<ActivityEntry>, startTime: Timestamp, now: Timestamp)
    requires StampsAscending(window)
    ensures Chronological(ActivitiesSince(window, startTime, now))
  {
    CompletedChronological(window, |window|, startTime, now);
    var c := Completed(window, |window|, startTime, now);
    if Pending(window, |window|).Some? {
      var open := [TrackedActivity(Pending(window, |window|).value, None)];
      ChronologicalAppend(c, open);
    }
  }
}

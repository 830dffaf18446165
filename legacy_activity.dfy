/** The older grouping of entries into daily totals (`src/activity.rs`).
    Its entry codec is the same as `ActivityEntries.Parse`/`Format`. Unlike
    `ActivityGroupings.CollapseActivities` it works on raw entries in a time
    window and does not split at midnight: each start is charged, whole, to
    the date it started on. */
module LegacyActivity {
  import opened Wrappers
  import opened Time
  import opened ActivityEntries
  import opened ActivityGroupings
  import EntryCommands

  /** `skip_while(|e| e.time_stamp() < from)`. */
  function SkipBefore(entries: seq<ActivityEntry>, from: Timestamp): (r: seq<ActivityEntry>)
    ensures |r| <= |entries| && r == entries[|entries| - |r|..]
    ensures forall i :: 0 <= i < |entries| - |r| ==> entries[i].TimeStamp() < from
    ensures r != [] ==> r[0].TimeStamp() >= from
  {
    if entries == [] then []
    else if entries[0].TimeStamp() < from then SkipBefore(entries[1..], from)
    else entries
  }

  /** `take_while(|e| e.time_stamp() < to)`. */
  function TakeBefore(entries: seq<ActivityEntry>, to: Timestamp): (r: seq<ActivityEntry>)
    ensures |r| <= |entries| && r == entries[..|r|]
    ensures forall i :: 0 <= i < |r| ==> r[i].TimeStamp() < to
    ensures |r| < |entries| ==> entries[|r|].TimeStamp() >= to
  {
    if entries == [] || entries[0].TimeStamp() >= to then []
    else [entries[0]] + TakeBefore(entries[1..], to)
  }

  /** The entries `group_activities` looks at. */
  function Window(entries: seq<ActivityEntry>, from: Timestamp, to: Timestamp): seq<ActivityEntry>
  {
    TakeBefore(SkipBefore(entries, from), to)
  }

  /** The window is one run of the log: everything before it is earlier
      than `from`, its first entry is not, all of it is earlier than `to`,
      and the entry after it (if any) is not. */
  lemma {:induction false} WindowIsRun(entries: seq<ActivityEntry>, from: Timestamp, to: Timestamp)
    ensures var skipped := |entries| - |SkipBefore(entries, from)|;
      var w := Window(entries, from, to);
      && skipped + |w| <= |entries|
      && w == entries[skipped..skipped + |w|]
      && (forall i :: 0 <= i < skipped ==> entries[i].TimeStamp() < from)
      && (w != [] ==> w[0].TimeStamp() >= from)
      && (forall i :: 0 <= i < |w| ==> w[i].TimeStamp() < to)
      && (skipped + |w| < |entries| ==> entries[skipped + |w|].TimeStamp() >= to)
  {
    var rest := SkipBefore(entries, from);
    var w := TakeBefore(rest, to);
    assert Window(entries, from, to) == w;
    PrefixOfSuffix(entries, rest, w);
    if |w| < |rest| {
      assert entries[|entries| - |rest| + |w|] == rest[|w|];
    }
  }

  /** A prefix `w` of a suffix `rest` of `entries` is a slice of `entries`,
      and the element after it in `rest` is the one after it there. */
  lemma {:induction false} PrefixOfSuffix<T>(entries: seq<T>, rest: seq<T>, w: seq<T>)
    requires |rest| <= |entries| && rest == entries[|entries| - |rest|..]
    requires |w| <= |rest| && w == rest[..|w|]
    ensures var skipped := |entries| - |rest|;
      && w == entries[skipped..skipped + |w|]
      && (|w| < |rest| ==> rest[|w|] == entries[skipped + |w|])
  {
  }

  /** The intervals the first `n` entries of the window close: each start
      runs until the entry after it. */
  function Pairs(window: seq<ActivityEntry>, n: nat): seq<TrackedActivity>
    requires n <= |window|
  {
    if n <= 1 then []
    else
      Pairs(window, n - 1)
        + (if window[n - 2].Start? then [TrackedActivity(window[n - 2].start, Some(window[n - 1].TimeStamp()))] else [])
  }

  /** The closed intervals are exactly the starts that have a following
      entry in the window, each ending there: an end opens nothing and the
      last start, with no entry after it, contributes nothing. */
  lemma {:induction false} PairsFromStarts(window: seq<ActivityEntry>, n: nat)
    requires n <= |window|
    ensures forall p :: p in Pairs(window, n) ==>
      exists i :: 0 <= i < n - 1 && window[i].Start? && p == TrackedActivity(window[i].start, Some(window[i + 1].TimeStamp()))
    ensures forall i :: 0 <= i < n - 1 && window[i].Start? ==>
      TrackedActivity(window[i].start, Some(window[i + 1].TimeStamp())) in Pairs(window, n)
  {
    if n > 1 {
      PairsFromStarts(window, n - 1);
    }
  }

  /** `group_activities`: walk the window, charging each start with the
      time until the next entry in the group of its key (an end only
      clears the pending start), then list the groups sorted by first
      start. Every interval is closed, so the time used for open ends is
      never read. */
  method GroupActivities(entries: seq<ActivityEntry>, from: Timestamp, to: Timestamp)
    returns (collapsed: seq<CollapsedActivity>, ghost order: seq<GroupKey>)
    ensures var window := Window(entries, from, to);
      var groups := Groups(Pairs(window, |window|), 0);
      && |order| == |collapsed| == |groups|
      && (forall k :: k in groups <==> k in order)
      && (forall i :: 0 <= i < |order| ==> order[i] in groups && collapsed[i] == groups[order[i]])
      && (forall i, j :: 0 <= i < j < |order| ==> order[i] != order[j])
    ensures SortedByStart(collapsed)
  {
    var window := Window(entries, from, to);
    var grouped: map<GroupKey, CollapsedActivity> := map[];
    var previousEntry: Option<ActivityStart> := None;
    for i := 0 to |window|
      invariant grouped == Groups(Pairs(window, i), 0)
      invariant previousEntry == EntryCommands.Pending(window, i)
    {
      var current := window[i];
      ghost var before := grouped;
      if previousEntry.Some? {
        var previous := previousEntry.value;
        ghost var piece := TrackedActivity(previous, Some(current.TimeStamp()));
        var key := KeyOf(TrackedActivity(previous, None));
        assert key == KeyOf(piece);
        if key !in grouped {
          grouped := grouped[key := CollapsedActivity(previous.attendanceType, previous.description, 0, previous.timeStamp, previous.wbs)];
        }
        grouped := grouped[key := grouped[key].(duration := grouped[key].duration + (current.TimeStamp() - previous.timeStamp))];
        assert Pairs(window, i + 1) == Pairs(window, i) + [piece];
        assert (Pairs(window, i) + [piece])[..|Pairs(window, i)|] == Pairs(window, i);
        assert grouped == AddPiece(before, piece, 0);
      } else {
        assert Pairs(window, i + 1) == Pairs(window, i);
      }
      previousEntry := match current
        case Start(activityStart) => Some(activityStart)
        case End(_) => None;
    }
    collapsed, order := SortByStartOfFirst(grouped);
  }
}

/** Daily aggregation and attendance ranges
    (`src/activity_entry/activity_groupings.rs`). */
module ActivityGroupings {
  import opened Wrappers
  import opened Time
  import opened ActivityEntries

  /** Grouping key: same WBS, attendance type, description and local date. */
  datatype GroupKey = GroupKey(wbs: string, attendanceType: string, description: string, date: int)

  /** One group's total: `start_of_first` is the start of the first piece
      that went into the group, `duration` the sum over its pieces. */
  datatype CollapsedActivity = CollapsedActivity(
    attendanceType: string,
    description: string,
    duration: int,
    startOfFirst: Timestamp,
    wbs: string)

  /** `ActivityGroupKey::from`: the key of a piece, dated by its start. */
  function KeyOf(a: TrackedActivity): GroupKey
  {
    GroupKey(a.startEntry.wbs, a.startEntry.attendanceType, a.startEntry.description, Date(a.StartTime()))
  }

  /** `flat_map(|t| t.split_on_midnight(end_fallback))`. */
  function AllPieces(activities: seq<TrackedActivity>, endFallback: Timestamp): seq<TrackedActivity>
  {
    if activities == [] then []
    else
      var last := activities[|activities| - 1];
      AllPieces(activities[..|activities| - 1], endFallback)
        + MidnightPieces(last.startEntry, last.end, endFallback)
  }

  /** What one pass of the grouping loop does with a piece: create its group
      on first sight, then add its duration. */
  function AddPiece(groups: map<GroupKey, CollapsedActivity>, p: TrackedActivity, now: Timestamp): map<GroupKey, CollapsedActivity>
  {
    var k := KeyOf(p);
    var g := if k in groups then groups[k]
             else CollapsedActivity(p.startEntry.attendanceType, p.startEntry.description, 0, p.StartTime(), p.startEntry.wbs);
    groups[k := g.(duration := g.duration + p.Duration(now))]
  }

  /** The grouping map after all of `pieces`, in order. */
  function Groups(pieces: seq<TrackedActivity>, now: Timestamp): map<GroupKey, CollapsedActivity>
  {
    if pieces == [] then map[]
    else AddPiece(Groups(pieces[..|pieces| - 1], now), pieces[|pieces| - 1], now)
  }

  /** Sum of the durations of the pieces with key `k`. */
  function SumFor(pieces: seq<TrackedActivity>, k: GroupKey, now: Timestamp): int
  {
    if pieces == [] then 0
    else
      var last := pieces[|pieces| - 1];
      SumFor(pieces[..|pieces| - 1], k, now) + (if KeyOf(last) == k then last.Duration(now) else 0)
  }

  function KeysOf(pieces: seq<TrackedActivity>): set<GroupKey>
  {
    set p | p in pieces :: KeyOf(p)
  }

  /** There is a group for exactly the keys of the pieces: every piece adds
      to one group, its own key's. */
  lemma {:induction false} GroupsKeys(pieces: seq<TrackedActivity>, now: Timestamp)
    ensures Groups(pieces, now).Keys == KeysOf(pieces)
  {
    if pieces != [] {
      var init := pieces[..|pieces| - 1];
      GroupsKeys(init, now);
      assert pieces == init + [pieces[|pieces| - 1]];
      assert KeysOf(pieces) == KeysOf(init) + {KeyOf(pieces[|pieces| - 1])};
    }
  }

  /** A group's duration is the sum of `(end or now) - start` over the
      pieces with its key, and its attendance, description and WBS are the
      key's. */
  lemma {:induction false} GroupsDuration(pieces: seq<TrackedActivity>, k: GroupKey, now: Timestamp)
    requires k in Groups(pieces, now)
    ensures Groups(pieces, now)[k].duration == SumFor(pieces, k, now)
    ensures Groups(pieces, now)[k].wbs == k.wbs
    ensures Groups(pieces, now)[k].attendanceType == k.attendanceType
    ensures Groups(pieces, now)[k].description == k.description
  {
    var init := pieces[..|pieces| - 1];
    var last := pieces[|pieces| - 1];
    if k in Groups(init, now) {
      GroupsDuration(init, k, now);
    } else if KeyOf(last) == k {
      GroupsAbsent(init, k, now);
    }
  }

  /** A key no piece has sums to nothing. */
  lemma {:induction false} GroupsAbsent(pieces: seq<TrackedActivity>, k: GroupKey, now: Timestamp)
    requires k !in Groups(pieces, now)
    ensures SumFor(pieces, k, now) == 0
  {
    if pieces != [] {
      GroupsAbsent(pieces[..|pieces| - 1], k, now);
    }
  }

  /** A group's `start_of_first` is the start of the first piece with its
      key, so its date is the key's date. */
  lemma {:induction false} GroupsStartOfFirst(pieces: seq<TrackedActivity>, j: nat, now: Timestamp)
    requires j < |pieces|
    requires forall i :: 0 <= i < j ==> KeyOf(pieces[i]) != KeyOf(pieces[j])
    ensures KeyOf(pieces[j]) in Groups(pieces, now)
    ensures Groups(pieces, now)[KeyOf(pieces[j])].startOfFirst == pieces[j].StartTime()
    ensures Date(Groups(pieces, now)[KeyOf(pieces[j])].startOfFirst) == KeyOf(pieces[j]).date
  {
    var init := pieces[..|pieces| - 1];
    if j < |pieces| - 1 {
      GroupsStartOfFirst(init, j, now);
    } else {
      GroupsNotYet(init, KeyOf(pieces[j]), now);
    }
  }

  lemma {:induction false} GroupsNotYet(pieces: seq<TrackedActivity>, k: GroupKey, now: Timestamp)
    requires forall i :: 0 <= i < |pieces| ==> KeyOf(pieces[i]) != k
    ensures k !in Groups(pieces, now)
  {
    if pieces != [] {
      GroupsNotYet(pieces[..|pieces| - 1], k, now);
    }
  }

  predicate SortedByStart(r: seq<CollapsedActivity>)
  {
    forall i, j :: 0 <= i < j < |r| ==> r[i].startOfFirst <= r[j].startOfFirst
  }

  lemma {:induction false} EarliestExists(groups: map<GroupKey, CollapsedActivity>, keys: set<GroupKey>)
    requires keys != {} && keys <= groups.Keys
    ensures exists k :: k in keys && forall k' :: k' in keys ==> groups[k].startOfFirst <= groups[k'].startOfFirst
  {
    var x :| x in keys;
    if keys != {x} {
      EarliestExists(groups, keys - {x});
      var m :| m in keys - {x} && forall k' :: k' in keys - {x} ==> groups[m].startOfFirst <= groups[k'].startOfFirst;
      if groups[x].startOfFirst < groups[m].startOfFirst {
        assert forall k' :: k' in keys ==> groups[x].startOfFirst <= groups[k'].startOfFirst;
      } else {
        assert forall k' :: k' in keys ==> groups[m].startOfFirst <= groups[k'].startOfFirst;
      }
    } else {
      assert forall k' :: k' in keys ==> groups[x].startOfFirst <= groups[k'].startOfFirst;
    }
  }

  /** The bookkeeping of the selection: `order` lists distinct keys of
      `groups`, `sorted` their groups, and `remaining` holds exactly the keys
      not yet listed. */
  ghost predicate Listed(groups: map<GroupKey, CollapsedActivity>, remaining: set<GroupKey>,
                         sorted: seq<CollapsedActivity>, order: seq<GroupKey>)
  {
    && remaining <= groups.Keys
    && (forall k :: k in groups ==> (k in remaining <==> k !in order))
    && |order| + |remaining| == |groups|
    && |sorted| == |order|
    && (forall i :: 0 <= i < |order| ==> order[i] in groups && sorted[i] == groups[order[i]])
    && (forall i, j :: 0 <= i < j < |order| ==> order[i] != order[j])
  }

  /** The order of the selection: the listed groups are sorted by start and
      none of the remaining ones starts before a listed one. */
  ghost predicate Ordered(groups: map<GroupKey, CollapsedActivity>, remaining: set<GroupKey>, sorted: seq<CollapsedActivity>)
    requires remaining <= groups.Keys
  {
    && SortedByStart(sorted)
    && (forall i, k :: 0 <= i < |sorted| && k in remaining ==> sorted[i].startOfFirst <= groups[k].startOfFirst)
  }

  /** Moving a remaining key to the end of the list keeps the bookkeeping. */
  lemma {:induction false} ListKey(groups: map<GroupKey, CollapsedActivity>, remaining: set<GroupKey>,
                                   sorted: seq<CollapsedActivity>, order: seq<GroupKey>, k: GroupKey)
    requires Listed(groups, remaining, sorted, order) && k in remaining
    ensures Listed(groups, remaining - {k}, sorted + [groups[k]], order + [k])
  {
    var sorted', order' := sorted + [groups[k]], order + [k];
    assert forall i :: 0 <= i < |order| ==> order'[i] == order[i] && sorted'[i] == sorted[i];
    assert order'[|order|] == k && sorted'[|order|] == groups[k];
    assert |remaining - {k}| == |remaining| - 1;
  }

  /** Moving a remaining key with the earliest start to the end of the
      list keeps the order. */
  lemma {:induction false} OrderEarliest(groups: map<GroupKey, CollapsedActivity>, remaining: set<GroupKey>,
                                         sorted: seq<CollapsedActivity>, k: GroupKey)
    requires remaining <= groups.Keys && Ordered(groups, remaining, sorted)
    requires k in remaining && forall k' :: k' in remaining ==> groups[k].startOfFirst <= groups[k'].startOfFirst
    ensures Ordered(groups, remaining - {k}, sorted + [groups[k]])
  {
    var sorted' := sorted + [groups[k]];
    assert forall i :: 0 <= i < |sorted| ==> sorted'[i] == sorted[i];
  }

  /** `Vec::from_iter(map.into_values())` followed by `sort_unstable_by` on
      `start_of_first`: the groups, one per key, sorted by first start. Ties
      come out in no particular order. */
  method SortByStartOfFirst(groups: map<GroupKey, CollapsedActivity>)
    returns (sorted: seq<CollapsedActivity>, ghost order: seq<GroupKey>)
    ensures |order| == |sorted| == |groups|
    ensures forall k :: k in groups <==> k in order
    ensures forall i :: 0 <= i < |order| ==> order[i] in groups && sorted[i] == groups[order[i]]
    ensures forall i, j :: 0 <= i < j < |order| ==> order[i] != order[j]
    ensures SortedByStart(sorted)
  {
    var remaining := groups.Keys;
    sorted, order := [], [];
    while remaining != {}
      invariant Listed(groups, remaining, sorted, order)
      invariant Ordered(groups, remaining, sorted)
      decreases remaining
    {
      EarliestExists(groups, remaining);
      var k :| k in remaining && forall k' :: k' in remaining ==> groups[k].startOfFirst <= groups[k'].startOfFirst;
      ListKey(groups, remaining, sorted, order, k);
      OrderEarliest(groups, remaining, sorted, k);
      sorted, order := sorted + [groups[k]], order + [k];
      remaining := remaining - {k};
    }
  }

  /** `collapse_activities`: split every activity at midnight (cutting open
      ones at `endFallback`), add each piece's `(end or now) - start` to the
      group of its key, and list the groups sorted by first start. */
  method CollapseActivities(activities: seq<TrackedActivity>, endFallback: Timestamp, now: Timestamp)
    returns (collapsed: seq<CollapsedActivity>, ghost order: seq<GroupKey>)
    ensures var groups := Groups(AllPieces(activities, endFallback), now);
      && |order| == |collapsed| == |groups|
      && (forall k :: k in groups <==> k in order)
      && (forall i :: 0 <= i < |order| ==> order[i] in groups && collapsed[i] == groups[order[i]])
      && (forall i, j :: 0 <= i < j < |order| ==> order[i] != order[j])
    ensures SortedByStart(collapsed)
  {
    var pieces: seq<TrackedActivity> := [];
    for i := 0 to |activities|
      invariant pieces == AllPieces(activities[..i], endFallback)
    {
      var split := SplitOnMidnight(activities[i], endFallback);
      assert activities[..i + 1][..i] == activities[..i];
      pieces := pieces + split;
    }
    assert activities[..|activities|] == activities;

    var grouped: map<GroupKey, CollapsedActivity> := map[];
    for i := 0 to |pieces|
      invariant grouped == Groups(pieces[..i], now)
    {
      var p := pieces[i];
      var key := KeyOf(p);
      if key !in grouped {
        grouped := grouped[key := CollapsedActivity(p.startEntry.attendanceType, p.startEntry.description, 0, p.StartTime(), p.startEntry.wbs)];
      }
      grouped := grouped[key := grouped[key].(duration := grouped[key].duration + p.Duration(now))];
      assert pieces[..i + 1][..i] == pieces[..i];
    }
    assert pieces[..|pieces|] == pieces;
    collapsed, order := SortByStartOfFirst(grouped);
  }

  // ---------------------------------------------------------------------
  // Attendance ranges

  datatype AttendanceRange = AttendanceRange(start: Timestamp, end: Option<Timestamp>, attendanceType: string)

  /** The range an activity opens. */
  function RangeOf(a: TrackedActivity): AttendanceRange
  {
    AttendanceRange(a.StartTime(), a.end, a.startEntry.attendanceType)
  }

  /** `a` continues `r`: it starts exactly where `r` ends (an open `r` has no
      end, so nothing continues it) and has the same attendance type. */
  predicate Continues(r: AttendanceRange, a: TrackedActivity)
  {
    r.end == Some(a.StartTime()) && a.startEntry.attendanceType == r.attendanceType
  }

  /** The ranges still to come while `pending` is open and `rest` unread. */
  function MergeFrom(pending: AttendanceRange, rest: seq<TrackedActivity>): seq<AttendanceRange>
    decreases |rest|
  {
    if rest == [] then [pending]
    else if Continues(pending, rest[0]) then MergeFrom(pending.(end := rest[0].end), rest[1..])
    else [pending] + MergeFrom(RangeOf(rest[0]), rest[1..])
  }

  /** The ranges `get_attendance_ranges` returns. */
  function AttendanceRanges(activities: seq<TrackedActivity>): seq<AttendanceRange>
  {
    if activities == [] then [] else MergeFrom(RangeOf(activities[0]), activities[1..])
  }

  /** `get_attendance_ranges`: walk the activities keeping one pending range;
      extend it when the next activity continues it, otherwise emit it and
      open a new one; emit the last one at the end. */
  method GetAttendanceRanges(activities: seq<TrackedActivity>) returns (ranges: seq<AttendanceRange>)
    ensures ranges == AttendanceRanges(activities)
    ensures ValidCuts(activities, Cuts(activities)) && ranges == RunRanges(activities, Cuts(activities))
  {
    ranges := [];
    var lastRange: Option<AttendanceRange> := None;
    for i := 0 to |activities|
      invariant lastRange.None? <==> i == 0
      invariant lastRange.None? ==> ranges == []
      invariant lastRange.Some? ==> ranges + MergeFrom(lastRange.value, activities[i..]) == AttendanceRanges(activities)
    {
      var activity := activities[i];
      assert activities[i..][1..] == activities[i + 1..];
      assert activities[i..][0] == activity;
      var updated: Option<AttendanceRange> := None;
      if lastRange.Some? {
        var last := lastRange.value;
        if last.end == Some(activity.StartTime()) && activity.startEntry.attendanceType == last.attendanceType {
          updated := Some(last.(end := activity.end));
          assert MergeFrom(last, activities[i..]) == MergeFrom(updated.value, activities[i + 1..]);
        } else {
          assert MergeFrom(last, activities[i..]) == [last] + MergeFrom(RangeOf(activity), activities[i + 1..]);
          ranges := ranges + [last];
        }
      }
      lastRange := if updated.Some? then updated else Some(RangeOf(activity));
    }
    if lastRange.Some? {
      assert activities[|activities|..] == [];
      ranges := ranges + [lastRange.value];
    }
    AttendanceRangesRuns(activities);
  }

  /** Facts about the ranges from a pending range onwards: at least one, at
      most one more than the unread activities, the first starts where the
      pending one does, the last ends where the last activity ends, and no
      range is continued by the next one. */
  lemma {:induction false} MergeFromShape(pending: AttendanceRange, rest: seq<TrackedActivity>)
    ensures var rs := MergeFrom(pending, rest);
      && 1 <= |rs| <= |rest| + 1
      && rs[0].start == pending.start
      && rs[0].attendanceType == pending.attendanceType
      && rs[|rs| - 1].end == (if rest == [] then pending.end else rest[|rest| - 1].end)
      && (forall i :: 0 <= i < |rs| - 1 ==>
            !(rs[i].end == Some(rs[i + 1].start) && rs[i].attendanceType == rs[i + 1].attendanceType))
    decreases |rest|
  {
    if rest != [] {
      if Continues(pending, rest[0]) {
        MergeFromShape(pending.(end := rest[0].end), rest[1..]);
      } else {
        var tail := MergeFrom(RangeOf(rest[0]), rest[1..]);
        MergeFromShape(RangeOf(rest[0]), rest[1..]);
        var rs := MergeFrom(pending, rest);
        assert rs == [pending] + tail;
        forall i | 0 <= i < |rs| - 1
          ensures !(rs[i].end == Some(rs[i + 1].start) && rs[i].attendanceType == rs[i + 1].attendanceType)
        {
          if i > 0 {
            assert rs[i] == tail[i - 1] && rs[i + 1] == tail[i];
          }
        }
      }
    }
  }

  /** No input, no ranges; otherwise at most one range per activity, the
      first starting with the first activity and the last ending with the
      last activity; adjacent ranges can never be joined (differing
      attendance, or a gap, or an open end). */
  lemma AttendanceRangesShape(activities: seq<TrackedActivity>)
    ensures var rs := AttendanceRanges(activities);
      && (rs == [] <==> activities == [])
      && |rs| <= |activities|
      && (activities != [] ==>
            && rs[0].start == activities[0].StartTime()
            && rs[|rs| - 1].end == activities[|activities| - 1].end)
      && (forall i :: 0 <= i < |rs| - 1 ==>
            !(rs[i].end == Some(rs[i + 1].start) && rs[i].attendanceType == rs[i + 1].attendanceType))
  {
    if activities != [] {
      MergeFromShape(RangeOf(activities[0]), activities[1..]);
    }
  }

  /** Activities no two neighbours of which could be joined come out one
      range each. */
  lemma {:induction false} MergeFromNoJoins(pending: AttendanceRange, rest: seq<TrackedActivity>)
    requires rest != [] ==> !Continues(pending, rest[0])
    requires forall i :: 0 <= i < |rest| - 1 ==> !Continues(RangeOf(rest[i]), rest[i + 1])
    ensures MergeFrom(pending, rest) == [pending] + seq(|rest|, i requires 0 <= i < |rest| => RangeOf(rest[i]))
    decreases |rest|
  {
    if rest != [] {
      MergeFromNoJoins(RangeOf(rest[0]), rest[1..]);
    }
  }

  /** A range seen as an interval of its attendance type. */
  function AsActivity(r: AttendanceRange): TrackedActivity
  {
    TrackedActivity(ActivityStart(r.start, "", r.attendanceType, "", ""), r.end)
  }

  /** Merging is idempotent: merging the merged ranges again changes
      nothing. */
  lemma MergeIdempotent(activities: seq<TrackedActivity>)
    ensures var rs := AttendanceRanges(activities);
      AttendanceRanges(seq(|rs|, i requires 0 <= i < |rs| => AsActivity(rs[i]))) == rs
  {
    var rs := AttendanceRanges(activities);
    AttendanceRangesShape(activities);
    var again := seq(|rs|, i requires 0 <= i < |rs| => AsActivity(rs[i]));
    if rs != [] {
      assert forall i :: 0 <= i < |rs| ==> RangeOf(again[i]) == rs[i];
      MergeFromNoJoins(RangeOf(again[0]), again[1..]);
      assert [rs[0]] + seq(|again[1..]|, i requires 0 <= i < |again[1..]| => RangeOf(again[1..][i])) == rs;
    }
  }

  // Ranges as runs of activities

  /** The activities after index `k - 1` that do not continue their
      predecessor, in ascending order: the places where a range ends and
      the next one begins. */
  function BreaksFrom(activities: seq<TrackedActivity>, k: nat): seq<nat>
    requires 1 <= k <= |activities|
    decreases |activities| - k
  {
    if k == |activities| then []
    else (if Continues(RangeOf(activities[k - 1]), activities[k]) then [] else [k]) + BreaksFrom(activities, k + 1)
  }

  /** The breaks lie between `k` and the end, ascend, and are exactly the
      activities that do not continue their predecessor. */
  lemma {:induction false} BreaksFromFacts(activities: seq<TrackedActivity>, k: nat)
    requires 1 <= k <= |activities|
    ensures var r := BreaksFrom(activities, k);
      && (forall i :: 0 <= i < |r| ==> k <= r[i] < |activities|)
      && (forall i, j :: 0 <= i < j < |r| ==> r[i] < r[j])
      && (forall b :: k <= b < |activities| ==>
            (b in r <==> !Continues(RangeOf(activities[b - 1]), activities[b])))
    decreases |activities| - k
  {
    if k < |activities| {
      BreaksFromFacts(activities, k + 1);
      var r := BreaksFrom(activities, k);
      var later := BreaksFrom(activities, k + 1);
      if !Continues(RangeOf(activities[k - 1]), activities[k]) {
        assert r == [k] + later;
        forall i, j | 0 <= i < j < |r|
          ensures r[i] < r[j]
        {
          if i > 0 {
            assert r[i] == later[i - 1];
          }
          assert r[j] == later[j - 1];
        }
      } else {
        assert r == later;
      }
    }
  }

  /** Where the runs start, followed by the end of the input. */
  function Cuts(activities: seq<TrackedActivity>): seq<nat>
  {
    if activities == [] then [0] else [0] + BreaksFrom(activities, 1) + [|activities|]
  }

  /** Cut points in ascending order, each run non-empty and within the
      input. */
  predicate ValidCuts(activities: seq<TrackedActivity>, cuts: seq<nat>)
  {
    && (forall i :: 0 <= i < |cuts| ==> cuts[i] <= |activities|)
    && (forall i, j :: 0 <= i < j < |cuts| ==> cuts[i] < cuts[j])
  }

  /** The range covering `activities[lo..hi]`: from the first start to the
      last end, with the first activity's attendance type. */
  function RunRange(activities: seq<TrackedActivity>, lo: nat, hi: nat): AttendanceRange
    requires lo < hi <= |activities|
  {
    AttendanceRange(activities[lo].StartTime(), activities[hi - 1].end, activities[lo].startEntry.attendanceType)
  }

  /** One range per pair of neighbouring cuts. */
  function RunRanges(activities: seq<TrackedActivity>, cuts: seq<nat>): seq<AttendanceRange>
    requires ValidCuts(activities, cuts)
  {
    seq(if cuts == [] then 0 else |cuts| - 1,
        i requires 0 <= i < |cuts| - 1 => RunRange(activities, cuts[i], cuts[i + 1]))
  }

  /** A run start before index `j`, the breaks from `j` on and the end of
      the input are valid cuts. */
  lemma BreaksCuts(activities: seq<TrackedActivity>, s: nat, j: nat)
    requires s < j <= |activities|
    ensures ValidCuts(activities, [s] + BreaksFrom(activities, j) + [|activities|])
  {
    var b := BreaksFrom(activities, j);
    BreaksFromFacts(activities, j);
    var cuts := [s] + b + [|activities|];
    forall i, k | 0 <= i < k < |cuts|
      ensures cuts[i] < cuts[k]
    {
      if 0 < i && k < |cuts| - 1 {
        assert cuts[i] == b[i - 1] && cuts[k] == b[k - 1];
      } else if 0 < i {
        assert cuts[i] == b[i - 1];
      } else if k < |cuts| - 1 {
        assert cuts[k] == b[k - 1];
      }
    }
    forall i | 0 <= i < |cuts|
      ensures cuts[i] <= |activities|
    {
      if 0 < i < |cuts| - 1 {
        assert cuts[i] == b[i - 1];
      }
    }
  }

  /** The first run's range comes first. */
  lemma RunRangesCons(activities: seq<TrackedActivity>, s: nat, tail: seq<nat>)
    requires tail != [] && ValidCuts(activities, [s] + tail) && s < tail[0]
    ensures ValidCuts(activities, tail)
    ensures RunRanges(activities, [s] + tail) == [RunRange(activities, s, tail[0])] + RunRanges(activities, tail)
  {
    var cuts := [s] + tail;
    forall i, k | 0 <= i < k < |tail|
      ensures tail[i] < tail[k]
    {
      assert tail[i] == cuts[i + 1] && tail[k] == cuts[k + 1];
    }
    forall i | 0 <= i < |tail|
      ensures tail[i] <= |activities|
    {
      assert tail[i] == cuts[i + 1];
    }
    var rs := RunRanges(activities, cuts);
    var ts := RunRanges(activities, tail);
    forall i | 0 <= i < |rs|
      ensures rs[i] == ([RunRange(activities, s, tail[0])] + ts)[i]
    {
      if i > 0 {
        assert cuts[i] == tail[i - 1] && cuts[i + 1] == tail[i];
      }
    }
  }

  /** Merging from a pending range that covers `activities[s..j]` gives one
      range for that run extended up to the next break, then one range per
      later run. */
  lemma {:induction false} MergeFromRuns(activities: seq<TrackedActivity>, s: nat, j: nat, pending: AttendanceRange)
    requires s < j <= |activities|
    requires pending == RunRange(activities, s, j)
    requires activities[j - 1].startEntry.attendanceType == activities[s].startEntry.attendanceType
    ensures ValidCuts(activities, [s] + BreaksFrom(activities, j) + [|activities|])
    ensures MergeFrom(pending, activities[j..]) == RunRanges(activities, [s] + BreaksFrom(activities, j) + [|activities|])
    decreases |activities| - j
  {
    BreaksCuts(activities, s, j);
    if j == |activities| {
      LastRun(activities, s, pending);
    } else if Continues(RangeOf(activities[j - 1]), activities[j]) {
      MergeFromRuns(activities, s, j + 1, pending.(end := activities[j].end));
      JoinStep(activities, s, j, pending);
    } else {
      MergeFromRuns(activities, j, j + 1, RangeOf(activities[j]));
      BreakStep(activities, s, j, pending);
    }
  }

  /** With nothing left to read, the pending range is the last one. */
  lemma LastRun(activities: seq<TrackedActivity>, s: nat, pending: AttendanceRange)
    requires s < |activities|
    requires pending == RunRange(activities, s, |activities|)
    ensures MergeFrom(pending, activities[|activities|..]) == RunRanges(activities, [s] + BreaksFrom(activities, |activities|) + [|activities|])
  {
    var n := |activities|;
    assert activities[n..] == [];
    assert [s] + BreaksFrom(activities, n) + [n] == [s, n];
  }

  /** An activity that continues the pending range extends it and is no
      break. */
  lemma JoinStep(activities: seq<TrackedActivity>, s: nat, j: nat, pending: AttendanceRange)
    requires s < j < |activities|
    requires pending == RunRange(activities, s, j)
    requires activities[j - 1].startEntry.attendanceType == activities[s].startEntry.attendanceType
    requires Continues(RangeOf(activities[j - 1]), activities[j])
    requires ValidCuts(activities, [s] + BreaksFrom(activities, j) + [|activities|])
    requires ValidCuts(activities, [s] + BreaksFrom(activities, j + 1) + [|activities|])
    requires MergeFrom(pending.(end := activities[j].end), activities[j + 1..])
          == RunRanges(activities, [s] + BreaksFrom(activities, j + 1) + [|activities|])
    ensures MergeFrom(pending, activities[j..]) == RunRanges(activities, [s] + BreaksFrom(activities, j) + [|activities|])
  {
    var rest := activities[j..];
    assert rest[0] == activities[j] && rest[1..] == activities[j + 1..];
    assert BreaksFrom(activities, j) == BreaksFrom(activities, j + 1);
  }

  /** An activity that does not continue the pending range closes it and
      opens the next run. */
  lemma BreakStep(activities: seq<TrackedActivity>, s: nat, j: nat, pending: AttendanceRange)
    requires s < j < |activities|
    requires pending == RunRange(activities, s, j)
    requires activities[j - 1].startEntry.attendanceType == activities[s].startEntry.attendanceType
    requires !Continues(RangeOf(activities[j - 1]), activities[j])
    requires ValidCuts(activities, [s] + BreaksFrom(activities, j) + [|activities|])
    requires ValidCuts(activities, [j] + BreaksFrom(activities, j + 1) + [|activities|])
    requires MergeFrom(RangeOf(activities[j]), activities[j + 1..])
          == RunRanges(activities, [j] + BreaksFrom(activities, j + 1) + [|activities|])
    ensures MergeFrom(pending, activities[j..]) == RunRanges(activities, [s] + BreaksFrom(activities, j) + [|activities|])
  {
    var rest := activities[j..];
    assert rest[0] == activities[j] && rest[1..] == activities[j + 1..];
    var tail := [j] + BreaksFrom(activities, j + 1) + [|activities|];
    assert [s] + BreaksFrom(activities, j) + [|activities|] == [s] + tail;
    RunRangesCons(activities, s, tail);
  }

  /** `get_attendance_ranges` partitions the activities into runs: the
      cuts start at 0, end at the input's length and ascend; range `i`
      spans the activities from cut `i` up to cut `i + 1`, starting with
      the first one's start and attendance and ending with the last one's
      end; and an activity opens a new range exactly when it does not
      continue the one before it. So a range is extended only by an
      activity that starts where the range ends, with the same attendance
      type. */
  lemma AttendanceRangesRuns(activities: seq<TrackedActivity>)
    ensures var cuts := Cuts(activities);
      && ValidCuts(activities, cuts)
      && cuts[0] == 0 && cuts[|cuts| - 1] == |activities|
      && AttendanceRanges(activities) == RunRanges(activities, cuts)
      && (forall k :: 0 < k < |activities| ==>
            (k in cuts <==> !Continues(RangeOf(activities[k - 1]), activities[k])))
  {
    if activities != [] {
      MergeFromRuns(activities, 0, 1, RangeOf(activities[0]));
      BreaksFromFacts(activities, 1);
    }
  }
}

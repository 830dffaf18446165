# timetracker activity-log engine, in Dafny

A model of the core of `timetracker`, a command-line time tracker. The model
covers the activity log and the small parsers around it.

**The activity log.** The log is a text file with one tab-separated line per
entry. Each entry is one of two kinds:

- a *start*: a time stamp, then the activity name, the attendance type, the
  WBS (work breakdown structure element) and a description;
- an *end*: a time stamp and the marker name `__END`.

A start lasts until the time stamp of the next entry. When the last entry
is a start, that activity is still running.

**What the model covers:**

- **Entry codec.** The line parser, its error order, and the line
  formatter.
- **Midnight splitter.** The `SplitActivity` iterator, a class whose
  `Next` takes and reassigns its current start. It cuts an interval into one
  piece per local day. Consecutive pieces are 1 ns apart.
- **Reconstructing intervals from the log read backwards.**
  - `get_last_n_activities` (the newest `count` pieces);
  - `get_backwards_entries_since`;
  - `get_activities_since`.
- **Starting and ending activities.** How the attendance type and the
  description of a new start are chosen, and the sanitizing of
  descriptions.
- **Daily aggregation.** `collapse_activities` groups pieces by WBS,
  attendance type, description and local date. It sums their durations and
  sorts the groups by first start. The older `group_activities`
  aggregates over a time window.
- **Attendance ranges.** Adjacent intervals with the same attendance type
  are merged.
- **Report template variables.** Both the current variables and the older
  ones.
- **Range and quantity options of the listing commands.** For example `3`,
  `2d`, `1week` or `M`. `InLast::back_from` turns a range into the
  earliest instant it covers.
- **Report templates.** The `$name`, `${name}` and `$$` syntax, the parser,
  and evaluation against a variable map.
- **The configured activity hierarchy.**
  - Activity lines, `full_path` and the display form.
  - Building the category tree, listing it in order, and looking up a path.
- **The `show` command.**
  - Dispatch between the current-entry view and the range view.
  - The range view's messages.
  - The total-time delta.
  - `format_time_delta`.

**How time is represented.** A time stamp is an integer number of
nanoseconds of local wall-clock time under a fixed UTC offset. The local
date of `t` is `t / NS_PER_DAY`, and midnight is a multiple of
`NS_PER_DAY`. The Gregorian calendar is computed from day numbers in
`Time`, so month arithmetic is modelled exactly. Wherever the program reads
the clock, "now" is a parameter.

**Modules.** Each module follows one source file:

| module | file |
|---|---|
| `ActivityEntries` | `src/activity_entry.rs` |
| `ActivityGroupings` | `src/activity_entry/activity_groupings.rs` |
| `EntryCommands` | `src/entry_commands.rs` |
| `Generate` | `src/entry_commands/generate.rs` |
| `LegacyActivity` | `src/activity.rs` |
| `LegacyGenerate` | `src/generate.rs` |
| `ActivityRange` | `src/activity_range.rs` |
| `ActivityQuantity` | `src/opt/activity_quantity.rs` |
| `FormatStrings` | `src/format_string.rs` |
| `Trackable` | `src/trackable.rs` |
| `Show` | `src/entry_commands/show.rs` |

`Time`, `Text`, `Seqs` and `Wrappers` hold shared helpers: the calendar,
splitting and joining on a character, decimal digits, ASCII lower-casing,
string order, and sequence reversal and flattening.

**Three copies of `collapse_activities`.** It appears three times in the
source, in `src/activity_entry/activity_groupings.rs`,
`src/entry_commands/generate.rs` and `src/generate.rs`. The three copies
are identical, so it is modelled once, as
`ActivityGroupings.CollapseActivities`. The same holds for the grouping key.

**The entry codec of `src/activity.rs`.** It is the same as the one in
`src/activity_entry.rs` and is modelled once, by `ActivityEntries.Parse`
and `ActivityEntries.Format`.

## Model

| member | source | states |
|---|---|---|
| `ActivityEntries.ActivityStart.WithTimestamp` | src/activity_entry.rs:250-258 | the copy starts at the new time and agrees with the original in name, attendance, description and WBS |
| `ActivityEntries.ActivityEntry.WithTimestamp` | src/activity_entry.rs:151-156 | the copy has the new time stamp, is the same kind of entry, and a start keeps every other field |
| `ActivityEntries.ActivityEntry.AttendanceType` | src/activity_entry.rs:163-168 | present exactly for a start, and then it is the start's attendance type |
| `ActivityEntries.Parse` | src/activity_entry.rs:170-193 | the line parser, whose meaning `ParseFormat`, `ParseErrorOrder`, `ParseEndIgnoresRest`, `ParseFourFields` and `ParseExtraFields` state: it reads back every formatted well-formed entry, reports errors in the order name, time stamp, attendance, WBS, ignores everything after `__END`, defaults a missing description to empty, and ignores fields after the fifth |
| `ActivityEntries.Format` | src/activity_entry.rs:194-213 | the fields time stamp, name, attendance, WBS and description joined by tabs, or the time stamp and `__END`; `ParseFormat` states that `Parse` inverts it |
| `ActivityEntries.ParseFormat` | src/activity_entry.rs:170-213 | parsing the written line of an entry gives the entry back, for every end and for every start whose name is not `__END` and whose fields hold no tab |
| `ActivityEntries.ParseEndIgnoresRest` | src/activity_entry.rs:173-180 | a line whose second field is `__END` is an end at the first field's time, whatever fields follow |
| `ActivityEntries.ParseFourFields` | src/activity_entry.rs:182-192 | a start line with only four fields parses with an empty description |
| `ActivityEntries.ParseExtraFields` | src/activity_entry.rs:182-192 | a start line with more than five fields takes the fifth as the description and ignores the rest |
| `ActivityEntries.ParseErrorOrder` | src/activity_entry.rs:172-184 | a line without a tab lacks the name; with a tab, an unreadable time stamp is reported whatever follows; then a two-field non-`__END` line lacks the attendance and a three-field one the WBS; a missing time stamp is never reported |
| `ActivityEntries.MidnightPieces` | src/activity_entry.rs:105-123 | the pieces the splitter yields; `MidnightPiecesCount`, `MidnightPiecesEnds`, `MidnightPiecesDays`, `MidnightPiecesGaps` and `MidnightPiecesDuration` state their number, outer boundaries, one day each, the 1 ns gaps and their total duration |
| `ActivityEntries.MidnightPiecesCount` | src/activity_entry.rs:105-123 | splitting yields one piece per local date from the start's date to the date of the end (or of the fallback), and exactly one piece when the end is not on a later date |
| `ActivityEntries.MidnightPiecesEnds` | src/activity_entry.rs:106-121 | the first piece starts with the activity's own start; the last piece keeps the original end, so an open end stays open |
| `ActivityEntries.MidnightPiecesDays` | src/activity_entry.rs:108-119 | piece `i` carries the same activity fields, starts on the `i`-th day after the start's date, and starts at midnight when `i > 0` |
| `ActivityEntries.MidnightPiecesGaps` | src/activity_entry.rs:109-119 | every piece but the last ends 1 ns before the next piece starts, on the same day it started |
| `ActivityEntries.MidnightPiecesDuration` | src/activity_entry.rs:105-123 | the pieces' durations sum to the whole interval less 1 ns per cut |
| `ActivityEntries.SplitActivity.constructor` | src/activity_entry.rs:57-63 | a fresh iterator holds the activity's start, end and fallback, and the pieces still to come are exactly the midnight pieces |
| `ActivityEntries.SplitActivity.Next` | src/activity_entry.rs:105-123 | each call yields the first remaining piece and drops it from what remains; once nothing remains it yields nothing, on every later call too |
| `ActivityEntries.SplitOnMidnight` | src/activity_entry.rs:57-63 | draining a fresh iterator collects exactly the midnight pieces, in order |
| `ActivityGroupings.GroupsKeys` | src/activity_entry/activity_groupings.rs:55-72 | there is a group for exactly the keys of the pieces: every piece lands in a group and every group comes from a piece |
| `ActivityGroupings.GroupsDuration` | src/activity_entry/activity_groupings.rs:63-71 | a group's duration is the sum of `(end or now) - start` over the pieces with its key, and it carries the key's WBS, attendance and description |
| `ActivityGroupings.GroupsAbsent` | src/activity_entry/activity_groupings.rs:60-72 | a key with no group has no pieces, so it sums to nothing |
| `ActivityGroupings.GroupsStartOfFirst` | src/activity_entry/activity_groupings.rs:63-69 | a group's `start_of_first` is the start of the first piece with its key, and its local date is the key's date |
| `ActivityGroupings.GroupsNotYet` | src/activity_entry/activity_groupings.rs:60-72 | a key none of the pieces has gets no group |
| `ActivityGroupings.KeyOf` | src/activity_entry/activity_groupings.rs:86-94 | the group key of a piece: WBS, attendance, description and the local date of its start; `GroupsKeys` and `GroupsStartOfFirst` state that every piece lands in its key's group and that the group is dated by its first start |
| `ActivityGroupings.Groups` | src/activity_entry/activity_groupings.rs:55-72 | the grouping map after inserting the pieces in order; `GroupsKeys`, `GroupsDuration`, `GroupsAbsent` and `GroupsStartOfFirst` state its keys, each group's summed duration and its first start |
| `ActivityGroupings.SortByStartOfFirst` | src/activity_entry/activity_groupings.rs:74-76 | the output lists every group exactly once and is sorted non-decreasingly by `start_of_first` |
| `ActivityGroupings.CollapseActivities` | src/activity_entry/activity_groupings.rs:50-77 | one output element per distinct key of the midnight-split pieces, each equal to that key's group (sum and first start), sorted by `start_of_first` |
| `ActivityGroupings.GetAttendanceRanges` | src/activity_entry/activity_groupings.rs:125-150 | the loop's result equals the merge specification `AttendanceRanges`, and is one range per run between the cuts `Cuts`: from the run's first start to its last end, with the first activity's attendance |
| `ActivityGroupings.MergeFromShape` | src/activity_entry/activity_groupings.rs:129-148 | from a pending range: at least one and at most one more range than activities; the first keeps the pending start and attendance, the last ends where the last activity ends, and no range is followed by one it could be joined with |
| `ActivityGroupings.AttendanceRangesShape` | src/activity_entry/activity_groupings.rs:125-150 | no input gives no ranges; otherwise there are at most as many ranges as activities, the first starts with the first activity, the last ends with the last activity, and no two neighbours could be joined |
| `ActivityGroupings.MergeFromNoJoins` | src/activity_entry/activity_groupings.rs:137-146 | when no neighbours continue each other (different attendance, a gap, or an open end) every activity becomes its own range |
| `ActivityGroupings.MergeIdempotent` | src/activity_entry/activity_groupings.rs:125-150 | merging the merged ranges again changes nothing |
| `ActivityGroupings.BreaksFromFacts` | src/activity_entry/activity_groupings.rs:129-141 | the break points ascend, lie within the input, and are exactly the activities that do not start where their predecessor ends with the same attendance type |
| `ActivityGroupings.BreaksCuts` | src/activity_entry/activity_groupings.rs:125-150 | a run start, the later breaks and the input's end ascend within the input |
| `ActivityGroupings.RunRangesCons` | src/activity_entry/activity_groupings.rs:125-150 | the first run's range comes before those of the later runs |
| `ActivityGroupings.LastRun` | src/activity_entry/activity_groupings.rs:148 | with nothing left to read, the pending range is the last run's range |
| `ActivityGroupings.JoinStep` | src/activity_entry/activity_groupings.rs:129-136 | an activity continuing the pending range extends it to its own end and starts no new run |
| `ActivityGroupings.BreakStep` | src/activity_entry/activity_groupings.rs:137-146 | an activity not continuing the pending range closes it and opens a new run with its own start, end and attendance |
| `ActivityGroupings.MergeFromRuns` | src/activity_entry/activity_groupings.rs:125-150 | from a pending range covering a run, the merge yields that run extended to the next break, then one range per later run |
| `ActivityGroupings.AttendanceRangesRuns` | src/activity_entry/activity_groupings.rs:125-150 | the cuts start at 0, end at the input's length and ascend; range `i` spans the activities between cuts `i` and `i + 1`; an activity opens a new range exactly when it does not start where the previous one ends with the same attendance type, so a range is extended only by an activity that continues it |
| `ActivityGroupings.MergeFrom` | src/activity_entry/activity_groupings.rs:129-148 | the ranges still to come from a pending range and the unread activities; `MergeFromShape` and `MergeFromNoJoins` state their count, boundaries and that no two neighbours could be joined, and `MergeFromRuns` that each range is one run of continuing activities |
| `ActivityGroupings.AttendanceRanges` | src/activity_entry/activity_groupings.rs:125-150 | the ranges `get_attendance_ranges` returns; `AttendanceRangesShape` and `MergeIdempotent` state their shape and that merging again changes nothing, `AttendanceRangesRuns` that they partition the activities into runs broken exactly where an activity does not continue its predecessor, and `GetAttendanceRanges` proves the loop computes it |
| `EntryCommands.ReplaceChar` | src/entry_commands.rs:89-91 | every character of the result is an original character other than the replaced one, or comes from the replacement; text without that character is unchanged |
| `EntryCommands.ReplaceCharAppend` | src/entry_commands.rs:89-91 | replacing in a concatenation is replacing in each part |
| `EntryCommands.SanitizeDescription` | src/entry_commands.rs:89-91 | the result holds no tab and no newline |
| `EntryCommands.SanitizeSinglePass` | src/entry_commands.rs:89-91 | the two passes act as one pass mapping tab to four spaces and newline to ` -- `; text without either is left as it is, so sanitizing is idempotent |
| `EntryCommands.LastEntry` | src/entry_commands.rs:157-167 | nothing exactly for an empty log, otherwise the newest entry |
| `EntryCommands.ChooseAttendance` | src/entry_commands.rs:38-44 | the explicit attendance, else the last start's, else the default; `StartActivity` states the choice and its validation against the configured types |
| `EntryCommands.ChooseDescription` | src/entry_commands.rs:50-55 | the explicit description, else the activity's default, sanitized, else empty; `StartActivity` and `SanitizeDescription` state that the written description has no tab or newline |
| `EntryCommands.StartActivity` | src/entry_commands.rs:32-58 | the attendance is the explicit one, else the last start's, else the default; it succeeds exactly when that attendance is configured, otherwise the error names it; the new start has time `now` and a sanitized description |
| `EntryCommands.EndActivity` | src/entry_commands.rs:93-118 | succeeds with an end at `now` exactly when the last entry is a start, otherwise fails with "not tracking" |
| `EntryCommands.StartThenEnd` | src/entry_commands.rs:32-118 | after a start is written an end is accepted; after that end another end is refused |
| `EntryCommands.StartEntryRoundTrip` | src/entry_commands.rs:50-58 | the line written for a new start whose name, attendance and WBS hold no tab parses back as the same entry |
| `EntryCommands.PiecesAt` | src/entry_commands.rs:185-196 | an end yields no pieces; a start yields pieces beginning with that start and ending at the next entry's time stamp, or open for the newest entry |
| `EntryCommands.ActivitiesFromStep` | src/entry_commands.rs:181-196 | the pieces from entry `j` on are entry `j`'s pieces followed by those of the later entries |
| `EntryCommands.ActivitiesFromSuffix` | src/entry_commands.rs:181-196 | reading further back only adds older pieces in front |
| `EntryCommands.GetLastNActivities` | src/entry_commands.rs:171-200 | the result is the newest `min(count, all)` pieces of the whole log, in log order; when the log's time stamps never decrease they are in chronological order (`Chronological`) |
| `EntryCommands.PiecesAtOpen` | src/entry_commands.rs:185-196 | within one entry's pieces only the last can be open, and only for the newest entry |
| `EntryCommands.OngoingOnlyLast` | src/entry_commands.rs:180-196 | only the newest piece can be ongoing, and the newest piece is ongoing exactly when the log's last entry is a start |
| `EntryCommands.ActivitiesFrom` | src/entry_commands.rs:181-196 | all pieces from entry `j` on, in log order; `ActivitiesFromStep`, `ActivitiesFromSuffix`, `PiecesAtOpen` and `OngoingOnlyLast` state how reading one more entry back prepends its pieces and that only the newest piece can be open |
| `EntryCommands.WindowStartIn` | src/entry_commands.rs:236-243 | the scan stops at the newest entry at or before `start_time`; every entry after it is later than `start_time` |
| `EntryCommands.WindowStartSkip` | src/entry_commands.rs:236-243 | entries later than `start_time` do not move where the scan stops |
| `EntryCommands.WindowStart` | src/entry_commands.rs:234-244 | the index where the backward scan stops; `WindowStartIn` and `WindowStartSkip` state that it is the newest entry at or before `start_time`, or the oldest entry when there is none |
| `EntryCommands.GetBackwardsEntriesSince` | src/entry_commands.rs:229-245 | the entries from the newest back to, and including, the newest one at or before `start_time` (or back to the oldest), newest first |
| `EntryCommands.EndedSince` | src/entry_commands.rs:212 | keeps exactly the pieces that are open or end at or after `start_time`, each no more often than it occurs, and keeps every piece when all of them pass |
| `EntryCommands.CompletedStep` | src/entry_commands.rs:207-219 | each entry closes the pending start, if any, at its own time stamp; an end leaves nothing pending |
| `EntryCommands.ReplayWindow` | src/entry_commands.rs:204-224 | the loop's result equals the specification `ActivitiesSince` of the chronological window |
| `EntryCommands.GetActivitiesSince` | src/entry_commands.rs:204-224 | the result is `ActivitiesSince` of the window that reaches back to the newest entry at or before `start_time`; when the log's time stamps never decrease it is in chronological order |
| `EntryCommands.CompletedEnded` | src/entry_commands.rs:208-214 | every completed piece kept has an end, at or after `start_time` |
| `EntryCommands.ActivitiesSinceShape` | src/entry_commands.rs:204-224 | every kept piece ends at or after `start_time` except one ongoing activity; it is the last, is present exactly when the window's last entry is a start, and is that start unsplit |
| `EntryCommands.ActivitiesSince` | src/entry_commands.rs:204-224 | the replay of a window; `ActivitiesSinceShape`, `CompletedEnded` and `EndedSince` state that completed pieces end at or after `start_time` and that one trailing ongoing start is kept exactly when the window ends with a start, and `ReplayWindow` proves the loop computes it |
| `EntryCommands.StampsAscendingFrom` | src/entry_commands.rs:204-207 | the window read back from an ordered log is ordered |
| `EntryCommands.ActivitiesFromChronological` | src/entry_commands.rs:169-200 | in a log whose time stamps never decrease, the pieces from entry `j` on are chronological and start no earlier than entry `j` |
| `EntryCommands.StartPiecesChronological` | src/entry_commands.rs:185-195 | a start's pieces, which end at the next entry's time stamp, all end before the later entries' pieces start |
| `EntryCommands.LatestChronological` | src/entry_commands.rs:169-200 | the newest pieces of an ordered log, the ones `get_last_n_activities` returns, are chronological |
| `EntryCommands.TailDone` | src/entry_commands.rs:176-199 | when the scan stops, the reversed newest-first list is the newest `min(count, all)` pieces in log order, and chronological for an ordered log |
| `EntryCommands.EndedSinceChronological` | src/entry_commands.rs:212 | filtering chronological pieces keeps them chronological |
| `EntryCommands.CompletedChronological` | src/entry_commands.rs:207-219 | the completed pieces of an ordered window are chronological and all end by the time stamp of the last entry read |
| `EntryCommands.ActivitiesSinceChronological` | src/entry_commands.rs:202-224 | for an ordered window, the result of `get_activities_since` is chronological: completed pieces, then the ongoing start, which begins at the last entry |
| `ActivityEntries.ChronologicalStarts` | src/activity_entry.rs:105-123 | in chronological pieces the starts never decrease |
| `ActivityEntries.ChronologicalAppend` | src/activity_entry.rs:105-123 | two chronological runs, the first ending before the second starts, join into a chronological run |
| `ActivityEntries.ChronologicalSlice` | src/activity_entry.rs:105-123 | a prefix or suffix of chronological pieces is chronological |
| `ActivityEntries.ChronologicalSuffix` | src/activity_entry.rs:105-123 | the pieces from any index on of chronological pieces are chronological |
| `ActivityEntries.ChronologicalPrefix` | src/activity_entry.rs:105-123 | the pieces before any index of chronological pieces are chronological |
| `ActivityEntries.MidnightPiecesPrepend` | src/activity_entry.rs:105-123 | the piece up to the next midnight, put before chronological pieces that start at or after that midnight and end no later than the activity, gives chronological pieces starting no earlier than the activity and ending no later than it |
| `ActivityEntries.ChronologicalHead` | src/activity_entry.rs:105-123 | the first of chronological pieces ends before any later piece starts |
| `ActivityEntries.MidnightPiecesChronological` | src/activity_entry.rs:105-123 | the pieces of an activity that does not end before it starts are chronological and start no earlier than it; with an end, every piece is completed and ends no later than it |
| `Generate.LocalDate` | src/entry_commands/generate.rs:163-165 | the civil date of an instant is a valid date whose day number is the instant's local date |
| `Generate.VarsPerGeneratedFile` | src/entry_commands/generate.rs:154-167 | the five configuration fields unchanged, plus `year`, `month` and `day`; month and day have two digits, and the three read back as the file's date |
| `Generate.VarsPerCollapsedActivity` | src/entry_commands/generate.rs:169-186 | `attendance_type`, `description` and `wbs` are copied unchanged, and `month` and `day` have two digits |
| `Generate.ParsePadTwo` | src/entry_commands/generate.rs:164-165 | a zero-padded number reads back as that number |
| `Generate.ReadDateVars` | src/entry_commands/generate.rs:163-165 | the date variables read back as the date they were made from |
| `Generate.CollapsedActivityDate` | src/entry_commands/generate.rs:174-176 | a group's date variables read back as a valid date on the local day its first piece started |
| `LegacyActivity.SkipBefore` | src/activity.rs:232-234 | drops exactly the leading entries earlier than `from`: the rest is a suffix whose first entry is not earlier |
| `LegacyActivity.TakeBefore` | src/activity.rs:235 | keeps exactly the leading entries earlier than `to`: the entry after them, if any, is not earlier |
| `LegacyActivity.WindowIsRun` | src/activity.rs:232-236 | the window is one contiguous run of the log: everything before it is earlier than `from`, its first entry is not, all of it is earlier than `to`, and the entry after it is not |
| `LegacyActivity.Window` | src/activity.rs:232-236 | the entries `group_activities` looks at; `SkipBefore`, `TakeBefore` and `WindowIsRun` state that it is the run after the leading entries before `from`, up to the first entry at or after `to` |
| `LegacyActivity.Pairs` | src/activity.rs:237-255 | the intervals the window closes; `PairsFromStarts` states that each start with a successor runs up to it, and that ends and the last start yield nothing |
| `LegacyActivity.PairsFromStarts` | src/activity.rs:237-255 | the intervals charged are exactly the starts with a following entry in the window, each ending at that entry; ends and the window's last start charge nothing |
| `LegacyActivity.GroupActivities` | src/activity.rs:225-260 | one output element per distinct key of the window's intervals, each equal to that key's group, sorted by `start_of_first` |
| `LegacyGenerate.VarsFromConfig` | src/generate.rs:67-75 | exactly five keys, each mapped to its configuration field |
| `LegacyGenerate.VarsFromCollapsedActivity` | src/generate.rs:77-94 | the program's variables, with `attendance_type`, `description` and `wbs` copied unchanged |
| `LegacyGenerate.AsWrittenDayIsYear` | src/generate.rs:82-84 | as written, the date read back from the variables is year, month, year |
| `LegacyGenerate.AsWrittenEpochDay` | src/generate.rs:84 | a group first started on 1970-01-01 gets `day` = `1970`, and its variables do not read back as its date |
| `LegacyGenerate.VarsFromCollapsedActivityCorrected` | src/generate.rs:77-94 | with `day` as the day of the month, the variables read back as the local date of the group's first start |
| `ActivityRange.LeadingDigits` | src/activity_range.rs:74-78 | the longest prefix of ASCII digits |
| `ActivityRange.LeadingDigitsOf` | src/activity_range.rs:74-78 | digits followed by a non-digit split exactly there |
| `ActivityRange.ParseNumber` | src/activity_range.rs:74-78 | succeeds only on at least one leading digit with a value that fits an `i64`, and returns that value and the text after the digits |
| `ActivityRange.ParseNumberText` | src/activity_range.rs:74-78 | a written number that fits an `i64`, followed by a non-digit, reads back as that number and that rest |
| `ActivityRange.SplitNumber` | src/activity_range.rs:18-21 | the number fits an `i64` and the postfix is a suffix of the input; when nothing was consumed the number is 0 |
| `ActivityRange.SplitNumberNoDigits` | src/activity_range.rs:18-21 | without a leading digit the number is 0 and the postfix is the whole input |
| `ActivityRange.SplitNumberOverflow` | src/activity_range.rs:18-21 | a number too large for an `i64` is not taken: 0, and the whole input as postfix |
| `ActivityRange.UnitOf` | src/activity_range.rs:22-28 | a unit exactly for the accepted postfixes; the count unit exactly for the empty one, and hours, days, weeks or months exactly for `h`/`hour`/`hours`, `d`/`day`/`days`, `w`/`week`/`weeks` or `m`/`month`/`months` |
| `ActivityRange.UnitText` | src/activity_range.rs:22-28 | every unit has an accepted, lower-case postfix that does not start with a digit |
| `ActivityRange.LowerIdempotent` | src/activity_range.rs:22 | lower-casing twice is lower-casing once |
| `ActivityRange.LowerSuffix` | src/activity_range.rs:22 | lower-casing commutes with taking a suffix |
| `ActivityRange.LowerLeadingDigits` | src/activity_range.rs:22 | lower-casing does not change the leading digits |
| `ActivityRange.LowerSplitNumber` | src/activity_range.rs:18-22 | lower-casing the input keeps the number and lower-cases the postfix |
| `ActivityRange.ParseActivityRange` | src/activity_range.rs:15-31 | accepted exactly when the lower-cased postfix is one of the listed forms, otherwise the error names the postfix as written; the range carries the parsed number, is a count exactly when the postfix is empty, and is `Hours`, `Days`, `Weeks` or `Months` when the lower-cased postfix is a singular, plural or one-letter form of that unit |
| `ActivityRange.ParseRangeText` | src/activity_range.rs:15-31 | every range whose number fits an `i64` is read back from its shortest text |
| `ActivityRange.ParseIgnoresCase` | src/activity_range.rs:22 | the lower-cased input parses like the input |
| `ActivityRange.ParseWithoutNumber` | src/activity_range.rs:18-27 | an accepted postfix without a number counts 0 of its unit |
| `ActivityRange.ParseOverflow` | src/activity_range.rs:18-28 | a number beyond `i64::MAX` makes the whole input the postfix, which is rejected |
| `ActivityRange.DigitFirstNoPostfix` | src/activity_range.rs:22-28 | no accepted postfix starts with a digit |
| `ActivityRange.BackFrom` | src/activity_range.rs:41-71 | every result is on an hour boundary |
| `ActivityRange.BackFromHours` | src/activity_range.rs:43-47 | the start of the current hour, `h` hours back |
| `ActivityRange.BackFromDays` | src/activity_range.rs:48-50 | midnight, `d` days before today |
| `ActivityRange.BackFromWeeks` | src/activity_range.rs:51-55 | midnight of a Monday; this week's Monday, `w` weeks back |
| `ActivityRange.BackFromMonths` | src/activity_range.rs:56-68 | midnight of the first of a month, exactly `m` months before the current one, with the year borrowing or carrying |
| `ActivityRange.BackFromThisMonth` | src/activity_range.rs:56-68 | `Months(0)` is the first of the current month |
| `ActivityQuantity.ParseActivityQuantity` | src/opt/activity_quantity.rs:15-31 | accepted exactly when the lower-cased postfix is one of the listed forms, otherwise the error names the postfix as written; the count is the parsed number, it is `SingleActivities` exactly when the postfix is empty, and `Hours`, `Days`, `Weeks` or `Months` when the lower-cased postfix is a singular, plural or one-letter form of that unit |
| `ActivityQuantity.QuantityAgreesWithRange` | src/opt/activity_quantity.rs:15-31 | the quantity and the range read from the same text both succeed or both fail with the same error, and agree in number and unit |
| `ActivityQuantity.ParseQuantityText` | src/opt/activity_quantity.rs:15-31 | every quantity whose number fits an `i64` is read back from its shortest text |
| `ActivityQuantity.QuantityIgnoresCase` | src/opt/activity_quantity.rs:22 | the lower-cased input parses like the input |
| `ActivityQuantity.QuantityWithoutNumber` | src/opt/activity_quantity.rs:18-27 | an accepted postfix without a number counts 0 of its unit |
| `FormatStrings.FirstMissing` | src/format_string.rs:31-38 | the first variable part without a value: every variable before it has one |
| `FormatStrings.FirstMissingAt` | src/format_string.rs:31-38 | a valueless variable preceded only by variables with values is the one reported |
| `FormatStrings.Evaluation` | src/format_string.rs:23-43 | succeeds exactly when every variable has a value; otherwise it names a variable that has none, and every variable before it has a value |
| `FormatStrings.Evaluate` | src/format_string.rs:23-43 | the buffer loop with its early return equals the specification `Evaluation` |
| `FormatStrings.RenderAppend` | src/format_string.rs:28-41 | rendering a concatenation is rendering each part |
| `FormatStrings.EvaluationAppend` | src/format_string.rs:23-43 | evaluating two templates one after the other is evaluating them joined; the first failure wins |
| `FormatStrings.EvaluationLiteralsOnly` | src/format_string.rs:28-30 | a template without variables evaluates, whatever the map holds, to the same text as with an empty map |
| `FormatStrings.RenderLiteralsOnly` | src/format_string.rs:28-30 | the literals of such a template render the same under any map |
| `FormatStrings.Render` | src/format_string.rs:28-41 | the parts' texts one after the other; `RenderAppend` and `RenderLiteralsOnly` state that it distributes over concatenation and ignores the map for literals, and `Evaluation` uses it for the success case |
| `FormatStrings.NameRun` | src/format_string.rs:117-123 | the longest prefix of ASCII letters and `_` |
| `FormatStrings.NameRunOf` | src/format_string.rs:117-123 | name characters followed by a non-name character split exactly there |
| `FormatStrings.ParseVarname` | src/format_string.rs:117-123 | fails exactly when the text does not start with a name character, otherwise takes a maximal non-empty name |
| `FormatStrings.ParseVarnameOf` | src/format_string.rs:117-123 | a name followed by a non-name character is read as exactly that name |
| `FormatStrings.ParseBraced` | src/format_string.rs:110 | on success the text is `${`, a name, `}` and the rest |
| `FormatStrings.ParseBare` | src/format_string.rs:111 | on success the text is `$`, a maximal name and the rest; it fails exactly when there is no `$` followed by a name character |
| `FormatStrings.ParsePartVariable` | src/format_string.rs:108-115 | a variable part is a name after a `$`, consumes input, and `$$` is never a variable |
| `FormatStrings.ParsePartLiteral` | src/format_string.rs:125-129 | a non-empty literal, which fails exactly at the end of input or at a `$` not followed by `$`, and after which no literal can follow |
| `FormatStrings.LiteralRunShape` | src/format_string.rs:125-129 | the literal run stops at the end of input or at a `$` that does not start `$$` |
| `FormatStrings.ParsePart` | src/format_string.rs:104-106 | a variable is tried first; the part fails only when neither alternative parses |
| `FormatStrings.ParseParts` | src/format_string.rs:99-102 | the remainder is a suffix of the input |
| `FormatStrings.ParsePartsStop` | src/format_string.rs:99-102 | parsing stops only where no part can start |
| `FormatStrings.ParsePartsStep` | src/format_string.rs:99-102 | one parsed part followed by the parts of the rest |
| `FormatStrings.Deserialize` | src/format_string.rs:56-65 | succeeds exactly when the whole input parses; the reported remainder starts with a `$` |
| `FormatStrings.DollarDigitRejected` | src/format_string.rs:60-63 | `$1` is rejected, failing at `$1` |
| `FormatStrings.BareVariable` | src/format_string.rs:111-123 | `$name` followed by a non-name character is read as that variable |
| `FormatStrings.LiteralRunEscape` | src/format_string.rs:125-129 | a literal with its `$` doubled reads back whole, up to a following `${` |
| `FormatStrings.LiteralRunDollar` | src/format_string.rs:126 | `$$` reads as one `$` |
| `FormatStrings.LiteralRunChar` | src/format_string.rs:126 | a non-`$` character is kept in the literal |
| `FormatStrings.ParseLiteralPart` | src/format_string.rs:125-129 | an escaped non-empty literal reads back as one literal part |
| `FormatStrings.ParseBracedVariable` | src/format_string.rs:108-115 | `${name}` reads back as that variable |
| `FormatStrings.ParseFirstPart` | src/format_string.rs:104-106 | the first part of a written canonical template is read back first, leaving the rest written |
| `FormatStrings.ParseSerialize` | src/format_string.rs:99-102 | a written canonical template parses back to its parts with nothing left |
| `FormatStrings.DeserializeSerialize` | src/format_string.rs:56-65 | deserializing a written canonical template gives it back |
| `FormatStrings.CanonicalCons` | src/format_string.rs:99-106 | a proper part before a canonical template, not a literal before a literal, keeps it canonical |
| `FormatStrings.ParsePartsCanonical` | src/format_string.rs:99-129 | what reading produces is canonical: non-empty literals, never two in a row, proper names |
| `FormatStrings.SerializeDeserialize` | src/format_string.rs:56-65 | every template that deserializes is canonical, and writing it back gives text that deserializes to it |
| `Trackable.FullPathIsJoin` | src/trackable.rs:46-49 | the full path is the segments and the name joined by `/` |
| `Trackable.DisplayFirstField` | src/trackable.rs:68-75 | the first tab field of the display form is the full path |
| `Trackable.FromLeafText` | src/trackable.rs:60-75 | a leaf lifted to an activity displays as the leaf does |
| `Trackable.ParseActivity` | src/trackable.rs:77-103 | `MissingWbs` exactly when there is no tab, never `MissingPath`; on success the name is non-empty and the name and path segments hold no `/`, and the description is never `Some("")` |
| `Trackable.ParseActivityContent` | src/trackable.rs:79-103 | with two or more tab fields, the parse fails, with `NoNameInPath`, exactly when the last `/` segment of the first field is empty; otherwise the path and name are the first field's segments, the WBS is the second field, and the description is the third field, absent when there is none or it is empty |
| `Trackable.ParseDisplay` | src/trackable.rs:68-103 | the display form of every activity it can carry reads back as that activity |
| `Trackable.ActivityTextFields` | src/trackable.rs:68-75 | the display form is the full path, the WBS and the description (empty when absent) joined by tabs |
| `Trackable.FullPathSegments` | src/trackable.rs:46-49 | splitting a writable activity's full path on `/` gives its path segments followed by its name |
| `Trackable.ParseActivityFields` | src/trackable.rs:79-103 | three tab fields whose first splits into a path and a non-empty name parse to that activity, with an empty third field read as no description |
| `Trackable.ParseActivityJoined` | src/trackable.rs:79-103 | any number of tab-free fields, two or more, parse to the activity named by the first, with the second as WBS and the third, if present and non-empty, as description |
| `Trackable.ParseActivityExtraFields` | src/trackable.rs:79-89 | fields after the third do not change the result |
| `Trackable.BuiltinIdleRoundTrip` | src/trackable.rs:35-44 | the idle activity's full path is `idle`, and its display form reads back as it |
| `Trackable.GroupsWeight` | src/trackable.rs:183-191 | each level down shortens the paths, so building terminates |
| `Trackable.SortActivities` | src/trackable.rs:176-187 | the loop's maps equal the specifications `GroupsOf` and `LeafsOf` |
| `Trackable.CategoryFrom` | src/trackable.rs:171-194 | the built tree equals the specification `CategoryOf` |
| `Trackable.LeafsOfSound` | src/trackable.rs:179-181 | each top-level leaf comes from an activity without a path and is stored under its own name |
| `Trackable.LeafsOfComplete` | src/trackable.rs:179-181 | every activity without a path has its name stored |
| `Trackable.LeafsOfLastWins` | src/trackable.rs:179-181 | of several leaves with the same name, the last one is kept |
| `Trackable.GroupsOfSound` | src/trackable.rs:183-186 | each grouped activity is an original activity one level down |
| `Trackable.GroupsOfComplete` | src/trackable.rs:183-186 | every activity with a path is grouped, one level down, under its first segment |
| `Trackable.CategoryOfWellKeyed` | src/trackable.rs:171-194 | in a built tree every leaf is stored under its own name, at every level |
| `Trackable.CategoryOfComplete` | src/trackable.rs:171-194 | every activity a tree is built from has its name stored along its path |
| `Trackable.CategoryOfSound` | src/trackable.rs:171-194 | every leaf reachable in a built tree is one of the activities it was built from |
| `Trackable.CategoryOf` | src/trackable.rs:171-194 | the category tree built from the activities; `CategoryFrom` proves the loops compute it, and `CategoryOfWellKeyed`, `CategoryOfComplete` and `CategoryOfSound` state that every input is reachable along its path and nothing else is |
| `Trackable.GetItemAt` | src/trackable.rs:148-169 | the walk's result equals the specification `ItemAt` |
| `Trackable.ItemAtFailed` | src/trackable.rs:153-166 | once a prefix fails, the whole path fails the same way |
| `Trackable.ItemAtErrors` | src/trackable.rs:154-166 | going through a leaf names the prefix that leads to it; a missing segment names the prefix before it and the segment |
| `Trackable.ItemAtBranchFirst` | src/trackable.rs:158-162 | a branch wins over a leaf of the same name |
| `Trackable.ItemAtUnder` | src/trackable.rs:153-167 | looking up below a branch is looking up in that branch |
| `Trackable.ItemAtPrefixCategory` | src/trackable.rs:153-167 | every proper prefix of a path that resolves leads to a category |
| `Trackable.LeafAtCons` | src/trackable.rs:153-167 | a leaf below the top sits under the branch of its first segment |
| `Trackable.BranchBlocksOrder` | src/trackable.rs:126-139 | branch activities come prefixed with their branch, branches in ascending name order |
| `Trackable.LeafBlockOrder` | src/trackable.rs:141-143 | leaves come without a path, in strictly ascending name order |
| `Trackable.ConcatInOrder` | src/trackable.rs:145 | branch activities followed by leaves are in listing order |
| `Trackable.ListedOrder` | src/trackable.rs:125-146 | the listing puts every branch activity before every leaf, branches ascending, leaves strictly ascending |
| `Trackable.ListedReachable` | src/trackable.rs:125-146 | every listed activity names a leaf reachable along its path |
| `Trackable.ReachableListed` | src/trackable.rs:125-146 | every reachable leaf is listed under its path |
| `Trackable.TopLeafListed` | src/trackable.rs:125-146 | a leaf at the top of a category is listed with the empty path |
| `Trackable.BranchLeafListed` | src/trackable.rs:125-146 | an activity listed under a branch is listed in the category with that branch's key put before its path |
| `Trackable.ListedFromActivities` | src/trackable.rs:125-194 | listing a built tree gives only original activities, at least one for every path and name of the input, in listing order |
| `Trackable.WellKeyedAt` | src/trackable.rs:148-169 | every category reachable in a well-keyed tree is well keyed |
| `Trackable.ItemAt` | src/trackable.rs:148-169 | the item a path names; `GetItemAt` proves the loop computes it, and `ItemAtErrors`, `ItemAtBranchFirst` and `ItemAtPrefixCategory` state the two errors, a branch shadowing a leaf, and that proper prefixes are categories |
| `Trackable.ToActivitiesSorted` | src/trackable.rs:125-146 | the listing: branch blocks first, then leaves; `ListedOrder`, `ListedReachable`, `ReachableListed` and `ListedFromActivities` state its order and that it lists exactly the reachable activities |
| `Show.TruncDiv` | src/entry_commands/show.rs:218-236 | division rounding toward zero: the remainder has the sign of the dividend and is smaller than the divisor |
| `Show.BreakdownOf` | src/entry_commands/show.rs:218-236 | hours are below 24, minutes and seconds below 60, and days·86400 + hours·3600 + minutes·60 + seconds is the whole seconds |
| `Show.NumSecondsSub` | src/entry_commands/show.rs:235-236 | taking whole seconds off a duration takes them off its whole seconds |
| `Show.ChainNonNegative` | src/entry_commands/show.rs:218-236 | on a non-negative duration the truncating steps compute the breakdown |
| `Show.ChainNegative` | src/entry_commands/show.rs:218-236 | on a negative duration they compute the negated breakdown of its magnitude |
| `Show.FormatTimeDelta` | src/entry_commands/show.rs:216-240 | a non-negative duration prints the `d`, `h` and `m` segments only when positive and always the `s` segment; a negative one prints only its negated seconds |
| `Show.FormatStepsNonNegative` | src/entry_commands/show.rs:218-237 | the printed segments of a non-negative duration are its text |
| `Show.FormatStepsNegative` | src/entry_commands/show.rs:218-237 | the printed segments of a negative duration are only its seconds |
| `Show.DeltaTextOf` | src/entry_commands/show.rs:216-240 | the text of a duration in terms of its breakdown |
| `Show.DeltaTextUnderMinute` | src/entry_commands/show.rs:216-239 | under a minute only the seconds show; zero prints `0s` |
| `Show.DeltaTextWholeDays` | src/entry_commands/show.rs:216-239 | a whole number of days prints as that many days and `0s` |
| `Show.DeltaText` | src/entry_commands/show.rs:216-240 | the text of a non-negative duration; `DeltaTextOf`, `DeltaTextUnderMinute` and `DeltaTextWholeDays` state that it shows days, hours and minutes only when positive, always shows seconds, and shows `0s` for zero |
| `Show.TotalTimeGaps` | src/entry_commands/show.rs:200-204 | the total time is the sum of the durations plus the gaps between them |
| `Show.TotalTimeOfPieces` | src/entry_commands/show.rs:200-204 | for midnight pieces the total time exceeds their summed durations by 1 ns per cut |
| `Show.TotalTime` | src/entry_commands/show.rs:200-204 | the first start to the last end (or now), zero when empty; `TotalTimeGaps` and `TotalTimeOfPieces` state that it is the summed durations plus the gaps, 1 ns per midnight cut |
| `Show.Dispatch` | src/entry_commands/show.rs:20-25 | `Count(0)` selects the current-entry view, every other range the range view with that range |
| `Show.CurrentOf` | src/entry_commands/show.rs:27-59 | no data exactly for an empty log, not tracking exactly after an end, otherwise the last start and how long since it started |
| `Show.ShowActivityRange` | src/entry_commands/show.rs:61-75 | a count lists the newest `n` pieces, a timeframe the activities since `back_from(now)`, reported through `StatusOf` |
| `Show.LastN` | src/entry_commands/show.rs:63 | the newest `min(n, all)` pieces of the log, in order |
| `Show.StatusOf` | src/entry_commands/show.rs:67-75 | a listing exactly when there are activities; "no data yet" exactly when also the log is empty; otherwise "nothing in the timeframe" |
| `Show.EmptyLogNoDataYet` | src/entry_commands/show.rs:61-75 | an empty log reports "no data yet" whatever the range |
| `Time.StartOfDay` | src/activity_entry.rs:109-113 | local midnight at or before the instant, on the same local date |
| `Time.NextMidnight` | src/activity_entry.rs:109-114 | the next midnight is later than the instant and at most a day on; it falls on the next date, and 1 ns before it is still the same date |
| `Time.ParseFormatTimestamp` | src/activity_entry.rs:177 | a written time stamp parses back to itself |
| `Time.DaysFromCivilFromDays` | src/activity_range.rs:57-62 | every day number is the day number of its civil date |
| `Time.CivilOfFirstOfMonth` | src/activity_range.rs:62 | the first of every month reads back as that month |
| `Text.Split` | src/trackable.rs:80 | at least one field; joining the fields gives the text back, and no field holds the separator |
| `Text.SplitJoin` | src/activity_entry.rs:173 | splitting undoes joining when no field holds the separator |
| `Text.ParseIntToString` | src/activity_entry.rs:177 | a written integer reads back as itself |
| `Text.PadTwo` | src/entry_commands/generate.rs:164-165 | at least two digits with the number's value, exactly two below 100 |
| `Text.Lower` | src/activity_range.rs:22 | each character lower-cased on its own, length kept |
| `Text.SortedStrings` | src/trackable.rs:137-142 | the set's strings, each once, in strictly ascending order |

## Left out

- File and process I/O is not modelled. This covers:
  - reading the log backwards and appending lines (`write_entry`, `get_last_entry`);
  - creating output files and avoiding name collisions in `handle_generate`;
  - launching `$EDITOR`.

  The log is a sequence of already-parsed entries, and reading it backwards is indexing from the end. A missing log file is the empty log.
- A line that fails to parse while the log is being read (`entry_from_byte_result`) is not modelled, nor is invalid UTF-8.
- `Local::now()` is a parameter.
- Time zones, daylight-saving transitions and `earliest()` are left out. Local time is one fixed offset, so every day is exactly `NS_PER_DAY` long.
- The RFC 3339 text of time stamps is replaced by the decimal nanosecond count, with the same round trip.
- Floating-point output is left out: the hours, minutes and seconds variables, `{:.2}` hours and `as_seconds_f64`.
- HashMap iteration order is left out. So is the order among groups with equal `start_of_first`, which `sort_unstable_by` leaves open. Only sortedness and content are stated.
- Terminal output is left out: printed messages, tables, colours, and the verbose lists of `start_activity` and `end_activity`. The `show` views are modelled as the data they report.
- The attendance view of `show` is a `todo!()` in the source and is not modelled.
- Command-line and configuration parsing are left out. Configuration values are parameters.
- `src/main.rs` and `src/activity_commands.rs` are not part of this model.
- Integer widths are not modelled. There are two exceptions:
  - the `i64` limit of the number parser, which is modelled;
  - `ShowActivityRange`, which requires a non-negative count, because the `as usize` cast of a negative count is not modelled. The parser never produces one.

  Overflow of `i64` nanosecond arithmetic and `TimeDelta` panics are left out.
- `ActivityRange.BackFromMonths`: the year is unbounded. The source truncates the year offset with `div_euclid(12) as i32`, and `from_ymd_opt(...).unwrap()` panics outside chrono's year range (for example `4000000m`). Neither is modelled.
- `Text.Lower`: only characters whose lower case is an ASCII letter are lowered. These are `A`-`Z` and the Kelvin sign. Other Unicode lower-casing cannot change whether a postfix is accepted, and the rejected postfix is reported as written.
- `FormatStrings.Deserialize`: a literal is built character by character rather than from `is_not("$")` runs. The joined text is the same.
- `Trackable.ListedOrder`: leaves are ordered by their map key rather than by `name()`. The two agree in every tree `ActivityCategory::from` builds, as `CategoryOfWellKeyed` states.
- `LegacyActivity.GroupActivities` does not split at midnight, and neither does the source's `group_activities`.
- `Show.FormatTimeDelta`: `num_minutes` and the other truncating steps are modelled as one truncating division of the nanosecond count each.
- Two behaviours of the source that the model keeps:
  - split pieces are 1 ns apart, so their durations sum to the interval less 1 ns per cut (`ActivityEntries.MidnightPiecesDuration`);
  - the time stamp is parsed right after the name field is found, before an `__END` line is recognised and before attendance and WBS are checked (`ActivityEntries.ParseErrorOrder`).

## Findings

| source | as written | input that shows it | evidently intended | confidence | as-written member | corrected member |
|---|---|---|---|---|---|---|
| src/generate.rs:84 (the same line is src/activity.rs:296) | the `day` variable is set to the year, and `month` is not zero-padded | a group first started at 1970-01-01 00:00 local time gets `day` = `1970` | `day` is the day of the month, as in `src/entry_commands/generate.rs:165` | not executed | `LegacyGenerate.AsWrittenEpochDay` | `LegacyGenerate.VarsFromCollapsedActivityCorrected` |

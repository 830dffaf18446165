/** Local wall-clock time under a fixed UTC offset, counted in nanoseconds,
    and the proleptic Gregorian calendar on top of it.  A local date is a day
    number: days since 1970-01-01 in local time. */
module Time {
  import opened Wrappers
  import Text

  type Timestamp = int

  const NS_PER_SECOND: int := 1_000_000_000
  const NS_PER_MINUTE: int := 60 * NS_PER_SECOND
  const NS_PER_HOUR: int := 60 * NS_PER_MINUTE
  const NS_PER_DAY: int := 24 * NS_PER_HOUR

  /** `date_naive()`: the local day a timestamp falls on. */
  function Date(t: Timestamp): int
  {
    t / NS_PER_DAY
  }

  /** `with_time(NaiveTime::MIN)`: local midnight at the start of `t`'s day. */
  function StartOfDay(t: Timestamp): (r: Timestamp)
    ensures r <= t < r + NS_PER_DAY
    ensures Date(r) == Date(t)
  {
    Date(t) * NS_PER_DAY
  }

  /** Midnight at the start of the day after `t`'s. */
  function NextMidnight(t: Timestamp): (r: Timestamp)
    ensures t < r <= t + NS_PER_DAY
    ensures Date(r) == Date(t) + 1
    ensures Date(r - 1) == Date(t)
  {
    StartOfDay(t) + NS_PER_DAY
  }

  /** The hour of the day, 0 to 23. */
  function Hour(t: Timestamp): (h: int)
    ensures 0 <= h < 24
  {
    (t - StartOfDay(t)) / NS_PER_HOUR
  }

  /** `weekday().num_days_from_monday()`: 1970-01-01 was a Thursday. */
  function WeekdayFromMonday(day: int): (w: int)
    ensures 0 <= w < 7
  {
    (day + 3) % 7
  }

  // ---------------------------------------------------------------------
  // Timestamps as text

  /** The text form of a timestamp in a log line. */
  function FormatTimestamp(t: Timestamp): (s: string)
    ensures |s| >= 1 && '\t' !in s
  {
    Text.IntToString(t)
  }

  function ParseTimestamp(s: string): Option<Timestamp>
  {
    Text.ParseInt(s)
  }

  lemma ParseFormatTimestamp(t: Timestamp)
    ensures ParseTimestamp(FormatTimestamp(t)) == Some(t)
  {
    Text.ParseIntToString(t);
  }

  // ---------------------------------------------------------------------
  // Civil calendar

  datatype CivilDate = CivilDate(year: int, month: int, day: int)

  /** Day number of the given civil date (month 1 to 12, day from 1). */
  function DaysFromCivil(year: int, month: int, day: int): int
    requires 1 <= month <= 12 && 1 <= day <= 31
  {
    var y := if month <= 2 then year - 1 else year;
    var era := y / 400;
    var yoe := y - era * 400;
    var mp := if month > 2 then month - 3 else month + 9;
    var doy := (153 * mp + 2) / 5 + day - 1;
    var doe := yoe * 365 + yoe / 4 - yoe / 100 + doy;
    era * 146097 + doe - 719468
  }

  /** A day number taken apart: the 400-year era (eras start on March 1 of a
      year divisible by 400), the century within the era, the four-year block
      within the century, the year within the block and the day within that
      March-based year. */
  datatype EraParts = EraParts(era: int, century: int, block: int, yob: int, doy: int)

  predicate ValidParts(p: EraParts)
  {
    0 <= p.century <= 3 && 0 <= p.block <= 24 && 0 <= p.yob <= 3 && 0 <= p.doy <= 365
  }

  /** The decomposition `SplitDays` produces: a block or century ends on its
      leap day only where the calendar has one. */
  predicate CanonicalParts(p: EraParts)
  {
    && ValidParts(p)
    && 365 * p.yob + p.doy <= 1460
    && (p.yob < 3 ==> p.doy < 365)
    && 1461 * p.block + 365 * p.yob + p.doy <= 36524
    && (p.century < 3 ==> 1461 * p.block + 365 * p.yob + p.doy < 36524)
  }

  /** Day number of the first day of the era, plus the days since. */
  function PartsValue(p: EraParts): int
  {
    p.era * 146097 + 36524 * p.century + 1461 * p.block + 365 * p.yob + p.doy - 719468
  }

  function SplitDays(z: int): (p: EraParts)
    ensures CanonicalParts(p) && PartsValue(p) == z
  {
    var z' := z + 719468;
    var era := z' / 146097;
    var doe := z' - era * 146097;
    var century := if doe / 36524 < 3 then doe / 36524 else 3;
    var inCentury := doe - century * 36524;
    var block := inCentury / 1461;
    var inBlock := inCentury - block * 1461;
    var yob := if inBlock / 365 < 3 then inBlock / 365 else 3;
    EraParts(era, century, block, yob, inBlock - yob * 365)
  }

  function CivilFromParts(p: EraParts): (c: CivilDate)
    requires ValidParts(p)
    ensures 1 <= c.month <= 12 && 1 <= c.day <= 31
  {
    var yoe := 100 * p.century + 4 * p.block + p.yob;
    var mp := (5 * p.doy + 2) / 153;
    var d := p.doy - (153 * mp + 2) / 5 + 1;
    var m := if mp < 10 then mp + 3 else mp - 9;
    CivilDate(if m <= 2 then yoe + p.era * 400 + 1 else yoe + p.era * 400, m, d)
  }

  /** Civil date of a day number. */
  function CivilFromDays(z: int): (c: CivilDate)
    ensures 1 <= c.month <= 12 && 1 <= c.day <= 31
  {
    CivilFromParts(SplitDays(z))
  }

  lemma DaysFromCivilFromParts(p: EraParts)
    requires ValidParts(p)
    ensures var c := CivilFromParts(p); DaysFromCivil(c.year, c.month, c.day) == PartsValue(p)
  {
    var yoe := 100 * p.century + 4 * p.block + p.yob;
    assert 0 <= yoe < 400;
    assert yoe / 4 == 25 * p.century + p.block;
    assert yoe / 100 == p.century;
    var mp := (5 * p.doy + 2) / 153;
    assert 0 <= mp <= 11;
    var c := CivilFromParts(p);
    var y := if c.month <= 2 then c.year - 1 else c.year;
    assert y == yoe + p.era * 400;
    assert y / 400 == p.era;
    assert (if c.month > 2 then c.month - 3 else c.month + 9) == mp;
  }

  /** Every day number is the day number of its civil date. */
  lemma DaysFromCivilFromDays(z: int)
    ensures var c := CivilFromDays(z); DaysFromCivil(c.year, c.month, c.day) == z
  {
    DaysFromCivilFromParts(SplitDays(z));
  }

  /** The first day of every month is read back as that month. */
  lemma {:induction false} CivilOfFirstOfMonth(year: int, month: int)
    requires 1 <= month <= 12
    ensures CivilFromDays(DaysFromCivil(year, month, 1)) == CivilDate(year, month, 1)
  {
    var y := if month <= 2 then year - 1 else year;
    var era := y / 400;
    var yoe := y - era * 400;
    var mp := if month > 2 then month - 3 else month + 9;
    var doy := (153 * mp + 2) / 5;
    assert 0 <= doy <= 337;
    var century := yoe / 100;
    var block := (yoe - 100 * century) / 4;
    var yob := yoe - 100 * century - 4 * block;
    assert yoe / 4 == 25 * century + block;
    var p := EraParts(era, century, block, yob, doy);
    assert PartsValue(p) == DaysFromCivil(year, month, 1);
    FirstOfMonthCivil(p, y, month);
    PartsUnique(p, SplitDays(PartsValue(p)));
  }

  /** The parts of the first day of a month spell that month back. */
  lemma {:induction false} FirstOfMonthCivil(p: EraParts, y: int, month: int)
    requires 1 <= month <= 12 && ValidParts(p)
    requires 100 * p.century + 4 * p.block + p.yob + 400 * p.era == y
    requires p.doy == (153 * (if month > 2 then month - 3 else month + 9) + 2) / 5
    ensures CivilFromParts(p) == CivilDate(if month <= 2 then y + 1 else y, month, 1)
  {
    var mp := if month > 2 then month - 3 else month + 9;
    assert (5 * p.doy + 2) / 153 == mp;
  }

  /** A day number has only one canonical decomposition. */
  lemma PartsUnique(p: EraParts, q: EraParts)
    requires CanonicalParts(p) && CanonicalParts(q) && PartsValue(p) == PartsValue(q)
    ensures p == q
  {
    var dp := 36524 * p.century + 1461 * p.block + 365 * p.yob + p.doy;
    var dq := 36524 * q.century + 1461 * q.block + 365 * q.yob + q.doy;
    assert 0 <= dp < 146097 && 0 <= dq < 146097;
    assert p.era == q.era;
    assert p.century == q.century;
    assert p.block == q.block;
  }
}

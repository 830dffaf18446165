/** How far back a listing reaches (`src/activity_range.rs`): a number of
    single activities, or a span of hours, days, weeks or months counted back
    from now. The text form is an optional leading decimal number followed by
    a case-insensitive unit postfix. */
module ActivityRange {
  import opened Wrappers
  import opened Time
  import opened Text

  /** `i64::MAX`: a longer number does not parse. */
  const I64_MAX: int := 0x7FFF_FFFF_FFFF_FFFF

  // ---------------------------------------------------------------------
  // The leading number

  /** `take_while1(is_ascii_digit)` without the "at least one": the
      longest prefix of ASCII digits. */
  function LeadingDigits(s: string): (d: string)
    ensures |d| <= |s| && d == s[..|d|] && AllDigits(d)
    ensures |d| < |s| ==> !IsDigit(s[|d|])
  {
    if s != [] && IsDigit(s[0]) then [s[0]] + LeadingDigits(s[1..]) else []
  }

  /** The digit run is determined by the text: digits followed by
      something that does not start with a digit are the whole run. */
  lemma {:induction false} LeadingDigitsOf(d: string, rest: string)
    requires AllDigits(d)
    requires rest == [] || !IsDigit(rest[0])
    ensures LeadingDigits(d + rest) == d
  {
    if d != [] {
      assert (d + rest)[1..] == d[1..] + rest;
      LeadingDigitsOf(d[1..], rest);
    } else {
      assert d + rest == rest;
    }
  }

  /** `parse_number`: the leading digits as an `i64` and the text after
      them; `None` when there are no digits or the value does not fit. */
  function ParseNumber(input: string): (r: Option<(int, string)>)
    ensures r.Some? ==> 0 <= r.value.0 <= I64_MAX
    ensures r.Some? ==> input == LeadingDigits(input) + r.value.1 && LeadingDigits(input) != []
  {
    var digits := LeadingDigits(input);
    if digits == [] || DigitsValue(digits) > I64_MAX then None
    else Some((DigitsValue(digits), input[|digits|..]))
  }

  /** A written number followed by a postfix that does not start with a
      digit reads back as that number and that postfix. */
  lemma ParseNumberText(n: nat, rest: string)
    requires n <= I64_MAX
    requires rest == [] || !IsDigit(rest[0])
    ensures ParseNumber(NatToString(n) + rest) == Some((n, rest))
  {
    LeadingDigitsOf(NatToString(n), rest);
    assert (NatToString(n) + rest)[|NatToString(n)|..] == rest;
  }

  /** `opt(parse_number)` then `unwrap_or_default`: the number, 0 when
      `parse_number` fails, and the postfix, which is then the whole input. */
  function SplitNumber(input: string): (r: (int, string))
    ensures 0 <= r.0 <= I64_MAX
    ensures |r.1| <= |input| && r.1 == input[|input| - |r.1|..]
    ensures r.1 == input ==> r.0 == 0
    ensures r.1 != [] && r.1 != input ==> !IsDigit(r.1[0])
  {
    match ParseNumber(input)
    case None => (0, input)
    case Some(p) =>
      assert input[|input| - |p.1|..] == p.1;
      assert p.1 != [] ==> p.1[0] == input[|LeadingDigits(input)|];
      p
  }

  /** With no leading digit the number is 0 and the postfix is everything. */
  lemma SplitNumberNoDigits(input: string)
    requires input == [] || !IsDigit(input[0])
    ensures SplitNumber(input) == (0, input)
  {
  }

  /** A number too large for an `i64` is not taken as a number: the whole
      input becomes the postfix. */
  lemma SplitNumberOverflow(input: string)
    requires DigitsValue(LeadingDigits(input)) > I64_MAX
    ensures SplitNumber(input) == (0, input)
  {
  }

  // ---------------------------------------------------------------------
  // The postfix

  /** The unit a postfix names; `Plain` is the empty postfix. */
  datatype Unit = Plain | PerHour | PerDay | PerWeek | PerMonth

  /** Every postfix accepted after lower-casing. */
  const POSTFIXES: set<string> :=
    {"", "h", "hour", "hours", "d", "day", "days", "w", "week", "weeks", "m", "month", "months"}

  /** The match on the lower-cased postfix. */
  function UnitOf(lowered: string): (u: Option<Unit>)
    ensures u.Some? <==> lowered in POSTFIXES
    ensures u == Some(Plain) <==> lowered == ""
    ensures u == Some(PerHour) <==> lowered in {"h", "hour", "hours"}
    ensures u == Some(PerDay) <==> lowered in {"d", "day", "days"}
    ensures u == Some(PerWeek) <==> lowered in {"w", "week", "weeks"}
    ensures u == Some(PerMonth) <==> lowered in {"m", "month", "months"}
  {
    if lowered == "" then Some(Plain)
    else if lowered in {"h", "hour", "hours"} then Some(PerHour)
    else if lowered in {"d", "day", "days"} then Some(PerDay)
    else if lowered in {"w", "week", "weeks"} then Some(PerWeek)
    else if lowered in {"m", "month", "months"} then Some(PerMonth)
    else None
  }

  /** The shortest postfix naming a unit. */
  function UnitText(u: Unit): (s: string)
    ensures UnitOf(s) == Some(u)
    ensures s == [] || !IsDigit(s[0])
    ensures Lower(s) == s
  {
    match u
    case Plain => ""
    case PerHour => "h"
    case PerDay => "d"
    case PerWeek => "w"
    case PerMonth => "m"
  }

  // ---------------------------------------------------------------------
  // Case

  lemma {:induction false} LowerIdempotent(s: string)
    ensures Lower(Lower(s)) == Lower(s)
  {
    if s != [] {
      LowerIdempotent(s[1..]);
    }
  }

  lemma LowerSuffix(s: string, k: nat)
    requires k <= |s|
    ensures Lower(s)[k..] == Lower(s[k..])
  {
  }

  /** Lower-casing keeps digits and makes nothing else a digit, so it does
      not move the end of the number. */
  lemma {:induction false} LowerLeadingDigits(s: string)
    ensures LeadingDigits(Lower(s)) == LeadingDigits(s)
  {
    if s != [] {
      assert Lower(s)[1..] == Lower(s[1..]);
      LowerLeadingDigits(s[1..]);
    }
  }

  /** Lower-casing the input moves the number and the postfix together:
      the number is the same and the postfix is lower-cased. */
  lemma LowerSplitNumber(input: string)
    ensures SplitNumber(Lower(input)) == (SplitNumber(input).0, Lower(SplitNumber(input).1))
  {
    LowerLeadingDigits(input);
    var d := LeadingDigits(input);
    LowerSuffix(input, |d|);
  }

  // ---------------------------------------------------------------------
  // Ranges

  datatype InLast = Hours(count: int) | Days(count: int) | Weeks(count: int) | Months(count: int)

  datatype ActivityRange = Count(count: int) | Timeframe(inLast: InLast)

  datatype RangeError = InvalidPostfix(postfix: string)

  function RangeOf(u: Unit, n: int): ActivityRange
  {
    match u
    case Plain => Count(n)
    case PerHour => Timeframe(Hours(n))
    case PerDay => Timeframe(Days(n))
    case PerWeek => Timeframe(Weeks(n))
    case PerMonth => Timeframe(Months(n))
  }

  /** The number a range carries. */
  function Amount(r: ActivityRange): int
  {
    match r
    case Count(n) => n
    case Timeframe(t) => t.count
  }

  /** `ActivityRange::from_str`. An error names the postfix as written. */
  function ParseActivityRange(input: string): (r: Result<ActivityRange, RangeError>)
    ensures r.Ok? <==> Lower(SplitNumber(input).1) in POSTFIXES
    ensures r.Err? ==> r.error == InvalidPostfix(SplitNumber(input).1)
    ensures r.Ok? ==> Amount(r.value) == SplitNumber(input).0 && 0 <= Amount(r.value) <= I64_MAX
    ensures r.Ok? ==> (r.value.Count? <==> SplitNumber(input).1 == [])
    ensures Lower(SplitNumber(input).1) in {"h", "hour", "hours"} ==> r == Ok(Timeframe(Hours(SplitNumber(input).0)))
    ensures Lower(SplitNumber(input).1) in {"d", "day", "days"} ==> r == Ok(Timeframe(Days(SplitNumber(input).0)))
    ensures Lower(SplitNumber(input).1) in {"w", "week", "weeks"} ==> r == Ok(Timeframe(Weeks(SplitNumber(input).0)))
    ensures Lower(SplitNumber(input).1) in {"m", "month", "months"} ==> r == Ok(Timeframe(Months(SplitNumber(input).0)))
  {
    var (number, postfix) := SplitNumber(input);
    match UnitOf(Lower(postfix))
    case None => Err(InvalidPostfix(postfix))
    case Some(u) => Ok(RangeOf(u, number))
  }

  /** Which unit a range counts in. */
  function UnitOfRange(r: ActivityRange): Unit
  {
    match r
    case Count(_) => Plain
    case Timeframe(Hours(_)) => PerHour
    case Timeframe(Days(_)) => PerDay
    case Timeframe(Weeks(_)) => PerWeek
    case Timeframe(Months(_)) => PerMonth
  }

  /** The shortest text of a range: its number, then its unit's letter. */
  function RangeText(r: ActivityRange): string
    requires 0 <= Amount(r)
  {
    NatToString(Amount(r)) + UnitText(UnitOfRange(r))
  }

  /** Every range whose number fits an `i64` is read back from its text. */
  lemma ParseRangeText(r: ActivityRange)
    requires 0 <= Amount(r) <= I64_MAX
    ensures ParseActivityRange(RangeText(r)) == Ok(r)
  {
    ParseNumberText(Amount(r), UnitText(UnitOfRange(r)));
  }

  /** Postfixes are matched regardless of case: the lower-cased input parses
      to the same range, and fails with the lower-cased postfix. */
  lemma ParseIgnoresCase(input: string)
    ensures ParseActivityRange(Lower(input)) ==
      match ParseActivityRange(input)
      case Ok(v) => Ok(v)
      case Err(InvalidPostfix(p)) => Err(InvalidPostfix(Lower(p)))
  {
    LowerSplitNumber(input);
    LowerIdempotent(SplitNumber(input).1);
  }

  /** A postfix with no number counts 0 of its unit. */
  lemma ParseWithoutNumber(postfix: string, u: Unit)
    requires postfix == [] || !IsDigit(postfix[0])
    requires UnitOf(Lower(postfix)) == Some(u)
    ensures ParseActivityRange(postfix) == Ok(RangeOf(u, 0))
  {
    SplitNumberNoDigits(postfix);
  }

  /** A number beyond `i64::MAX` is an invalid postfix, whatever follows. */
  lemma ParseOverflow(input: string)
    requires DigitsValue(LeadingDigits(input)) > I64_MAX
    ensures ParseActivityRange(input) == Err(InvalidPostfix(input))
  {
    SplitNumberOverflow(input);
    assert IsDigit(input[0]);
    assert Lower(input)[0] == LowerChar(input[0]);
    DigitFirstNoPostfix(Lower(input));
  }

  /** No accepted postfix starts with a digit. */
  lemma DigitFirstNoPostfix(s: string)
    requires s != [] && IsDigit(s[0])
    ensures s !in POSTFIXES
  {
    forall p | p in POSTFIXES
      ensures p == [] || !IsDigit(p[0])
    {
    }
  }

  // ---------------------------------------------------------------------
  // Counting back

  /** Whole days are whole hours, and a whole number of days is midnight of
      that day number. */
  lemma WholeDays(k: int)
    ensures k * NS_PER_DAY == (24 * k) * NS_PER_HOUR
    ensures (k * NS_PER_DAY) % NS_PER_DAY == 0 && Date(k * NS_PER_DAY) == k
  {
  }

  lemma WholeHours(k: int)
    ensures (k * NS_PER_HOUR) % NS_PER_HOUR == 0
  {
  }

  /** `InLast::back_from`: the earliest instant the range covers; always
      on an hour boundary. */
  function BackFrom(inLast: InLast, now: Timestamp): (r: Timestamp)
    ensures r % NS_PER_HOUR == 0
  {
    WholeDays(Date(now));
    match inLast
    case Hours(h) =>
      WholeHours(24 * Date(now) + Hour(now) - h);
      StartOfDay(now) + Hour(now) * NS_PER_HOUR - h * NS_PER_HOUR
    case Days(d) =>
      WholeDays(Date(now) - d);
      WholeHours(24 * (Date(now) - d));
      StartOfDay(now) - d * NS_PER_DAY
    case Weeks(w) =>
      var back := Date(now) - (w * 7 + WeekdayFromMonday(Date(now)));
      WholeDays(back);
      WholeHours(24 * back);
      StartOfDay(now) - (w * 7 + WeekdayFromMonday(Date(now))) * NS_PER_DAY
    case Months(m) =>
      var c := CivilFromDays(Date(now));
      var delta := (c.month - 1) - m;
      var day := DaysFromCivil(c.year + delta / 12, delta % 12 + 1, 1);
      WholeDays(day);
      WholeHours(24 * day);
      day * NS_PER_DAY
  }

  /** `Hours(h)` is the start of the current hour, `h` hours back: the hour
      boundary whose hour, shifted `h` hours on, holds `now`. */
  lemma BackFromHours(h: int, now: Timestamp)
    ensures var r := BackFrom(Hours(h), now);
      r + h * NS_PER_HOUR <= now < r + (h + 1) * NS_PER_HOUR
  {
  }

  /** `Days(d)` is midnight `d` days before today. */
  lemma BackFromDays(d: int, now: Timestamp)
    ensures var r := BackFrom(Days(d), now);
      r % NS_PER_DAY == 0 && Date(r) == Date(now) - d
  {
  }

  /** `Weeks(w)` is midnight of a Monday: this week's Monday, `w` weeks
      back. */
  lemma BackFromWeeks(w: int, now: Timestamp)
    ensures var r := BackFrom(Weeks(w), now);
      && r % NS_PER_DAY == 0
      && WeekdayFromMonday(Date(r)) == 0
      && Date(now) - 7 * w - 6 <= Date(r) <= Date(now) - 7 * w
  {
    var back := Date(now) - (w * 7 + WeekdayFromMonday(Date(now)));
    WholeDays(back);
    assert BackFrom(Weeks(w), now) == back * NS_PER_DAY;
    assert (back + 3) % 7 == 0;
  }

  /** `Months(m)` is midnight of the first day of a month, `m` months before
      the current one (the year borrows or carries as needed). */
  lemma BackFromMonths(m: int, now: Timestamp)
    ensures var r := BackFrom(Months(m), now);
      var c := CivilFromDays(Date(now));
      var b := CivilFromDays(Date(r));
      && r % NS_PER_DAY == 0
      && b.day == 1
      && b.year * 12 + b.month == c.year * 12 + c.month - m
  {
    var c := CivilFromDays(Date(now));
    var delta := (c.month - 1) - m;
    var y := c.year + delta / 12;
    var mo := delta % 12 + 1;
    var day := DaysFromCivil(y, mo, 1);
    assert BackFrom(Months(m), now) == day * NS_PER_DAY;
    assert Date(day * NS_PER_DAY) == day;
    CivilOfFirstOfMonth(y, mo);
  }

  /** `Months(0)` is the first of the current month: today, moved back by
      the day of the month less one. */
  lemma {:induction false} BackFromThisMonth(now: Timestamp)
    ensures var c := CivilFromDays(Date(now));
      BackFrom(Months(0), now) == StartOfDay(now) - (c.day - 1) * NS_PER_DAY
  {
    var c := CivilFromDays(Date(now));
    DaysFromCivilFromDays(Date(now));
    assert (c.month - 1) / 12 == 0 && (c.month - 1) % 12 == c.month - 1;
    var first := DaysFromCivil(c.year, c.month, 1);
    assert BackFrom(Months(0), now) == first * NS_PER_DAY;
    assert first == Date(now) - (c.day - 1);
    DaysBack(Date(now), c.day - 1);
  }

  /** Moving `back` days before day `d` moves its midnight back as many
      days. */
  lemma {:induction false} DaysBack(d: int, back: int)
    ensures (d - back) * NS_PER_DAY == d * NS_PER_DAY - back * NS_PER_DAY
  {
  }
}

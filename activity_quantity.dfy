/** The quantity option of the listing commands
    (`src/opt/activity_quantity.rs`): the same text form as
    `ActivityRange`, read into one flat variant per unit. */
module ActivityQuantity {
  import opened Wrappers
  import opened Text
  import opened ActivityRange

  datatype ActivityQuantity =
    | SingleActivities(count: int)
    | Hours(count: int)
    | Days(count: int)
    | Weeks(count: int)
    | Months(count: int)

  function QuantityOf(u: Unit, n: int): ActivityQuantity
  {
    match u
    case Plain => SingleActivities(n)
    case PerHour => ActivityQuantity.Hours(n)
    case PerDay => ActivityQuantity.Days(n)
    case PerWeek => ActivityQuantity.Weeks(n)
    case PerMonth => ActivityQuantity.Months(n)
  }

  function UnitOfQuantity(q: ActivityQuantity): Unit
  {
    match q
    case SingleActivities(_) => Plain
    case Hours(_) => PerHour
    case Days(_) => PerDay
    case Weeks(_) => PerWeek
    case Months(_) => PerMonth
  }

  /** `ActivityQuantity::from_str`. An error names the postfix as written. */
  function ParseActivityQuantity(input: string): (r: Result<ActivityQuantity, RangeError>)
    ensures r.Ok? <==> Lower(SplitNumber(input).1) in POSTFIXES
    ensures r.Err? ==> r.error == InvalidPostfix(SplitNumber(input).1)
    ensures r.Ok? ==> r.value.count == SplitNumber(input).0 && 0 <= r.value.count <= I64_MAX
    ensures r.Ok? ==> (r.value.SingleActivities? <==> SplitNumber(input).1 == [])
    ensures Lower(SplitNumber(input).1) in {"h", "hour", "hours"} ==> r == Ok(ActivityQuantity.Hours(SplitNumber(input).0))
    ensures Lower(SplitNumber(input).1) in {"d", "day", "days"} ==> r == Ok(ActivityQuantity.Days(SplitNumber(input).0))
    ensures Lower(SplitNumber(input).1) in {"w", "week", "weeks"} ==> r == Ok(ActivityQuantity.Weeks(SplitNumber(input).0))
    ensures Lower(SplitNumber(input).1) in {"m", "month", "months"} ==> r == Ok(ActivityQuantity.Months(SplitNumber(input).0))
  {
    var (number, postfix) := SplitNumber(input);
    match UnitOf(Lower(postfix))
    case None => Err(InvalidPostfix(postfix))
    case Some(u) => Ok(QuantityOf(u, number))
  }

  /** The quantity and the range read from one text agree: both fail with
      the same error, or both succeed with the same number in the same
      unit. */
  lemma {:induction false} QuantityAgreesWithRange(input: string)
    ensures ParseActivityQuantity(input).Ok? <==> ParseActivityRange(input).Ok?
    ensures ParseActivityQuantity(input).Err? ==> ParseActivityQuantity(input).error == ParseActivityRange(input).error
    ensures ParseActivityQuantity(input).Ok? ==>
      && ParseActivityQuantity(input).value.count == Amount(ParseActivityRange(input).value)
      && UnitOfQuantity(ParseActivityQuantity(input).value) == UnitOfRange(ParseActivityRange(input).value)
  {
    var split := SplitNumber(input);
    match UnitOf(Lower(split.1))
    case None =>
      assert ParseActivityQuantity(input) == Err(InvalidPostfix(split.1));
      assert ParseActivityRange(input) == Err(InvalidPostfix(split.1));
    case Some(u) =>
      assert ParseActivityQuantity(input) == Ok(QuantityOf(u, split.0));
      assert ParseActivityRange(input) == Ok(RangeOf(u, split.0));
      SameUnit(u, split.0);
  }

  /** A unit and a number give a quantity and a range with that number in
      that unit. */
  lemma {:induction false} SameUnit(u: Unit, n: int)
    ensures QuantityOf(u, n).count == n == Amount(RangeOf(u, n))
    ensures UnitOfQuantity(QuantityOf(u, n)) == u == UnitOfRange(RangeOf(u, n))
  {
    match u
    case Plain =>
    case PerHour =>
    case PerDay =>
    case PerWeek =>
    case PerMonth =>
  }

  /** The shortest text of a quantity. */
  function QuantityText(q: ActivityQuantity): string
    requires 0 <= q.count
  {
    NatToString(q.count) + UnitText(UnitOfQuantity(q))
  }

  /** Every quantity whose number fits an `i64` is read back from its text. */
  lemma ParseQuantityText(q: ActivityQuantity)
    requires 0 <= q.count <= I64_MAX
    ensures ParseActivityQuantity(QuantityText(q)) == Ok(q)
  {
    ParseNumberText(q.count, UnitText(UnitOfQuantity(q)));
  }

  /** Postfixes are matched regardless of case. */
  lemma QuantityIgnoresCase(input: string)
    ensures ParseActivityQuantity(Lower(input)) ==
      match ParseActivityQuantity(input)
      case Ok(v) => Ok(v)
      case Err(InvalidPostfix(p)) => Err(InvalidPostfix(Lower(p)))
  {
    LowerSplitNumber(input);
    LowerIdempotent(SplitNumber(input).1);
  }

  /** A postfix with no number counts 0 of its unit. */
  lemma QuantityWithoutNumber(postfix: string, u: Unit)
    requires postfix == [] || !IsDigit(postfix[0])
    requires UnitOf(Lower(postfix)) == Some(u)
    ensures ParseActivityQuantity(postfix) == Ok(QuantityOf(u, 0))
  {
    SplitNumberNoDigits(postfix);
  }
}

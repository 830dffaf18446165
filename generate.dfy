/** Template variables for generated reports
    (`src/entry_commands/generate.rs`). Only the text-valued variables are
    modelled; the duration variables are floating point. */
module Generate {
  import opened Wrappers
  import opened Time
  import opened Text
  import opened ActivityGroupings

  /** The configuration fields the variables are taken from. */
  datatype Config = Config(
    employeeName: string,
    employeeNumber: string,
    costCenter: string,
    performanceType: string,
    accountingCycle: string)

  predicate ValidDate(date: CivilDate)
  {
    1 <= date.month <= 12 && 1 <= date.day <= 31
  }

  /** The local date of an instant. */
  function LocalDate(t: Timestamp): (date: CivilDate)
    ensures ValidDate(date)
    ensures DaysFromCivil(date.year, date.month, date.day) == Date(t)
  {
    DaysFromCivilFromDays(Date(t));
    CivilFromDays(Date(t))
  }

  /** `year` as `to_string`, `month` and `day` as `{:02}`. */
  function DateVars(date: CivilDate): map<string, string>
    requires ValidDate(date)
  {
    map["year" := IntToString(date.year), "month" := PadTwo(date.month), "day" := PadTwo(date.day)]
  }

  /** `vars_per_generated_file`: the five configuration fields and the date
      of the reported month. */
  function VarsPerGeneratedFile(cfg: Config, date: CivilDate): (vars: map<string, string>)
    requires ValidDate(date)
    ensures vars.Keys == {"employee_name", "employee_number", "cost_center", "performance_type",
                          "accounting_cycle", "year", "month", "day"}
    ensures vars["employee_name"] == cfg.employeeName && vars["employee_number"] == cfg.employeeNumber
    ensures vars["cost_center"] == cfg.costCenter && vars["performance_type"] == cfg.performanceType
    ensures vars["accounting_cycle"] == cfg.accountingCycle
    ensures |vars["month"]| == 2 && |vars["day"]| == 2
    ensures ReadDate(vars) == Some(date)
  {
    ReadDateVars(date);
    DateVars(date) + map[
      "employee_name" := cfg.employeeName,
      "employee_number" := cfg.employeeNumber,
      "cost_center" := cfg.costCenter,
      "performance_type" := cfg.performanceType,
      "accounting_cycle" := cfg.accountingCycle]
  }

  /** `vars_per_collapsed_activity` without the duration variables: the
      local date of the group's first start, and its attendance type,
      description and WBS unchanged. */
  function VarsPerCollapsedActivity(activity: CollapsedActivity): (vars: map<string, string>)
    ensures vars.Keys == {"year", "month", "day", "attendance_type", "description", "wbs"}
    ensures vars["attendance_type"] == activity.attendanceType
    ensures vars["description"] == activity.description
    ensures vars["wbs"] == activity.wbs
    ensures |vars["month"]| == 2 && |vars["day"]| == 2
  {
    var date := LocalDate(activity.startOfFirst);
    DateVars(date) + map[
      "attendance_type" := activity.attendanceType,
      "description" := activity.description,
      "wbs" := activity.wbs]
  }

  /** Reads a date back from the `year`, `month` and `day` variables. */
  function ReadDate(vars: map<string, string>): Option<CivilDate>
  {
    if "year" in vars && "month" in vars && "day" in vars then
      match (ParseInt(vars["year"]), ParseInt(vars["month"]), ParseInt(vars["day"]))
      case (Some(y), Some(m), Some(d)) => Some(CivilDate(y, m, d))
      case _ => None
    else None
  }

  lemma ParsePadTwo(n: nat)
    ensures ParseInt(PadTwo(n)) == Some(n)
  {
    assert IsDigit(PadTwo(n)[0]);
  }

  lemma ReadDateVars(date: CivilDate)
    requires ValidDate(date)
    ensures ReadDate(DateVars(date)) == Some(date)
  {
    ParseIntToString(date.year);
    ParsePadTwo(date.month);
    ParsePadTwo(date.day);
  }

  /** The date variables of a group name the local date its first piece
      started on: reading them back gives that day again. */
  lemma CollapsedActivityDate(activity: CollapsedActivity)
    ensures var date := ReadDate(VarsPerCollapsedActivity(activity));
      && date.Some? && ValidDate(date.value)
      && DaysFromCivil(date.value.year, date.value.month, date.value.day) == Date(activity.startOfFirst)
  {
    var date := LocalDate(activity.startOfFirst);
    ReadDateVars(date);
    assert ReadDate(VarsPerCollapsedActivity(activity)) == ReadDate(DateVars(date));
  }
}

/** The older report variables (`src/generate.rs`). Its grouping is the
    same as `ActivityGroupings.CollapseActivities`; only the variables
    differ. The duration variables are floating point and not modelled. */
module LegacyGenerate {
  import opened Wrappers
  import opened Time
  import opened Text
  import opened ActivityGroupings
  import opened Generate

  /** `vars_from_config`: exactly the five configuration fields. */
  function VarsFromConfig(cfg: Config): (vars: map<string, string>)
    ensures vars.Keys == {"employee_name", "employee_number", "cost_center", "performance_type", "accounting_cycle"}
    ensures vars["employee_name"] == cfg.employeeName && vars["employee_number"] == cfg.employeeNumber
    ensures vars["cost_center"] == cfg.costCenter && vars["performance_type"] == cfg.performanceType
    ensures vars["accounting_cycle"] == cfg.accountingCycle
  {
    map[
      "employee_name" := cfg.employeeName,
      "employee_number" := cfg.employeeNumber,
      "cost_center" := cfg.costCenter,
      "performance_type" := cfg.performanceType,
      "accounting_cycle" := cfg.accountingCycle]
  }

  /** `vars_from_collapsed_activity` as written: `month` unpadded, and `day`
      holding the year. */
  function VarsFromCollapsedActivity(activity: CollapsedActivity): (vars: map<string, string>)
    ensures vars.Keys == {"year", "month", "day", "attendance_type", "description", "wbs"}
    ensures vars["attendance_type"] == activity.attendanceType
    ensures vars["description"] == activity.description
    ensures vars["wbs"] == activity.wbs
  {
    var date := LocalDate(activity.startOfFirst);
    map[
      "year" := IntToString(date.year),
      "month" := IntToString(date.month),
      "day" := IntToString(date.year),
      "attendance_type" := activity.attendanceType,
      "description" := activity.description,
      "wbs" := activity.wbs]
  }

  /** As written, the `day` variable always repeats the year, so the date
      read back is the year, the month and the year again. */
  lemma AsWrittenDayIsYear(activity: CollapsedActivity)
    ensures var date := LocalDate(activity.startOfFirst);
      ReadDate(VarsFromCollapsedActivity(activity)) == Some(CivilDate(date.year, date.month, date.year))
  {
    var date := LocalDate(activity.startOfFirst);
    ParseIntToString(date.year);
    ParseIntToString(date.month);
  }

  /** A group first started at the epoch, 1970-01-01 00:00 local time, gets
      `day` = "1970". */
  lemma AsWrittenEpochDay(activity: CollapsedActivity)
    requires activity.startOfFirst == 0
    ensures VarsFromCollapsedActivity(activity)["day"] == IntToString(1970)
    ensures ReadDate(VarsFromCollapsedActivity(activity)) != Some(CivilDate(1970, 1, 1))
  {
    assert Date(0) == 0;
    assert SplitDays(0) == EraParts(4, 3, 17, 1, 306);
    assert CivilFromParts(EraParts(4, 3, 17, 1, 306)) == CivilDate(1970, 1, 1);
    AsWrittenDayIsYear(activity);
  }

  /** The evidently intended variables: `day` is the day of the month. */
  function VarsFromCollapsedActivityCorrected(activity: CollapsedActivity): (vars: map<string, string>)
    ensures vars.Keys == {"year", "month", "day", "attendance_type", "description", "wbs"}
    ensures vars["attendance_type"] == activity.attendanceType
    ensures vars["description"] == activity.description
    ensures vars["wbs"] == activity.wbs
    ensures ReadDate(vars) == Some(LocalDate(activity.startOfFirst))
  {
    var date := LocalDate(activity.startOfFirst);
    ParseIntToString(date.year);
    ParseIntToString(date.month);
    ParseIntToString(date.day);
    map[
      "year" := IntToString(date.year),
      "month" := IntToString(date.month),
      "day" := IntToString(date.day),
      "attendance_type" := activity.attendanceType,
      "description" := activity.description,
      "wbs" := activity.wbs]
  }
}

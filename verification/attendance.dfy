/** Attendance aggregation: per-employee totals over the whole ledger (the
    summary that feeds payroll and overwrites each employee's attendance
    figures) and over one `MM-YYYY` month (the report, which changes
    nothing). */
module Attendance {
  import opened Records
  import opened Clock
  import Payroll
  import Ledger

  datatype Totals = Totals(daysWorked: int, lateCount: int, overtimeHours: real, hoursWorked: real)

  /** Whether a record counts for employee `id`: its ID matches and, when a
      period is given, the month token of its date equals that period. */
  predicate Counts(r: AttendanceRecord, id: int, period: Option<string>) {
    r.empId == id && (period.None? || MonthToken(r.date) == Some(period.value))
  }

  /** Totals over the records that count, accumulated in ledger order. */
  function Tally(ledger: seq<AttendanceRecord>, id: int, period: Option<string>): (t: Totals)
    ensures 0 <= t.lateCount <= t.daysWorked <= |ledger|
    decreases |ledger|
  {
    if |ledger| == 0 then Totals(0, 0, 0.0, 0.0)
    else
      var prev := Tally(ledger[..|ledger| - 1], id, period);
      var r := ledger[|ledger| - 1];
      if Counts(r, id, period) then
        Totals(prev.daysWorked + 1,
               prev.lateCount + (if r.isLate then 1 else 0),
               prev.overtimeHours + r.overtimeHours,
               prev.hoursWorked + r.hoursWorked)
      else prev
  }

  /** Positions of the set entries of a sequence of flags. */
  function Positions(flags: seq<bool>): set<int> {
    set j | 0 <= j < |flags| && flags[j]
  }

  /** Adding one flag at the end adds its position exactly when it is set. */
  lemma PositionsStep(flags: seq<bool>)
    requires |flags| > 0
    ensures |Positions(flags)|
      == |Positions(flags[..|flags| - 1])| + (if flags[|flags| - 1] then 1 else 0)
  {
    var n := |flags|;
    var a := Positions(flags[..n - 1]);
    var b := Positions(flags);
    if flags[n - 1] {
      assert b == a + {n - 1};
    } else {
      assert b == a;
    }
  }

  /** For each ledger position, whether its record counts. */
  function CountFlags(ledger: seq<AttendanceRecord>, id: int, period: Option<string>): (f: seq<bool>)
    ensures |f| == |ledger|
    ensures forall j :: 0 <= j < |ledger| ==> f[j] == Counts(ledger[j], id, period)
  {
    seq(|ledger|, j requires 0 <= j < |ledger| => Counts(ledger[j], id, period))
  }

  /** A record that counts and is marked late. */
  predicate CountsLate(r: AttendanceRecord, id: int, period: Option<string>) {
    Counts(r, id, period) && r.isLate
  }

  /** For each ledger position, whether its record counts and is late. */
  function LateFlags(ledger: seq<AttendanceRecord>, id: int, period: Option<string>): (f: seq<bool>)
    ensures |f| == |ledger|
    ensures forall j :: 0 <= j < |ledger| ==> f[j] == CountsLate(ledger[j], id, period)
  {
    seq(|ledger|, j requires 0 <= j < |ledger| => CountsLate(ledger[j], id, period))
  }

  /** Positions of the ledger whose records count. */
  function Matching(ledger: seq<AttendanceRecord>, id: int, period: Option<string>): set<int> {
    Positions(CountFlags(ledger, id, period))
  }

  /** Positions of the ledger whose records count and are marked late. */
  function MatchingLate(ledger: seq<AttendanceRecord>, id: int, period: Option<string>): set<int> {
    Positions(LateFlags(ledger, id, period))
  }

  /** Extending the ledger by one record adds its position to the counted
      positions exactly when that record counts. */
  lemma MatchingStep(ledger: seq<AttendanceRecord>, id: int, period: Option<string>)
    requires |ledger| > 0
    ensures |Matching(ledger, id, period)|
      == |Matching(ledger[..|ledger| - 1], id, period)|
         + (if Counts(ledger[|ledger| - 1], id, period) then 1 else 0)
  {
    var n := |ledger|;
    var pre := ledger[..n - 1];
    var f := CountFlags(ledger, id, period);
    var g := CountFlags(pre, id, period);
    forall j | 0 <= j < n - 1
      ensures f[..n - 1][j] == g[j]
    {
      assert pre[j] == ledger[j];
    }
    assert f[..n - 1] == g;
    PositionsStep(f);
  }

  /** Extending the ledger by one record adds its position to the late
      positions exactly when that record counts and is late. */
  lemma MatchingLateStep(ledger: seq<AttendanceRecord>, id: int, period: Option<string>)
    requires |ledger| > 0
    ensures |MatchingLate(ledger, id, period)|
      == |MatchingLate(ledger[..|ledger| - 1], id, period)|
         + (if CountsLate(ledger[|ledger| - 1], id, period) then 1 else 0)
  {
    var n := |ledger|;
    var pre := ledger[..n - 1];
    var f := LateFlags(ledger, id, period);
    var g := LateFlags(pre, id, period);
    forall j | 0 <= j < n - 1
      ensures f[..n - 1][j] == g[j]
    {
      assert pre[j] == ledger[j];
    }
    assert f[..n - 1] == g;
    PositionsStep(f);
  }

  /** Days worked is the number of records that count. */
  lemma {:induction false} TallyCountsRecords(ledger: seq<AttendanceRecord>, id: int, period: Option<string>)
    ensures Tally(ledger, id, period).daysWorked == |Matching(ledger, id, period)|
    decreases |ledger|
  {
    if |ledger| > 0 {
      TallyCountsRecords(ledger[..|ledger| - 1], id, period);
      MatchingStep(ledger, id, period);
    }
  }

  /** The late count is the number of counting records marked late. */
  lemma {:induction false} TallyCountsLateRecords(ledger: seq<AttendanceRecord>, id: int, period: Option<string>)
    ensures Tally(ledger, id, period).lateCount == |MatchingLate(ledger, id, period)|
    decreases |ledger|
  {
    if |ledger| > 0 {
      TallyCountsLateRecords(ledger[..|ledger| - 1], id, period);
      MatchingLateStep(ledger, id, period);
    }
  }

  /** The dates on which employee `id` has a record. */
  function DatesOf(ledger: seq<AttendanceRecord>, id: int): set<string> {
    set j | 0 <= j < |ledger| && ledger[j].empId == id :: ledger[j].date
  }

  /** Extending the ledger by one record adds its date to the employee's
      dates when it is theirs, and nothing otherwise. */
  lemma DatesStep(ledger: seq<AttendanceRecord>, id: int)
    requires |ledger| > 0
    ensures var r := ledger[|ledger| - 1];
      DatesOf(ledger, id) == DatesOf(ledger[..|ledger| - 1], id) + (if r.empId == id then {r.date} else {})
  {
    var n := |ledger|;
    var pre := ledger[..n - 1];
    assert forall j :: 0 <= j < n - 1 ==> pre[j] == ledger[j];
  }

  /** Under one record per employee and day, the last record's date is not
      among the employee's earlier dates. */
  lemma LastDateIsNew(ledger: seq<AttendanceRecord>, id: int)
    requires |ledger| > 0 && OnePerDay(ledger) && ledger[|ledger| - 1].empId == id
    ensures ledger[|ledger| - 1].date !in DatesOf(ledger[..|ledger| - 1], id)
  {
    var n := |ledger|;
    var pre := ledger[..n - 1];
    forall j | 0 <= j < n - 1 && pre[j].empId == id
      ensures pre[j].date != ledger[n - 1].date
    {
      assert pre[j] == ledger[j];
    }
  }

  /** With at most one record per employee and day, days worked is the
      number of distinct dates the employee timed in: nothing is counted
      twice. */
  lemma {:induction false} TallyCountsDistinctDates(ledger: seq<AttendanceRecord>, id: int)
    requires OnePerDay(ledger)
    ensures Tally(ledger, id, None).daysWorked == |DatesOf(ledger, id)|
    decreases |ledger|
  {
    if |ledger| > 0 {
      var n := |ledger|;
      var pre := ledger[..n - 1];
      assert OnePerDay(pre) by {
        assert forall j :: 0 <= j < n - 1 ==> pre[j] == ledger[j];
      }
      TallyCountsDistinctDates(pre, id);
      DatesStep(ledger, id);
      if ledger[n - 1].empId == id {
        LastDateIsNew(ledger, id);
      }
    }
  }

  /** A month's figures never exceed the all-dates figures: days, late days,
      and (for records with non-negative hours) hours and overtime. */
  lemma {:induction false} MonthWithinAllDates(ledger: seq<AttendanceRecord>, id: int, period: string)
    requires forall j :: 0 <= j < |ledger| ==> ledger[j].hoursWorked >= 0.0 && ledger[j].overtimeHours >= 0.0
    ensures var m := Tally(ledger, id, Some(period));
      var all := Tally(ledger, id, None);
      && m.daysWorked <= all.daysWorked
      && m.lateCount <= all.lateCount
      && m.hoursWorked <= all.hoursWorked
      && m.overtimeHours <= all.overtimeHours
    decreases |ledger|
  {
    if |ledger| > 0 {
      var pre := ledger[..|ledger| - 1];
      assert forall j :: 0 <= j < |pre| ==> pre[j] == ledger[j];
      MonthWithinAllDates(pre, id, period);
    }
  }

  /** When every record of the employee falls in the period, the month's
      figures are the all-dates figures. */
  lemma {:induction false} MonthIsAllWhenOneMonth(ledger: seq<AttendanceRecord>, id: int, period: string)
    requires forall j :: 0 <= j < |ledger| && ledger[j].empId == id ==> MonthToken(ledger[j].date) == Some(period)
    ensures Tally(ledger, id, Some(period)) == Tally(ledger, id, None)
    decreases |ledger|
  {
    if |ledger| > 0 {
      var pre := ledger[..|ledger| - 1];
      assert forall j :: 0 <= j < |pre| ==> pre[j] == ledger[j];
      MonthIsAllWhenOneMonth(pre, id, period);
    }
  }

  /** Over records that all carry the standard 8 hours and no overtime, as
      every time-in does, the hours are 8 per day and the overtime is zero. */
  lemma {:induction false} StandardDaysTotals(ledger: seq<AttendanceRecord>, id: int, period: Option<string>)
    requires forall j :: 0 <= j < |ledger| ==>
      ledger[j].hoursWorked == HoursPerDay && ledger[j].overtimeHours == 0.0
    ensures var t := Tally(ledger, id, period);
      t.hoursWorked == HoursPerDay * t.daysWorked as real && t.overtimeHours == 0.0
    decreases |ledger|
  {
    if |ledger| > 0 {
      var pre := ledger[..|ledger| - 1];
      assert forall j :: 0 <= j < |pre| ==> pre[j] == ledger[j];
      StandardDaysTotals(pre, id, period);
    }
  }

  /** The inner loop of the summary and of the report: one pass over the
      ledger accumulating the records that count. */
  method TallyLoop(ledger: seq<AttendanceRecord>, id: int, period: Option<string>) returns (t: Totals)
    ensures t == Tally(ledger, id, period)
    ensures t.daysWorked == |Matching(ledger, id, period)|
    ensures t.lateCount == |MatchingLate(ledger, id, period)|
  {
    t := Totals(0, 0, 0.0, 0.0);
    var j := 0;
    while j < |ledger|
      invariant 0 <= j <= |ledger|
      invariant t == Tally(ledger[..j], id, period)
    {
      var r := ledger[j];
      assert ledger[..j + 1][..j] == ledger[..j];
      if Counts(r, id, period) {
        t := Totals(t.daysWorked + 1,
                    t.lateCount + (if r.isLate then 1 else 0),
                    t.overtimeHours + r.overtimeHours,
                    t.hoursWorked + r.hoursWorked);
      }
      j := j + 1;
    }
    assert ledger[..j] == ledger;
    TallyCountsRecords(ledger, id, period);
    TallyCountsLateRecords(ledger, id, period);
  }

  /** One printed line of the summary or of the monthly report. */
  datatype ReportRow = ReportRow(
    id: int,
    name: string,
    daysWorked: int,
    absent: int,
    lateCount: int,
    overtimeHours: real,
    hoursWorked: real)

  /** The line printed for an employee from their totals; absences are the
      standard 22 days minus the days counted. */
  function RowOf(e: Employee, t: Totals): ReportRow {
    ReportRow(e.id, e.name, t.daysWorked, StandardWorkingDays - t.daysWorked,
              t.lateCount, t.overtimeHours, t.hoursWorked)
  }

  /** An employee after the summary: the attendance figures are replaced by
      the all-dates totals, everything else is kept. */
  function Summarized(e: Employee, ledger: seq<AttendanceRecord>): Employee {
    var t := Tally(ledger, e.id, None);
    e.(daysWorked := t.daysWorked, totalOvertimeHours := t.overtimeHours, totalHoursWorked := t.hoursWorked)
  }

  /** The attendance summary over the whole roster: each employee's days
      worked becomes the number of their records across all dates, their
      hours and overtime the sums over those records; identity, position,
      salary and payslip stay as they were. The printed line per employee
      also shows the absences and the number of late records. */
  method CalculateAttendanceSummary(roster: seq<Employee>, ledger: seq<AttendanceRecord>)
    returns (after: seq<Employee>, rows: seq<ReportRow>)
    ensures |after| == |roster| && |rows| == |roster|
    ensures forall i :: 0 <= i < |roster| ==>
      && after[i] == Summarized(roster[i], ledger)
      && after[i].daysWorked == |Matching(ledger, roster[i].id, None)|
      && after[i].id == roster[i].id && after[i].name == roster[i].name
      && after[i].position == roster[i].position && after[i].monthlySalary == roster[i].monthlySalary
      && after[i].last == roster[i].last
    ensures forall i :: 0 <= i < |roster| ==>
      && rows[i].id == roster[i].id && rows[i].name == roster[i].name
      && rows[i].daysWorked == after[i].daysWorked
      && rows[i].absent == StandardWorkingDays - rows[i].daysWorked
      && rows[i].lateCount == |MatchingLate(ledger, roster[i].id, None)|
      && rows[i].overtimeHours == after[i].totalOvertimeHours
      && rows[i].hoursWorked == after[i].totalHoursWorked
  {
    after := [];
    rows := [];
    var i := 0;
    while i < |roster|
      invariant 0 <= i <= |roster|
      invariant |after| == i && |rows| == i
      invariant forall k :: 0 <= k < i ==>
        && after[k] == Summarized(roster[k], ledger)
        && after[k].daysWorked == |Matching(ledger, roster[k].id, None)|
        && rows[k] == RowOf(roster[k], Tally(ledger, roster[k].id, None))
        && rows[k].lateCount == |MatchingLate(ledger, roster[k].id, None)|
    {
      var e := roster[i];
      var t := TallyLoop(ledger, e.id, None);
      after := after + [e.(daysWorked := t.daysWorked, totalOvertimeHours := t.overtimeHours,
                           totalHoursWorked := t.hoursWorked)];
      rows := rows + [RowOf(e, t)];
      i := i + 1;
    }
  }

  /** The monthly report for a typed `MM-YYYY` period: one row per employee,
      in roster order, counting only the records whose date lies in that
      month; absences are 22 minus the days counted. */
  method MonthlyReport(roster: seq<Employee>, ledger: seq<AttendanceRecord>, period: string)
    returns (rows: seq<ReportRow>)
    ensures |rows| == |roster|
    ensures forall i :: 0 <= i < |roster| ==>
      && rows[i].id == roster[i].id && rows[i].name == roster[i].name
      && rows[i].daysWorked == |Matching(ledger, roster[i].id, Some(period))|
      && rows[i] == RowOf(roster[i], Tally(ledger, roster[i].id, Some(period)))
      && rows[i].absent == StandardWorkingDays - rows[i].daysWorked
      && rows[i].lateCount == |MatchingLate(ledger, roster[i].id, Some(period))|
      && 0 <= rows[i].lateCount <= rows[i].daysWorked
      && rows[i].daysWorked <= |Matching(ledger, roster[i].id, None)|
  {
    rows := [];
    var i := 0;
    while i < |roster|
      invariant 0 <= i <= |roster|
      invariant |rows| == i
      invariant forall k :: 0 <= k < i ==>
        && rows[k].id == roster[k].id && rows[k].name == roster[k].name
        && rows[k].daysWorked == |Matching(ledger, roster[k].id, Some(period))|
        && rows[k] == RowOf(roster[k], Tally(ledger, roster[k].id, Some(period)))
        && rows[k].absent == StandardWorkingDays - rows[k].daysWorked
        && rows[k].lateCount == |MatchingLate(ledger, roster[k].id, Some(period))|
        && 0 <= rows[k].lateCount <= rows[k].daysWorked
        && rows[k].daysWorked <= |Matching(ledger, roster[k].id, None)|
    {
      var e := roster[i];
      var t := TallyLoop(ledger, e.id, Some(period));
      MonthWithinAll(ledger, e.id, period);
      rows := rows + [RowOf(e, t)];
      i := i + 1;
    }
  }

  /** The records that count for a month are among those that count for
      all dates. */
  lemma MonthWithinAll(ledger: seq<AttendanceRecord>, id: int, period: string)
    ensures |Matching(ledger, id, Some(period))| <= |Matching(ledger, id, None)|
  {
    var month := Matching(ledger, id, Some(period));
    var all := Matching(ledger, id, None);
    assert all == month + (all - month);
  }

  /** A ledger filled only by time-ins, summarized and then paid, pays no
      overtime to anyone: overtime pay is unreachable on that path. */
  lemma TimeInLedgerPaysNoOvertime(roster: seq<Employee>, ledger: seq<AttendanceRecord>, i: int)
    requires forall j :: 0 <= j < |ledger| ==>
      ledger[j].hoursWorked == HoursPerDay && ledger[j].overtimeHours == 0.0
    requires 0 <= i < |roster|
    ensures Payroll.PayslipOf(Summarized(roster[i], ledger)).overtimePay == 0.0
  {
    StandardDaysTotals(ledger, roster[i].id, None);
  }
}

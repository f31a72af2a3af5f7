/** The attendance ledger's one write: recording an employee's time-in for
    the current day. The clock reading is a parameter. */
module Ledger {
  import opened Records
  import opened Clock
  import Registry

  /** Index of the first record of this employee on this date. */
  function FindDayFrom(ledger: seq<AttendanceRecord>, id: int, date: string, from: nat): (r: Option<nat>)
    requires from <= |ledger|
    ensures r.Some? ==>
      && from <= r.value < |ledger|
      && ledger[r.value].empId == id && ledger[r.value].date == date
      && forall j :: from <= j < r.value ==> ledger[j].empId != id || ledger[j].date != date
    ensures r.None? ==> forall j :: from <= j < |ledger| ==> ledger[j].empId != id || ledger[j].date != date
    decreases |ledger| - from
  {
    if from == |ledger| then None
    else if ledger[from].empId == id && ledger[from].date == date then Some(from)
    else FindDayFrom(ledger, id, date, from + 1)
  }

  function FindDay(ledger: seq<AttendanceRecord>, id: int, date: string): (r: Option<nat>)
    ensures r.Some? ==>
      && r.value < |ledger|
      && ledger[r.value].empId == id && ledger[r.value].date == date
      && forall j :: 0 <= j < r.value ==> ledger[j].empId != id || ledger[j].date != date
    ensures r.None? <==> forall j :: 0 <= j < |ledger| ==> ledger[j].empId != id || ledger[j].date != date
  {
    FindDayFrom(ledger, id, date, 0)
  }

  /** The record a time-in creates: the standard 8 hours, no overtime, and
      Late exactly when the printed time reads as after 08:00. */
  function NewRecord(id: int, date: string, timeIn: string): AttendanceRecord {
    var late := LateByTimeText(timeIn);
    AttendanceRecord(id, date, timeIn, HoursPerDay, if late then Late else Present, late, 0.0)
  }

  /** Recording a time-in for employee `id` at clock reading `now`.
      Rejected, with the ledger unchanged, when the roster is empty, the ID
      is not seven digits, no employee has it, the employee already timed in
      on that date (reporting that earlier time), or the ledger is full. */
  function RecordTimeIn(roster: seq<Employee>, ledger: seq<AttendanceRecord>, id: int, now: Stamp)
    : (r: Result<seq<AttendanceRecord>>)
    requires ValidStamp(now)
    ensures r == Err(RosterEmpty) <==> |roster| == 0
    ensures r == Err(InvalidId) <==> |roster| > 0 && !ValidId(id)
    ensures r == Err(NotFound) <==> |roster| > 0 && ValidId(id) && Registry.IdFree(roster, id)
    ensures r.Err? && r.failure.AlreadyTimedIn? <==>
      && |roster| > 0 && ValidId(id) && !Registry.IdFree(roster, id)
      && FindDay(ledger, id, FormatDate(now)).Some?
    ensures r.Err? && r.failure.AlreadyTimedIn? ==>
      r.failure.timeIn == ledger[FindDay(ledger, id, FormatDate(now)).value].timeIn
    ensures r == Err(LedgerFull) <==>
      && |roster| > 0 && ValidId(id) && !Registry.IdFree(roster, id)
      && FindDay(ledger, id, FormatDate(now)).None?
      && |ledger| >= MaxAttendanceRecords
    ensures r.Ok? <==>
      && |roster| > 0 && ValidId(id) && !Registry.IdFree(roster, id)
      && FindDay(ledger, id, FormatDate(now)).None?
      && |ledger| < MaxAttendanceRecords
    ensures r.Ok? ==>
      && |r.value| == |ledger| + 1
      && r.value[..|ledger|] == ledger
      && var rec := r.value[|ledger|];
      && rec.empId == id
      && rec.date == FormatDate(now)
      && rec.timeIn == FormatTime(now.hour, now.minute)
      && rec.hoursWorked == HoursPerDay
      && rec.overtimeHours == 0.0
      && (rec.isLate <==> LateAt(now.hour, now.minute))
      && rec.status == (if rec.isLate then Late else Present)
  {
    if |roster| == 0 then Err(RosterEmpty)
    else if !ValidId(id) then Err(InvalidId)
    else if Registry.FindId(roster, id).None? then Err(NotFound)
    else
      var date := FormatDate(now);
      var timeIn := FormatTime(now.hour, now.minute);
      match FindDay(ledger, id, date)
      case Some(i) => Err(AlreadyTimedIn(ledger[i].timeIn))
      case None =>
        if |ledger| >= MaxAttendanceRecords then Err(LedgerFull)
        else
          TimeRoundTrip(now.hour, now.minute);
          Ok(ledger + [NewRecord(id, date, timeIn)])
  }

  /** A successful time-in keeps at most one record per employee and day. */
  lemma RecordTimeInKeepsOnePerDay(roster: seq<Employee>, ledger: seq<AttendanceRecord>, id: int, now: Stamp)
    requires ValidStamp(now) && OnePerDay(ledger)
    requires RecordTimeIn(roster, ledger, id, now).Ok?
    ensures OnePerDay(RecordTimeIn(roster, ledger, id, now).value)
  {
    var after := RecordTimeIn(roster, ledger, id, now).value;
    assert forall j :: 0 <= j < |ledger| ==> after[j] == ledger[j];
  }

  /** After a successful time-in, the new record is the first and only
      record of that employee on that date. */
  lemma TimeInIsOnlyRecordOfDay(roster: seq<Employee>, ledger: seq<AttendanceRecord>, id: int, now: Stamp)
    requires ValidStamp(now) && OnePerDay(ledger)
    requires RecordTimeIn(roster, ledger, id, now).Ok?
    ensures var after := RecordTimeIn(roster, ledger, id, now).value;
      && FindDay(after, id, FormatDate(now)) == Some(|ledger|)
      && after[|ledger|].timeIn == FormatTime(now.hour, now.minute)
      && |set j | 0 <= j < |after| && after[j].empId == id && after[j].date == FormatDate(now)| == 1
  {
    var after := RecordTimeIn(roster, ledger, id, now).value;
    var n := |ledger|;
    var date := FormatDate(now);
    assert FindDay(ledger, id, date).None?;
    assert forall j :: 0 <= j < n ==> after[j] == ledger[j];
    assert after[n].empId == id && after[n].date == date;
    assert (set j | 0 <= j < |after| && after[j].empId == id && after[j].date == date) == {n};
  }

  /** A second time-in by the same employee on the same day is refused with
      the time of the first, and the ledger keeps a single record of it. */
  lemma SecondTimeInSameDay(roster: seq<Employee>, ledger: seq<AttendanceRecord>, id: int, first: Stamp, second: Stamp)
    requires ValidStamp(first) && ValidStamp(second) && OnePerDay(ledger)
    requires first.year == second.year && first.month == second.month && first.day == second.day
    requires RecordTimeIn(roster, ledger, id, first).Ok?
    ensures var after := RecordTimeIn(roster, ledger, id, first).value;
      && RecordTimeIn(roster, after, id, second) == Err(AlreadyTimedIn(FormatTime(first.hour, first.minute)))
      && |set j | 0 <= j < |after| && after[j].empId == id && after[j].date == FormatDate(second)| == 1
  {
    FormatDateInjective(first, second);
    TimeInIsOnlyRecordOfDay(roster, ledger, id, first);
  }

  /** A time-in never touches the records already in the ledger, and every
      record it adds carries the standard hours and no overtime. */
  lemma RecordTimeInAddsStandardDay(roster: seq<Employee>, ledger: seq<AttendanceRecord>, id: int, now: Stamp)
    requires ValidStamp(now)
    requires forall j :: 0 <= j < |ledger| ==> ledger[j].hoursWorked == HoursPerDay && ledger[j].overtimeHours == 0.0
    requires RecordTimeIn(roster, ledger, id, now).Ok?
    ensures var after := RecordTimeIn(roster, ledger, id, now).value;
      forall j :: 0 <= j < |after| ==> after[j].hoursWorked == HoursPerDay && after[j].overtimeHours == 0.0
  {
    var after := RecordTimeIn(roster, ledger, id, now).value;
    assert forall j :: 0 <= j < |ledger| ==> after[j] == ledger[j];
  }
}

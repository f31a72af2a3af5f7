/** The data model of the employee record and payroll system: the position
    table, employees with their last computed payslip, attendance records,
    the capacity and ID-range constants, and the outcome type every
    state-changing operation returns. */
module Records {

  /** Capacity of the roster and of the attendance ledger. */
  const MaxEmployees: nat := 50
  const MaxAttendanceRecords: nat := 1000

  /** Employee IDs are seven-digit numbers. */
  const MinId: int := 1000000
  const MaxId: int := 9999999

  /** Divisor that turns a monthly salary into a daily rate. */
  const StandardWorkingDays: int := 22

  /** Length of a working day in hours: the hours credited for every
      recorded day, and the divisor from daily to hourly rate. */
  const HoursPerDay: real := 8.0

  datatype Position = ServiceCrew | Cooker | CounterCrew

  /** Display name of a position, as written to the roster file. */
  function PositionName(p: Position): string {
    match p
    case ServiceCrew => "Service Crew"
    case Cooker => "Cooker"
    case CounterCrew => "Counter Crew"
  }

  /** Fixed base monthly salary of a position. */
  function PositionSalary(p: Position): real {
    match p
    case ServiceCrew => 18000.0
    case Cooker => 25000.0
    case CounterCrew => 35000.0
  }

  /** The "last computed payroll" snapshot of an employee (the nine `last*`
      fields); each payroll run overwrites it as a whole. */
  datatype Payslip = Payslip(
    dailyRate: real,
    absentDeduct: real,
    overtimePay: real,
    grossPay: real,
    netPay: real,
    sss: real,
    philHealth: real,
    pagIbig: real,
    incomeTax: real)

  /** The snapshot of a freshly registered employee: every figure zero. */
  const BlankPayslip := Payslip(0.0, 0.0, 0.0, 0.0, 0.0, 0.0, 0.0, 0.0, 0.0)

  datatype Employee = Employee(
    id: int,
    name: string,
    position: Position,
    monthlySalary: real,
    daysWorked: int,
    totalOvertimeHours: real,
    totalHoursWorked: real,
    last: Payslip)

  datatype Status = Present | Late

  /** One time-in event. `date` is `YYYY-MM-DD` text and `timeIn` is `HH:MM`
      text when the record was made by the time-in operation. */
  datatype AttendanceRecord = AttendanceRecord(
    empId: int,
    date: string,
    timeIn: string,
    hoursWorked: real,
    status: Status,
    isLate: bool,
    overtimeHours: real)

  datatype Option<T> = None | Some(value: T)

  /** Why an operation made no change. */
  datatype Failure =
    | RosterEmpty
    | RosterFull
    | InvalidId
    | NotFound
    | InvalidName
    | DuplicateName
    | LedgerFull
    | AlreadyTimedIn(timeIn: string)
    | Cancelled

  datatype Result<T> = Ok(value: T) | Err(failure: Failure)

  predicate ValidId(id: int) {
    MinId <= id <= MaxId
  }

  /** No two employees of the roster share an ID. */
  predicate UniqueIds(roster: seq<Employee>) {
    forall i, j :: 0 <= i < j < |roster| ==> roster[i].id != roster[j].id
  }

  /** At most one attendance record per (employee ID, date) pair. */
  predicate OnePerDay(ledger: seq<AttendanceRecord>) {
    forall i, j :: 0 <= i < j < |ledger| ==>
      ledger[i].empId != ledger[j].empId || ledger[i].date != ledger[j].date
  }
}

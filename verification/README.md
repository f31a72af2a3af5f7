# Employee record and payroll system — a Dafny model of its core

The system is a console program for a fast-food outlet. It keeps a roster
of up to 50 employees, each in one of three positions with a fixed monthly
salary. It keeps a ledger of up to 1000 daily time-in records. It turns
attendance into a monthly payroll with three flat-rate contributions and
a six-bracket withholding tax.

This project models the logic of that program, without its menus, files
and terminal I/O:

- `Records` — positions and their salaries, employees with their last
  payslip, attendance records, and the capacity and ID-range constants.
- `Text` — the C-locale character classes, the hand-written
  case-insensitive `strcasecmp`, whitespace trimming, and the name check of
  the input routine.
- `Clock` — the zero-padded `YYYY-MM-DD` and `HH:MM` texts made from the
  clock, the `%d:%d` reading that decides lateness, and the positional
  `MM-YYYY` month token of the monthly report.
- `Tax` — the withholding-tax schedule. Besides the bracket-by-bracket
  `if` chain it has a bracket table, and a general monotonicity proof over
  such tables.
- `Payroll` — the per-employee payroll computation and the payroll run,
  which overwrites every employee's payslip snapshot.
- `Registry` — lookup by ID and by name, the duplicate-name check, the
  position table lookup, ID generation with its deterministic fallback,
  and registering, editing and removing (swap with last) an employee.
- `Ledger` — recording a time-in.
- `Attendance` — the attendance summary, which rewrites each employee's
  attendance totals and prints a line per employee, and the monthly
  report for one `MM-YYYY` period.

Registration, editing, removal and time-in are functions from the old
roster or ledger to a `Result`. `Ok` carries the new state. `Err` names the reason nothing
changed: an empty roster, a full roster or ledger, an ID outside
1000000-9999999, an unknown ID, a rejected or duplicate name, a repeated
time-in, or a declined confirmation. The payroll run returns the new
roster directly, and the attendance summary is a method that returns it
with the printed lines. The roster is a `seq<Employee>` in
array order and the ledger a `seq<AttendanceRecord>`. Money is `real`.

The inputs the program asks for become parameters:

- the typed name line;
- the chosen position or field;
- the answer to the Y/N confirmation (`confirm`);
- the clock reading (a `Stamp`);
- the values the random-number generator returns (`draws`, at least 100
  of them).

## Behaviour of the program worth knowing

- **Absences count twice in gross pay.** Basic pay already covers only the
  days worked, and an absent deduction for the missed days is subtracted
  from it as well (`EmployeeRecordSystem.c:658-669`):
  - below 22 days, gross is `dailyRate * (2 * days - 22)`
    (`Payroll.ShortMonthGross`);
  - for zero days it is the negated monthly salary
    (`Payroll.ZeroDaysGross`);
  - an 18000 salary with 20 days gives 162000/11, about 14727.27
    (`Payroll.TwentyDayServiceCrew`).
- **The tax schedule steps upward.** At 33333 the tax is 1875, but every
  income above pays more than 2500. The same upward step appears at
  66667, 166667 and 666667 (`Tax.IncomeTaxSteps`). The schedule is still
  non-decreasing (`Tax.IncomeTaxMonotone`).
- **The wrapped ID fallback can repeat an ID.** After 99 taken random
  IDs, the fallback is the largest ID plus one. It wraps to 1000000
  without checking that ID, so it can hand out an ID already in use
  (`Registry.FallbackCanRepeatId`). Below the top of the range it is
  always fresh (`Registry.GeneratedIdFresh`).

## Model

| member | source | states |
|---|---|---|
| Text.CaseCmpZeroIff | EmployeeRecordSystem.c:189-197 | for names without a NUL, the hand-written `strcasecmp` returns 0 exactly when both names have the same length and agree character by character up to ASCII case |
| Text.CaseCmpAntisymmetric | EmployeeRecordSystem.c:189-197 | swapping the two names negates the comparison, so "equal ignoring case" is symmetric |
| Text.Trim | EmployeeRecordSystem.c:247-255 | the trimmed name is a contiguous slice of the typed line; only whitespace was cut from either end, and the result neither starts nor ends with whitespace |
| Text.CheckName | EmployeeRecordSystem.c:257-293 | a typed name is accepted exactly when its trimmed form has 2 to 48 characters, all letters, spaces, hyphens or periods, at least one of them a letter; the accepted name is the trimmed line, and each refusal (empty, bad character, no letter, too short, too long) is reported exactly when it is the first of these checks, in that order, that the trimmed line fails |
| Text.CheckNameIdempotent | EmployeeRecordSystem.c:247-293 | an accepted name, typed again, is accepted unchanged |
| Text.AcceptedNameHasNoNul | EmployeeRecordSystem.c:265-272 | an accepted name contains no NUL character, so the C string comparisons see all of it |
| Clock.PadValue | EmployeeRecordSystem.c:297-302 | a number printed zero-padded to a width it fits reads back as that number |
| Clock.TimeRoundTrip | EmployeeRecordSystem.c:546-548 | the `HH:MM` text of a clock reading, read back with `%d:%d`, gives the hour and minute it was printed from, so lateness is decided on the real clock time |
| Clock.FormatDateInjective | EmployeeRecordSystem.c:297-302 | two clock readings print the same `YYYY-MM-DD` date exactly when they fall on the same calendar day |
| Clock.MonthToken | EmployeeRecordSystem.c:1041-1044 | the month token of a date of seven or more characters is its characters 5-6, a hyphen, and its characters 0-3; a six-character date gives just its character 5 and a five-character date the empty token, as the C copy stops at the terminator |
| Clock.PeriodMatch | EmployeeRecordSystem.c:1041-1046 | the month token of a printed date equals a typed `MM-YYYY` period exactly when the month and year agree |
| Tax.IncomeTax | EmployeeRecordSystem.c:621-635 | income at or below 20833 is not taxed, and the tax is never negative |
| Tax.IncomeTaxIsTableTax | EmployeeRecordSystem.c:621-635 | the bracket-by-bracket `if` chain and the bracket table (the last bracket whose lower limit the income exceeds decides) give the same tax on every income |
| Tax.TableTaxMonotone | EmployeeRecordSystem.c:621-635 | any bracket table whose limits increase, whose bases and rates are non-negative, and whose bases never fall below the previous bracket's charge, never taxes a higher income less |
| Tax.IncomeTaxMonotone | EmployeeRecordSystem.c:621-635 | the withholding tax never decreases as income grows |
| Tax.IncomeTaxSteps | EmployeeRecordSystem.c:36-52 | at each limit from 33333 up, the tax at the limit is strictly less than what every higher income pays: the schedule jumps upward there |
| Payroll.ComputePayslip | EmployeeRecordSystem.c:654-685 | the daily rate is a 22nd of the salary; there is an absent deduction only below 22 days, one daily rate per missed day; overtime pays 1.25 times the hourly rate (a 176th of the salary); gross is basic pay minus the absent deduction plus overtime; the contributions are 4.5%, 2.5% and 2% of gross; the tax is taken on the full gross; net is gross less all four deductions |
| Payroll.RunPayroll | EmployeeRecordSystem.c:652-696 | the run keeps every employee's identity, position, salary and attendance totals, and replaces the payslip snapshot with the one computed from exactly those figures |
| Payroll.RunPayrollIdempotent | EmployeeRecordSystem.c:652-696 | running payroll twice gives the same roster as running it once |
| Payroll.FullMonthGross | EmployeeRecordSystem.c:658-669 | with 22 days and no overtime there is no absent deduction and gross pay is the monthly salary |
| Payroll.ShortMonthGross | EmployeeRecordSystem.c:658-669 | below 22 days without overtime, gross pay is the daily rate times twice the days worked less 22 |
| Payroll.ZeroDaysGross | EmployeeRecordSystem.c:658-685 | with no day worked, gross pay is the negated salary, no tax is due and net pay is 91% of that negative gross |
| Payroll.DeductionsOfNonNegativeGross | EmployeeRecordSystem.c:671-685 | for a non-negative gross, every deduction is non-negative, net is at most gross, and net plus the four deductions is gross |
| Payroll.NetPayGrowthBounded | EmployeeRecordSystem.c:671-685 | between two payslips, net pay grows by at most 91% of the growth in gross pay, because the tax never decreases |
| Payroll.TwentyDayServiceCrew | EmployeeRecordSystem.c:654-685 | a Service Crew member with 20 days and no overtime gets daily rate 9000/11, absent deduction 18000/11, gross 162000/11, social security 7290/11, no tax and net 147420/11 |
| Registry.FindId | EmployeeRecordSystem.c:174-179 | the index found is the first employee with that ID; none is found exactly when no employee has it |
| Registry.FindName | EmployeeRecordSystem.c:181-186 | the index found is the first employee whose name compares equal ignoring case; none is found exactly when no name does |
| Registry.IsNameDuplicate | EmployeeRecordSystem.c:199-206 | true exactly when some employee with a different ID has a name that compares equal ignoring case |
| Registry.IsNameDuplicateIff | EmployeeRecordSystem.c:199-206 | for names without a NUL, a duplicate is another employee whose name equals the given one up to ASCII case |
| Registry.PositionByName | EmployeeRecordSystem.c:208-215 | the position is the one with that display name, or Service Crew when no position has it |
| Registry.PositionNameRoundTrip | EmployeeRecordSystem.c:208-215 | looking up a position's own display name gives that position back |
| Registry.MaxIdOf | EmployeeRecordSystem.c:157-162 | the result bounds every ID in the roster, is at least 1000000, and is either 1000000 or an ID in the roster |
| Registry.FallbackId | EmployeeRecordSystem.c:155-167 | the fallback is a valid seven-digit ID; below the top of the range it is the largest ID plus one and no employee has it; otherwise it is 1000000 |
| Registry.GenerateId | EmployeeRecordSystem.c:143-172 | the ID is the first of the first 99 drawn IDs that no employee holds; when all 99 are taken, it is the fallback |
| Registry.GeneratedIdFresh | EmployeeRecordSystem.c:143-172 | while the largest ID is below 9999999, the generated ID is held by no employee |
| Registry.FallbackCanRepeatId | EmployeeRecordSystem.c:163-166 | a roster holding 1000000 and 9999999, with every draw hitting 1000000, is handed 1000000 again |
| Registry.AddEmployee | EmployeeRecordSystem.c:800-871 | a full roster is refused; otherwise a name failing the check is refused as invalid, then a name some employee holds ignoring case as a duplicate, then a declined confirmation as cancelled, each exactly when it occurs; the employee is appended exactly when the name passes the check, no employee has it ignoring case, and the addition is confirmed; the new employee has the generated ID, the trimmed name, the position's table salary, no attendance and a blank payslip, and no existing entry changes |
| Registry.AddKeepsWellFormed | EmployeeRecordSystem.c:800-871 | while the largest ID is below 9999999, a successful registration keeps the roster within 50 entries, with unique valid IDs and names distinct ignoring case |
| Registry.UpdateEmployee | EmployeeRecordSystem.c:873-961 | an empty roster, an out-of-range ID and an unknown ID are each reported exactly when they occur; a rename is refused as invalid exactly when the name fails the check, and as a duplicate exactly when another employee holds the name; choosing Back, or declining an otherwise acceptable change, is reported as cancelled exactly then; the edit succeeds exactly when the ID is held, the change is confirmed, and it is a reposition or a valid unused name; a successful change touches only the chosen employee, and replaces just the name, or the position together with its table salary |
| Registry.UpdateKeepsWellFormed | EmployeeRecordSystem.c:873-961 | a successful edit keeps the roster within 50 entries, with unique valid IDs and names distinct ignoring case |
| Registry.SwapRemove | EmployeeRecordSystem.c:1008-1009 | removing by swap-with-last shortens the roster by one, moves the last employee into the vacated slot, keeps every other slot, and loses exactly the removed employee (as a multiset) |
| Registry.RemoveEmployee | EmployeeRecordSystem.c:964-1014 | an empty roster, an out-of-range ID and an unknown ID are each reported exactly when they occur; a held ID whose deletion is declined is reported as cancelled exactly then; removal happens exactly when the ID is held and the deletion is confirmed, and it is the swap-with-last at that employee's index |
| Registry.RemoveDropsOnlyThatEmployee | EmployeeRecordSystem.c:1004-1009 | after removal, every other employee is still in the roster, the removed ID is free, and the roster stays well formed |
| Ledger.FindDay | EmployeeRecordSystem.c:528-535 | the index found is the first record of that employee on that date; none is found exactly when there is no such record |
| Ledger.RecordTimeIn | EmployeeRecordSystem.c:499-566 | each refusal is reported exactly when it applies, in the code's order: empty roster, ID out of range, unknown ID, a record already made that day (reporting its time), full ledger. The time-in succeeds exactly when none applies, and then one record is appended with the employee's ID, the printed date and time, 8 hours, no overtime, and Late exactly when the clock reads after 08:00 |
| Ledger.RecordTimeInKeepsOnePerDay | EmployeeRecordSystem.c:528-561 | a time-in keeps at most one record per employee and date |
| Ledger.TimeInIsOnlyRecordOfDay | EmployeeRecordSystem.c:529-554 | after a successful time-in, the new record, carrying the printed time, is the first and only record of that employee on that date |
| Ledger.SecondTimeInSameDay | EmployeeRecordSystem.c:528-535 | a second time-in by the same employee on the same calendar day is refused with the first time-in's time, and the ledger holds exactly one record for that day |
| Ledger.RecordTimeInAddsStandardDay | EmployeeRecordSystem.c:538-544 | a ledger filled by time-ins has 8 hours and no overtime on every record |
| Attendance.Tally | EmployeeRecordSystem.c:588-598 | the late count is at most the days counted, which is at most the ledger's length |
| Attendance.TallyCountsRecords | EmployeeRecordSystem.c:588-598 | days worked is the number of the employee's records (in the period, if one is given) |
| Attendance.TallyCountsLateRecords | EmployeeRecordSystem.c:594-596 | the late count is the number of those records marked late |
| Attendance.TallyCountsDistinctDates | EmployeeRecordSystem.c:588-590 | with at most one record per employee and day, days worked is the number of distinct dates the employee timed in |
| Attendance.MonthWithinAllDates | EmployeeRecordSystem.c:1038-1055 | a month's days, late days, hours and overtime never exceed the all-dates totals |
| Attendance.MonthIsAllWhenOneMonth | EmployeeRecordSystem.c:1038-1055 | when all of an employee's records fall in the period, the month's totals are the all-dates totals |
| Attendance.StandardDaysTotals | EmployeeRecordSystem.c:588-592 | over records of 8 hours and no overtime, the hours are 8 per day counted and the overtime is zero |
| Attendance.TallyLoop | EmployeeRecordSystem.c:588-598 | the loop over the ledger gives the totals of the records that count; its days are their number and its late count the number marked late |
| Attendance.CalculateAttendanceSummary | EmployeeRecordSystem.c:582-612 | each employee's days worked becomes the number of their records over all dates, and hours and overtime become the sums over them; identity, position, salary and payslip are kept; each printed line shows those figures, 22 minus the days as absences, and the number of late records |
| Attendance.MonthlyReport | EmployeeRecordSystem.c:1017-1066 | one line per employee in roster order, counting only records whose month token equals the period; each line carries that month's totals: absences are 22 minus those days, late days are the late ones among them, hours and overtime are the sums over them, and the days never exceed the all-dates count |
| Attendance.MonthWithinAll | EmployeeRecordSystem.c:1038-1055 | the records counted for a month are at most those counted over all dates |
| Attendance.TimeInLedgerPaysNoOvertime | EmployeeRecordSystem.c:666 | a ledger filled only by time-ins, summarized and then paid, gives every employee zero overtime pay |

## Left out

- Menus, the administrator PIN, screen clearing and all `printf` output.
  The only output modelled is the figures of the summary and the report.
- Reading and writing the roster and attendance files (`saveToFile`,
  `loadFromFile`, the attendance file pair and the payslip file). Records
  are taken as given, whatever their origin.
- The clock and the random-number generator. The clock reading is a
  `Stamp` parameter; a year beyond 9999 is not modelled, since its date
  would no longer be 10 characters. The generator's results are a
  sequence of draws; `srand(time(NULL))` seeding is not modelled.
- Single-precision floating point. All money is exact `real`, so rounding
  to cents and float accumulation error are not modelled.
- Re-prompting input loops. A rejected name in registration or editing
  is an `Err` result instead of another prompt. The numeric menu reader
  `getIntInput` and its range re-prompting are replaced by a typed
  parameter: `Position` or `Change`.
- A non-numeric ID typed at the `scanf("%d")` prompts. The model takes
  the ID as an integer.
- `fgets` truncation of names longer than 49 characters; the typed line
  is taken as complete.
- The other mode of the input routine, which skips the character check.
  Only names are read through it in the core.
- Ledger.RecordTimeIn: the `%d:%d` reading of the printed time is
  modelled on the time text. Hours and minutes of more than two digits,
  and text `sscanf` would read differently, cannot arise from the clock
  and are not modelled.
- Clock.MonthToken: a date shorter than five characters makes the C
  copy of characters 5-6 start past the date's terminator, on bytes the
  text does not determine. The model gives no token for it, so such a
  record never counts for a month. Dates of five or six characters are
  modelled as the C reads them.
- The report's period is taken as any text. The C reads it with
  `scanf("%7s")`, which delivers a word of one to seven characters; for
  such words the comparison is the same.
- Text.CaseCmpZeroIff: stated only for names without an embedded NUL.
  A C string cannot hold one, and names from the input routine never do
  (`Text.AcceptedNameHasNoNul`).
- Registry.IsNameDuplicateIff: stated only for names without an embedded
  NUL, for the same reason.
- Registry.AddKeepsWellFormed: stated only while the largest ID is
  below 9999999. Beyond that the fallback can repeat an ID
  (`Registry.FallbackCanRepeatId`), and registration then breaks ID
  uniqueness, as the code does.
- Displaying a stored payslip (`displayEmployeeSalarySlip`) and listing
  employees only print stored fields.

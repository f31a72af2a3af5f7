/** The monthly payroll run: from each employee's salary and aggregated
    attendance it derives the daily rate, the absent deduction, overtime pay,
    gross pay, three flat-rate contributions, withholding tax on the full
    gross and net pay, and stores them as the employee's payslip snapshot.

    Gross pay is basic pay for the days worked, minus an absent deduction
    for the days missed, plus overtime: the missed days are therefore
    deducted twice, and below 22 days gross pay falls to
    `dailyRate * (2 * days - 22)`, which is negative under 11 days. */
module Payroll {
  import opened Records
  import Tax

  /** Social security, health insurance and housing fund contributions,
      each a flat share of gross pay. */
  const SssRate: real := 0.045
  const PhilHealthRate: real := 0.025
  const PagIbigRate: real := 0.02

  const OvertimeMultiplier: real := 1.25

  /** Share of gross pay left after the three contributions. */
  const AfterContributions: real := 1.0 - (SssRate + PhilHealthRate + PagIbigRate)

  /** One employee's payroll computation, step by step in the order the
      payroll run performs it. */
  function ComputePayslip(monthlySalary: real, daysWorked: int, overtimeHours: real): (p: Payslip)
    ensures p.dailyRate * StandardWorkingDays as real == monthlySalary
    ensures daysWorked < StandardWorkingDays ==>
      p.absentDeduct == (StandardWorkingDays - daysWorked) as real * p.dailyRate
    ensures daysWorked >= StandardWorkingDays ==> p.absentDeduct == 0.0
    ensures monthlySalary >= 0.0 ==> p.absentDeduct >= 0.0
    ensures p.overtimePay * 176.0 == overtimeHours * monthlySalary * OvertimeMultiplier
    ensures p.grossPay == p.dailyRate * daysWorked as real - p.absentDeduct + p.overtimePay
    ensures p.sss == p.grossPay * SssRate
    ensures p.philHealth == p.grossPay * PhilHealthRate
    ensures p.pagIbig == p.grossPay * PagIbigRate
    ensures p.incomeTax == Tax.IncomeTax(p.grossPay)
    ensures p.netPay == p.grossPay * AfterContributions - p.incomeTax
  {
    var dailyRate := monthlySalary / StandardWorkingDays as real;
    var hourlyRate := dailyRate / HoursPerDay;
    var basicSalary := dailyRate * daysWorked as real;
    var absentDeduct :=
      if daysWorked < StandardWorkingDays then (StandardWorkingDays - daysWorked) as real * dailyRate
      else 0.0;
    var overtimePay := overtimeHours * hourlyRate * OvertimeMultiplier;
    var grossPay := (basicSalary - absentDeduct) + overtimePay;
    var sss := grossPay * SssRate;
    var philHealth := grossPay * PhilHealthRate;
    var pagIbig := grossPay * PagIbigRate;
    var taxableIncome := grossPay;
    var incomeTax := Tax.IncomeTax(taxableIncome);
    var totalDeduction := sss + philHealth + pagIbig + incomeTax;
    Payslip(dailyRate, absentDeduct, overtimePay, grossPay, grossPay - totalDeduction,
            sss, philHealth, pagIbig, incomeTax)
  }

  /** The payslip a payroll run computes for an employee's current figures. */
  function PayslipOf(e: Employee): Payslip {
    ComputePayslip(e.monthlySalary, e.daysWorked, e.totalOvertimeHours)
  }

  /** Everything of an employee except the payslip snapshot is the same. */
  predicate SameExceptPayslip(a: Employee, b: Employee) {
    && a.id == b.id
    && a.name == b.name
    && a.position == b.position
    && a.monthlySalary == b.monthlySalary
    && a.daysWorked == b.daysWorked
    && a.totalOvertimeHours == b.totalOvertimeHours
    && a.totalHoursWorked == b.totalHoursWorked
  }

  /** A payroll run over the whole roster: each employee keeps identity,
      position, salary and attendance totals, and gets a fresh payslip
      computed from exactly those figures. */
  function RunPayroll(roster: seq<Employee>): (after: seq<Employee>)
    ensures |after| == |roster|
    ensures forall i :: 0 <= i < |roster| ==>
      SameExceptPayslip(after[i], roster[i]) && after[i].last == PayslipOf(roster[i])
  {
    seq(|roster|, i requires 0 <= i < |roster| => roster[i].(last := PayslipOf(roster[i])))
  }

  /** A second run straight after the first changes nothing: the run reads
      only the fields it leaves alone. */
  lemma RunPayrollIdempotent(roster: seq<Employee>)
    ensures RunPayroll(RunPayroll(roster)) == RunPayroll(roster)
  {
    var once := RunPayroll(roster);
    var twice := RunPayroll(once);
    assert forall i :: 0 <= i < |roster| ==> PayslipOf(once[i]) == PayslipOf(roster[i]);
    assert forall i :: 0 <= i < |roster| ==> twice[i] == once[i];
  }

  /** With the standard 22 days and no overtime there is no absent
      deduction and gross pay is the monthly salary. */
  lemma FullMonthGross(monthlySalary: real)
    ensures ComputePayslip(monthlySalary, StandardWorkingDays, 0.0).absentDeduct == 0.0
    ensures ComputePayslip(monthlySalary, StandardWorkingDays, 0.0).grossPay == monthlySalary
  {
  }

  /** Below 22 days and without overtime, gross pay is the daily rate times
      twice the days worked less 22: absences are deducted twice. */
  lemma ShortMonthGross(monthlySalary: real, days: int)
    requires 0 <= days < StandardWorkingDays
    ensures var p := ComputePayslip(monthlySalary, days, 0.0);
      p.grossPay == p.dailyRate * (2 * days - StandardWorkingDays) as real
  {
  }

  /** With no day worked the gross pay is the negated monthly salary, no
      tax is due and net pay is 91% of that negative gross. */
  lemma ZeroDaysGross(monthlySalary: real)
    requires monthlySalary >= 0.0
    ensures var p := ComputePayslip(monthlySalary, 0, 0.0);
      && p.grossPay == -monthlySalary
      && p.incomeTax == 0.0
      && p.netPay == -monthlySalary * AfterContributions
  {
  }

  /** For a non-negative gross pay, every deduction is non-negative, net pay
      is at most gross pay, and net plus all deductions gives gross back. */
  lemma DeductionsOfNonNegativeGross(monthlySalary: real, days: int, overtimeHours: real)
    requires ComputePayslip(monthlySalary, days, overtimeHours).grossPay >= 0.0
    ensures var p := ComputePayslip(monthlySalary, days, overtimeHours);
      && p.sss >= 0.0 && p.philHealth >= 0.0 && p.pagIbig >= 0.0 && p.incomeTax >= 0.0
      && p.netPay <= p.grossPay
      && p.netPay + p.sss + p.philHealth + p.pagIbig + p.incomeTax == p.grossPay
  {
  }

  /** Net pay never rises by more than 91 cents per peso of gross: between
      two gross amounts, net pay grows at most by 91% of the difference. */
  lemma NetPayGrowthBounded(salary1: real, days1: int, ot1: real, salary2: real, days2: int, ot2: real)
    requires ComputePayslip(salary1, days1, ot1).grossPay <= ComputePayslip(salary2, days2, ot2).grossPay
    ensures var p := ComputePayslip(salary1, days1, ot1);
      var q := ComputePayslip(salary2, days2, ot2);
      q.netPay - p.netPay <= (q.grossPay - p.grossPay) * AfterContributions
  {
    var p := ComputePayslip(salary1, days1, ot1);
    var q := ComputePayslip(salary2, days2, ot2);
    Tax.IncomeTaxMonotone(p.grossPay, q.grossPay);
  }

  /** A Service Crew member (18000 a month) with 20 days and no overtime:
      daily rate 9000/11, absent deduction 18000/11, gross 162000/11
      (about 14727.27), no tax, net 147420/11 (about 13401.82). */
  lemma TwentyDayServiceCrew()
    ensures var p := ComputePayslip(PositionSalary(ServiceCrew), 20, 0.0);
      && p.dailyRate == 9000.0 / 11.0
      && p.absentDeduct == 18000.0 / 11.0
      && p.grossPay == 162000.0 / 11.0
      && p.incomeTax == 0.0
      && p.sss == 7290.0 / 11.0
      && p.netPay == 147420.0 / 11.0
  {
  }
}

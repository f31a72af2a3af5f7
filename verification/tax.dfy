/** The monthly withholding-tax schedule: six brackets, the first tax-free,
    each higher one a fixed base plus a rate on the excess over its lower
    limit. The bases do not continue the previous bracket, so the schedule
    steps upward at four of its limits. */
module Tax {

  const Tier1Limit: real := 20833.0
  const Tier2Limit: real := 33333.0
  const Tier3Limit: real := 66667.0
  const Tier4Limit: real := 166667.0
  const Tier5Limit: real := 666667.0

  const Tier2Rate: real := 0.15
  const Tier3Rate: real := 0.20
  const Tier4Rate: real := 0.25
  const Tier5Rate: real := 0.30
  const Tier6Rate: real := 0.35

  const Tier2Base: real := 0.0
  const Tier3Base: real := 2500.0
  const Tier4Base: real := 10833.33
  const Tier5Base: real := 40833.33
  const Tier6Base: real := 200833.33

  /** Tax on a taxable income, bracket by bracket, each bracket closed at
      its upper limit. */
  function IncomeTax(income: real): (tax: real)
    ensures income <= Tier1Limit ==> tax == 0.0
    ensures tax >= 0.0
  {
    if income <= Tier1Limit then 0.0
    else if income <= Tier2Limit then (income - Tier1Limit) * Tier2Rate
    else if income <= Tier3Limit then Tier3Base + (income - Tier2Limit) * Tier3Rate
    else if income <= Tier4Limit then Tier4Base + (income - Tier3Limit) * Tier4Rate
    else if income <= Tier5Limit then Tier5Base + (income - Tier4Limit) * Tier5Rate
    else Tier6Base + (income - Tier5Limit) * Tier6Rate
  }

  /** One taxed bracket of a schedule: incomes above `lower` pay `base`
      plus `rate` on the excess, until a later bracket takes over. */
  datatype Bracket = Bracket(lower: real, base: real, rate: real)

  /** What a bracket charges on an income above its lower limit. */
  function Charge(b: Bracket, income: real): real {
    b.base + (income - b.lower) * b.rate
  }

  /** The taxed brackets of the schedule above; incomes at or below the
      first lower limit pay nothing. */
  const Schedule: seq<Bracket> := [
    Bracket(Tier1Limit, Tier2Base, Tier2Rate),
    Bracket(Tier2Limit, Tier3Base, Tier3Rate),
    Bracket(Tier3Limit, Tier4Base, Tier4Rate),
    Bracket(Tier4Limit, Tier5Base, Tier5Rate),
    Bracket(Tier5Limit, Tier6Base, Tier6Rate)
  ]

  /** Tax read off a bracket table: the last bracket whose lower limit the
      income exceeds decides; no such bracket means no tax. */
  function TableTax(table: seq<Bracket>, income: real): real {
    if |table| == 0 then 0.0
    else
      var b := table[|table| - 1];
      if b.lower < income then Charge(b, income)
      else TableTax(table[..|table| - 1], income)
  }

  /** A table that never taxes a higher income less: limits strictly
      increase, bases and rates are non-negative, and each base is at least
      what the previous bracket charges at the new lower limit (a step up,
      never down). */
  predicate NoDownwardSteps(table: seq<Bracket>) {
    && (forall i :: 0 <= i < |table| ==> table[i].base >= 0.0 && table[i].rate >= 0.0)
    && (forall i :: 0 < i < |table| ==>
          table[i - 1].lower < table[i].lower && Charge(table[i - 1], table[i].lower) <= table[i].base)
  }

  /** The bracket-by-bracket definition and the table agree everywhere. */
  lemma IncomeTaxIsTableTax(income: real)
    ensures IncomeTax(income) == TableTax(Schedule, income)
  {
    var t := Schedule;
    assert t[..5][..4] == t[..4] && t[..4][..3] == t[..3];
    assert t[..3][..2] == t[..2] && t[..2][..1] == t[..1] && t[..1][..0] == [];
    assert TableTax(t[..1], income) == if Tier1Limit < income then (income - Tier1Limit) * Tier2Rate else 0.0;
    assert TableTax(t[..2], income) == if Tier2Limit < income then Tier3Base + (income - Tier2Limit) * Tier3Rate
      else TableTax(t[..1], income);
    assert TableTax(t[..3], income) == if Tier3Limit < income then Tier4Base + (income - Tier3Limit) * Tier4Rate
      else TableTax(t[..2], income);
    assert TableTax(t[..4], income) == if Tier4Limit < income then Tier5Base + (income - Tier4Limit) * Tier5Rate
      else TableTax(t[..3], income);
    assert t == t[..5];
  }

  lemma ScheduleHasNoDownwardSteps()
    ensures NoDownwardSteps(Schedule)
  {
  }

  /** A bracket with a non-negative rate charges more on a larger income,
      and at least its base above its lower limit. */
  lemma ChargeMonotone(b: Bracket, x: real, y: real)
    requires x <= y && b.rate >= 0.0
    ensures Charge(b, x) <= Charge(b, y)
    ensures b.lower <= x ==> b.base <= Charge(b, x)
  {
    assert (y - b.lower) * b.rate - (x - b.lower) * b.rate == (y - x) * b.rate;
  }

  /** A table tax is never negative. */
  lemma {:induction false} TableTaxNonNegative(table: seq<Bracket>, income: real)
    requires NoDownwardSteps(table)
    ensures TableTax(table, income) >= 0.0
  {
    if |table| > 0 {
      var b := table[|table| - 1];
      assert b.base >= 0.0 && b.rate >= 0.0;
      if b.lower < income {
        ChargeMonotone(b, income, income);
      } else {
        TableTaxNonNegative(table[..|table| - 1], income);
      }
    }
  }

  /** Up to a bracket's lower limit, the earlier brackets never charge more
      than that bracket's base. */
  lemma {:induction false} TableTaxBelowBase(table: seq<Bracket>, income: real)
    requires NoDownwardSteps(table) && |table| > 0
    requires income <= table[|table| - 1].lower
    ensures TableTax(table[..|table| - 1], income) <= table[|table| - 1].base
    decreases |table|, 0
  {
    var n := |table|;
    var prefix := table[..n - 1];
    var top := table[n - 1];
    assert NoDownwardSteps(prefix);
    if n > 1 {
      var b := prefix[n - 2];
      assert b == table[n - 2];
      TableTaxMonotone(prefix, income, top.lower);
      assert TableTax(prefix, top.lower) == Charge(b, top.lower);
    }
  }

  /** A table without downward steps never taxes a higher income less. */
  lemma {:induction false} TableTaxMonotone(table: seq<Bracket>, a: real, b: real)
    requires NoDownwardSteps(table) && a <= b
    ensures TableTax(table, a) <= TableTax(table, b)
    decreases |table|, 1
  {
    if |table| > 0 {
      var top := table[|table| - 1];
      var prefix := table[..|table| - 1];
      assert NoDownwardSteps(prefix);
      assert top.rate >= 0.0;
      if top.lower < a {
        ChargeMonotone(top, a, b);
      } else if top.lower < b {
        TableTaxMonotone(prefix, a, top.lower);
        TableTaxBelowBase(table, top.lower);
        ChargeMonotone(top, b, b);
      } else {
        TableTaxMonotone(prefix, a, b);
      }
    }
  }

  /** The withholding tax never decreases as income grows. */
  lemma IncomeTaxMonotone(a: real, b: real)
    requires a <= b
    ensures IncomeTax(a) <= IncomeTax(b)
  {
    IncomeTaxIsTableTax(a);
    IncomeTaxIsTableTax(b);
    ScheduleHasNoDownwardSteps();
    TableTaxMonotone(Schedule, a, b);
  }

  /** The schedule is not continuous: at each of the four upper limits from
      33333 on, the tax at the limit is strictly below the next bracket's
      base, which every higher income pays at least. */
  lemma IncomeTaxSteps(income: real)
    ensures Tier2Limit < income ==> IncomeTax(Tier2Limit) == 1875.0 && IncomeTax(income) > Tier3Base
    ensures Tier3Limit < income ==> IncomeTax(Tier3Limit) == 9166.8 && IncomeTax(income) > Tier4Base
    ensures Tier4Limit < income ==> IncomeTax(Tier4Limit) == 35833.33 && IncomeTax(income) > Tier5Base
    ensures Tier5Limit < income ==> IncomeTax(Tier5Limit) == 190833.33 && IncomeTax(income) > Tier6Base
  {
  }
}

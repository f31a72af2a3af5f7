/** The employee roster: lookups by ID and by name, the duplicate-name
    check, the position table lookup, ID generation, and the state changes
    of registering, editing and removing an employee. Interactive prompts
    become parameters: the typed name line, the chosen position, the answer
    to the confirmation question and the values the random generator
    would return. */
module Registry {
  import opened Records
  import opened Text

  /** Index of the first employee with this ID, scanning from `from`. */
  function FindIdFrom(roster: seq<Employee>, id: int, from: nat): (r: Option<nat>)
    requires from <= |roster|
    ensures r.Some? ==>
      && from <= r.value < |roster| && roster[r.value].id == id
      && forall j :: from <= j < r.value ==> roster[j].id != id
    ensures r.None? ==> forall j :: from <= j < |roster| ==> roster[j].id != id
    decreases |roster| - from
  {
    if from == |roster| then None
    else if roster[from].id == id then Some(from)
    else FindIdFrom(roster, id, from + 1)
  }

  /** Index of the first employee with this ID, or none. */
  function FindId(roster: seq<Employee>, id: int): (r: Option<nat>)
    ensures r.Some? ==>
      && r.value < |roster| && roster[r.value].id == id
      && forall j :: 0 <= j < r.value ==> roster[j].id != id
    ensures r.None? <==> forall j :: 0 <= j < |roster| ==> roster[j].id != id
  {
    FindIdFrom(roster, id, 0)
  }

  /** No employee carries this ID. */
  predicate IdFree(roster: seq<Employee>, id: int) {
    forall j :: 0 <= j < |roster| ==> roster[j].id != id
  }

  /** Index of the first employee whose name compares equal ignoring case,
      scanning from `from`. */
  function FindNameFrom(roster: seq<Employee>, name: string, from: nat): (r: Option<nat>)
    requires from <= |roster|
    ensures r.Some? ==>
      && from <= r.value < |roster| && CaseCmp(roster[r.value].name, name) == 0
      && forall j :: from <= j < r.value ==> CaseCmp(roster[j].name, name) != 0
    ensures r.None? ==> forall j :: from <= j < |roster| ==> CaseCmp(roster[j].name, name) != 0
    decreases |roster| - from
  {
    if from == |roster| then None
    else if CaseCmp(roster[from].name, name) == 0 then Some(from)
    else FindNameFrom(roster, name, from + 1)
  }

  /** Index of the first employee whose name compares equal ignoring case. */
  function FindName(roster: seq<Employee>, name: string): (r: Option<nat>)
    ensures r.Some? ==>
      && r.value < |roster| && CaseCmp(roster[r.value].name, name) == 0
      && forall j :: 0 <= j < r.value ==> CaseCmp(roster[j].name, name) != 0
    ensures r.None? <==> forall j :: 0 <= j < |roster| ==> CaseCmp(roster[j].name, name) != 0
  {
    FindNameFrom(roster, name, 0)
  }

  /** Whether an employee other than the one with `excludeId` already has
      this name, ignoring case. */
  function NameTakenFrom(roster: seq<Employee>, name: string, excludeId: int, from: nat): (taken: bool)
    requires from <= |roster|
    ensures taken <==>
      exists j :: from <= j < |roster| && roster[j].id != excludeId && CaseCmp(roster[j].name, name) == 0
    decreases |roster| - from
  {
    if from == |roster| then false
    else if roster[from].id != excludeId && CaseCmp(roster[from].name, name) == 0 then true
    else NameTakenFrom(roster, name, excludeId, from + 1)
  }

  function IsNameDuplicate(roster: seq<Employee>, name: string, excludeId: int): (taken: bool)
    ensures taken <==>
      exists j :: 0 <= j < |roster| && roster[j].id != excludeId && CaseCmp(roster[j].name, name) == 0
  {
    NameTakenFrom(roster, name, excludeId, 0)
  }

  /** For names held as C strings, a duplicate is another employee whose
      name equals the given one up to ASCII case. */
  lemma IsNameDuplicateIff(roster: seq<Employee>, name: string, excludeId: int)
    requires NoNul(name) && forall j :: 0 <= j < |roster| ==> NoNul(roster[j].name)
    ensures IsNameDuplicate(roster, name, excludeId) <==>
      exists j :: 0 <= j < |roster| && roster[j].id != excludeId && EqualIgnoreCase(roster[j].name, name)
  {
    forall j | 0 <= j < |roster| {
      CaseCmpZeroIff(roster[j].name, name);
    }
  }

  /** Position recorded under this display name; an unknown name falls back
      to Service Crew. */
  function PositionByName(name: string): (p: Position)
    ensures PositionName(p) == name || (p == ServiceCrew && forall q :: PositionName(q) != name)
  {
    if name == PositionName(ServiceCrew) then ServiceCrew
    else if name == PositionName(Cooker) then Cooker
    else if name == PositionName(CounterCrew) then CounterCrew
    else ServiceCrew
  }

  /** Writing a position's name and reading it back gives the position. */
  lemma PositionNameRoundTrip(p: Position)
    ensures PositionByName(PositionName(p)) == p
  {
  }

  /** Names in the roster are pairwise different, ignoring case. */
  predicate DistinctNames(roster: seq<Employee>) {
    forall i, j :: 0 <= i < j < |roster| ==> CaseCmp(roster[i].name, roster[j].name) != 0
  }

  /** What registration, editing and removal keep true of the roster. */
  predicate WellFormed(roster: seq<Employee>) {
    && |roster| <= MaxEmployees
    && UniqueIds(roster)
    && DistinctNames(roster)
    && forall j :: 0 <= j < |roster| ==> ValidId(roster[j].id)
  }

  /** The largest ID in the roster, starting from the smallest valid ID. */
  function MaxIdOf(roster: seq<Employee>): (m: int)
    ensures m >= MinId
    ensures forall j :: 0 <= j < |roster| ==> roster[j].id <= m
    ensures m == MinId || exists j :: 0 <= j < |roster| && roster[j].id == m
  {
    if |roster| == 0 then MinId
    else
      var m := MaxIdOf(roster[..|roster| - 1]);
      var last := roster[|roster| - 1].id;
      assert forall j :: 0 <= j < |roster| - 1 ==> roster[..|roster| - 1][j] == roster[j];
      if last > m then last else m
  }

  /** The deterministic fallback ID: one past the largest ID, wrapped to the
      smallest valid ID when that leaves the seven-digit range. */
  function FallbackId(roster: seq<Employee>): (id: int)
    ensures ValidId(id)
    ensures MaxIdOf(roster) < MaxId ==> id == MaxIdOf(roster) + 1 && IdFree(roster, id)
    ensures MaxIdOf(roster) >= MaxId ==> id == MinId
  {
    var id := MaxIdOf(roster) + 1;
    if id > MaxId then MinId else id
  }

  /** The generator tries at most this many times. */
  const MaxAttempts: nat := 100
  /** Size of the seven-digit ID space. */
  const IdSpan: nat := 9000000

  /** The ID a random draw stands for. */
  function DrawnId(draw: nat): (id: int)
    ensures ValidId(id)
  {
    MinId + draw % IdSpan
  }

  /** Attempt number `k + 1` of the generator: the hundredth attempt gives
      up on its draw and takes the fallback; an earlier one keeps its drawn
      ID when it is free and tries again otherwise. */
  function AttemptFrom(roster: seq<Employee>, draws: seq<nat>, k: nat): (id: int)
    requires |draws| >= MaxAttempts && k < MaxAttempts
    ensures ValidId(id)
    ensures
      || (exists j :: k <= j < MaxAttempts - 1 && id == DrawnId(draws[j]) && IdFree(roster, id)
            && forall i :: k <= i < j ==> !IdFree(roster, DrawnId(draws[i])))
      || (id == FallbackId(roster) && forall i :: k <= i < MaxAttempts - 1 ==> !IdFree(roster, DrawnId(draws[i])))
    decreases MaxAttempts - k
  {
    if k + 1 >= MaxAttempts then FallbackId(roster)
    else
      var id := DrawnId(draws[k]);
      if FindId(roster, id).None? then id else AttemptFrom(roster, draws, k + 1)
  }

  /** A new employee ID from the random draws: the first of the first 99
      drawn IDs that no employee has, or the fallback when all 99 are taken. */
  function GenerateId(roster: seq<Employee>, draws: seq<nat>): (id: int)
    requires |draws| >= MaxAttempts
    ensures ValidId(id)
    ensures
      || (exists j :: 0 <= j < MaxAttempts - 1 && id == DrawnId(draws[j]) && IdFree(roster, id)
            && forall i :: 0 <= i < j ==> !IdFree(roster, DrawnId(draws[i])))
      || (id == FallbackId(roster) && forall i :: 0 <= i < MaxAttempts - 1 ==> !IdFree(roster, DrawnId(draws[i])))
  {
    AttemptFrom(roster, draws, 0)
  }

  /** While the largest ID is below the top of the range, a generated ID is
      always one no employee has. */
  lemma GeneratedIdFresh(roster: seq<Employee>, draws: seq<nat>)
    requires |draws| >= MaxAttempts && MaxIdOf(roster) < MaxId
    ensures IdFree(roster, GenerateId(roster, draws))
  {
  }

  /** Once an employee holds the top ID 9999999, the fallback wraps to
      1000000 without checking it: here every draw hits 1000000, which is
      taken, and the generator hands it out again. */
  lemma FallbackCanRepeatId()
    ensures var roster := [NewEmployee(MinId, "Ana", ServiceCrew), NewEmployee(MaxId, "Ben", Cooker)];
      var draws := seq(MaxAttempts, i => 0);
      GenerateId(roster, draws) == MinId && !IdFree(roster, MinId)
  {
    var roster := [NewEmployee(MinId, "Ana", ServiceCrew), NewEmployee(MaxId, "Ben", Cooker)];
    var draws := seq(MaxAttempts, i => 0);
    assert MaxIdOf(roster) == MaxId by {
      assert roster[..1][..0] == [];
      assert roster[..1] == [roster[0]];
    }
    assert !IdFree(roster, DrawnId(0)) by { assert roster[0].id == MinId; }
    assert forall i :: 0 <= i < MaxAttempts - 1 ==> !IdFree(roster, DrawnId(draws[i]));
  }

  /** A freshly registered employee: salary from the position table, no
      attendance, a blank payslip. */
  function NewEmployee(id: int, name: string, position: Position): Employee {
    Employee(id, name, position, PositionSalary(position), 0, 0.0, 0.0, BlankPayslip)
  }

  /** Registering an employee from a typed name line and a chosen position.
      A full roster, an unacceptable name, a name already present (ignoring
      case) or a declined confirmation leave the roster as it was. */
  function AddEmployee(roster: seq<Employee>, draws: seq<nat>, line: string, position: Position, confirm: bool)
    : (r: Result<seq<Employee>>)
    requires |draws| >= MaxAttempts
    ensures r == Err(RosterFull) <==> |roster| >= MaxEmployees
    ensures r.Ok? <==>
      && |roster| < MaxEmployees
      && CheckName(line).NameOk?
      && FindName(roster, Trim(line)).None?
      && confirm
    ensures r == Err(InvalidName) <==> |roster| < MaxEmployees && !CheckName(line).NameOk?
    ensures r == Err(DuplicateName) <==>
      && |roster| < MaxEmployees
      && CheckName(line).NameOk?
      && FindName(roster, Trim(line)).Some?
    ensures r == Err(Cancelled) <==>
      && |roster| < MaxEmployees
      && CheckName(line).NameOk?
      && FindName(roster, Trim(line)).None?
      && !confirm
    ensures r.Ok? ==>
      && |r.value| == |roster| + 1
      && r.value[..|roster|] == roster
      && var e := r.value[|roster|];
      && e.id == GenerateId(roster, draws)
      && e.name == Trim(line)
      && e.position == position
      && e.monthlySalary == PositionSalary(position)
      && e.daysWorked == 0 && e.totalOvertimeHours == 0.0 && e.totalHoursWorked == 0.0
      && e.last == BlankPayslip
  {
    if |roster| >= MaxEmployees then Err(RosterFull)
    else
      var id := GenerateId(roster, draws);
      match CheckName(line)
      case NameOk(name) =>
        if FindName(roster, name).Some? then Err(DuplicateName)
        else if !confirm then Err(Cancelled)
        else Ok(roster + [NewEmployee(id, name, position)])
      case _ => Err(InvalidName)
  }

  /** Registration keeps the roster well formed while the largest ID is
      below 9999999, since the generated ID is then always free. */
  lemma AddKeepsWellFormed(roster: seq<Employee>, draws: seq<nat>, line: string, position: Position, confirm: bool)
    requires |draws| >= MaxAttempts && WellFormed(roster) && MaxIdOf(roster) < MaxId
    ensures var r := AddEmployee(roster, draws, line, position, confirm);
      r.Ok? ==> WellFormed(r.value)
  {
    var r := AddEmployee(roster, draws, line, position, confirm);
    if r.Ok? {
      GeneratedIdFresh(roster, draws);
      var e := r.value[|roster|];
      assert r.value == roster + [e];
      AppendKeepsWellFormed(roster, e);
    }
  }

  /** Appending an employee with a free, valid ID and a name no one holds
      keeps a roster below capacity well formed. */
  lemma AppendKeepsWellFormed(roster: seq<Employee>, e: Employee)
    requires WellFormed(roster) && |roster| < MaxEmployees
    requires IdFree(roster, e.id) && ValidId(e.id) && FindName(roster, e.name).None?
    ensures WellFormed(roster + [e])
  {
    var after := roster + [e];
    assert forall j :: 0 <= j < |roster| ==> after[j] == roster[j];
  }

  /** What an edit of one employee changes. */
  datatype Change = Rename(line: string) | Reposition(position: Position) | Back

  /** Editing the employee with the given ID: a new name (checked and not
      held by anyone else, ignoring case) or a new position whose table
      salary replaces the old one. Choosing "Back" or declining the
      confirmation restores the original record. */
  function UpdateEmployee(roster: seq<Employee>, id: int, change: Change, confirm: bool)
    : (r: Result<seq<Employee>>)
    ensures r == Err(RosterEmpty) <==> |roster| == 0
    ensures r == Err(InvalidId) <==> |roster| > 0 && !ValidId(id)
    ensures r == Err(NotFound) <==> |roster| > 0 && ValidId(id) && IdFree(roster, id)
    ensures r.Ok? <==>
      && |roster| > 0 && ValidId(id) && !IdFree(roster, id) && confirm
      && (|| change.Reposition?
          || (change.Rename? && CheckName(change.line).NameOk? && !IsNameDuplicate(roster, Trim(change.line), id)))
    ensures r == Err(InvalidName) <==>
      && |roster| > 0 && ValidId(id) && !IdFree(roster, id)
      && change.Rename? && !CheckName(change.line).NameOk?
    ensures r.Ok? ==>
      && confirm && !change.Back? && FindId(roster, id).Some?
      && var i := FindId(roster, id).value;
      && |r.value| == |roster|
      && (forall j :: 0 <= j < |roster| && j != i ==> r.value[j] == roster[j])
      && (change.Rename? ==>
            && CheckName(change.line).NameOk?
            && !IsNameDuplicate(roster, Trim(change.line), id)
            && r.value[i] == roster[i].(name := Trim(change.line)))
      && (change.Reposition? ==>
            r.value[i] == roster[i].(position := change.position, monthlySalary := PositionSalary(change.position)))
    ensures r.Err? && r.failure == DuplicateName <==>
      && |roster| > 0 && ValidId(id) && !IdFree(roster, id)
      && change.Rename? && CheckName(change.line).NameOk?
      && IsNameDuplicate(roster, Trim(change.line), id)
    ensures r == Err(Cancelled) <==>
      && |roster| > 0 && ValidId(id) && !IdFree(roster, id)
      && (|| change.Back?
          || (&& !confirm
              && (|| change.Reposition?
                  || (change.Rename? && CheckName(change.line).NameOk? && !IsNameDuplicate(roster, Trim(change.line), id)))))
  {
    if |roster| == 0 then Err(RosterEmpty)
    else if !ValidId(id) then Err(InvalidId)
    else match FindId(roster, id)
      case None => Err(NotFound)
      case Some(i) =>
        var e := roster[i];
        match change
        case Back => Err(Cancelled)
        case Rename(line) =>
          (match CheckName(line)
           case NameOk(name) =>
             if IsNameDuplicate(roster, name, e.id) then Err(DuplicateName)
             else if !confirm then Err(Cancelled)
             else Ok(roster[i := e.(name := name)])
           case _ => Err(InvalidName))
        case Reposition(p) =>
          if !confirm then Err(Cancelled)
          else Ok(roster[i := e.(position := p, monthlySalary := PositionSalary(p))])
  }

  /** Editing keeps the roster well formed. */
  lemma UpdateKeepsWellFormed(roster: seq<Employee>, id: int, change: Change, confirm: bool)
    requires WellFormed(roster)
    ensures var r := UpdateEmployee(roster, id, change, confirm);
      r.Ok? ==> WellFormed(r.value)
  {
    var r := UpdateEmployee(roster, id, change, confirm);
    if r.Ok? && change.Rename? {
      var after := r.value;
      var i := FindId(roster, id).value;
      var name := Trim(change.line);
      forall j | 0 <= j < |roster| && j != i
        ensures CaseCmp(after[j].name, after[i].name) != 0 && CaseCmp(after[i].name, after[j].name) != 0
      {
        assert roster[j].id != id;
        CaseCmpAntisymmetric(roster[j].name, name);
      }
    }
  }

  /** Removal by swap-with-last: the last employee moves into the vacated
      slot and the roster shrinks by one; every other position keeps its
      employee, and the removed employee is the only one lost. */
  function SwapRemove(roster: seq<Employee>, i: nat): (after: seq<Employee>)
    requires i < |roster|
    ensures |after| == |roster| - 1
    ensures forall k :: 0 <= k < |after| && k != i ==> after[k] == roster[k]
    ensures i < |after| ==> after[i] == roster[|roster| - 1]
    ensures multiset(after) + multiset{roster[i]} == multiset(roster)
  {
    var after := roster[i := roster[|roster| - 1]][..|roster| - 1];
    SwapRemoveMultiset(roster, i);
    after
  }

  lemma SwapRemoveMultiset(roster: seq<Employee>, i: nat)
    requires i < |roster|
    ensures multiset(roster[i := roster[|roster| - 1]][..|roster| - 1]) + multiset{roster[i]} == multiset(roster)
  {
    var n := |roster|;
    var after := roster[i := roster[n - 1]][..n - 1];
    if i < n - 1 {
      assert roster == roster[..i] + [roster[i]] + roster[i + 1..n - 1] + [roster[n - 1]];
      assert after == roster[..i] + [roster[n - 1]] + roster[i + 1..n - 1];
    } else {
      assert roster == after + [roster[i]];
    }
  }

  /** Removing the employee with the given ID after confirmation. */
  function RemoveEmployee(roster: seq<Employee>, id: int, confirm: bool): (r: Result<seq<Employee>>)
    ensures r == Err(RosterEmpty) <==> |roster| == 0
    ensures r == Err(InvalidId) <==> |roster| > 0 && !ValidId(id)
    ensures r == Err(NotFound) <==> |roster| > 0 && ValidId(id) && IdFree(roster, id)
    ensures r.Ok? <==> confirm && ValidId(id) && !IdFree(roster, id)
    ensures r.Ok? ==> r.value == SwapRemove(roster, FindId(roster, id).value)
    ensures r == Err(Cancelled) <==> ValidId(id) && !IdFree(roster, id) && !confirm
  {
    if |roster| == 0 then Err(RosterEmpty)
    else if !ValidId(id) then Err(InvalidId)
    else match FindId(roster, id)
      case None => Err(NotFound)
      case Some(i) => if !confirm then Err(Cancelled) else Ok(SwapRemove(roster, i))
  }

  /** Removal drops exactly the employee with that ID: every other employee
      is still there, the ID is free afterwards, and the roster stays well
      formed. */
  lemma RemoveDropsOnlyThatEmployee(roster: seq<Employee>, id: int)
    requires WellFormed(roster) && RemoveEmployee(roster, id, true).Ok?
    ensures var after := RemoveEmployee(roster, id, true).value;
      && |after| == |roster| - 1
      && (forall j :: 0 <= j < |roster| && roster[j].id != id ==> roster[j] in after)
      && IdFree(after, id)
      && WellFormed(after)
  {
    var i := FindId(roster, id).value;
    var after := SwapRemove(roster, i);
    var n := |roster|;
    forall j | 0 <= j < n && roster[j].id != id
      ensures roster[j] in after
    {
      if j == n - 1 { assert after[i] == roster[j]; } else { assert after[j] == roster[j]; }
    }
    forall k1, k2 | 0 <= k1 < k2 < n - 1
      ensures after[k1].id != after[k2].id
      ensures CaseCmp(after[k1].name, after[k2].name) != 0
    {
      if k1 == i {
        assert after[k1] == roster[n - 1] && after[k2] == roster[k2];
        CaseCmpAntisymmetric(roster[k2].name, roster[n - 1].name);
      } else if k2 == i {
        assert after[k1] == roster[k1] && after[k2] == roster[n - 1];
      } else {
        assert after[k1] == roster[k1] && after[k2] == roster[k2];
      }
    }
    forall k | 0 <= k < n - 1 ensures after[k].id != id && ValidId(after[k].id) {
      if k == i { assert after[k] == roster[n - 1]; } else { assert after[k] == roster[k]; }
    }
  }
}

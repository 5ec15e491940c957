/** `WorkforceSimulator` (simulator/workforce_simulator.py): the employee
    list and the operations that write each employee's `schedule` and
    `breaksTaken` in place. */
module Simulator {
  import opened Helpers
  import opened Constraints
  import opened Fallback
  import opened Breaks
  import opened Optimization
  import opened Entities

  class WorkforceSimulator {
    var employees: seq<Employee>

    /** Every employee object appears once, so writing one employee's lists
        leaves the others alone. */
    ghost predicate Valid()
      reads this
    {
      forall i, j :: 0 <= i < j < |employees| ==> employees[i] != employees[j]
    }

    constructor ()
      ensures Valid() && employees == []
    {
      employees := [];
    }

    /** Appends an employee (the per-skill resources it also creates are not
        modelled). */
    method AddEmployee(employee: Employee)
      requires Valid() && employee !in employees
      modifies this
      ensures Valid() && employees == old(employees) + [employee]
    {
      employees := employees + [employee];
    }

    /** Runs the (abstract) solver's outcome through the dispatch: on an
        optimal outcome each employee's schedule is the ascending list of
        periods whose variable is set; on any other outcome every employee
        gets the fallback schedule. Breaks are not touched. */
    method GenerateSchedule(horizonDays: int, outcome: SolverOutcome)
      requires Valid()
      modifies employees
      ensures forall e :: 0 <= e < |employees| ==>
        employees[e].schedule == PlannedRoster(outcome, |employees|, horizonDays)[e]
      ensures forall e :: 0 <= e < |employees| ==>
        employees[e].breaksTaken == old(employees[e].breaksTaken)
    {
      match outcome
      case Optimal(working) =>
        for e := 0 to |employees|
          invariant forall i :: 0 <= i < e ==>
            employees[i].schedule == Extracted(working, i, HoursPerDay * horizonDays)
          invariant forall i :: 0 <= i < |employees| ==>
            employees[i].breaksTaken == old(employees[i].breaksTaken)
        {
          var schedule := ExtractSchedule(working, e, HoursPerDay * horizonDays);
          employees[e].schedule := schedule;
        }
      case NotOptimal =>
        GenerateFallbackSchedule(horizonDays);
      case Raised =>
        GenerateFallbackSchedule(horizonDays);
    }

    /** The extraction loop for one employee: the periods whose variable is
        set, in ascending order. */
    method ExtractSchedule(working: Assignment, e: int, periods: int) returns (schedule: seq<int>)
      ensures schedule == Extracted(working, e, periods)
      ensures StrictlyIncreasing(schedule)
      ensures forall p :: p in schedule <==> 0 <= p < periods && working(e, p)
    {
      schedule := [];
      var p := 0;
      while p < periods
        invariant 0 <= p && (p <= periods || p == 0)
        invariant schedule == Extracted(working, e, p)
      {
        if working(e, p) {
          schedule := schedule + [p];
        }
        p := p + 1;
      }
      ExtractedIncreasing(working, e, periods);
      ExtractedMembership(working, e, periods);
    }

    /** Gives employee `e` template `e % 3` on every even day. */
    method GenerateFallbackSchedule(horizonDays: int)
      requires Valid()
      modifies employees
      ensures forall e :: 0 <= e < |employees| ==>
        employees[e].schedule == FallbackSchedule(e, horizonDays)
      ensures forall e :: 0 <= e < |employees| ==>
        employees[e].breaksTaken == old(employees[e].breaksTaken)
    {
      for e := 0 to |employees|
        invariant forall i :: 0 <= i < e ==>
          employees[i].schedule == FallbackSchedule(i, horizonDays)
        invariant forall i :: 0 <= i < |employees| ==>
          employees[i].breaksTaken == old(employees[i].breaksTaken)
      {
        var schedule := FallbackScheduleFor(e, horizonDays);
        employees[e].schedule := schedule;
      }
    }

    /** The fallback loops for one employee: template `e % 3` on the even
        days of the horizon. */
    method FallbackScheduleFor(e: nat, horizonDays: int) returns (schedule: seq<int>)
      ensures schedule == FallbackSchedule(e, horizonDays)
      ensures StrictlyIncreasing(schedule) && InHorizon(schedule, horizonDays)
      ensures forall p :: p in schedule <==> OnShift(e, horizonDays, p)
    {
      schedule := [];
      var shift := ShiftTemplates[e % |ShiftTemplates|];
      var shiftStart, shiftEnd := shift.0, shift.1;
      assert shift == Template(e);
      var day := 0;
      while day < horizonDays
        invariant 0 <= day && (day <= horizonDays || day == 0)
        invariant schedule == FallbackSchedule(e, day)
      {
        ghost var today := DayShift(e, day);
        if day % 2 == 0 {
          for hour := shiftStart to shiftEnd
            invariant schedule == FallbackSchedule(e, day) + today[..hour - shiftStart]
          {
            DayShiftPrefix(e, day, hour - shiftStart);
            schedule := schedule + [day * HoursPerDay + hour];
          }
          assert today[..shiftEnd - shiftStart] == today;
        }
        FallbackScheduleNext(e, day);
        day := day + 1;
      }
      FallbackIncreasing(e, horizonDays);
      FallbackMembership(e, horizonDays);
    }

    /** Rebuilds every employee's `breaksTaken`: one break at the middle hour
        of every shift of six hours or more. `schedule` is left as it is. */
    method AddBreaks()
      requires Valid()
      modifies employees
      ensures forall e :: 0 <= e < |employees| ==>
        employees[e].schedule == old(employees[e].schedule)
      ensures forall e :: 0 <= e < |employees| ==>
        employees[e].breaksTaken == BreaksOf(employees[e].schedule)
      ensures forall e :: 0 <= e < |employees| && StrictlyIncreasing(employees[e].schedule) ==>
        && StrictlyIncreasing(employees[e].breaksTaken)
        && (forall b :: b in employees[e].breaksTaken ==> b in employees[e].schedule)
    {
      for k := 0 to |employees|
        invariant forall i :: 0 <= i < |employees| ==>
          employees[i].schedule == old(employees[i].schedule)
        invariant forall i :: 0 <= i < k ==>
          employees[i].breaksTaken == BreaksOf(employees[i].schedule)
      {
        AddBreaksFor(employees[k]);
      }
      forall e | 0 <= e < |employees| && StrictlyIncreasing(employees[e].schedule)
        ensures StrictlyIncreasing(BreaksOf(employees[e].schedule))
        ensures forall b :: b in BreaksOf(employees[e].schedule) ==> b in employees[e].schedule
      {
        BreaksOfSchedule(employees[e].schedule);
      }
    }

    /** The body of the `add_breaks` loop for one employee. */
    method AddBreaksFor(employee: Employee)
      modifies employee
      ensures employee.schedule == old(employee.schedule)
      ensures employee.breaksTaken == BreaksOf(employee.schedule)
    {
      var shifts := GetShifts(employee.schedule);
      employee.breaksTaken := [];
      for j := 0 to |shifts|
        invariant employee.breaksTaken == BreakPoints(shifts[..j])
        invariant employee.schedule == old(employee.schedule)
      {
        var shift := shifts[j];
        assert shifts[..j + 1][..j] == shifts[..j];
        if |shift| >= MinBreakShift {
          employee.breaksTaken := employee.breaksTaken + [shift[|shift| / 2]];
        }
      }
      assert shifts[..|shifts|] == shifts;
    }

    /** `_get_shifts`, the simulator's own copy of the `get_shifts` loop. */
    method GetShifts(schedule: seq<int>) returns (shifts: seq<seq<int>>)
      ensures shifts == Runs(schedule)
    {
      if |schedule| == 0 {
        return [];
      }
      shifts := [];
      var currentShift := [schedule[0]];
      for i := 1 to |schedule|
        invariant |currentShift| > 0
        invariant shifts + [currentShift] == Runs(schedule[..i])
      {
        var hour := schedule[i];
        RunsStep(schedule, i, shifts, currentShift);
        if hour == Last(currentShift) + 1 {
          currentShift := currentShift + [hour];
        } else {
          shifts := shifts + [currentShift];
          currentShift := [hour];
        }
      }
      shifts := shifts + [currentShift];
      assert schedule[..|schedule|] == schedule;
    }
  }
}

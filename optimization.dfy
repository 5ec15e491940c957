/** The orchestration in `WorkforceSimulator.generate_schedule`: the solver
    is asked for an assignment of the binary variables; on an optimal
    result every employee's schedule is read off the variables, on any
    other result (or an exception) every employee gets the fallback. The
    solver itself is a parameter here: only its outcome is modelled. */
module Optimization {
  import opened Helpers
  import opened Constraints
  import opened Fallback

  /** How the solver run ended. */
  datatype SolverOutcome =
    | Optimal(working: Assignment)   // solver status ok and termination optimal
    | NotOptimal                     // any other status or termination condition
    | Raised                         // an exception while building or solving the model

  /** The extraction loop for employee `e`: the periods `p` in
      `[0, periods)` whose variable is set, in ascending order. */
  function Extracted(working: Assignment, e: int, periods: int): seq<int>
    decreases periods
  {
    if periods <= 0 then []
    else Extracted(working, e, periods - 1) + (if working(e, periods - 1) then [periods - 1] else [])
  }

  /** The schedules read off an optimal solution, one per employee. */
  function ExtractedRoster(working: Assignment, employees: nat, horizonDays: int): seq<seq<int>>
  {
    seq(employees, e => Extracted(working, e, HoursPerDay * horizonDays))
  }

  /** The schedules `generate_schedule` leaves behind: all from the solver
      or all from the fallback, never a mix. */
  function PlannedRoster(outcome: SolverOutcome, employees: nat, horizonDays: int): seq<seq<int>>
  {
    match outcome
    case Optimal(working) => ExtractedRoster(working, employees, horizonDays)
    case _ => FallbackRoster(employees, horizonDays)
  }

  /** A period is extracted exactly when it is in range and its variable is
      set. */
  lemma {:induction false} ExtractedMembership(working: Assignment, e: int, periods: int)
    ensures forall p :: p in Extracted(working, e, periods) <==> 0 <= p < periods && working(e, p)
    decreases periods
  {
    if periods > 0 {
      ExtractedMembership(working, e, periods - 1);
    }
  }

  /** The extracted schedule is strictly increasing and in range. */
  lemma {:induction false} ExtractedIncreasing(working: Assignment, e: int, periods: int)
    ensures StrictlyIncreasing(Extracted(working, e, periods))
    ensures forall i :: 0 <= i < |Extracted(working, e, periods)| ==>
      0 <= Extracted(working, e, periods)[i] < periods
    decreases periods
  {
    if periods > 0 {
      var before := Extracted(working, e, periods - 1);
      var s := Extracted(working, e, periods);
      ExtractedIncreasing(working, e, periods - 1);
      var more := if working(e, periods - 1) then [periods - 1] else [];
      forall i, j | 0 <= i < |before| && 0 <= j < |more| ensures before[i] < more[j] {
      }
      ConcatIncreasing(before, more);
      forall i | 0 <= i < |s| ensures 0 <= s[i] < periods {
        if i < |before| {
          assert s[i] == before[i];
        }
      }
    }
  }

  /** Within the horizon, counting an extracted schedule gives the sums of
      the variables. */
  lemma {:induction false} ExtractedLoad(working: Assignment, e: int, periods: int, lo: int, hi: int)
    requires 0 <= lo && hi <= periods
    ensures CountIn(Extracted(working, e, periods), lo, hi) == Load(working, e, lo, hi)
  {
    ExtractedMembership(working, e, periods);
    CountInMatchesLoad(Extracted(working, e, periods), working, e, lo, hi);
  }

  /** The staff count of the extracted roster at a period in the horizon is
      the coverage sum of the variables there. */
  lemma {:induction false} ExtractedStaff(working: Assignment, employees: nat, horizonDays: int, p: int)
    requires 0 <= p < HoursPerDay * horizonDays
    ensures StaffCount(ExtractedRoster(working, employees, horizonDays), p) == Staffed(working, employees, p)
    decreases employees
  {
    if employees > 0 {
      var roster := ExtractedRoster(working, employees, horizonDays);
      assert roster[..employees - 1] == ExtractedRoster(working, employees - 1, horizonDays);
      ExtractedStaff(working, employees - 1, horizonDays, p);
      ExtractedMembership(working, employees - 1, HoursPerDay * horizonDays);
    }
  }

  /** The schedules read off an assignment satisfy the three rules exactly
      when the assignment satisfies the model's constraints. */
  lemma {:induction false} ExtractedRosterFeasible(working: Assignment, employees: nat, horizonDays: int)
    ensures RosterFeasible(ExtractedRoster(working, employees, horizonDays), horizonDays) <==>
      Feasible(working, employees, horizonDays)
  {
    var roster := ExtractedRoster(working, employees, horizonDays);
    var periods := HoursPerDay * horizonDays;
    forall e, d | 0 <= e < employees && 0 <= d < horizonDays
      ensures DayCount(roster[e], d) == DayLoad(working, e, d)
    {
      ExtractedLoad(working, e, periods, HoursPerDay * d, HoursPerDay * d + HoursPerDay);
    }
    forall e, p | 0 <= e < employees && 0 <= p <= periods - WindowWidth
      ensures WindowCount(roster[e], p) == WindowLoad(working, e, p)
    {
      ExtractedLoad(working, e, periods, p, p + WindowWidth);
    }
    forall p | 0 <= p < periods
      ensures StaffCount(roster, p) == Staffed(working, employees, p)
    {
      ExtractedStaff(working, employees, horizonDays, p);
    }
  }

  /** What `generate_schedule` guarantees, given that an optimal solution
      satisfies the model's constraints: on both paths every schedule is
      strictly increasing, inside the horizon, and obeys the daily and
      consecutive-hours rules; coverage holds on the optimal path, while on
      the fallback path it holds only for horizons of at most one day with at
      least three employees. */
  lemma {:induction false} PlannedRosterRules(outcome: SolverOutcome, employees: nat, horizonDays: int)
    requires outcome.Optimal? ==> Feasible(outcome.working, employees, horizonDays)
    ensures |PlannedRoster(outcome, employees, horizonDays)| == employees
    ensures forall e :: 0 <= e < employees ==>
      && StrictlyIncreasing(PlannedRoster(outcome, employees, horizonDays)[e])
      && InHorizon(PlannedRoster(outcome, employees, horizonDays)[e], horizonDays)
      && DailyHoursRule(PlannedRoster(outcome, employees, horizonDays)[e], horizonDays)
      && ConsecutiveHoursRule(PlannedRoster(outcome, employees, horizonDays)[e], horizonDays)
    ensures outcome.Optimal? ==> CoverageRule(PlannedRoster(outcome, employees, horizonDays), horizonDays)
    ensures !outcome.Optimal? ==>
      (CoverageRule(PlannedRoster(outcome, employees, horizonDays), horizonDays) <==>
        horizonDays <= 0 || (horizonDays == 1 && employees >= 3))
  {
    var roster := PlannedRoster(outcome, employees, horizonDays);
    if outcome.Optimal? {
      ExtractedRosterFeasible(outcome.working, employees, horizonDays);
      forall e | 0 <= e < employees
        ensures StrictlyIncreasing(roster[e]) && InHorizon(roster[e], horizonDays)
      {
        ExtractedIncreasing(outcome.working, e, HoursPerDay * horizonDays);
      }
    } else {
      FallbackCoverage(employees, horizonDays);
      forall e | 0 <= e < employees
        ensures && StrictlyIncreasing(roster[e]) && InHorizon(roster[e], horizonDays)
                && DailyHoursRule(roster[e], horizonDays)
                && ConsecutiveHoursRule(roster[e], horizonDays)
      {
        FallbackIncreasing(e, horizonDays);
        FallbackDailyHours(e, horizonDays);
        FallbackConsecutiveHours(e, horizonDays);
      }
    }
  }
}

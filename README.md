# Workforce scheduler: scheduling and break logic

This project models the scheduling core of an industrial workforce
scheduler and proves properties of that model. The scheduler gives a pool of
employees hourly work periods over a horizon of days, then lays rest breaks
over the result.

- **Employee** (`Entities.Employee`): a class with the two lists the
  scheduler writes in place, `schedule` (worked period indices) and
  `breaksTaken` (break markers). A period is an hour offset. Period `p`
  lies on day `p / 24` at hour `p % 24`.
- **Shift segmentation** (`Helpers`): `get_shifts` and its duplicate
  `WorkforceSimulator._get_shifts` work the same way. Each is a single
  left-to-right loop that cuts a list of hours into runs of consecutive
  integers. Each loop is a method proved equal to the function `Runs`.
  `Runs` is proved to be the unique segmentation into non-empty,
  consecutive, maximal runs.
- **Constraint rules** (`Constraints`): the three rules of the solver
  model.
  - Daily cap: at most 8 worked periods per employee and day.
  - Coverage: at least one employee on every period.
  - Window cap: at most 8 worked periods per employee in every 9-period
    window. Windows that run past the horizon are skipped.
  Each rule is stated on the solver's binary variables (`Feasible`) and on
  schedules (`DailyHoursRule`, `CoverageRule`, `ConsecutiveHoursRule`).
- **Fallback scheduler** (`Fallback`, `WorkforceSimulator.GenerateFallbackSchedule`):
  employee `e` works template `e % 3` of `(0,8)`, `(8,16)`, `(16,24)`,
  on even days only. The schedule the nested loops build is proved to keep
  the daily and window caps. Coverage is proved to hold exactly for an
  empty horizon, or a one-day horizon with at least three employees. In
  general the fallback does not guarantee coverage.
- **Orchestrator** (`Optimization`, `WorkforceSimulator.GenerateSchedule`):
  the solver is a `SolverOutcome` parameter, one of `Optimal(working)`,
  `NotOptimal` or `Raised`.
  - On `Optimal`, every schedule is the ascending list of periods whose
    variable is set.
  - On anything else, every employee gets the fallback.
  The roster is never partly adopted.
- **Break assigner** (`Breaks`, `WorkforceSimulator.AddBreaks`):
  - `breaksTaken` is rebuilt from scratch, with one entry `run[len / 2]`
    for each run of six or more hours, in run order.
  - `schedule` is left unchanged.
  - On an increasing schedule, the breaks are increasing hours of the
    schedule, with exactly one in each long run and none in a short run.

`get_shifts` and `WorkforceSimulator._get_shifts` are identical, and both
are modelled by `Runs`. Their closing `if current_shift:` always holds, so
the model appends the last run unconditionally.

## Model

| member | source | states |
|---|---|---|
| `Constraints.Feasible` | simulator/workforce_simulator.py:51-66 | the three constraint families on the binary variables: each employee works at most 8 periods per day, every period has at least one employee, and every 9-period window that fits in the horizon holds at most 8 periods per employee; `ExtractedRosterFeasible` relates it to the schedule rules |
| `Constraints.DailyHoursRule` | simulator/workforce_simulator.py:51-54 | the daily cap as a rule on one schedule: on every day of the horizon, at most 8 of its periods |
| `Constraints.CoverageRule` | simulator/workforce_simulator.py:57-59 | the coverage rule on a roster: every period of the horizon is in at least one schedule |
| `Constraints.ConsecutiveHoursRule` | simulator/workforce_simulator.py:62-66 | the window cap on one schedule: every 9-period window starting at `p <= 24 * horizon - 9` holds at most 8 of its periods; later windows are skipped |
| `Helpers.Runs` | utils/helpers.py:4-21 | the runs are empty exactly for an empty schedule, every run is non-empty, and the last run ends with the schedule's last hour |
| `Helpers.GetShifts` | utils/helpers.py:4-21 | the loop returns `Runs(schedule)`, which is a segmentation into non-empty, consecutive, maximal runs |
| `Helpers.RunsFlatten` | utils/helpers.py:9-21 | concatenating the runs in order gives back the input exactly |
| `Helpers.RunsConsecutive` | utils/helpers.py:12-14 | inside every run each hour is the previous hour plus one |
| `Helpers.RunsMaximal` | utils/helpers.py:13-17 | no run starts at the previous run's last hour plus one, so adjacent runs cannot be merged |
| `Helpers.RunsSegmentation` | utils/helpers.py:4-21 | `Runs(s)` is a segmentation of `s` into non-empty, consecutive, maximal runs |
| `Helpers.SegmentationUnique` | utils/helpers.py:4-21 | any segmentation of `s` into non-empty, consecutive, maximal runs equals `Runs(s)` |
| `Helpers.RunsCount` | utils/helpers.py:12-17 | for a non-empty input, the number of runs is 1 plus the number of positions where the next hour is not the previous plus one |
| `Simulator.WorkforceSimulator.GetShifts` | simulator/workforce_simulator.py:133-150 | the simulator's copy of the loop returns `Runs(schedule)`, the same result as `Helpers.GetShifts` on every input |
| `Entities.Employee.constructor` | models/entities.py:5-13 | a new employee has the given id and skills and empty `schedule` and `breaksTaken` |
| `Simulator.WorkforceSimulator.constructor` | simulator/workforce_simulator.py:16-22 | a new simulator has no employees |
| `Simulator.WorkforceSimulator.AddEmployee` | simulator/workforce_simulator.py:24-28 | the employee is appended to the list |
| `Fallback.Template` | simulator/workforce_simulator.py:95-104 | employee `e` gets the eight-hour template starting at hour `8 * (e % 3)` |
| `Fallback.DayShift` | simulator/workforce_simulator.py:107-109 | the hours the inner loop appends on one day: `day * 24 + hour` for each hour of the template on an even day, nothing on an odd day; `FallbackMembership` gives its closed form |
| `Fallback.FallbackSchedule` | simulator/workforce_simulator.py:102-109 | the schedule after the first `days` iterations of the day loop: the day shifts in day order; its properties are the `Fallback*` lemmas below |
| `Fallback.FallbackMembership` | simulator/workforce_simulator.py:101-111 | a period is in employee `e`'s fallback schedule iff it is in `[0, 24 * horizon)`, on an even day, with its hour of day in template `e % 3` |
| `Fallback.FallbackIncreasing` | simulator/workforce_simulator.py:101-111 | the fallback schedule is strictly increasing and every element lies in `[0, 24 * horizon)` |
| `Fallback.FallbackLength` | simulator/workforce_simulator.py:106-109 | the fallback schedule has `8 * ceil(horizon / 2)` entries, and none for a non-positive horizon |
| `Fallback.FallbackShiftsShape` | simulator/workforce_simulator.py:106-109 | the per-day shifts number `ceil(horizon / 2)`, and the `k`-th is the template on day `2k` |
| `Fallback.FallbackRuns` | simulator/workforce_simulator.py:106-109 | the runs of a fallback schedule are exactly its per-day shifts, `ceil(horizon / 2)` of them, each of length 8 |
| `Fallback.FallbackDayCount` | simulator/workforce_simulator.py:106-109 | each even day of the horizon holds exactly 8 worked periods, and each odd day holds none |
| `Fallback.FallbackDailyHours` | simulator/workforce_simulator.py:51-54 | the fallback schedule satisfies the daily rule: at most 8 periods on every day |
| `Fallback.FallbackConsecutiveHours` | simulator/workforce_simulator.py:62-66 | the fallback schedule satisfies the window rule: every 9-period window inside the horizon holds at most 8 periods |
| `Fallback.FallbackCoverage` | simulator/workforce_simulator.py:57-59 | the fallback roster meets the coverage rule iff the horizon is empty (`horizon <= 0`, no periods to cover), or it is one day and there are at least 3 employees, so in general coverage is not guaranteed |
| `Fallback.FallbackBreaks` | simulator/workforce_simulator.py:122-126 | a fallback schedule gets `ceil(horizon / 2)` breaks, the `k`-th at `48k + start + 4` |
| `Fallback.FallbackScenario` | simulator/workforce_simulator.py:95-111 | over 7 days, an employee with `e % 3 == 0` (employees 0 and 3 of the four) works the morning template: 32 hours, with breaks at 4, 52, 100 and 148 |
| `Simulator.WorkforceSimulator.GenerateFallbackSchedule` | simulator/workforce_simulator.py:91-113 | every employee's schedule becomes `FallbackSchedule(e, horizon)`; breaks are unchanged |
| `Simulator.WorkforceSimulator.FallbackScheduleFor` | simulator/workforce_simulator.py:102-109 | the loops for one employee return `FallbackSchedule(e, horizon)`, which is strictly increasing, in the horizon, and holds exactly the periods on the employee's shift |
| `Breaks.BreakPoints` | simulator/workforce_simulator.py:120-126 | the list the inner loop builds from a list of shifts: the midpoint `shift[len / 2]` of each shift of length at least 6, in shift order; proved in `BreakPointsMembership`, `BreakPointsCount` and `BreaksPerShift` |
| `Breaks.BreaksOf` | simulator/workforce_simulator.py:118-126 | the breaks of one employee: `BreakPoints` of the runs of the schedule; proved in `BreaksOfSchedule` |
| `Breaks.BreakPointsCount` | simulator/workforce_simulator.py:122-126 | for any list of shifts, the number of breaks equals the number of shifts of length at least 6 |
| `Breaks.BreakPointsMembership` | simulator/workforce_simulator.py:122-126 | an hour is a break iff it is the midpoint `run[len / 2]` of some run of length at least 6 |
| `Breaks.BreakPointsIncreasing` | simulator/workforce_simulator.py:118-126 | over the runs of an increasing schedule, the breaks are strictly increasing and are hours of the schedule |
| `Breaks.BreaksPerShift` | simulator/workforce_simulator.py:122-126 | within each run of an increasing schedule, an hour is a break iff the run has length at least 6 and the hour is its midpoint: exactly one break per long run, none per short run |
| `Breaks.BreaksOfSchedule` | simulator/workforce_simulator.py:118-126 | for an increasing schedule, the breaks are strictly increasing hours of the schedule, exactly one at the midpoint of each run of length at least 6 |
| `Simulator.WorkforceSimulator.AddBreaks` | simulator/workforce_simulator.py:115-131 | schedules are unchanged, each `breaksTaken` is rebuilt as `BreaksOf(schedule)`, and on an increasing schedule the breaks are increasing and contained in it |
| `Simulator.WorkforceSimulator.AddBreaksFor` | simulator/workforce_simulator.py:119-126 | for one employee, the schedule is unchanged and `breaksTaken` becomes `BreaksOf(schedule)` |
| `Optimization.Extracted` | simulator/workforce_simulator.py:76-81 | the periods in `[0, periods)` whose variable is set, in ascending order; proved in `ExtractedMembership` and `ExtractedIncreasing` |
| `Optimization.PlannedRoster` | simulator/workforce_simulator.py:72-89 | the roster `generate_schedule` leaves: the extracted schedules on an optimal outcome, the fallback roster on any other outcome or an exception; proved in `PlannedRosterRules` |
| `Optimization.ExtractedMembership` | simulator/workforce_simulator.py:76-81 | a period is extracted for an employee iff it is in the horizon and its variable is set |
| `Optimization.ExtractedIncreasing` | simulator/workforce_simulator.py:76-81 | an extracted schedule is strictly increasing and lies in the horizon |
| `Optimization.ExtractedLoad` | simulator/workforce_simulator.py:49-66 | inside the horizon, counting an extracted schedule equals summing the employee's variables |
| `Optimization.ExtractedStaff` | simulator/workforce_simulator.py:57-59 | the number of extracted schedules holding a period equals the coverage sum of the variables at that period |
| `Optimization.ExtractedRosterFeasible` | simulator/workforce_simulator.py:49-66 | the extracted roster satisfies the daily, coverage and window rules iff the assignment satisfies the model's constraints |
| `Optimization.PlannedRosterRules` | simulator/workforce_simulator.py:72-89 | if an optimal assignment meets the constraints: on both paths every schedule is increasing, in the horizon, and keeps the daily and window caps; coverage holds on the optimal path, and on the fallback path exactly for an empty horizon or a one-day horizon with at least 3 employees |
| `Simulator.WorkforceSimulator.GenerateSchedule` | simulator/workforce_simulator.py:30-89 | on `Optimal(working)` every schedule is the ascending list of set periods, otherwise every schedule is the fallback (never a mix); breaks are unchanged |
| `Simulator.WorkforceSimulator.ExtractSchedule` | simulator/workforce_simulator.py:77-80 | the extraction loop for one employee returns the strictly increasing list of exactly the periods in the horizon whose variable is set |

## Left out

- Building and solving the model with Pyomo and CBC is not modelled. The
  outcome is a parameter, and the `> 0.5` rounding of the variables is
  already applied in the boolean `Assignment`.
- The objective (minimise total assigned pairs) is not modelled, so
  nothing is stated about an optimal assignment being minimal.
- `PlannedRosterRules`: on the optimal path, the three rules are proved
  from the hypothesis that the solver's assignment is feasible. The solver
  promises this, but the model cannot check it.
- The exception path is collapsed into the `Raised` outcome. If the
  exception comes after some schedules were extracted, the fallback
  overwrites every schedule, so the end state is the same.
- Logging is not modelled.
- The unreachable exception handler of `add_breaks` is not modelled,
  because runs are never empty.
- `AddEmployee` does not model the simpy environment or the per-skill
  resources; resources are not used by scheduling.
- The simulator's tasks, demand history and metrics fields are not
  modelled.
- `AddEmployee`: `add_employee` checks nothing, but the model's `Valid()`
  and the `AddEmployee` precondition require every employee object in the
  list to be distinct. main.py meets this, since it always adds a freshly
  built `Employee`. Adding the same object twice, where writing one entry
  would also change the other, is not modelled.
- `print_schedule` (console output), the visualisation module,
  `hours_to_datetime` (date parsing) and `main.py` (wiring) are not part of
  this model.
- config/settings.py is not part of this model. The algorithm hard-codes
  the same values (8 hours per day, one employee per period, the three
  templates), and they appear here as constants.
- The `Employee` fields `max_hours`, `current_task` and `hours_worked`, and
  the `Task` entity, are not modelled, because scheduling never reads them.
- `GenerateSchedule` takes the horizon as an argument; `generate_schedule`'s
  default of 7 days is not modelled.

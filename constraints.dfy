/** The three rules of the scheduling model built in
    `WorkforceSimulator.generate_schedule`, stated twice: on the solver's
    binary variables `working[e, p]` (the constraints handed to the solver)
    and on the per-employee schedules (lists of worked period indices). A
    period is an hour offset; period `p` lies on day `p / 24`. */
module Constraints {

  /** Every day has 24 periods. */
  const HoursPerDay := 24
  /** At most 8 worked periods per employee and day. */
  const MaxDailyHours := 8
  /** Width of the sliding window of the consecutive-hours rule. */
  const WindowWidth := 9
  /** At most 8 worked periods in any window. */
  const MaxWindowHours := 8
  /** At least one employee on every period. */
  const MinStaff := 1

  /** The solver's decision variables, already rounded: `working(e, p)` is
      true when `working[e, p]` came back above one half. */
  type Assignment = (int, int) -> bool

  // ---------------------------------------------------------------------
  // Counting

  /** The number of periods `t` in `[lo, hi)` that occur in `s`. */
  function CountIn(s: seq<int>, lo: int, hi: int): nat
    decreases hi - lo
  {
    if hi <= lo then 0 else CountIn(s, lo, hi - 1) + (if hi - 1 in s then 1 else 0)
  }

  /** Worked periods of schedule `s` on day `d`. */
  function DayCount(s: seq<int>, d: int): nat
  {
    CountIn(s, HoursPerDay * d, HoursPerDay * d + HoursPerDay)
  }

  /** Worked periods of schedule `s` in the window `[p, p + 9)`. */
  function WindowCount(s: seq<int>, p: int): nat
  {
    CountIn(s, p, p + WindowWidth)
  }

  /** The number of schedules in `roster` that contain period `p`. */
  function StaffCount(roster: seq<seq<int>>, p: int): nat
  {
    if |roster| == 0 then 0
    else StaffCount(roster[..|roster| - 1], p) + (if p in roster[|roster| - 1] then 1 else 0)
  }

  /** `sum(working[e, t] for t in range(lo, hi))`. */
  function Load(working: Assignment, e: int, lo: int, hi: int): nat
    decreases hi - lo
  {
    if hi <= lo then 0 else Load(working, e, lo, hi - 1) + (if working(e, hi - 1) then 1 else 0)
  }

  function DayLoad(working: Assignment, e: int, d: int): nat
  {
    Load(working, e, HoursPerDay * d, HoursPerDay * d + HoursPerDay)
  }

  function WindowLoad(working: Assignment, e: int, p: int): nat
  {
    Load(working, e, p, p + WindowWidth)
  }

  /** `sum(working[e, p] for e in range(employees))`. */
  function Staffed(working: Assignment, employees: int, p: int): nat
    decreases employees
  {
    if employees <= 0 then 0
    else Staffed(working, employees - 1, p) + (if working(employees - 1, p) then 1 else 0)
  }

  // ---------------------------------------------------------------------
  // The rules on the solver's variables

  /** All three constraint families of the model for `employees` employees
      over `horizonDays` days: the daily cap for every (employee, day), the
      coverage rule for every period, and the window cap for every
      (employee, period) whose window fits in the horizon (the others are
      skipped). */
  predicate Feasible(working: Assignment, employees: int, horizonDays: int)
  {
    && (forall e, d :: 0 <= e < employees && 0 <= d < horizonDays ==>
          DayLoad(working, e, d) <= MaxDailyHours)
    && (forall p :: 0 <= p < HoursPerDay * horizonDays ==>
          Staffed(working, employees, p) >= MinStaff)
    && (forall e, p :: 0 <= e < employees && 0 <= p <= HoursPerDay * horizonDays - WindowWidth ==>
          WindowLoad(working, e, p) <= MaxWindowHours)
  }

  // ---------------------------------------------------------------------
  // The rules on schedules

  predicate DailyHoursRule(s: seq<int>, horizonDays: int)
  {
    forall d :: 0 <= d < horizonDays ==> DayCount(s, d) <= MaxDailyHours
  }

  predicate ConsecutiveHoursRule(s: seq<int>, horizonDays: int)
  {
    forall p :: 0 <= p <= HoursPerDay * horizonDays - WindowWidth ==> WindowCount(s, p) <= MaxWindowHours
  }

  predicate CoverageRule(roster: seq<seq<int>>, horizonDays: int)
  {
    forall p :: 0 <= p < HoursPerDay * horizonDays ==> StaffCount(roster, p) >= MinStaff
  }

  /** Every element lies in the horizon `[0, 24 * horizonDays)`. */
  predicate InHorizon(s: seq<int>, horizonDays: int)
  {
    forall i :: 0 <= i < |s| ==> 0 <= s[i] < HoursPerDay * horizonDays
  }

  /** All three rules hold of a roster (one schedule per employee). */
  predicate RosterFeasible(roster: seq<seq<int>>, horizonDays: int)
  {
    && (forall e :: 0 <= e < |roster| ==> DailyHoursRule(roster[e], horizonDays))
    && CoverageRule(roster, horizonDays)
    && (forall e :: 0 <= e < |roster| ==> ConsecutiveHoursRule(roster[e], horizonDays))
  }

  // ---------------------------------------------------------------------
  // Lemmas about counting

  /** Counting splits at any point in between. */
  lemma {:induction false} CountInSplit(s: seq<int>, lo: int, mid: int, hi: int)
    requires lo <= mid <= hi
    ensures CountIn(s, lo, hi) == CountIn(s, lo, mid) + CountIn(s, mid, hi)
    decreases hi - mid
  {
    if mid < hi {
      CountInSplit(s, lo, mid, hi - 1);
    }
  }

  /** A range holds no more worked periods than it has periods. */
  lemma {:induction false} CountInAtMost(s: seq<int>, lo: int, hi: int)
    requires lo <= hi
    ensures CountIn(s, lo, hi) <= hi - lo
    decreases hi - lo
  {
    if lo < hi {
      CountInAtMost(s, lo, hi - 1);
    }
  }

  /** A range none of whose periods is worked counts zero. */
  lemma {:induction false} CountInNone(s: seq<int>, lo: int, hi: int)
    requires forall t :: lo <= t < hi ==> t !in s
    ensures CountIn(s, lo, hi) == 0
    decreases hi - lo
  {
    if lo < hi {
      CountInNone(s, lo, hi - 1);
    }
  }

  /** A range all of whose periods are worked counts its width. */
  lemma {:induction false} CountInAll(s: seq<int>, lo: int, hi: int)
    requires lo <= hi
    requires forall t :: lo <= t < hi ==> t in s
    ensures CountIn(s, lo, hi) == hi - lo
    decreases hi - lo
  {
    if lo < hi {
      CountInAll(s, lo, hi - 1);
    }
  }

  /** A range with one period off holds at most its width minus one. */
  lemma {:induction false} CountInGap(s: seq<int>, lo: int, hi: int, t: int)
    requires lo <= t < hi && t !in s
    ensures CountIn(s, lo, hi) <= hi - lo - 1
  {
    CountInSplit(s, lo, t, hi);
    CountInSplit(s, t, t + 1, hi);
    CountInAtMost(s, lo, t);
    CountInAtMost(s, t + 1, hi);
  }

  /** A range whose worked periods are exactly the block `[a, b)` inside it
      counts the block's width. */
  lemma {:induction false} CountInBlock(s: seq<int>, lo: int, a: int, b: int, hi: int)
    requires lo <= a <= b <= hi
    requires forall t :: lo <= t < hi ==> (t in s <==> a <= t < b)
    ensures CountIn(s, lo, hi) == b - a
  {
    CountInSplit(s, lo, a, hi);
    CountInSplit(s, a, b, hi);
    CountInNone(s, lo, a);
    CountInAll(s, a, b);
    CountInNone(s, b, hi);
  }

  /** A schedule that contains exactly the periods `t` in `[lo, hi)` with
      `working(e, t)` gives the same count as the variables do. */
  lemma {:induction false} CountInMatchesLoad(s: seq<int>, working: Assignment, e: int, lo: int, hi: int)
    requires forall t :: lo <= t < hi ==> (t in s <==> working(e, t))
    ensures CountIn(s, lo, hi) == Load(working, e, lo, hi)
    decreases hi - lo
  {
    if lo < hi {
      CountInMatchesLoad(s, working, e, lo, hi - 1);
    }
  }

  /** At least one schedule holds `p` exactly when the staff count is
      positive. */
  lemma {:induction false} StaffCountPositive(roster: seq<seq<int>>, p: int)
    ensures StaffCount(roster, p) >= 1 <==> exists e :: 0 <= e < |roster| && p in roster[e]
  {
    if |roster| > 0 {
      var front := roster[..|roster| - 1];
      StaffCountPositive(front, p);
      assert forall e :: 0 <= e < |front| ==> front[e] == roster[e];
      if p in roster[|roster| - 1] {
      } else if exists e :: 0 <= e < |roster| && p in roster[e] {
        var e :| 0 <= e < |roster| && p in roster[e];
        assert e < |front|;
      }
    }
  }
}

/** The fallback heuristic (`WorkforceSimulator._generate_fallback_schedule`):
    employee `e` works template `e % 3` of the three eight-hour shift
    templates on every even day of the horizon and is off on odd days. */
module Fallback {
  import opened Helpers
  import opened Constraints
  import opened Breaks

  /** (start, end) hours of day: morning, day and night shift. */
  const ShiftTemplates: seq<(int, int)> := [(0, 8), (8, 16), (16, 24)]

  /** The template of employee `e`. */
  function Template(e: nat): (t: (int, int))
    ensures t.0 == 8 * (e % 3) && t.1 == t.0 + 8
  {
    ShiftTemplates[e % |ShiftTemplates|]
  }

  /** The hours the inner loop appends on `day`: `day * 24 + hour` for every
      hour of the template on even days, nothing on odd days. */
  function DayShift(e: nat, day: int): seq<int>
  {
    if day % 2 == 0 then
      seq(Template(e).1 - Template(e).0, k => HoursPerDay * day + Template(e).0 + k)
    else []
  }

  /** The fallback schedule after the first `days` days of the loop. */
  function FallbackSchedule(e: nat, days: int): seq<int>
  {
    if days <= 0 then [] else FallbackSchedule(e, days - 1) + DayShift(e, days - 1)
  }

  /** The same schedule grouped by working day. */
  function FallbackShifts(e: nat, days: int): seq<seq<int>>
  {
    if days <= 0 then []
    else FallbackShifts(e, days - 1) + (if (days - 1) % 2 == 0 then [DayShift(e, days - 1)] else [])
  }

  /** The fallback schedule of every employee: the roster it produces. */
  function FallbackRoster(employees: nat, horizonDays: int): seq<seq<int>>
  {
    seq(employees, e requires 0 <= e => FallbackSchedule(e, horizonDays))
  }

  /** Days worked in a horizon: the even days, `ceil(horizonDays / 2)`. */
  function WorkDays(horizonDays: int): nat
  {
    if horizonDays <= 0 then 0 else (horizonDays + 1) / 2
  }

  /** One hour of the inner loop: the first `k + 1` hours of an even day's
      shift are its first `k` followed by hour `k` of the template. */
  lemma DayShiftPrefix(e: nat, day: int, k: int)
    requires day % 2 == 0 && 0 <= k < 8
    ensures DayShift(e, day)[..k + 1] == DayShift(e, day)[..k] + [day * HoursPerDay + Template(e).0 + k]
  {
  }

  /** One day of the outer loop: an even day appends its shift, an odd day
      appends nothing. */
  lemma FallbackScheduleNext(e: nat, day: int)
    requires day >= 0
    ensures day % 2 == 0 ==> FallbackSchedule(e, day + 1) == FallbackSchedule(e, day) + DayShift(e, day)
    ensures day % 2 != 0 ==> FallbackSchedule(e, day + 1) == FallbackSchedule(e, day)
  {
    if day % 2 != 0 {
      assert DayShift(e, day) == [];
      assert FallbackSchedule(e, day + 1) == FallbackSchedule(e, day) + [];
    }
  }

  /** Closed form of the fallback: a period in the horizon, on an even day,
      whose hour of day lies in the employee's template. */
  predicate OnShift(e: nat, horizonDays: int, p: int)
  {
    && 0 <= p < HoursPerDay * horizonDays
    && (p / HoursPerDay) % 2 == 0
    && Template(e).0 <= p % HoursPerDay < Template(e).1
  }

  lemma DayAndHour(d: int, hour: int)
    requires 0 <= hour < HoursPerDay
    ensures (HoursPerDay * d + hour) / HoursPerDay == d
    ensures (HoursPerDay * d + hour) % HoursPerDay == hour
  {
  }

  /** A period is in the fallback schedule exactly when it is on the
      employee's shift. */
  lemma {:induction false} FallbackMembership(e: nat, horizonDays: int)
    ensures forall p :: p in FallbackSchedule(e, horizonDays) <==> OnShift(e, horizonDays, p)
    decreases horizonDays
  {
    if horizonDays > 0 {
      var d := horizonDays - 1;
      var t := Template(e);
      FallbackMembership(e, d);
      forall p ensures p in FallbackSchedule(e, horizonDays) <==> OnShift(e, horizonDays, p) {
        if p in DayShift(e, d) {
          var k :| 0 <= k < |DayShift(e, d)| && DayShift(e, d)[k] == p;
          DayAndHour(d, t.0 + k);
        }
        if OnShift(e, horizonDays, p) && p >= HoursPerDay * d {
          var hour := p % HoursPerDay;
          assert p == HoursPerDay * d + hour;
          assert DayShift(e, d)[hour - t.0] == p;
        }
      }
    }
  }

  /** The fallback schedule is strictly increasing and inside the horizon. */
  lemma {:induction false} FallbackIncreasing(e: nat, horizonDays: int)
    ensures StrictlyIncreasing(FallbackSchedule(e, horizonDays))
    ensures InHorizon(FallbackSchedule(e, horizonDays), horizonDays)
    decreases horizonDays
  {
    FallbackMembership(e, horizonDays);
    if horizonDays > 0 {
      var d := horizonDays - 1;
      var before := FallbackSchedule(e, d);
      FallbackIncreasing(e, d);
      FallbackMembership(e, d);
      var today := DayShift(e, d);
      forall i, j | 0 <= i < |before| && 0 <= j < |today| ensures before[i] < today[j] {
        assert before[i] in before;
      }
      ConcatIncreasing(before, today);
      var s := FallbackSchedule(e, horizonDays);
      forall i | 0 <= i < |s| ensures 0 <= s[i] < HoursPerDay * horizonDays {
        assert s[i] in s;
      }
    }
  }

  /** The schedule holds eight hours for each of the `ceil(horizonDays / 2)`
      days worked. */
  lemma {:induction false} FallbackLength(e: nat, horizonDays: int)
    ensures |FallbackSchedule(e, horizonDays)| == 8 * WorkDays(horizonDays)
    decreases horizonDays
  {
    if horizonDays > 0 {
      FallbackLength(e, horizonDays - 1);
    }
  }

  /** The grouped shifts: the `k`-th is the template on day `2 * k`. */
  lemma {:induction false} FallbackShiftsShape(e: nat, horizonDays: int)
    ensures |FallbackShifts(e, horizonDays)| == WorkDays(horizonDays)
    ensures forall k :: 0 <= k < |FallbackShifts(e, horizonDays)| ==>
      FallbackShifts(e, horizonDays)[k] == DayShift(e, 2 * k)
    decreases horizonDays
  {
    if horizonDays > 0 {
      FallbackShiftsShape(e, horizonDays - 1);
    }
  }

  /** The grouped shifts segment the fallback schedule into maximal runs. */
  lemma {:induction false} FallbackShiftsSegmentation(e: nat, horizonDays: int)
    ensures IsSegmentation(FallbackSchedule(e, horizonDays), FallbackShifts(e, horizonDays))
    decreases horizonDays
  {
    if horizonDays > 0 {
      var d := horizonDays - 1;
      FallbackShiftsSegmentation(e, d);
      if d % 2 == 0 {
        FallbackShiftAppended(e, d);
      } else {
        assert FallbackSchedule(e, horizonDays) == FallbackSchedule(e, d) + [];
        assert FallbackSchedule(e, horizonDays) == FallbackSchedule(e, d);
        assert FallbackShifts(e, horizonDays) == FallbackShifts(e, d) + [];
        assert FallbackShifts(e, horizonDays) == FallbackShifts(e, d);
      }
    }
  }

  /** Adding the shift of an even day keeps the segmentation. */
  lemma {:induction false} FallbackShiftAppended(e: nat, d: int)
    requires d >= 0 && d % 2 == 0
    requires IsSegmentation(FallbackSchedule(e, d), FallbackShifts(e, d))
    ensures IsSegmentation(FallbackSchedule(e, d + 1), FallbackShifts(e, d + 1))
  {
    var runs := FallbackShifts(e, d);
    var today := DayShift(e, d);
    assert FallbackShifts(e, d + 1) == runs + [today];
    assert FallbackSchedule(e, d + 1) == FallbackSchedule(e, d) + today;
    assert today[0] == HoursPerDay * d + Template(e).0;
    if |runs| > 0 {
      RunInFlatten(runs, |runs| - 1, Last(Last(runs)));
      FallbackBeforeEvenDay(e, d);
    }
    AppendRun(FallbackSchedule(e, d), runs, today);
  }

  /** Before an even day `d` the schedule ends by day `d - 2`, since day
      `d - 1` is off: nothing in it reaches `24 * d - 1`. */
  lemma {:induction false} FallbackBeforeEvenDay(e: nat, d: int)
    requires d % 2 == 0
    ensures forall p :: p in FallbackSchedule(e, d) ==> p + 1 < HoursPerDay * d
  {
    FallbackMembership(e, d);
    forall p | p in FallbackSchedule(e, d) ensures p + 1 < HoursPerDay * d {
      assert OnShift(e, d, p);
      assert p / HoursPerDay != d - 1;
      assert p / HoursPerDay <= d - 2;
    }
  }

  /** Every run of a fallback schedule is one template shift of 8 hours on
      an even day: `Runs` of the schedule are its shifts by day. */
  lemma {:induction false} FallbackRuns(e: nat, horizonDays: int)
    ensures Runs(FallbackSchedule(e, horizonDays)) == FallbackShifts(e, horizonDays)
    ensures |Runs(FallbackSchedule(e, horizonDays))| == WorkDays(horizonDays)
    ensures forall k :: 0 <= k < |Runs(FallbackSchedule(e, horizonDays))| ==>
      |Runs(FallbackSchedule(e, horizonDays))[k]| == 8
  {
    FallbackShiftsSegmentation(e, horizonDays);
    SegmentationUnique(FallbackSchedule(e, horizonDays), FallbackShifts(e, horizonDays));
    FallbackShiftsShape(e, horizonDays);
  }

  /** Within day `d` of the horizon the schedule holds exactly the template
      hours, and only on even days. */
  lemma {:induction false} FallbackDayMembership(e: nat, horizonDays: int, d: int)
    requires 0 <= d < horizonDays
    ensures forall p :: HoursPerDay * d <= p < HoursPerDay * d + HoursPerDay ==>
      (p in FallbackSchedule(e, horizonDays) <==>
        d % 2 == 0 && HoursPerDay * d + Template(e).0 <= p < HoursPerDay * d + Template(e).1)
  {
    FallbackMembership(e, horizonDays);
    forall p | HoursPerDay * d <= p < HoursPerDay * d + HoursPerDay
      ensures OnShift(e, horizonDays, p) <==>
        d % 2 == 0 && HoursPerDay * d + Template(e).0 <= p < HoursPerDay * d + Template(e).1
    {
      DayAndHour(d, p - HoursPerDay * d);
    }
  }

  /** An even day in the horizon holds exactly the 8 template hours; an odd
      day holds none. */
  lemma {:induction false} FallbackDayCount(e: nat, horizonDays: int, d: int)
    requires 0 <= d < horizonDays
    ensures DayCount(FallbackSchedule(e, horizonDays), d) == if d % 2 == 0 then 8 else 0
  {
    var lo := HoursPerDay * d;
    var a := if d % 2 == 0 then lo + Template(e).0 else lo;
    var b := if d % 2 == 0 then lo + Template(e).1 else lo;
    FallbackDayMembership(e, horizonDays, d);
    CountInBlock(FallbackSchedule(e, horizonDays), lo, a, b, lo + HoursPerDay);
  }

  /** The fallback satisfies the daily-hours rule. */
  lemma {:induction false} FallbackDailyHours(e: nat, horizonDays: int)
    ensures DailyHoursRule(FallbackSchedule(e, horizonDays), horizonDays)
  {
    forall d | 0 <= d < horizonDays
      ensures DayCount(FallbackSchedule(e, horizonDays), d) <= MaxDailyHours
    {
      FallbackDayCount(e, horizonDays, d);
    }
  }

  /** Every 9-period window holds a period off the employee's shift. */
  lemma {:induction false} WindowHasGap(e: nat, horizonDays: int, p: int) returns (gap: int)
    ensures p <= gap < p + WindowWidth && !OnShift(e, horizonDays, gap)
  {
    var t := Template(e);
    var q := p / HoursPerDay;
    var r := p % HoursPerDay;
    if t.0 <= r < t.1 {
      // The first hour after the template ends.
      gap := HoursPerDay * q + t.1;
      if t.1 == HoursPerDay {
        DayAndHour(q + 1, 0);
      } else {
        DayAndHour(q, t.1);
      }
    } else {
      gap := p;
    }
  }

  /** The fallback satisfies the consecutive-hours rule: no 9-period window
      holds more than 8 worked periods. */
  lemma {:induction false} FallbackConsecutiveHours(e: nat, horizonDays: int)
    ensures ConsecutiveHoursRule(FallbackSchedule(e, horizonDays), horizonDays)
  {
    var s := FallbackSchedule(e, horizonDays);
    FallbackMembership(e, horizonDays);
    forall p | 0 <= p <= HoursPerDay * horizonDays - WindowWidth
      ensures WindowCount(s, p) <= MaxWindowHours
    {
      var gap := WindowHasGap(e, horizonDays, p);
      CountInGap(s, p, p + WindowWidth, gap);
    }
  }

  /** Coverage is NOT guaranteed by the fallback: every period is staffed
      only when the horizon is at most one day long and there are at least
      three employees (one per template). From the second day on, the odd
      days are left empty. */
  lemma {:induction false} FallbackCoverage(employees: nat, horizonDays: int)
    ensures CoverageRule(FallbackRoster(employees, horizonDays), horizonDays) <==>
      horizonDays <= 0 || (horizonDays == 1 && employees >= 3)
  {
    if horizonDays >= 2 {
      Unstaffed(employees, horizonDays, 24);
    } else if horizonDays == 1 && employees < 3 {
      Unstaffed(employees, horizonDays, 16);
    } else if horizonDays == 1 {
      OneDayCovered(employees);
    }
  }

  /** A period that no employee's template covers on its day goes unstaffed:
      period 24 (day 1 is off for all) and, with fewer than three employees,
      period 16 (only employee 2 works the night template). */
  lemma {:induction false} Unstaffed(employees: nat, horizonDays: int, p: int)
    requires 0 <= p < HoursPerDay * horizonDays
    requires p == 24 || (p == 16 && employees < 3)
    ensures StaffCount(FallbackRoster(employees, horizonDays), p) < MinStaff
  {
    var roster := FallbackRoster(employees, horizonDays);
    forall e | 0 <= e < |roster| ensures p !in roster[e] {
      FallbackMembership(e, horizonDays);
      assert !OnShift(e, horizonDays, p);
    }
    StaffCountPositive(roster, p);
  }

  /** With three or more employees a one-day horizon is fully covered. */
  lemma {:induction false} OneDayCovered(employees: nat)
    requires employees >= 3
    ensures CoverageRule(FallbackRoster(employees, 1), 1)
  {
    var roster := FallbackRoster(employees, 1);
    forall p | 0 <= p < HoursPerDay ensures StaffCount(roster, p) >= MinStaff {
      var e := p / 8;
      FallbackMembership(e, 1);
      assert OnShift(e, 1, p);
      assert p in roster[e];
      StaffCountPositive(roster, p);
    }
  }

  /** The breaks of a fallback schedule: one per working day, at hour
      `start + 4` of the template, i.e. the `k`-th at `48 * k + start + 4`. */
  lemma {:induction false} FallbackBreaks(e: nat, horizonDays: int)
    ensures |BreaksOf(FallbackSchedule(e, horizonDays))| == WorkDays(horizonDays)
    ensures forall k :: 0 <= k < |BreaksOf(FallbackSchedule(e, horizonDays))| ==>
      BreaksOf(FallbackSchedule(e, horizonDays))[k] == 2 * HoursPerDay * k + Template(e).0 + 4
  {
    FallbackRuns(e, horizonDays);
    FallbackShiftsShape(e, horizonDays);
    var shifts := FallbackShifts(e, horizonDays);
    AllLongBreaks(shifts);
    forall k | 0 <= k < |shifts| ensures shifts[k][4] == 2 * HoursPerDay * k + Template(e).0 + 4 {
      assert shifts[k] == DayShift(e, 2 * k);
    }
  }

  /** When every shift has 8 hours, there is one break per shift, at its
      fifth hour. */
  lemma {:induction false} AllLongBreaks(shifts: seq<seq<int>>)
    requires forall k :: 0 <= k < |shifts| ==> |shifts[k]| == 8
    ensures |BreakPoints(shifts)| == |shifts|
    ensures forall k :: 0 <= k < |shifts| ==> BreakPoints(shifts)[k] == shifts[k][4]
  {
    if |shifts| > 0 {
      AllLongBreaks(shifts[..|shifts| - 1]);
    }
  }

  /** The seven-day scenario when the solver is unavailable, for any
      employee on the morning template (employees 0, 3, 6, ...): 32 hours
      worked on days 0, 2, 4 and 6, with a break at 04:00 on each of them. */
  lemma FallbackScenario(e: nat, horizonDays: int)
    requires e % 3 == 0 && horizonDays == 7
    ensures Template(e) == (0, 8)
    ensures |FallbackSchedule(e, horizonDays)| == 32
    ensures BreaksOf(FallbackSchedule(e, horizonDays)) == [4, 52, 100, 148]
  {
    FallbackLength(e, horizonDays);
    FallbackBreaks(e, horizonDays);
    var breaks := BreaksOf(FallbackSchedule(e, horizonDays));
    assert |breaks| == 4;
    assert breaks[0] == 4 && breaks[1] == 52 && breaks[2] == 100 && breaks[3] == 148;
  }
}

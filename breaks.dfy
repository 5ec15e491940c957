/** Break assignment (`WorkforceSimulator.add_breaks`): every shift of six
    hours or more gets one break marker at its middle hour. Breaks overlay
    the schedule; the break hour stays in the schedule. */
module Breaks {
  import opened Helpers

  /** Shifts shorter than this get no break. */
  const MinBreakShift := 6

  /** The hour a break is put at: `shift[len(shift) // 2]`, the lower middle
      hour of an even-length shift. */
  function Midpoint(shift: seq<int>): int
    requires |shift| > 0
  {
    shift[|shift| / 2]
  }

  /** The breaks recorded for `shifts`, one per long shift, in shift order. */
  function BreakPoints(shifts: seq<seq<int>>): seq<int>
  {
    if |shifts| == 0 then []
    else
      BreakPoints(shifts[..|shifts| - 1]) +
      (if |Last(shifts)| >= MinBreakShift then [Midpoint(Last(shifts))] else [])
  }

  /** The breaks `add_breaks` gives an employee with this schedule. */
  function BreaksOf(schedule: seq<int>): seq<int>
  {
    BreakPoints(Runs(schedule))
  }

  /** The number of shifts of six hours or more. */
  function LongShifts(shifts: seq<seq<int>>): nat
  {
    if |shifts| == 0 then 0
    else LongShifts(shifts[..|shifts| - 1]) + (if |Last(shifts)| >= MinBreakShift then 1 else 0)
  }

  /** For any shifts, there are as many breaks as long shifts. */
  lemma {:induction false} BreakPointsCount(shifts: seq<seq<int>>)
    ensures |BreakPoints(shifts)| == LongShifts(shifts)
  {
    if |shifts| > 0 {
      BreakPointsCount(shifts[..|shifts| - 1]);
    }
  }

  /** A break is exactly the midpoint of some shift of six hours or more. */
  lemma {:induction false} BreakPointsMembership(shifts: seq<seq<int>>)
    ensures forall b :: b in BreakPoints(shifts) <==>
      exists i :: 0 <= i < |shifts| && |shifts[i]| >= MinBreakShift && b == Midpoint(shifts[i])
  {
    if |shifts| > 0 {
      var front := shifts[..|shifts| - 1];
      BreakPointsMembership(front);
      assert forall i :: 0 <= i < |front| ==> front[i] == shifts[i];
      forall b | b in BreakPoints(shifts)
        ensures exists i :: 0 <= i < |shifts| && |shifts[i]| >= MinBreakShift && b == Midpoint(shifts[i])
      {
        if b in BreakPoints(front) {
          var i :| 0 <= i < |front| && |front[i]| >= MinBreakShift && b == Midpoint(front[i]);
          assert shifts[i] == front[i];
        } else {
          assert |shifts[|shifts| - 1]| >= MinBreakShift && b == Midpoint(shifts[|shifts| - 1]);
        }
      }
    }
  }

  /** The two halves of an increasing concatenation are increasing, and
      the first lies wholly below the second. */
  lemma {:induction false} IncreasingParts(a: seq<int>, b: seq<int>)
    requires StrictlyIncreasing(a + b)
    ensures StrictlyIncreasing(a) && StrictlyIncreasing(b)
    ensures forall x, y :: x in a && y in b ==> x < y
  {
    forall i, j | 0 <= i < j < |a| ensures a[i] < a[j] {
      assert a[i] == (a + b)[i] && a[j] == (a + b)[j];
    }
    forall i, j | 0 <= i < j < |b| ensures b[i] < b[j] {
      assert b[i] == (a + b)[|a| + i] && b[j] == (a + b)[|a| + j];
    }
    forall x, y | x in a && y in b ensures x < y {
      var i :| 0 <= i < |a| && a[i] == x;
      var j :| 0 <= j < |b| && b[j] == y;
      assert (a + b)[i] == x && (a + b)[|a| + j] == y;
    }
  }

  /** In an increasing schedule, every hour of an earlier shift is below
      every hour of a later one; in particular shifts are disjoint. */
  lemma {:induction false} ShiftsOrdered(shifts: seq<seq<int>>)
    requires StrictlyIncreasing(Flatten(shifts))
    ensures forall i, j, x, y :: 0 <= i < j < |shifts| && x in shifts[i] && y in shifts[j] ==> x < y
  {
    if |shifts| > 0 {
      var front := shifts[..|shifts| - 1];
      IncreasingParts(Flatten(front), Last(shifts));
      ShiftsOrdered(front);
      forall i, j, x, y | 0 <= i < j < |shifts| && x in shifts[i] && y in shifts[j] ensures x < y {
        assert shifts[i] == front[i];
        if j < |front| {
          assert shifts[j] == front[j];
        } else {
          RunInFlatten(front, i, x);
        }
      }
    }
  }

  /** Over shifts of an increasing schedule, the breaks are increasing and
      each is an hour of the schedule. */
  lemma {:induction false} BreakPointsIncreasing(shifts: seq<seq<int>>)
    requires NonEmptyRuns(shifts)
    requires StrictlyIncreasing(Flatten(shifts))
    ensures StrictlyIncreasing(BreakPoints(shifts))
    ensures forall b :: b in BreakPoints(shifts) ==> b in Flatten(shifts)
  {
    if |shifts| > 0 {
      var front := shifts[..|shifts| - 1];
      var last := Last(shifts);
      IncreasingParts(Flatten(front), last);
      assert NonEmptyRuns(front) by {
        assert forall i :: 0 <= i < |front| ==> front[i] == shifts[i];
      }
      BreakPointsIncreasing(front);
      var more := if |last| >= MinBreakShift then [Midpoint(last)] else [];
      var earlier := BreakPoints(front);
      forall i, j | 0 <= i < |earlier| && 0 <= j < |more| ensures earlier[i] < more[j] {
        assert earlier[i] in earlier;
        assert more[j] in last;
      }
      ConcatIncreasing(BreakPoints(front), more);
    }
  }

  /** Exactly one break per shift of six hours or more, at its midpoint, and
      none in a shorter shift. */
  lemma {:induction false} BreaksPerShift(shifts: seq<seq<int>>)
    requires NonEmptyRuns(shifts)
    requires StrictlyIncreasing(Flatten(shifts))
    ensures forall i, b :: 0 <= i < |shifts| && b in shifts[i] ==>
      (b in BreakPoints(shifts) <==> |shifts[i]| >= MinBreakShift && b == Midpoint(shifts[i]))
  {
    BreakPointsMembership(shifts);
    ShiftsOrdered(shifts);
    forall i, b | 0 <= i < |shifts| && b in shifts[i] && b in BreakPoints(shifts)
      ensures |shifts[i]| >= MinBreakShift && b == Midpoint(shifts[i])
    {
      var j :| 0 <= j < |shifts| && |shifts[j]| >= MinBreakShift && b == Midpoint(shifts[j]);
      assert b in shifts[j];
    }
  }

  /** What `add_breaks` leaves an employee with a (strictly increasing)
      schedule: breaks that are hours of the schedule, in increasing order,
      exactly one at the midpoint of each shift of six hours or more. */
  lemma {:induction false} BreaksOfSchedule(schedule: seq<int>)
    requires StrictlyIncreasing(schedule)
    ensures StrictlyIncreasing(BreaksOf(schedule))
    ensures forall b :: b in BreaksOf(schedule) ==> b in schedule
    ensures forall i, b :: 0 <= i < |Runs(schedule)| && b in Runs(schedule)[i] ==>
      (b in BreaksOf(schedule) <==>
        |Runs(schedule)[i]| >= MinBreakShift && b == Midpoint(Runs(schedule)[i]))
  {
    RunsFlatten(schedule);
    BreakPointsIncreasing(Runs(schedule));
    BreaksPerShift(Runs(schedule));
  }
}

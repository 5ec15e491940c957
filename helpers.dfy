/** Shift segmentation: grouping a list of hour indices into maximal runs of
    consecutive integers (utils/helpers.py, `get_shifts`). The same loop is
    duplicated as `WorkforceSimulator._get_shifts`; both are specified by
    the function `Runs` below. */
module Helpers {

  /** The last element of a non-empty sequence (Python's `xs[-1]`). */
  function Last<T>(s: seq<T>): T
    requires |s| > 0
  {
    s[|s| - 1]
  }

  /** Every element is larger than every earlier one. */
  predicate StrictlyIncreasing(s: seq<int>)
  {
    forall i, j :: 0 <= i < j < |s| ==> s[i] < s[j]
  }

  /** The runs laid end to end, in order. */
  function Flatten(runs: seq<seq<int>>): seq<int>
  {
    if |runs| == 0 then [] else Flatten(runs[..|runs| - 1]) + Last(runs)
  }

  /** Each element of the run is its predecessor plus one. */
  predicate Consecutive(run: seq<int>)
  {
    forall j :: 0 < j < |run| ==> run[j] == run[j - 1] + 1
  }

  predicate NonEmptyRuns(runs: seq<seq<int>>)
  {
    forall i :: 0 <= i < |runs| ==> |runs[i]| > 0
  }

  /** No run could be joined onto the run before it. */
  predicate Maximal(runs: seq<seq<int>>)
    requires NonEmptyRuns(runs)
  {
    forall i :: 0 < i < |runs| ==> runs[i][0] != Last(runs[i - 1]) + 1
  }

  /** `runs` cuts `s` into non-empty, internally consecutive, maximal runs. */
  predicate IsSegmentation(s: seq<int>, runs: seq<seq<int>>)
  {
    && NonEmptyRuns(runs)
    && Flatten(runs) == s
    && (forall i :: 0 <= i < |runs| ==> Consecutive(runs[i]))
    && Maximal(runs)
  }

  /** The runs of `s` as the single left-to-right pass builds them: the next
      hour either extends the current run (when it is the run's last hour
      plus one) or closes it and opens a new one. */
  function Runs(s: seq<int>): (r: seq<seq<int>>)
    ensures |r| == 0 <==> |s| == 0
    ensures NonEmptyRuns(r)
    ensures |s| > 0 ==> Last(Last(r)) == Last(s)
  {
    if |s| == 0 then []
    else if |s| == 1 then [[s[0]]]
    else
      var prev := Runs(s[..|s| - 1]);
      var current := Last(prev);
      var hour := Last(s);
      if hour == Last(current) + 1 then prev[..|prev| - 1] + [current + [hour]]
      else prev + [[hour]]
  }

  /** The number of positions `i` with `s[i + 1] != s[i] + 1`. */
  function Splits(s: seq<int>): nat
  {
    if |s| < 2 then 0
    else Splits(s[..|s| - 1]) + (if s[|s| - 1] != s[|s| - 2] + 1 then 1 else 0)
  }

  lemma {:induction false} FlattenAppend(runs: seq<seq<int>>, run: seq<int>)
    ensures Flatten(runs + [run]) == Flatten(runs) + run
  {
    assert (runs + [run])[..|runs|] == runs;
  }

  /** A run's elements all occur in the flattened sequence. */
  lemma {:induction false} RunInFlatten(runs: seq<seq<int>>, i: int, x: int)
    requires 0 <= i < |runs| && x in runs[i]
    ensures x in Flatten(runs)
  {
    if i < |runs| - 1 {
      RunInFlatten(runs[..|runs| - 1], i, x);
    }
  }

  /** Every element of the flattened sequence lies in some run. */
  lemma {:induction false} FlattenInRun(runs: seq<seq<int>>, x: int) returns (i: int)
    requires x in Flatten(runs)
    ensures 0 <= i < |runs| && x in runs[i]
  {
    var init := runs[..|runs| - 1];
    if x in Flatten(init) {
      i := FlattenInRun(init, x);
    } else {
      i := |runs| - 1;
    }
  }

  /** Concatenating two increasing sequences, the first wholly below the
      second, gives an increasing sequence. */
  lemma {:induction false} ConcatIncreasing(a: seq<int>, b: seq<int>)
    requires StrictlyIncreasing(a) && StrictlyIncreasing(b)
    requires forall i, j :: 0 <= i < |a| && 0 <= j < |b| ==> a[i] < b[j]
    ensures StrictlyIncreasing(a + b)
  {
    forall i, j | 0 <= i < j < |a + b| ensures (a + b)[i] < (a + b)[j] {
      if j < |a| {
      } else if i >= |a| {
        assert (a + b)[i] == b[i - |a|] && (a + b)[j] == b[j - |a|];
      } else {
        assert (a + b)[j] == b[j - |a|];
      }
    }
  }

  /** Appending a consecutive run that cannot join the last run extends a
      segmentation by that run. */
  lemma {:induction false} AppendRun(s: seq<int>, runs: seq<seq<int>>, run: seq<int>)
    requires IsSegmentation(s, runs)
    requires |run| > 0 && Consecutive(run)
    requires |runs| > 0 ==> run[0] != Last(Last(runs)) + 1
    ensures IsSegmentation(s + run, runs + [run])
  {
    var runs' := runs + [run];
    FlattenAppend(runs, run);
    assert forall i :: 0 <= i < |runs| ==> runs'[i] == runs[i];
    assert Last(runs') == run;
  }

  /** Concatenating the runs in order gives back the input exactly. */
  lemma {:induction false} RunsFlatten(s: seq<int>)
    ensures Flatten(Runs(s)) == s
  {
    if |s| == 1 {
      FlattenAppend([], [s[0]]);
    } else if |s| >= 2 {
      var init := s[..|s| - 1];
      RunsFlatten(init);
      RunsFlattenStep(s);
    }
  }

  lemma {:induction false} RunsFlattenStep(s: seq<int>)
    requires |s| >= 2
    requires Flatten(Runs(s[..|s| - 1])) == s[..|s| - 1]
    ensures Flatten(Runs(s)) == s
  {
    var init := s[..|s| - 1];
    var hour := Last(s);
    var prev := Runs(init);
    assert s == init + [hour];
    if hour == Last(Last(prev)) + 1 {
      RunsExtend(s);
      ExtendFlatten(prev, hour);
    } else {
      RunsOpen(s);
      FlattenAppend(prev, [hour]);
    }
  }

  /** Extending the last run by one hour extends the flattening by it. */
  lemma {:induction false} ExtendFlatten(prev: seq<seq<int>>, hour: int)
    requires |prev| > 0
    ensures Flatten(prev[..|prev| - 1] + [Last(prev) + [hour]]) == Flatten(prev) + [hour]
  {
    var front := prev[..|prev| - 1];
    assert front + [Last(prev)] == prev;
    FlattenAppend(front, Last(prev));
    FlattenAppend(front, Last(prev) + [hour]);
  }

  /** Within each run, every element is the previous one plus one. */
  lemma {:induction false} RunsConsecutive(s: seq<int>)
    ensures forall i :: 0 <= i < |Runs(s)| ==> Consecutive(Runs(s)[i])
  {
    if |s| >= 2 {
      var init := s[..|s| - 1];
      RunsConsecutive(init);
      var prev := Runs(init);
      var current := Last(prev);
      var hour := Last(s);
      if hour == Last(current) + 1 {
        assert Consecutive(current);
        var extended := current + [hour];
        assert Consecutive(extended) by {
          forall j | 0 < j < |extended| ensures extended[j] == extended[j - 1] + 1 {
            if j < |current| {
              assert extended[j] == current[j] && extended[j - 1] == current[j - 1];
            }
          }
        }
        assert forall i :: 0 <= i < |prev| - 1 ==> Runs(s)[i] == prev[i];
      }
    }
  }

  /** Adjacent runs cannot be merged: each later run does not start at the
      previous run's last hour plus one. */
  lemma {:induction false} RunsMaximal(s: seq<int>)
    ensures Maximal(Runs(s))
  {
    if |s| >= 2 {
      var init := s[..|s| - 1];
      RunsMaximal(init);
      var prev := Runs(init);
      var current := Last(prev);
      var hour := Last(s);
      var r := Runs(s);
      if hour == Last(current) + 1 {
        forall i | 0 < i < |r| ensures r[i][0] != Last(r[i - 1]) + 1 {
          assert r[i - 1] == prev[i - 1];
          assert r[i][0] == prev[i][0];
        }
      } else {
        forall i | 0 < i < |r| ensures r[i][0] != Last(r[i - 1]) + 1 {
          assert r[i - 1] == prev[i - 1];
          if i < |prev| {
            assert r[i] == prev[i];
          }
        }
      }
    }
  }

  /** `Runs(s)` is a segmentation of `s` into maximal consecutive runs. */
  lemma {:induction false} RunsSegmentation(s: seq<int>)
    ensures IsSegmentation(s, Runs(s))
  {
    RunsFlatten(s);
    RunsConsecutive(s);
    RunsMaximal(s);
  }

  /** ... and it is the only one: any segmentation of `s` into non-empty,
      consecutive, maximal runs is `Runs(s)`. */
  lemma {:induction false} SegmentationUnique(s: seq<int>, runs: seq<seq<int>>)
    requires IsSegmentation(s, runs)
    ensures runs == Runs(s)
  {
    if |runs| == 0 {
      return;
    }
    var tail := Last(runs);
    if |tail| == 1 {
      DropLastRun(s, runs);
      SegmentationUnique(s[..|s| - 1], runs[..|runs| - 1]);
      UniqueAfterDrop(s, runs);
    } else {
      ShortenLastRun(s, runs);
      SegmentationUnique(s[..|s| - 1], runs[..|runs| - 1] + [tail[..|tail| - 1]]);
      assert Consecutive(runs[|runs| - 1]);
      UniqueAfterShorten(s, runs);
    }
  }

  lemma {:induction false} UniqueAfterDrop(s: seq<int>, runs: seq<seq<int>>)
    requires IsSegmentation(s, runs) && |runs| > 0 && |Last(runs)| == 1 && |s| > 0
    requires runs[..|runs| - 1] == Runs(s[..|s| - 1])
    requires Last(s) == Last(runs)[0]
    ensures runs == Runs(s)
  {
    var front := runs[..|runs| - 1];
    var tail := Last(runs);
    if |s| >= 2 {
      assert |front| > 0;
      assert runs[|runs| - 1][0] != Last(runs[|runs| - 2]) + 1;
    }
    RunsOpen(s);
    assert tail == [Last(s)];
    assert runs == front + [tail];
  }

  lemma {:induction false} UniqueAfterShorten(s: seq<int>, runs: seq<seq<int>>)
    requires |runs| > 0 && |Last(runs)| >= 2 && Consecutive(Last(runs)) && |s| > 0
    requires runs[..|runs| - 1] + [Last(runs)[..|Last(runs)| - 1]] == Runs(s[..|s| - 1])
    requires Last(s) == Last(Last(runs))
    ensures runs == Runs(s)
  {
    var front := runs[..|runs| - 1];
    var tail := Last(runs);
    var shorter := tail[..|tail| - 1];
    assert |s| >= 2;
    assert Last(s) == Last(shorter) + 1;
    RunsExtend(s);
    var prev := Runs(s[..|s| - 1]);
    assert prev[..|prev| - 1] == front;
    assert shorter + [Last(s)] == tail;
    assert runs == front + [tail];
  }

  /** One iteration of the segmentation loop: hour `s[i]` either extends the
      current run or closes it and opens a new one. */
  lemma {:induction false} RunsStep(s: seq<int>, i: int, shifts: seq<seq<int>>, current: seq<int>)
    requires 1 <= i < |s| && |current| > 0
    requires shifts + [current] == Runs(s[..i])
    ensures s[i] == Last(current) + 1 ==> shifts + [current + [s[i]]] == Runs(s[..i + 1])
    ensures s[i] != Last(current) + 1 ==> shifts + [current] + [[s[i]]] == Runs(s[..i + 1])
  {
    var prefix := s[..i + 1];
    assert prefix[..|prefix| - 1] == s[..i] && Last(prefix) == s[i];
    if s[i] == Last(current) + 1 {
      RunsExtend(prefix);
      assert (shifts + [current])[..|shifts|] == shifts;
    } else {
      RunsOpen(prefix);
    }
  }

  /** One step of `Runs` when the last hour opens a new run. */
  lemma {:induction false} RunsOpen(s: seq<int>)
    requires |s| > 0
    requires |s| >= 2 ==> Last(s) != Last(Last(Runs(s[..|s| - 1]))) + 1
    ensures Runs(s) == Runs(s[..|s| - 1]) + [[Last(s)]]
  {
  }

  /** One step of `Runs` when the last hour extends the current run. */
  lemma {:induction false} RunsExtend(s: seq<int>)
    requires |s| >= 2
    requires Last(s) == Last(Last(Runs(s[..|s| - 1]))) + 1
    ensures var prev := Runs(s[..|s| - 1]);
      Runs(s) == prev[..|prev| - 1] + [Last(prev) + [Last(s)]]
  {
  }

  /** A segmentation whose last run is one hour long, minus that run, is a
      segmentation of the input minus its last hour. */
  lemma {:induction false} DropLastRun(s: seq<int>, runs: seq<seq<int>>)
    requires IsSegmentation(s, runs) && |runs| > 0 && |Last(runs)| == 1
    ensures |s| > 0 && IsSegmentation(s[..|s| - 1], runs[..|runs| - 1])
    ensures Last(s) == Last(runs)[0]
  {
    var front := runs[..|runs| - 1];
    assert Flatten(runs) == Flatten(front) + Last(runs);
    assert forall i :: 0 <= i < |front| ==> front[i] == runs[i];
  }

  /** A segmentation whose last run is longer than one hour, with that run
      shortened by its last hour, is a segmentation of the input minus its
      last hour. */
  lemma {:induction false} ShortenLastRun(s: seq<int>, runs: seq<seq<int>>)
    requires IsSegmentation(s, runs) && |runs| > 0 && |Last(runs)| >= 2
    ensures |s| > 0
    ensures IsSegmentation(s[..|s| - 1], runs[..|runs| - 1] + [Last(runs)[..|Last(runs)| - 1]])
    ensures Last(s) == Last(Last(runs))
  {
    var front := runs[..|runs| - 1];
    var tail := Last(runs);
    var shorter := tail[..|tail| - 1];
    var runs' := front + [shorter];
    assert Flatten(runs) == Flatten(front) + tail;
    FlattenAppend(front, shorter);
    assert Flatten(runs') == s[..|s| - 1] by {
      assert tail == shorter + [Last(tail)];
    }
    assert forall i :: 0 <= i < |front| ==> runs'[i] == runs[i];
    assert Consecutive(runs[|runs| - 1]);
    assert Consecutive(shorter);
    assert NonEmptyRuns(runs');
    forall i | 0 < i < |runs'| ensures runs'[i][0] != Last(runs'[i - 1]) + 1 {
      assert runs[i][0] != Last(runs[i - 1]) + 1;
      if i == |runs'| - 1 {
        assert runs'[i][0] == runs[i][0];
      }
    }
  }

  /** For non-empty input the number of runs is one more than the number of
      places where the next hour is not the previous hour plus one. */
  lemma {:induction false} RunsCount(s: seq<int>)
    requires |s| > 0
    ensures |Runs(s)| == 1 + Splits(s)
  {
    if |s| >= 2 {
      var init := s[..|s| - 1];
      RunsCount(init);
      assert Last(init) == s[|s| - 2];
    }
  }

  /** The loop of `get_shifts`: extend `currentShift` while the next hour
      follows on, otherwise close it into `shifts`. */
  method GetShifts(schedule: seq<int>) returns (shifts: seq<seq<int>>)
    ensures shifts == Runs(schedule)
    ensures IsSegmentation(schedule, shifts)
  {
    if |schedule| == 0 {
      return [];
    }
    shifts := [];
    var currentShift := [schedule[0]];
    for i := 1 to |schedule|
      invariant |currentShift| > 0
      invariant shifts + [currentShift] == Runs(schedule[..i])
    {
      var hour := schedule[i];
      RunsStep(schedule, i, shifts, currentShift);
      if hour == Last(currentShift) + 1 {
        currentShift := currentShift + [hour];
      } else {
        shifts := shifts + [currentShift];
        currentShift := [hour];
      }
    }
    // `get_shifts`'s closing `if current_shift:` always holds here.
    shifts := shifts + [currentShift];
    assert schedule[..|schedule|] == schedule;
    RunsSegmentation(schedule);
  }
}

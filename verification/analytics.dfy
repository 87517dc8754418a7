/**
  The analysis that follows the simulation loop: the percentile table of the
  project durations, confidence intervals, risk measures, the ranking of the
  frequently critical tasks and the buffer recommendations.
*/
module Analytics {
  import opened Wrappers
  import opened TaskModel
  import opened Stats
  import opened SimulationRecords

  datatype AnalysisError =
    | NoDurations                  // `np.percentile` of an empty sample
    | UnknownTask(id: string)      // a counted id that is not a task of the project
    | LevelOutOfRange(level: real) // a confidence level whose percentiles leave [0, 100]

  // ---- critical tasks ----

  /** One row of the critical-task report. */
  datatype CriticalTask = CriticalTask(
    id: string,
    name: string,
    category: string,
    criticality: real,
    meanDuration: real,
    stdDuration: real)

  /** The report row of task `t`, counted under `id`, with the given criticality. */
  function Describe(id: string, t: Task, criticality: real): CriticalTask {
    CriticalTask(id, t.name, t.category, criticality, TaskModel.Mean(t), StdDev(t))
  }

  /** The counted ids whose criticality exceeds `threshold`, in counter order. */
  function Above(keys: seq<string>, t: Tally, threshold: real): (r: seq<string>)
    ensures forall x :: x in r <==> x in keys && Get(t, x) > threshold
  {
    if |keys| == 0 then []
    else (if Get(t, keys[0]) > threshold then [keys[0]] else []) + Above(keys[1..], t, threshold)
  }

  /** The first id of `ids` that is not a task, if any. */
  function FirstUnknown(ids: seq<string>, tasks: map<string, Task>): (r: Option<string>)
    ensures r.None? <==> forall x :: x in ids ==> x in tasks
    ensures r.Some? ==> r.value in ids && r.value !in tasks
  {
    if |ids| == 0 then None
    else if ids[0] !in tasks then Some(ids[0])
    else FirstUnknown(ids[1..], tasks)
  }

  /** The report rows of `ids`, in the same order. */
  function Rows(ids: seq<string>, t: Tally, tasks: map<string, Task>): (r: seq<CriticalTask>)
    requires forall x :: x in ids ==> x in tasks
    ensures |r| == |ids|
    ensures forall i :: 0 <= i < |r| ==> r[i] == Describe(ids[i], tasks[ids[i]], Get(t, ids[i]))
  {
    if |ids| == 0 then [] else [Describe(ids[0], tasks[ids[0]], Get(t, ids[0]))] + Rows(ids[1..], t, tasks)
  }

  predicate NonIncreasing(s: seq<CriticalTask>) {
    forall i, j :: 0 <= i <= j < |s| ==> s[i].criticality >= s[j].criticality
  }

  /** The rows of `s` whose criticality is exactly `v`, in order. */
  function WithLevel(s: seq<CriticalTask>, v: real): seq<CriticalTask> {
    if |s| == 0 then []
    else (if s[0].criticality == v then [s[0]] else []) + WithLevel(s[1..], v)
  }

  lemma {:induction false} WithLevelAppend(a: seq<CriticalTask>, b: seq<CriticalTask>, v: real)
    ensures WithLevel(a + b, v) == WithLevel(a, v) + WithLevel(b, v)
  {
    if |a| == 0 {
      assert a + b == b;
    } else {
      WithLevelAppend(a[1..], b, v);
      assert (a + b)[1..] == a[1..] + b;
      assert (a + b)[0] == a[0];
    }
  }

  lemma {:induction false} WithLevelAbsent(s: seq<CriticalTask>, v: real)
    requires forall i :: 0 <= i < |s| ==> s[i].criticality < v
    ensures WithLevel(s, v) == []
  {
    if |s| > 0 {
      WithLevelAbsent(s[1..], v);
    }
  }

  /**
    Inserts `x` into a non-increasing sequence after every row whose
    criticality is at least its own.
  */
  function InsertByCriticality(x: CriticalTask, s: seq<CriticalTask>): (r: seq<CriticalTask>)
    requires NonIncreasing(s)
    ensures NonIncreasing(r)
    ensures multiset(r) == multiset(s) + multiset{x}
    ensures |r| == |s| + 1 && (r[0] == x || (|s| > 0 && r[0] == s[0]))
  {
    if |s| == 0 || s[0].criticality < x.criticality then [x] + s
    else
      assert s == [s[0]] + s[1..];
      var rest := InsertByCriticality(x, s[1..]);
      assert s[0].criticality >= rest[0].criticality;
      [s[0]] + rest
  }

  /** Insertion keeps ties in arrival order: `x` comes after every earlier row of its criticality. */
  lemma {:induction false} InsertKeepsTies(x: CriticalTask, s: seq<CriticalTask>, v: real)
    requires NonIncreasing(s)
    ensures WithLevel(InsertByCriticality(x, s), v) == WithLevel(s, v) + (if x.criticality == v then [x] else [])
  {
    if |s| == 0 || s[0].criticality < x.criticality {
      InsertFrontTies(x, s, v);
    } else {
      InsertKeepsTies(x, s[1..], v);
      var own := if x.criticality == v then [x] else [];
      assert InsertByCriticality(x, s) == [s[0]] + InsertByCriticality(x, s[1..]);
      ConsKeepsTies(s[0], InsertByCriticality(x, s[1..]), s[1..], own, v);
    }
  }

  /** Inserted at the front, `x` has no row of its own criticality before or after it. */
  lemma InsertFrontTies(x: CriticalTask, s: seq<CriticalTask>, v: real)
    requires NonIncreasing(s) && (|s| == 0 || s[0].criticality < x.criticality)
    ensures WithLevel(InsertByCriticality(x, s), v) == WithLevel(s, v) + (if x.criticality == v then [x] else [])
  {
    var own := if x.criticality == v then [x] else [];
    assert InsertByCriticality(x, s) == [x] + s;
    WithLevelCons(x, s, v);
    if x.criticality == v {
      WithLevelAbsent(s, v);
      assert WithLevel(s, v) + own == own;
    } else {
      assert own + WithLevel(s, v) == WithLevel(s, v);
    }
  }

  /** A row put in front of two sequences whose ties differ by `own` at the end keeps that difference. */
  lemma ConsKeepsTies(h: CriticalTask, rest: seq<CriticalTask>, tail: seq<CriticalTask>, own: seq<CriticalTask>, v: real)
    requires WithLevel(rest, v) == WithLevel(tail, v) + own
    ensures WithLevel([h] + rest, v) == ((if h.criticality == v then [h] else []) + WithLevel(tail, v)) + own
  {
    var head := if h.criticality == v then [h] else [];
    WithLevelCons(h, rest, v);
    AppendAssoc(head, WithLevel(tail, v), own);
  }

  lemma AppendAssoc(a: seq<CriticalTask>, b: seq<CriticalTask>, c: seq<CriticalTask>)
    ensures a + (b + c) == (a + b) + c
  {
  }

  lemma WithLevelCons(x: CriticalTask, s: seq<CriticalTask>, v: real)
    ensures WithLevel([x] + s, v) == (if x.criticality == v then [x] else []) + WithLevel(s, v)
  {
    assert ([x] + s)[1..] == s;
  }

  /**
    `sorted(rows, key=criticality, reverse=True)`: the rows in non-increasing
    order of criticality.
  */
  function SortByCriticality(s: seq<CriticalTask>): (r: seq<CriticalTask>)
    ensures NonIncreasing(r)
    ensures multiset(r) == multiset(s)
    decreases |s|
  {
    if |s| == 0 then []
    else
      assert s == s[..|s| - 1] + [s[|s| - 1]];
      InsertByCriticality(s[|s| - 1], SortByCriticality(s[..|s| - 1]))
  }

  /** The sort is stable: rows of equal criticality keep their relative order. */
  lemma {:induction false} SortIsStable(s: seq<CriticalTask>, v: real)
    ensures WithLevel(SortByCriticality(s), v) == WithLevel(s, v)
    decreases |s|
  {
    if |s| > 0 {
      var init := s[..|s| - 1];
      var last := s[|s| - 1];
      assert s == init + [last];
      SortIsStable(init, v);
      InsertKeepsTies(last, SortByCriticality(init), v);
      WithLevelAppend(init, [last], v);
      assert WithLevel([last], v) == (if last.criticality == v then [last] else []);
    }
  }

  /** The rows of `ids` are exactly the rows of its members. */
  lemma RowsMembers(ids: seq<string>, t: Tally, tasks: map<string, Task>)
    requires forall x :: x in ids ==> x in tasks
    ensures forall c :: c in Rows(ids, t, tasks) ==> c.id in ids && c == Describe(c.id, tasks[c.id], Get(t, c.id))
    ensures forall x :: x in ids ==> Describe(x, tasks[x], Get(t, x)) in Rows(ids, t, tasks)
  {
    var rows := Rows(ids, t, tasks);
    forall x | x in ids
      ensures Describe(x, tasks[x], Get(t, x)) in rows
    {
      var i :| 0 <= i < |ids| && ids[i] == x;
      assert rows[i] == Describe(x, tasks[x], Get(t, x));
    }
  }

  /**
    `identify_critical_tasks`: the report rows of the counted ids whose
    criticality is strictly above `threshold`, most critical first, ties in
    counter order. A selected id that is not a task is an error.
  */
  function IdentifyCriticalTasks(t: Tally, tasks: map<string, Task>, threshold: real)
    : (r: Result<seq<CriticalTask>, AnalysisError>)
    ensures r.Failure? <==> exists x :: x in t.keys && Get(t, x) > threshold && x !in tasks
    ensures r.Failure? ==> r.error.UnknownTask? && r.error.id in t.keys
                           && Get(t, r.error.id) > threshold && r.error.id !in tasks
    ensures r.Success? ==> NonIncreasing(r.value)
    ensures r.Success? ==> forall c :: c in r.value ==>
              && c.id in tasks && c.criticality > threshold
              && c == Describe(c.id, tasks[c.id], Get(t, c.id))
    ensures r.Success? ==> forall x :: x in t.keys && Get(t, x) > threshold ==>
              x in tasks && Describe(x, tasks[x], Get(t, x)) in r.value
  {
    var ids := Above(t.keys, t, threshold);
    var unknown := FirstUnknown(ids, tasks);
    if unknown.Some? then Failure(UnknownTask(unknown.value))
    else
      var rows := Rows(ids, t, tasks);
      var r := SortByCriticality(rows);
      RowsMembers(ids, t, tasks);
      assert forall c :: c in r <==> c in rows by {
        assert forall c :: c in r <==> c in multiset(r);
        assert forall c :: c in rows <==> c in multiset(rows);
      }
      Success(r)
  }

  /**
    Critical tasks of equal criticality are reported in the order their
    counters were created.
  */
  lemma CriticalTiesInCounterOrder(t: Tally, tasks: map<string, Task>, threshold: real, v: real)
    requires IdentifyCriticalTasks(t, tasks, threshold).Success?
    ensures WithLevel(IdentifyCriticalTasks(t, tasks, threshold).value, v)
            == WithLevel(Rows(Above(t.keys, t, threshold), t, tasks), v)
  {
    SortIsStable(Rows(Above(t.keys, t, threshold), t, tasks), v);
  }

  // ---- percentiles ----

  /** The percentile block of the analysis (the standard deviation is not modelled). */
  datatype Percentiles = Percentiles(
    p10: real, p25: real, p50: real, p75: real, p80: real, p90: real, p95: real, mean: real)

  /** Percentiles of the project durations at 10, 25, 50, 75, 80, 90 and 95, and their mean. */
  function PercentileTable(d: seq<real>): (p: Percentiles)
    requires |d| > 0
    ensures Min(d) <= p.p10 <= p.p25 <= p.p50 <= p.p75 <= p.p80 <= p.p90 <= p.p95 <= Max(d)
    ensures Min(d) <= p.mean <= Max(d)
  {
    PercentileWithinRange(d, 10.0);
    PercentileWithinRange(d, 95.0);
    PercentileMonotone(d, 10.0, 25.0);
    PercentileMonotone(d, 25.0, 50.0);
    PercentileMonotone(d, 50.0, 75.0);
    PercentileMonotone(d, 75.0, 80.0);
    PercentileMonotone(d, 80.0, 90.0);
    PercentileMonotone(d, 90.0, 95.0);
    MeanBounds(d, Min(d));
    MeanBounds(d, Max(d));
    Percentiles(Percentile(d, 10.0), Percentile(d, 25.0), Percentile(d, 50.0), Percentile(d, 75.0),
                Percentile(d, 80.0), Percentile(d, 90.0), Percentile(d, 95.0), Stats.Mean(d))
  }

  // ---- confidence intervals ----

  datatype Interval = Interval(level: real, lower: real, upper: real, range: real)

  /** Percentile levels of the lower and upper bound for confidence `c`: alpha/2 and 1 - alpha/2, in percent. */
  function LowerLevel(c: real): real {
    (1.0 - c) / 2.0 * 100.0
  }

  function UpperLevel(c: real): real {
    (1.0 - (1.0 - c) / 2.0) * 100.0
  }

  /**
    The interval of confidence `c` around the median. Both levels lie in
    [0, 100] exactly when -1 <= c <= 1; otherwise the percentile call fails.
    For c >= 0 the interval is not reversed.
  */
  function ConfidenceInterval(d: seq<real>, c: real): (r: Result<Interval, AnalysisError>)
    requires |d| > 0
    ensures r.Failure? <==> c < -1.0 || c > 1.0
    ensures r.Failure? ==> r.error == LevelOutOfRange(c)
    ensures r.Success? ==> r.value.level == c && r.value.range == r.value.upper - r.value.lower
    ensures r.Success? ==> Min(d) <= r.value.lower <= Max(d) && Min(d) <= r.value.upper <= Max(d)
    ensures r.Success? && c >= 0.0 ==> r.value.lower <= r.value.upper && r.value.range >= 0.0
  {
    var lq := LowerLevel(c);
    var uq := UpperLevel(c);
    if lq < 0.0 || lq > 100.0 || uq < 0.0 || uq > 100.0 then Failure(LevelOutOfRange(c))
    else
      PercentileWithinRange(d, lq);
      PercentileWithinRange(d, uq);
      var lower := Percentile(d, lq);
      var upper := Percentile(d, uq);
      assert c >= 0.0 ==> lower <= upper by {
        if c >= 0.0 {
          PercentileMonotone(d, lq, uq);
        }
      }
      Success(Interval(c, lower, upper, upper - lower))
  }

  /** A higher confidence level never gives a narrower interval. */
  lemma IntervalsNest(d: seq<real>, c1: real, c2: real)
    requires |d| > 0 && 0.0 <= c1 <= c2 <= 1.0
    ensures ConfidenceInterval(d, c2).value.lower <= ConfidenceInterval(d, c1).value.lower
    ensures ConfidenceInterval(d, c1).value.upper <= ConfidenceInterval(d, c2).value.upper
  {
    PercentileMonotone(d, LowerLevel(c2), LowerLevel(c1));
    PercentileMonotone(d, UpperLevel(c1), UpperLevel(c2));
  }

  /** The position of the first level outside [-1, 1], if any. */
  function FirstBadLevel(levels: seq<real>): (r: Option<nat>)
    ensures r.None? <==> forall i :: 0 <= i < |levels| ==> -1.0 <= levels[i] <= 1.0
    ensures r.Some? ==> r.value < |levels| && !(-1.0 <= levels[r.value] <= 1.0)
                        && forall i :: 0 <= i < r.value ==> -1.0 <= levels[i] <= 1.0
  {
    if |levels| == 0 then None
    else if !(-1.0 <= levels[0] <= 1.0) then Some(0)
    else
      var rest := FirstBadLevel(levels[1..]);
      if rest.None? then None else Some(rest.value + 1)
  }

  /**
    One interval per configured level, in order. The first level outside
    [-1, 1] stops the analysis.
  */
  function ConfidenceIntervals(d: seq<real>, levels: seq<real>): (r: Result<seq<Interval>, AnalysisError>)
    requires |d| > 0
    ensures r.Failure? <==> exists i :: 0 <= i < |levels| && !(-1.0 <= levels[i] <= 1.0)
    ensures r.Failure? ==> exists i :: 0 <= i < |levels| && r.error == LevelOutOfRange(levels[i])
                                       && forall j :: 0 <= j < i ==> -1.0 <= levels[j] <= 1.0
    ensures r.Success? ==> |r.value| == |levels|
    ensures r.Success? ==> forall i :: 0 <= i < |levels| ==> ConfidenceInterval(d, levels[i]) == Success(r.value[i])
  {
    var bad := FirstBadLevel(levels);
    if bad.Some? then
      assert ConfidenceInterval(d, levels[bad.value]).Failure?;
      Failure(LevelOutOfRange(levels[bad.value]))
    else
      Success(seq(|levels|, i requires 0 <= i < |levels| => ConfidenceInterval(d, levels[i]).value))
  }

  // ---- risk ----

  datatype Risk = Risk(
    overMean: real,
    over150: real,
    over200: real,
    valueAtRisk95: real,
    expectedShortfall95: real)

  /**
    The risk block: the fractions of runs longer than the mean, 1.5 times
    the mean and twice the mean; the 95th percentile; and the mean of the
    runs at or above it.
  */
  function RiskAnalysis(d: seq<real>): (r: Risk)
    requires |d| > 0
    ensures 0.0 <= r.overMean <= 1.0 && 0.0 <= r.over150 <= 1.0 && 0.0 <= r.over200 <= 1.0
    ensures r.overMean < 1.0
    ensures Min(d) <= r.valueAtRisk95 <= r.expectedShortfall95 <= Max(d)
  {
    var m := Stats.Mean(d);
    var var95 := Percentile(d, 95.0);
    var tail := AtLeast(d, var95);
    PercentileWithinRange(d, 95.0);
    assert Max(d) in tail;
    MeanBounds(tail, var95);
    assert forall i :: 0 <= i < |tail| ==> tail[i] <= Max(d) by {
      forall i | 0 <= i < |tail|
        ensures tail[i] <= Max(d)
      {
        assert tail[i] in d;
      }
    }
    MeanBounds(tail, Max(d));
    NotAllAboveMean(d);
    Risk(FractionAbove(d, m), FractionAbove(d, m * 1.5), FractionAbove(d, m * 2.0), var95, Stats.Mean(tail))
  }

  /** The smallest run is not longer than the mean, so not every run exceeds it. */
  lemma NotAllAboveMean(d: seq<real>)
    requires |d| > 0
    ensures FractionAbove(d, Stats.Mean(d)) < 1.0
  {
    MeanBounds(d, Min(d));
    var i :| 0 <= i < |d| && d[i] == Min(d);
    CountAboveMissing(d, Stats.Mean(d), i);
    BelowOne(CountAbove(d, Stats.Mean(d)) as real, |d| as real);
  }

  lemma BelowOne(k: real, n: real)
    requires 0.0 <= k < n
    ensures k / n < 1.0
  {
    assert (k / n) * n == k;
  }

  lemma {:induction false} CountAboveMissing(s: seq<real>, c: real, i: nat)
    requires i < |s| && s[i] <= c
    ensures CountAbove(s, c) < |s|
  {
    if i > 0 {
      CountAboveMissing(s[1..], c, i - 1);
    }
  }

  /**
    For nonnegative durations the exceedance fractions shrink as the bar
    rises from the mean to 1.5 and 2 times the mean.
  */
  lemma RiskOrdering(d: seq<real>)
    requires |d| > 0
    requires forall i :: 0 <= i < |d| ==> d[i] >= 0.0
    ensures RiskAnalysis(d).over200 <= RiskAnalysis(d).over150 <= RiskAnalysis(d).overMean
  {
    var m := Stats.Mean(d);
    var r := RiskAnalysis(d);
    assert r.overMean == FractionAbove(d, m) && r.over150 == FractionAbove(d, m * 1.5)
           && r.over200 == FractionAbove(d, m * 2.0);
    MeanBounds(d, 0.0);
    assert m <= m * 1.5 <= m * 2.0;
    FractionAboveAntitone(d, m, m * 1.5);
    FractionAboveAntitone(d, m * 1.5, m * 2.0);
  }

  // ---- buffers ----

  datatype Buffer = Buffer(target: real, buffer: real, successProbability: int)

  datatype Buffers = Buffers(aggressive: Buffer, moderate: Buffer, conservative: Buffer, veryConservative: Buffer)

  /**
    `calculate_buffer_recommendations`: the median as an unbuffered target,
    then the 75th, 90th and 95th percentiles with the buffer each adds to the mean.
  */
  function BufferRecommendations(p: Percentiles): (r: Buffers)
    ensures r.aggressive == Buffer(p.p50, 0.0, 50)
    ensures r.moderate.target == p.p75 && r.conservative.target == p.p90 && r.veryConservative.target == p.p95
    ensures r.moderate.successProbability == 75 && r.conservative.successProbability == 90
            && r.veryConservative.successProbability == 95
    ensures p.mean + r.moderate.buffer == r.moderate.target
    ensures p.mean + r.conservative.buffer == r.conservative.target
    ensures p.mean + r.veryConservative.buffer == r.veryConservative.target
  {
    Buffers(Buffer(p.p50, 0.0, 50),
            Buffer(p.p75, p.p75 - p.mean, 75),
            Buffer(p.p90, p.p90 - p.mean, 90),
            Buffer(p.p95, p.p95 - p.mean, 95))
  }

  /**
    Over a sample of durations, a higher success probability never asks for
    an earlier target or a smaller buffer.
  */
  lemma BuffersOrdered(d: seq<real>)
    requires |d| > 0
    ensures var b := BufferRecommendations(PercentileTable(d));
            && b.aggressive.target <= b.moderate.target <= b.conservative.target <= b.veryConservative.target
            && b.moderate.buffer <= b.conservative.buffer <= b.veryConservative.buffer
  {
  }

  // ---- the whole analysis ----

  const CriticalThreshold: real := 50.0

  datatype Analysis = Analysis(
    totalTasks: nat,
    runs: int,
    meanDuration: real,
    minDuration: real,
    maxDuration: real,
    percentiles: Percentiles,
    intervals: seq<Interval>,
    criticalTasks: seq<CriticalTask>,
    risk: Risk,
    buffers: Buffers)

  /**
    `analyze_advanced_results` without the standard deviations, the
    sensitivity and the category blocks. Errors arise in the order the
    blocks are computed: an empty sample, then an unknown critical id, then
    a confidence level out of range.
  */
  function Analyze(sim: Simulator, levels: seq<real>): (r: Result<Analysis, AnalysisError>)
    ensures |sim.results.durations| == 0 <==> r == Failure(NoDurations)
    ensures r.Success? <==>
              && |sim.results.durations| > 0
              && IdentifyCriticalTasks(sim.results.criticality, Tasks(sim), CriticalThreshold).Success?
              && forall i :: 0 <= i < |levels| ==> -1.0 <= levels[i] <= 1.0
    ensures r.Success? ==>
              var a := r.value;
              && a.totalTasks == |Tasks(sim)| && a.runs == sim.runs
              && a.minDuration <= a.percentiles.p10 && a.percentiles.p95 <= a.maxDuration
              && a.minDuration <= a.meanDuration <= a.maxDuration
              && a.percentiles.mean == a.meanDuration
              && a.risk.valueAtRisk95 == a.percentiles.p95
              && a.buffers == BufferRecommendations(a.percentiles)
              && |a.intervals| == |levels|
              && forall c :: c in a.criticalTasks ==> c.criticality > CriticalThreshold
    ensures r.Success? ==>
              var a := r.value;
              var d := sim.results.durations;
              && a.meanDuration == Stats.Mean(d) && a.minDuration == Min(d) && a.maxDuration == Max(d)
              && a.percentiles == PercentileTable(d)
              && ConfidenceIntervals(d, levels) == Success(a.intervals)
              && IdentifyCriticalTasks(sim.results.criticality, Tasks(sim), CriticalThreshold) == Success(a.criticalTasks)
              && a.risk == RiskAnalysis(d)
  {
    var d := sim.results.durations;
    if |d| == 0 then Failure(NoDurations)
    else
      var p := PercentileTable(d);
      var critical := IdentifyCriticalTasks(sim.results.criticality, Tasks(sim), CriticalThreshold);
      if critical.Failure? then Failure(critical.error)
      else
        var intervals := ConfidenceIntervals(d, levels);
        if intervals.Failure? then Failure(intervals.error)
        else
          Success(Analysis(|Tasks(sim)|, sim.runs, Stats.Mean(d), Min(d), Max(d), p, intervals.value,
                           critical.value, RiskAnalysis(d), BufferRecommendations(p)))
  }

  /** The simulator's task dictionary: the loaded network's tasks, empty before loading. */
  function Tasks(sim: Simulator): map<string, Task> {
    if sim.network.Some? then sim.network.value.tasks else map[]
  }
}
